/**
 * Decimal integers as the engine reads and writes them: `parseInt(s, 10)`
 * for revision ids and the decimal rendering used by `Array.prototype.join`.
 * Integers are unbounded; the model keeps exact values where JavaScript
 * would round beyond 2^53.
 */
module Numbers {
  import opened Wrappers
  import opened Text

  predicate IsDigit(c: char) {
    '0' <= c <= '9'
  }

  function DigitValue(c: char): nat
    requires IsDigit(c)
  {
    c as int - '0' as int
  }

  function DigitChar(d: nat): (c: char)
    requires d < 10
    ensures IsDigit(c) && DigitValue(c) == d
  {
    ('0' as int + d) as char
  }

  predicate AllDigits(s: string) {
    forall i :: 0 <= i < |s| ==> IsDigit(s[i])
  }

  /** The value of a run of decimal digits, most significant first. */
  function DigitsValue(s: string): nat
    requires AllDigits(s)
  {
    if |s| == 0 then 0 else DigitsValue(s[..|s| - 1]) * 10 + DigitValue(s[|s| - 1])
  }

  /** Length of the longest prefix of `s` made of decimal digits. */
  function DigitRun(s: string): (n: nat)
    ensures n <= |s| && AllDigits(s[..n])
    ensures n == |s| || !IsDigit(s[n])
  {
    if |s| == 0 || !IsDigit(s[0]) then 0
    else
      var n := 1 + DigitRun(s[1..]);
      assert s[..n] == [s[0]] + s[1..][..n - 1];
      n
  }

  /** The value of the digits `s` starts with, or `None` when it does not start with a digit. */
  function LeadingDigits(s: string): (r: Option<nat>)
    ensures r.Some? <==> |s| > 0 && IsDigit(s[0])
  {
    var n := DigitRun(s);
    if n == 0 then None else Some(DigitsValue(s[..n]))
  }

  /** The number a text with no leading white space starts with: an optional sign, then the leading digits. */
  function ParseSigned(t: string): (r: Option<int>)
    ensures r.Some? ==> exists i :: 0 <= i < |t| && IsDigit(t[i])
  {
    var negative := |t| > 0 && t[0] == '-';
    var body := if |t| > 0 && (t[0] == '-' || t[0] == '+') then t[1..] else t;
    match LeadingDigits(body)
    case None => None
    case Some(v) =>
      assert IsDigit(t[|t| - |body|]);
      Some(if negative then -(v as int) else v as int)
  }

  /**
   * `parseInt(s, 10)`: skips leading white space, reads an optional sign and
   * the longest run of digits after it, and ignores whatever follows.
   * `None` stands for NaN, which is what a text without any digit gives.
   */
  function ParseInt(s: string): (r: Option<int>)
    ensures r.Some? ==> exists i :: 0 <= i < |s| && IsDigit(s[i])
  {
    var t := TrimStart(s);
    var r := ParseSigned(t);
    if r.Some? then
      DigitInSuffix(s, t);
      r
    else r
  }

  lemma DigitInSuffix(s: string, t: string)
    requires |t| <= |s| && t == s[|s| - |t|..]
    requires exists i :: 0 <= i < |t| && IsDigit(t[i])
    ensures exists i :: 0 <= i < |s| && IsDigit(s[i])
  {
    var i :| 0 <= i < |t| && IsDigit(t[i]);
    assert s[|s| - |t| + i] == t[i];
  }

  /** JavaScript truthiness of a parsed number: NaN, 0 and -0 are falsy. */
  predicate Truthy(r: Option<int>) {
    r.Some? && r.value != 0
  }

  /** Decimal rendering of a natural number, without leading zeros. */
  function NatToString(n: nat): (s: string)
    ensures |s| >= 1 && AllDigits(s)
  {
    if n < 10 then [DigitChar(n)] else NatToString(n / 10) + [DigitChar(n % 10)]
  }

  /** Decimal rendering of an integer, as `String(n)` gives it. */
  function IntToString(n: int): (s: string)
    ensures |s| >= 1
  {
    if n < 0 then "-" + NatToString(-n) else NatToString(n)
  }

  lemma {:induction false} NatToStringValue(n: nat)
    ensures DigitsValue(NatToString(n)) == n
  {
    if n >= 10 {
      NatToStringValue(n / 10);
      var s := NatToString(n);
      assert s[..|s| - 1] == NatToString(n / 10);
    }
  }

  /** Rendering a number and parsing it back with `parseInt` yields the number. */
  lemma ParseIntToString(n: int)
    ensures ParseInt(IntToString(n)) == Some(n)
  {
    ParseIntStopsAtNonDigit(n, "");
    assert IntToString(n) + "" == IntToString(n);
  }

  /** Digits followed by a non-digit (or nothing) read as the value of the digits. */
  lemma LeadingDigitsAppend(d: string, rest: string)
    requires |d| > 0 && AllDigits(d)
    requires |rest| == 0 || !IsDigit(rest[0])
    ensures LeadingDigits(d + rest) == Some(DigitsValue(d))
  {
    DigitRunAppend(d, rest);
    assert (d + rest)[..|d|] == d;
  }

  /** A run of digits followed by a non-digit (or nothing) is exactly as long as the digits. */
  lemma {:induction false} DigitRunAppend(d: string, rest: string)
    requires AllDigits(d)
    requires |rest| == 0 || !IsDigit(rest[0])
    ensures DigitRun(d + rest) == |d|
  {
    if |d| > 0 {
      assert (d + rest)[1..] == d[1..] + rest;
      DigitRunAppend(d[1..], rest);
    } else {
      assert d + rest == rest;
    }
  }

  /** Text without leading white space reads as its signed number. */
  lemma ParseIntUntrimmed(t: string)
    requires |t| == 0 || !IsSpace(t[0])
    ensures ParseInt(t) == ParseSigned(t)
  {
    assert TrimStart(t) == t;
  }

  /** Text that starts with a digit reads as the value of its leading digits. */
  lemma ParseSignedPlain(body: string)
    requires |body| > 0 && IsDigit(body[0])
    ensures ParseSigned(body) == Some(LeadingDigits(body).value as int)
  {
  }

  /** A minus sign before a digit negates the value of the leading digits. */
  lemma ParseSignedMinus(body: string)
    requires |body| > 0 && IsDigit(body[0])
    ensures ParseSigned("-" + body) == Some(-(LeadingDigits(body).value as int))
  {
    assert ("-" + body)[1..] == body;
  }

  /** The rendering of `n` followed by a tail that does not start with a digit reads as `n`. */
  lemma ParseIntStopsAtNonDigit(n: int, rest: string)
    requires |rest| == 0 || !IsDigit(rest[0])
    ensures ParseInt(IntToString(n) + rest) == Some(n)
  {
    ParseSignedStopsAtNonDigit(n, rest);
    ParseIntUntrimmed(IntToString(n) + rest);
  }

  /** The signed reading of a rendered number followed by a non-digit tail, which starts with no white space. */
  lemma ParseSignedStopsAtNonDigit(n: int, rest: string)
    requires |rest| == 0 || !IsDigit(rest[0])
    ensures ParseSigned(IntToString(n) + rest) == Some(n)
    ensures !IsSpace((IntToString(n) + rest)[0])
  {
    if n < 0 {
      RenderedDigitsRead(-n, rest);
      NegativeRead(NatToString(-n), rest, -n);
      assert IntToString(n) == "-" + NatToString(-n);
    } else {
      RenderedDigitsRead(n, rest);
      ParseSignedPlain(NatToString(n) + rest);
    }
  }

  /** A minus sign before digits and a tail negates the value the digits read as. */
  lemma NegativeRead(digits: string, rest: string, m: nat)
    requires |digits + rest| > 0 && IsDigit((digits + rest)[0])
    requires LeadingDigits(digits + rest) == Some(m)
    ensures ParseSigned("-" + digits + rest) == Some(-(m as int))
  {
    ParseSignedMinus(digits + rest);
    StringAssoc("-", digits, rest);
  }

  /** Regrouping a concatenation of strings. */
  lemma StringAssoc(a: string, b: string, c: string)
    ensures a + b + c == a + (b + c)
  {
  }

  /** The decimal digits of `m` followed by a non-digit tail lead with a digit and read as `m`. */
  lemma RenderedDigitsRead(m: nat, rest: string)
    requires |rest| == 0 || !IsDigit(rest[0])
    ensures IsDigit((NatToString(m) + rest)[0])
    ensures LeadingDigits(NatToString(m) + rest) == Some(m)
  {
    LeadingDigitsAppend(NatToString(m), rest);
    NatToStringValue(m);
  }

  /**
   * `parseInt` skips leading white space and stops at the first character
   * that is not a digit: the rendering of `n` between white space and any
   * tail that does not start with a digit reads as `n`.
   */
  lemma ParseIntReadsPrefix(w: string, n: int, rest: string)
    requires AllSpace(w)
    requires |rest| == 0 || !IsDigit(rest[0])
    ensures ParseInt(w + IntToString(n) + rest) == Some(n)
  {
    var t := IntToString(n) + rest;
    assert w + IntToString(n) + rest == w + t;
    IntToStringShape(n);
    assert !IsSpace(t[0]);
    TrimStartSpaces(w, t);
    ParseIntStopsAtNonDigit(n, rest);
    assert TrimStart(t) == t;
  }

  /** After any leading white space, a character that is neither a digit nor a sign makes `parseInt` NaN, as in "x5". */
  lemma ParseIntNaN(w: string, t: string)
    requires AllSpace(w)
    requires |t| > 0 && !IsSpace(t[0]) && !IsDigit(t[0]) && t[0] != '-' && t[0] != '+'
    ensures ParseInt(w + t) == None
  {
    TrimStartSpaces(w, t);
  }

  /** A sign that is not followed by a digit makes `parseInt` NaN, as in "-x1" or "+". */
  lemma ParseIntSignNaN(w: string, sign: char, t: string)
    requires AllSpace(w)
    requires sign == '-' || sign == '+'
    requires |t| == 0 || !IsDigit(t[0])
    ensures ParseInt(w + [sign] + t) == None
  {
    assert w + [sign] + t == w + ([sign] + t);
    TrimStartSpaces(w, [sign] + t);
    assert ([sign] + t)[1..] == t;
  }

  /** `parseInt` reads "0" as 0, which is falsy. */
  lemma ParseIntZero()
    ensures ParseInt("0") == Some(0)
  {
    ParseIntToString(0);
    assert IntToString(0) == "0";
  }

  /** The rendering of a number is a minus sign or digits, and ends in a digit. */
  lemma IntToStringShape(n: int)
    ensures var s := IntToString(n);
      && IsDigit(s[|s| - 1])
      && forall i :: 0 <= i < |s| ==> IsDigit(s[i]) || s[i] == '-'
  {
    var digits := NatToString(if n < 0 then -n else n);
    var s := IntToString(n);
    assert s[|s| - 1] == digits[|digits| - 1];
  }
}
