/**
 * The string-tagged match modes of the message and paths criteria, parsed
 * once into a tagged union: `r:<pattern>`, `r:f:<flags>:<pattern>`,
 * `g:<glob>` (paths only) and plain text.
 */
module Patterns {
  import opened Text

  datatype Pattern = Plain(text: string) | Regex(source: string, flags: string) | Glob(glob: string)

  /**
   * `parseRegex`: drops the `r:` tag; with a further `f:` tag, the text up to
   * the next `:` is the flags and everything after it, later colons
   * included, is the pattern.
   */
  function ParseRegex(s: string): (p: Pattern)
    requires StartsWith(s, "r:")
    ensures p.Regex?
    ensures !StartsWith(s[2..], "f:") ==> p == Regex(s[2..], "")
    ensures StartsWith(s[2..], "f:") ==>
      && ':' !in p.flags
      && (s == "r:f:" + p.flags + ":" + p.source || (s == "r:f:" + p.flags && p.source == ""))
  {
    var t := s[2..];
    if StartsWith(t, "f:") then
      var parts := Split(t[2..], ':');
      assert s == "r:f:" + t[2..];
      if |parts| == 1 then
        Regex("", parts[0])
      else
        assert Join(parts, ':') == parts[0] + [':'] + Join(parts[1..], ':');
        Regex(Join(parts[1..], ':'), parts[0])
    else
      Regex(t, "")
  }

  /** The message criterion: regex when tagged `r:`, plain text otherwise. */
  function ParseMessage(s: string): (p: Pattern)
    ensures !p.Glob?
    ensures p.Plain? <==> !StartsWith(s, "r:")
    ensures p.Plain? ==> p.text == s
    ensures p.Regex? ==> p == ParseRegex(s)
  {
    if StartsWith(s, "r:") then ParseRegex(s) else Plain(s)
  }

  /** The paths criterion: regex when tagged `r:`, glob when tagged `g:`, plain text otherwise. */
  function ParsePaths(s: string): (p: Pattern)
    ensures p.Regex? <==> StartsWith(s, "r:")
    ensures p.Glob? <==> !StartsWith(s, "r:") && StartsWith(s, "g:")
    ensures p.Glob? ==> s == "g:" + p.glob
    ensures p.Plain? ==> p.text == s
    ensures p.Regex? ==> p == ParseRegex(s)
  {
    if StartsWith(s, "r:") then ParseRegex(s)
    else if StartsWith(s, "g:") then Glob(s[2..])
    else Plain(s)
  }

  /** The pattern can be written back as a criterion string that denotes it. */
  predicate Writable(p: Pattern) {
    match p
    case Plain(t) => !StartsWith(t, "r:") && !StartsWith(t, "g:")
    case Regex(_, flags) => ':' !in flags
    case Glob(_) => true
  }

  /** The criterion string for a pattern, in the shortest tagged form. */
  function Format(p: Pattern): string {
    match p
    case Plain(t) => t
    case Regex(source, flags) =>
      if flags == "" && !StartsWith(source, "f:") then "r:" + source
      else "r:f:" + flags + ":" + source
    case Glob(g) => "g:" + g
  }

  /** Parsing a written regex pattern gives its source and flags back. */
  lemma ParseRegexFormat(source: string, flags: string)
    requires ':' !in flags
    ensures StartsWith(Format(Regex(source, flags)), "r:")
    ensures ParseRegex(Format(Regex(source, flags))) == Regex(source, flags)
  {
    var s := Format(Regex(source, flags));
    if flags == "" && !StartsWith(source, "f:") {
      assert s[2..] == source;
    } else {
      assert s[2..] == "f:" + flags + ":" + source;
      assert s[2..][2..] == flags + [':'] + source;
      SplitAtFirst(flags, ':', source);
      assert Split(s[2..][2..], ':')[1..] == Split(source, ':');
    }
  }

  /** Parsing a written pattern as a paths criterion gives the pattern back. */
  lemma ParsePathsFormat(p: Pattern)
    requires Writable(p)
    ensures ParsePaths(Format(p)) == p
  {
    match p
    case Plain(t) =>
    case Regex(source, flags) =>
      ParseRegexFormat(source, flags);
    case Glob(g) =>
      assert Format(p)[2..] == g;
  }

  /** Parsing a written non-glob pattern as a message criterion gives the pattern back. */
  lemma ParseMessageFormat(p: Pattern)
    requires Writable(p) && !p.Glob?
    ensures ParseMessage(Format(p)) == p
  {
    ParsePathsFormat(p);
  }
}
