/**
 * The pick list: a persisted, duplicate-free selection of revision ids that
 * `pick` appends to and `unpick` removes from, with the selector grammar
 * `""` (absent), `"all"`, `"last"` or comma-separated integers.
 */
module PickList {
  import opened Wrappers
  import opened Text
  import opened Numbers
  import opened Lists
  import opened Snapshot

  /** The id one token selects: its trimmed `parseInt`, unless that is NaN or zero. */
  function TokenId(token: string): (id: Option<int>)
    ensures id.Some? ==> id.value != 0
  {
    var v := ParseInt(Trim(token));
    if Truthy(v) then v else None
  }

  /** The ids the tokens select, in order. */
  function TokenIds(tokens: seq<string>): (ids: seq<int>)
    ensures |ids| <= |tokens|
    ensures forall i :: 0 <= i < |ids| ==> ids[i] != 0
  {
    if |tokens| == 0 then []
    else
      var v := TokenId(tokens[0]);
      (if v.Some? then [v.value] else []) + TokenIds(tokens[1..])
  }

  /** The ids a comma-separated selector names. */
  function ParseIdList(s: string): seq<int> {
    TokenIds(Split(s, ','))
  }

  /** The decimal renderings of `ids`, one per id. */
  function Rendered(ids: seq<int>): (tokens: seq<string>)
    ensures |tokens| == |ids|
    ensures forall i :: 0 <= i < |ids| ==> tokens[i] == IntToString(ids[i])
  {
    if |ids| == 0 then [] else [IntToString(ids[0])] + Rendered(ids[1..])
  }

  /** `ids.join(",")`. */
  function IdList(ids: seq<int>): string {
    Join(Rendered(ids), ',')
  }

  /** A rendered non-zero id is a token that selects exactly that id. */
  lemma RenderedTokenSelects(n: int)
    requires n != 0
    ensures TokenId(IntToString(n)) == Some(n)
  {
    var s := IntToString(n);
    IntToStringShape(n);
    TrimUnspaced(s);
    ParseIntToString(n);
  }

  /** A token padded with white space, as in the selector "3, 4", selects the id it renders. */
  lemma TokenIdPadded(w1: string, n: int, w2: string)
    requires AllSpace(w1) && AllSpace(w2)
    requires n != 0
    ensures TokenId(w1 + IntToString(n) + w2) == Some(n)
  {
    var s := IntToString(n);
    IntToStringShape(n);
    assert !IsSpace(s[0]);
    TrimPadded(w1, s, w2);
    ParseIntToString(n);
  }

  /** A token reading as 0, such as " 0", is falsy and selects nothing. */
  lemma TokenIdZero(w1: string, w2: string)
    requires AllSpace(w1) && AllSpace(w2)
    ensures TokenId(w1 + "0" + w2) == None
  {
    TrimPadded(w1, "0", w2);
    ParseIntZero();
  }

  /** A token whose text starts with neither a digit nor a sign, such as " x5", reads as NaN and selects nothing. */
  lemma TokenIdNaN(w1: string, t: string, w2: string)
    requires AllSpace(w1) && AllSpace(w2)
    requires |t| > 0 && !IsSpace(t[0]) && !IsSpace(t[|t| - 1])
    requires !IsDigit(t[0]) && t[0] != '-' && t[0] != '+'
    ensures TokenId(w1 + t + w2) == None
  {
    TrimPadded(w1, t, w2);
    ParseIntNaN("", t);
    assert "" + t == t;
  }

  lemma TokenIdsCons(token: string, rest: seq<string>)
    ensures TokenIds([token] + rest) ==
      (if TokenId(token).Some? then [TokenId(token).value] else []) + TokenIds(rest)
  {
    assert ([token] + rest)[1..] == rest;
  }

  lemma {:induction false} TokenIdsOfRendered(ids: seq<int>)
    requires forall i :: 0 <= i < |ids| ==> ids[i] != 0
    ensures TokenIds(Rendered(ids)) == ids
  {
    if |ids| > 0 {
      var rest := Rendered(ids[1..]);
      assert Rendered(ids) == [IntToString(ids[0])] + rest;
      RenderedTokenSelects(ids[0]);
      TokenIdsCons(IntToString(ids[0]), rest);
      TokenIdsOfRendered(ids[1..]);
      assert [ids[0]] + ids[1..] == ids;
    }
  }

  /** A joined list of non-zero ids, read back as a selector, names exactly those ids in that order. */
  lemma IdListRoundTrip(ids: seq<int>)
    requires forall i :: 0 <= i < |ids| ==> ids[i] != 0
    ensures ParseIdList(IdList(ids)) == ids
  {
    var tokens := Rendered(ids);
    if |ids| == 0 {
      assert Split("", ',') == [""];
      assert TokenId("") == None;
    } else {
      forall i | 0 <= i < |tokens| ensures ',' !in tokens[i] {
        IntToStringShape(ids[i]);
      }
      SplitJoin(tokens, ',');
      TokenIdsOfRendered(ids);
    }
  }

  /** Appending ids to a list and dropping repeats, first occurrence kept (`_.uniq`). */
  function Appended(current: seq<int>, ids: seq<int>): (next: seq<int>)
    ensures Distinct(next)
    ensures forall x :: x in next <==> x in current || x in ids
    ensures Distinct(current) ==> |current| <= |next| && next[..|current|] == current
    ensures Distinct(current) ==> next == current + Uniq(Difference(ids, current))
  {
    UniqAppend(current, ids);
    if Distinct(current) then UniqOfDistinct(current); Uniq(current + ids)
    else Uniq(current + ids)
  }

  /** Removing ids from a list, the rest kept in order (`_.difference`). */
  function Removed(current: seq<int>, ids: seq<int>): (next: seq<int>)
    ensures forall x :: x in next <==> x in current && x !in ids
    ensures IsSubsequence(next, current)
  {
    DifferenceIsSubsequence(current, ids);
    Difference(current, ids)
  }

  /**
   * The ids a selector resolves to: "last" is the last filter result, "all"
   * names nothing here (each mode handles it before), and anything else is a
   * comma list yielding at most one non-zero id per item.
   */
  function Resolve(cache: Cache, selector: string): (ids: seq<int>)
    ensures selector == "last" ==> ids == cache.lastFiltered
    ensures selector == "all" ==> ids == []
    ensures selector != "last" ==> |ids| <= |Split(selector, ',')| && forall i :: 0 <= i < |ids| ==> ids[i] != 0
  {
    if selector == "all" then []
    else if selector == "last" then cache.lastFiltered
    else ParseIdList(selector)
  }

  /** A comma-joined list of non-zero ids resolves to exactly those ids, in order. */
  lemma ResolveIdList(cache: Cache, ids: seq<int>)
    requires forall i :: 0 <= i < |ids| ==> ids[i] != 0
    ensures Resolve(cache, IdList(ids)) == ids
  {
    IdListRoundTrip(ids);
    if |ids| > 0 {
      var text, tokens := IdList(ids), Rendered(ids);
      IntToStringShape(ids[0]);
      assert text[0] == tokens[0][0];
      assert text != "last" && text != "all" by {
        assert text[0] != 'l' && text[0] != 'a';
      }
    }
  }

  /** The list returned to the caller, and the cache written back (`None` when nothing is written). */
  datatype PickOutcome = PickOutcome(picked: seq<int>, saved: Option<Cache>)

  /**
   * `core.pickRevisions`. An empty selector reads the list in pick mode and
   * is an error in unpick mode; "all" is an error in pick mode and clears the
   * list in unpick mode. Otherwise pick appends the resolved ids and drops
   * repeats, unpick removes them; the rest of the cache is written back as it
   * was.
   */
  function PickRevisions(ctx: Context, selector: string, unpick: bool): (r: Result<PickOutcome, Error>)
    ensures Load(ctx).Failure? ==> r == Failure(Load(ctx).error)
    ensures Load(ctx).Success? ==>
      var cache := ctx.cacheFile.value;
      var ids := Resolve(cache, selector);
      && (selector == "" && !unpick ==> r == Success(PickOutcome(cache.picked, None)))
      && (selector == "" && unpick ==> r == Failure(SelectorRequired))
      && (selector == "all" && !unpick ==> r == Failure(AllNotPickable))
      && (selector != "" && (unpick || selector != "all") ==>
            r.Success? && r.value.saved == Some(cache.(picked := r.value.picked)))
      && (selector == "all" && unpick ==> r.Success? && r.value.picked == [])
      && (selector != "" && selector != "all" && !unpick ==>
            && r.Success?
            && Distinct(r.value.picked)
            && (forall x :: x in r.value.picked <==> x in cache.picked || x in ids)
            && (Distinct(cache.picked) ==>
                  |cache.picked| <= |r.value.picked| && r.value.picked[..|cache.picked|] == cache.picked))
      && (selector != "" && selector != "all" && unpick ==>
            && r.Success?
            && (forall x :: x in r.value.picked <==> x in cache.picked && x !in ids)
            && IsSubsequence(r.value.picked, cache.picked))
  {
    var (session, cache) :- Load(ctx);
    var current := cache.picked;
    if selector == "" then
      if unpick then Failure(SelectorRequired) else Success(PickOutcome(current, None))
    else if selector == "all" && !unpick then Failure(AllNotPickable)
    else
      var ids := Resolve(cache, selector);
      var next :=
        if !unpick then Appended(current, ids)
        else if selector == "all" then []
        else Removed(current, ids);
      Success(PickOutcome(next, Some(cache.(picked := next))))
  }

  /** Every call leaves a duplicate-free pick list duplicate-free. */
  lemma PickKeepsDistinct(ctx: Context, selector: string, unpick: bool)
    requires ctx.cacheFile.Some? && Distinct(ctx.cacheFile.value.picked)
    requires PickRevisions(ctx, selector, unpick).Success?
    ensures Distinct(PickRevisions(ctx, selector, unpick).value.picked)
  {
    var cache := ctx.cacheFile.value;
    if unpick && selector != "all" {
      SubsequenceDistinct(PickRevisions(ctx, selector, unpick).value.picked, cache.picked);
    }
  }

  /** On a duplicate-free list, pick keeps the list in front and appends the new ids in first-seen order. */
  lemma PickAppendsNewIds(ctx: Context, selector: string)
    requires Load(ctx).Success? && Distinct(ctx.cacheFile.value.picked)
    requires selector != "" && selector != "all"
    ensures var cache := ctx.cacheFile.value;
      PickRevisions(ctx, selector, false).value.picked ==
        cache.picked + Uniq(Difference(Resolve(cache, selector), cache.picked))
  {
    var cache := ctx.cacheFile.value;
    UniqAppend(cache.picked, Resolve(cache, selector));
    UniqOfDistinct(cache.picked);
  }

  /** Picking ids that are all already picked leaves the list, and so its length, unchanged. */
  lemma RepickLeavesListUnchanged(ctx: Context, selector: string)
    requires Load(ctx).Success? && Distinct(ctx.cacheFile.value.picked)
    requires selector != "" && selector != "all"
    requires forall x :: x in Resolve(ctx.cacheFile.value, selector) ==> x in ctx.cacheFile.value.picked
    ensures PickRevisions(ctx, selector, false).value.picked == ctx.cacheFile.value.picked
  {
    var cache := ctx.cacheFile.value;
    PickAppendsNewIds(ctx, selector);
    DifferenceCovered(Resolve(cache, selector), cache.picked);
  }

  /**
   * Picking ids none of which are picked yet and then unpicking with the
   * same selector restores the original list, order included.
   */
  lemma PickThenUnpickRestores(ctx: Context, selector: string)
    requires Load(ctx).Success? && Distinct(ctx.cacheFile.value.picked)
    requires selector != "" && selector != "all"
    requires forall x :: x in Resolve(ctx.cacheFile.value, selector) ==> x !in ctx.cacheFile.value.picked
    ensures var picked := PickRevisions(ctx, selector, false).value;
      var unpicked := PickRevisions(Context(ctx.session, picked.saved), selector, true);
      unpicked.Success? && unpicked.value.picked == ctx.cacheFile.value.picked
  {
    var cache := ctx.cacheFile.value;
    var ids := Resolve(cache, selector);
    PickAppendsNewIds(ctx, selector);
    var added := Uniq(Difference(ids, cache.picked));
    var saved := PickRevisions(ctx, selector, false).value.saved.value;
    assert Resolve(saved, selector) == ids;
    DifferenceAppend(cache.picked, added, ids);
    DifferenceDisjoint(cache.picked, ids);
    DifferenceCovered(added, ids);
    assert cache.picked + [] == cache.picked;
  }

  /** Unpicking "all" empties the list whatever it held. */
  lemma UnpickAllClears(ctx: Context)
    requires Load(ctx).Success?
    ensures PickRevisions(ctx, "all", true) == Success(PickOutcome([], Some(ctx.cacheFile.value.(picked := []))))
  {
  }
}
