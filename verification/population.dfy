/**
 * Refreshing the revision cache of a session: reading the eligible revision
 * ids from `svn mergeinfo --show-revs eligible`, reusing cached entries that
 * have changed paths, fetching the others through the revision fetcher, and
 * committing the new cache only when every fetch succeeded.
 */
module Population {
  import opened Wrappers
  import opened Text
  import opened Numbers
  import opened Lists
  import opened Snapshot

  /** The revision fetcher (`svn log --revision=<id> --verbose`): a log entry or an error text. */
  type Fetcher = int -> Result<Revision, string>

  /** The id on one output line: the trimmed line must start with `r`, and what follows must parse to a truthy integer. */
  function LineId(line: string): (id: Option<int>)
    ensures id.Some? ==> id.value != 0
    ensures id.Some? ==> var t := Trim(line); |t| > 1 && t[0] == 'r'
  {
    var t := Trim(line);
    if |t| > 0 && t[0] == 'r' then
      var v := ParseInt(t[1..]);
      if Truthy(v) then v else None
    else None
  }

  function LineIds(lines: seq<string>): (ids: seq<int>)
    ensures |ids| <= |lines|
    ensures forall i :: 0 <= i < |ids| ==> ids[i] != 0
  {
    if |lines| == 0 then []
    else
      var v := LineId(lines[0]);
      var head := if v.Some? then [v.value] else [];
      assert |head| <= 1 && forall i :: 0 <= i < |head| ==> head[i] != 0;
      head + LineIds(lines[1..])
  }

  /** The eligible revision ids listed in the output, in output order. */
  function EligibleIds(output: string): (ids: seq<int>)
    ensures |ids| <= |Split(output, '\n')|
    ensures forall i :: 0 <= i < |ids| ==> ids[i] != 0
  {
    LineIds(Split(output, '\n'))
  }

  /** The output listing the given ids, one `r<id>` per line. */
  function Listing(ids: seq<int>): string {
    Join(ListingLines(ids), '\n')
  }

  function ListingLines(ids: seq<int>): (lines: seq<string>)
    ensures |lines| == |ids|
    ensures forall i :: 0 <= i < |ids| ==> lines[i] == "r" + IntToString(ids[i])
  {
    if |ids| == 0 then [] else ["r" + IntToString(ids[0])] + ListingLines(ids[1..])
  }

  /** The line listing a non-zero id is read back as that id. */
  lemma ListingLineId(n: int)
    requires n != 0
    ensures LineId("r" + IntToString(n)) == Some(n)
  {
    var s := IntToString(n);
    var line := "r" + s;
    IntToStringShape(n);
    assert line[0] == 'r' && line[|line| - 1] == s[|s| - 1];
    TrimUnspaced(line);
    assert line[1..] == s;
    ParseIntToString(n);
  }

  /** A line `r<n>` with white space around it, as the listing indents it, yields `n`. */
  lemma LineIdPadded(w1: string, n: int, w2: string)
    requires AllSpace(w1) && AllSpace(w2)
    requires n != 0
    ensures LineId(w1 + "r" + IntToString(n) + w2) == Some(n)
  {
    var s := IntToString(n);
    var line := "r" + s;
    IntToStringShape(n);
    assert line[|line| - 1] == s[|s| - 1];
    assert w1 + "r" + s + w2 == w1 + line + w2;
    TrimPadded(w1, line, w2);
    assert line[1..] == s;
    ParseIntToString(n);
  }

  /** The line `r0` yields nothing: 0 is falsy. */
  lemma LineIdZero(w1: string, w2: string)
    requires AllSpace(w1) && AllSpace(w2)
    ensures LineId(w1 + "r0" + w2) == None
  {
    TrimPadded(w1, "r0", w2);
    assert "r0"[1..] == "0";
    ParseIntZero();
  }

  /** A line `r` followed by text that starts with neither a digit nor a sign, such as `rabc`, yields nothing. */
  lemma LineIdNaN(w1: string, t: string, w2: string)
    requires AllSpace(w1) && AllSpace(w2)
    requires |t| > 0 && !IsSpace(t[|t| - 1])
    requires !IsSpace(t[0]) && !IsDigit(t[0]) && t[0] != '-' && t[0] != '+'
    ensures LineId(w1 + "r" + t + w2) == None
  {
    var line := "r" + t;
    assert w1 + "r" + t + w2 == w1 + line + w2;
    assert line[|line| - 1] == t[|t| - 1];
    TrimPadded(w1, line, w2);
    assert line[1..] == t;
    ParseIntNaN("", t);
    assert "" + t == t;
  }

  lemma ListingLineSingle(n: int)
    ensures '\n' !in "r" + IntToString(n)
  {
    var s := IntToString(n);
    IntToStringShape(n);
    assert forall i :: 1 <= i < |"r" + s| ==> ("r" + s)[i] == s[i - 1];
  }

  lemma LineIdsCons(line: string, rest: seq<string>)
    ensures LineIds([line] + rest) == (if LineId(line).Some? then [LineId(line).value] else []) + LineIds(rest)
  {
    assert ([line] + rest)[1..] == rest;
  }

  lemma {:induction false} LineIdsOfListing(ids: seq<int>)
    requires forall i :: 0 <= i < |ids| ==> ids[i] != 0
    ensures LineIds(ListingLines(ids)) == ids
  {
    if |ids| > 0 {
      var rest := ListingLines(ids[1..]);
      assert ListingLines(ids) == ["r" + IntToString(ids[0])] + rest;
      ListingLineId(ids[0]);
      LineIdsCons("r" + IntToString(ids[0]), rest);
      LineIdsOfListing(ids[1..]);
      assert [ids[0]] + ids[1..] == ids;
    }
  }

  /** Reading back a listing of non-zero ids gives exactly those ids, in order. */
  lemma EligibleListingRoundTrip(ids: seq<int>)
    requires forall i :: 0 <= i < |ids| ==> ids[i] != 0
    ensures EligibleIds(Listing(ids)) == ids
  {
    var lines := ListingLines(ids);
    if |ids| == 0 {
      assert Split("", '\n') == [""];
      assert LineId("") == None;
    } else {
      forall i | 0 <= i < |lines| ensures '\n' !in lines[i] {
        ListingLineSingle(ids[i]);
      }
      SplitJoin(lines, '\n');
      LineIdsOfListing(ids);
    }
  }

  /** A cached entry is reused only when its list of changed paths is non-empty. */
  predicate Reusable(previous: Option<Cache>, id: int) {
    previous.Some? && id in previous.value.revisions && |previous.value.revisions[id].paths| > 0
  }

  /** The id can be filled in: from the previous cache, or by a successful fetch. */
  predicate Available(previous: Option<Cache>, fetch: Fetcher, id: int) {
    Reusable(previous, id) || fetch(id).Success?
  }

  /** The entry filed under an available id. */
  function Stored(previous: Option<Cache>, fetch: Fetcher, id: int): (e: Revision)
    requires Available(previous, fetch, id)
    ensures Reusable(previous, id) ==> e == previous.value.revisions[id] && |e.paths| > 0
    ensures !Reusable(previous, id) ==> fetch(id).Success? && e == fetch(id).value
  {
    if Reusable(previous, id) then previous.value.revisions[id] else fetch(id).value
  }

  /** The fetcher returns the log of the revision it was asked for. */
  ghost predicate Faithful(fetch: Fetcher) {
    forall id :: fetch(id).Success? ==> fetch(id).value.rev == id
  }

  /**
   * The task series over the eligible ids, in order. The first fetch that
   * fails stops the series and its error is the result; otherwise the new
   * cache holds one entry per id, keyed in first-seen order, and no last
   * filter result or picks (the fresh cache object carries neither).
   */
  method Refresh(ids: seq<int>, previous: Option<Cache>, fetch: Fetcher) returns (r: Result<Cache, Error>)
    ensures r.Success? <==> forall j :: 0 <= j < |ids| ==> Available(previous, fetch, ids[j])
    ensures r.Failure? ==> exists j ::
      && 0 <= j < |ids|
      && !Reusable(previous, ids[j]) && fetch(ids[j]).Failure?
      && r.error == FetchFailed(fetch(ids[j]).error)
      && forall e :: 0 <= e < j ==> Available(previous, fetch, ids[e])
    ensures r.Success? ==>
      && Valid(r.value)
      && r.value.order == Uniq(ids)
      && (forall k :: k in r.value.revisions <==> k in ids)
      && (forall k :: k in r.value.revisions ==> Available(previous, fetch, k) && r.value.revisions[k] == Stored(previous, fetch, k))
      && r.value.lastFiltered == []
      && r.value.picked == []
  {
    var revisions: map<int, Revision> := map[];
    var order: seq<int> := [];
    var i := 0;
    while i < |ids|
      invariant 0 <= i <= |ids|
      invariant Built(ids[..i], revisions, order, previous, fetch)
      invariant forall j :: 0 <= j < i ==> Available(previous, fetch, ids[j])
    {
      var id := ids[i];
      var entry: Revision;
      if Reusable(previous, id) {
        entry := previous.value.revisions[id];
      } else {
        var fetched := fetch(id);
        if fetched.Failure? {
          r := Failure(FetchFailed(fetched.error));
          assert !Reusable(previous, ids[i]) && fetch(ids[i]).Failure? && r.error == FetchFailed(fetch(ids[i]).error);
          return;
        }
        entry := fetched.value;
      }
      var extended := if id in order then order else order + [id];
      BuiltStep(ids, i, revisions, order, previous, fetch, entry);
      assert Built(ids[..i + 1], revisions[id := entry], extended, previous, fetch);
      revisions := revisions[id := entry];
      order := extended;
      i := i + 1;
    }
    assert ids[..i] == ids;
    r := Success(Cache(revisions, order, [], []));
    UniqOfDistinctOrder(r.value);
  }

  /** Loop state of `Refresh` after the ids in `prefix`. */
  ghost predicate Built(prefix: seq<int>, revisions: map<int, Revision>, order: seq<int>, previous: Option<Cache>, fetch: Fetcher) {
    && order == Uniq(prefix)
    && (forall k :: k in revisions <==> k in prefix)
    && (forall k :: k in revisions ==> Available(previous, fetch, k) && revisions[k] == Stored(previous, fetch, k))
  }

  lemma BuiltStep(ids: seq<int>, i: nat, revisions: map<int, Revision>, order: seq<int>, previous: Option<Cache>, fetch: Fetcher, entry: Revision)
    requires i < |ids| && Built(ids[..i], revisions, order, previous, fetch)
    requires Available(previous, fetch, ids[i]) && entry == Stored(previous, fetch, ids[i])
    ensures Built(ids[..i + 1], revisions[ids[i] := entry], if ids[i] in order then order else order + [ids[i]], previous, fetch)
  {
    assert ids[..i + 1] == ids[..i] + [ids[i]];
    UniqSnoc(ids[..i], ids[i]);
  }

  lemma UniqOfDistinctOrder(c: Cache)
    requires forall k :: k in c.revisions <==> k in c.order
    requires Distinct(c.order)
    ensures Valid(c)
  {
  }

  /** With a faithful fetcher and a previous cache whose entries carry their ids, every refreshed entry carries its id. */
  lemma RefreshWellKeyed(previous: Option<Cache>, fetch: Fetcher, c: Cache)
    requires Faithful(fetch)
    requires previous.Some? ==> WellKeyed(previous.value)
    requires forall k :: k in c.revisions ==> Available(previous, fetch, k) && c.revisions[k] == Stored(previous, fetch, k)
    ensures WellKeyed(c)
  {
  }

  /**
   * `core.cacheUnmergedCommits`: needs a session; an empty mergeinfo output
   * ends the call with no cache (`false`); otherwise the refreshed cache is
   * written only when every fetch succeeded, and a failure leaves the cache
   * file as it was.
   */
  method Populate(ctx: Context, output: string, fetch: Fetcher) returns (r: Result<Option<Cache>, Error>, cacheFile: Option<Cache>)
    ensures ctx.session.None? ==> r == Failure(NoSession)
    ensures ctx.session.Some? && output == "" ==> r == Success(None)
    ensures r.Success? && r.value.Some? <==>
      ctx.session.Some? && output != "" &&
      forall j :: 0 <= j < |EligibleIds(output)| ==> Available(ctx.cacheFile, fetch, EligibleIds(output)[j])
    ensures r.Failure? && ctx.session.Some? ==>
      var ids := EligibleIds(output);
      exists j ::
        && 0 <= j < |ids|
        && !Reusable(ctx.cacheFile, ids[j]) && fetch(ids[j]).Failure?
        && r.error == FetchFailed(fetch(ids[j]).error)
        && forall e :: 0 <= e < j ==> Available(ctx.cacheFile, fetch, ids[e])
    ensures r.Success? && r.value.Some? ==>
      var ids := EligibleIds(output);
      && cacheFile == r.value
      && Valid(cacheFile.value)
      && cacheFile.value.order == Uniq(ids)
      && (forall k :: k in cacheFile.value.revisions <==> k in ids)
      && (forall k :: k in cacheFile.value.revisions ==>
            Available(ctx.cacheFile, fetch, k) && cacheFile.value.revisions[k] == Stored(ctx.cacheFile, fetch, k))
      && cacheFile.value.lastFiltered == []
      && cacheFile.value.picked == []
    ensures !(r.Success? && r.value.Some?) ==> cacheFile == ctx.cacheFile
  {
    if ctx.session.None? {
      return Failure(NoSession), ctx.cacheFile;
    }
    if output == "" {
      return Success(None), ctx.cacheFile;
    }
    var refreshed := Refresh(EligibleIds(output), ctx.cacheFile, fetch);
    if refreshed.Failure? {
      return Failure(refreshed.error), ctx.cacheFile;
    }
    r := Success(Some(refreshed.value));
    cacheFile := Some(refreshed.value);
  }
}
