/**
 * The filter engine: a conjunction of optional criteria evaluated over every
 * cached revision, in key order, recording the ids of the matches as the
 * "last filtered" list unless asked not to.
 */
module Filtering {
  import opened Wrappers
  import opened Text
  import opened Snapshot
  import opened Patterns
  import opened Lists

  /**
   * The filter options. An empty string, a `None`, or a rev bound of 0 is a
   * falsy option and imposes nothing. Dates are day numbers (days since the
   * epoch) standing for the `yyyy-mm-dd` text the option carries; `revs`, when
   * present, is an allow-list even when empty.
   */
  datatype Criteria = Criteria(
    author: string,
    message: string,
    paths: string,
    dateBefore: Option<int>,
    dateAfter: Option<int>,
    date: Option<int>,
    revAfter: Option<int>,
    revBefore: Option<int>,
    revs: Option<seq<int>>,
    dontUpdateLast: bool)

  /** Regular-expression and glob matching, which the model leaves uninterpreted. */
  datatype Matchers = Matchers(
    regexTest: (string, string, string) -> bool,  // (pattern, flags, subject)
    globMatch: (string, string) -> bool)          // (glob, path), base-name aware

  const MsPerDay: int := 86_400_000

  /** Midnight at the start of a day: what `parseDate` yields, the first instant of that day. */
  function DayStart(day: int): (t: int)
    ensures DayOf(t) == day && DayOf(t - 1) == day - 1
  {
    day * MsPerDay
  }

  /** The calendar day a timestamp falls on. */
  function DayOf(t: int): int {
    t / MsPerDay
  }

  predicate RevBound(b: Option<int>) {
    b.Some? && b.value != 0
  }

  // ---------------------------------------------------------------------
  // The checks as the engine performs them, one `continue` each.

  function PathHit(p: Pattern, path: string, m: Matchers): bool {
    match p
    case Regex(source, flags) => m.regexTest(source, flags, path)
    case Glob(g) => m.globMatch(g, path)
    case Plain(t) => IndexOf(Lower(path), Lower(t)) >= 0
  }

  /** The flag the loop over the changed paths raises when one of them hits. */
  function AnyPathHits(p: Pattern, paths: seq<string>, m: Matchers): bool {
    if |paths| == 0 then false else PathHit(p, paths[0], m) || AnyPathHits(p, paths[1..], m)
  }

  function MessageHit(p: Pattern, message: string, m: Matchers): bool {
    match p
    case Regex(source, flags) => m.regexTest(source, flags, message)
    case Plain(t) => IndexOf(Lower(message), Lower(t)) > 0
    case Glob(_) => false  // a message criterion is never a glob
  }

  /** The chain of checks of one filter pass, one `continue` each: whether a revision survives it. */
  function Checks(r: Revision, c: Criteria, m: Matchers): bool {
    if c.author != "" && r.author != c.author then false
    else if c.message != "" && !MessageHit(ParseMessage(c.message), r.message, m) then false
    else if c.paths != "" && (|r.paths| == 0 || !AnyPathHits(ParsePaths(c.paths), r.paths, m)) then false
    else if c.dateBefore.Some? && DayStart(c.dateBefore.value) <= r.date then false
    else if c.dateAfter.Some? && DayStart(c.dateAfter.value) >= r.date then false
    else if c.date.Some? && DayOf(r.date) != DayOf(DayStart(c.date.value)) then false
    else if RevBound(c.revAfter) && r.rev <= c.revAfter.value then false
    else if RevBound(c.revBefore) && r.rev >= c.revBefore.value then false
    else if c.revs.Some? && r.rev !in c.revs.value then false
    else true
  }

  // ---------------------------------------------------------------------
  // What each criterion means, stated without the engine's index arithmetic.

  /** The plain message rule: the text occurs, but not at the very start. */
  ghost predicate OccursLate(hay: string, needle: string) {
    (exists i :: 0 < i && OccursAt(hay, needle, i)) && !OccursAt(hay, needle, 0)
  }

  ghost predicate PathMatches(p: Pattern, path: string, m: Matchers) {
    match p
    case Regex(source, flags) => m.regexTest(source, flags, path)
    case Glob(g) => m.globMatch(g, path)
    case Plain(t) => exists i :: OccursAt(Lower(path), Lower(t), i)
  }

  ghost predicate AuthorOk(r: Revision, c: Criteria) {
    c.author == "" || r.author == c.author
  }

  ghost predicate MessageOk(r: Revision, c: Criteria, m: Matchers) {
    c.message == "" ||
    match ParseMessage(c.message)
    case Regex(source, flags) => m.regexTest(source, flags, r.message)
    case Plain(t) => OccursLate(Lower(r.message), Lower(t))
    case Glob(_) => false
  }

  ghost predicate PathsOk(r: Revision, c: Criteria, m: Matchers) {
    c.paths == "" || exists i :: 0 <= i < |r.paths| && PathMatches(ParsePaths(c.paths), r.paths[i], m)
  }

  ghost predicate DatesOk(r: Revision, c: Criteria) {
    && (c.dateBefore.None? || r.date < DayStart(c.dateBefore.value))
    && (c.dateAfter.None? || r.date > DayStart(c.dateAfter.value))
    && (c.date.None? || DayStart(c.date.value) <= r.date < DayStart(c.date.value + 1))
  }

  ghost predicate RevsOk(r: Revision, c: Criteria) {
    && (!RevBound(c.revAfter) || r.rev > c.revAfter.value)
    && (!RevBound(c.revBefore) || r.rev < c.revBefore.value)
    && (c.revs.None? || r.rev in c.revs.value)
  }

  /** A revision meets every supplied criterion. */
  ghost predicate Satisfies(r: Revision, c: Criteria, m: Matchers) {
    AuthorOk(r, c) && MessageOk(r, c, m) && PathsOk(r, c, m) && DatesOk(r, c) && RevsOk(r, c)
  }

  lemma {:induction false} AnyPathHitsIff(p: Pattern, paths: seq<string>, m: Matchers)
    ensures AnyPathHits(p, paths, m) <==> exists i :: 0 <= i < |paths| && PathMatches(p, paths[i], m)
  {
    if |paths| > 0 {
      AnyPathHitsIff(p, paths[1..], m);
      if PathMatches(p, paths[0], m) {
        assert PathHit(p, paths[0], m);
      }
      if exists i :: 0 <= i < |paths| && PathMatches(p, paths[i], m) {
        var i :| 0 <= i < |paths| && PathMatches(p, paths[i], m);
        if i > 0 {
          assert PathMatches(p, paths[1..][i - 1], m);
        }
      }
      forall i | 0 <= i < |paths| - 1 && PathMatches(p, paths[1..][i], m)
        ensures PathMatches(p, paths[i + 1], m)
      {
      }
    }
  }

  /** A timestamp lies on a day exactly when it is between that midnight and the next. */
  lemma SameDayIff(t: int, day: int)
    ensures DayOf(t) == DayOf(DayStart(day)) <==> DayStart(day) <= t < DayStart(day + 1)
  {
    assert DayOf(DayStart(day)) == day;
  }

  /** The engine's chain of checks passes exactly the revisions that meet every supplied criterion. */
  lemma ChecksIffSatisfies(r: Revision, c: Criteria, m: Matchers)
    ensures Checks(r, c, m) <==> Satisfies(r, c, m)
  {
    if c.message != "" {
      var p := ParseMessage(c.message);
      if p.Plain? {
        var h, n := Lower(r.message), Lower(p.text);
        assert IndexOf(h, n) > 0 <==> OccursLate(h, n);
      }
    }
    if c.paths != "" {
      var p := ParsePaths(c.paths);
      AnyPathHitsIff(p, r.paths, m);
      forall path ensures PathHit(p, path, m) <==> PathMatches(p, path, m) {
      }
    }
    if c.date.Some? {
      SameDayIff(r.date, c.date.value);
    }
  }

  /** Whether a revision survives the filter: exactly when it meets every supplied criterion. */
  function Admits(r: Revision, c: Criteria, m: Matchers): (ok: bool)
    ensures ok <==> Satisfies(r, c, m)
  {
    ChecksIffSatisfies(r, c, m);
    Checks(r, c, m)
  }

  // ---------------------------------------------------------------------
  // One filter pass over the cache.

  /** The ids, in key order, whose revisions pass every check. */
  function Select(order: seq<int>, revisions: map<int, Revision>, c: Criteria, m: Matchers): (ids: seq<int>)
    requires forall k :: k in order ==> k in revisions
    ensures forall k :: k in ids <==> k in order && Satisfies(revisions[k], c, m)
    ensures IsSubsequence(ids, order)
  {
    if |order| == 0 then []
    else
      var front := order[..|order| - 1];
      var k := order[|order| - 1];
      assert forall j :: j in order <==> j in front || j == k;
      var prev := Select(front, revisions, c, m);
      SubsequenceExtend(prev, front, k);
      assert front + [k] == order;
      if Admits(revisions[k], c, m) then prev + [k] else prev
  }

  /** What a successful filter call yields: the matching entries' ids and logs, and the cache it writes back. */
  datatype Filtered = Filtered(ids: seq<int>, matched: seq<Revision>, saved: Cache)

  /**
   * `core.filter`: fails like every cache reader; otherwise returns the
   * revisions meeting every supplied criterion, in key order, and writes the
   * cache back with their ids as the last filter result unless
   * `dontUpdateLast` is set. Nothing else in the cache changes.
   */
  function Filter(ctx: Context, c: Criteria, m: Matchers): (r: Result<Filtered, Error>)
    requires ctx.cacheFile.Some? ==> Valid(ctx.cacheFile.value)
    ensures r.Success? <==> Load(ctx).Success?
    ensures r.Failure? ==> r.error == Load(ctx).error
    ensures r.Success? ==>
      var cache := ctx.cacheFile.value;
      var out := r.value;
      && (forall k :: k in out.ids <==> k in cache.revisions && Satisfies(cache.revisions[k], c, m))
      && IsSubsequence(out.ids, cache.order)
      && Distinct(out.ids)
      && |out.matched| == |out.ids|
      && (forall i :: 0 <= i < |out.ids| ==> out.matched[i] == cache.revisions[out.ids[i]])
      && out.saved.revisions == cache.revisions
      && out.saved.order == cache.order
      && out.saved.picked == cache.picked
      && out.saved.lastFiltered == (if c.dontUpdateLast then cache.lastFiltered else out.ids)
  {
    var (session, cache) :- Load(ctx);
    var ids := Select(cache.order, cache.revisions, c, m);
    SubsequenceDistinct(ids, cache.order);
    var matched := seq(|ids|, i requires 0 <= i < |ids| => cache.revisions[ids[i]]);
    var saved := if c.dontUpdateLast then cache else cache.(lastFiltered := ids);
    Success(Filtered(ids, matched, saved))
  }

  /** The ids of a successful filter are the selection over the cache's key order. */
  lemma FilterIsSelect(ctx: Context, c: Criteria, m: Matchers)
    requires ctx.cacheFile.Some? ==> Valid(ctx.cacheFile.value)
    requires Filter(ctx, c, m).Success?
    ensures Filter(ctx, c, m).value.ids == Select(ctx.cacheFile.value.order, ctx.cacheFile.value.revisions, c, m)
  {
  }

  /** Running the same filter again on the cache it wrote gives the same result and writes the same cache. */
  lemma FilterIdempotent(ctx: Context, c: Criteria, m: Matchers)
    requires ctx.cacheFile.Some? ==> Valid(ctx.cacheFile.value)
    requires Filter(ctx, c, m).Success?
    ensures var first := Filter(ctx, c, m).value;
      var again := Filter(Context(ctx.session, Some(first.saved)), c, m);
      again.Success? && again.value == first
  {
  }

  /** When every entry is filed under its own id, the recorded ids are those of the returned revisions. */
  lemma LastFilteredAreResultRevs(ctx: Context, c: Criteria, m: Matchers)
    requires ctx.cacheFile.Some? ==> Valid(ctx.cacheFile.value) && WellKeyed(ctx.cacheFile.value)
    requires Filter(ctx, c, m).Success? && !c.dontUpdateLast
    ensures var out := Filter(ctx, c, m).value;
      |out.saved.lastFiltered| == |out.matched| &&
      forall i :: 0 <= i < |out.matched| ==> out.saved.lastFiltered[i] == out.matched[i].rev
  {
  }

  // ---------------------------------------------------------------------
  // Boundary behaviour of the individual checks.

  /** The filter with every option falsy. */
  const NoCriteria: Criteria := Criteria("", "", "", None, None, None, None, None, None, false)

  /** With every option falsy, every revision passes. */
  lemma NoCriteriaAdmitsAll(r: Revision, m: Matchers)
    ensures Admits(r, NoCriteria, m)
    ensures Admits(r, NoCriteria.(revAfter := Some(0), revBefore := Some(0)), m)
  {
  }

  /**
   * The plain message check never accepts a match at the start of the
   * message: text that begins with the criterion (case aside) is rejected
   * even though it contains it.
   */
  lemma PlainMessageAtStartRejected(r: Revision, c: Criteria, m: Matchers)
    requires c.message != "" && !StartsWith(c.message, "r:")
    requires StartsWith(Lower(r.message), Lower(c.message))
    ensures !Admits(r, c, m)
  {
    var h, n := Lower(r.message), Lower(c.message);
    assert OccursAt(h, n, 0);
  }

  /** "sent" is rejected against "sent update" and accepted against "just sent". */
  lemma PlainMessageExamples(r: Revision, m: Matchers)
    ensures r.message == "sent update" ==> !Admits(r, NoCriteria.(message := "sent"), m)
    ensures r.message == "just sent" ==> Admits(r, NoCriteria.(message := "sent"), m)
  {
    if r.message == "sent update" {
      PlainMessageAtStartRejected(r, NoCriteria.(message := "sent"), m);
    }
    if r.message == "just sent" {
      var h := Lower(r.message);
      assert h == "just sent";
      assert Lower("sent") == "sent";
      assert "sent"[0] != "r:"[0];
      assert !StartsWith("sent", "r:");
      assert h[5..9] == "sent";
      assert h[0] != "sent"[0];
      assert OccursAt(h, "sent", 5);
      assert !OccursAt(h, "sent", 0);
    }
  }

  /** A revision without changed paths never passes a paths criterion, whatever its mode. */
  lemma EmptyPathsNeverMatch(r: Revision, c: Criteria, m: Matchers)
    requires c.paths != "" && |r.paths| == 0
    ensures !Admits(r, c, m)
  {
  }

  /**
   * Date bounds are strict: a revision stamped exactly at midnight of a day
   * passes neither "before" nor "after" that day, yet it is on that day.
   */
  lemma DateBoundsExclusive(r: Revision, day: int, m: Matchers)
    requires r.date == DayStart(day)
    ensures !Admits(r, NoCriteria.(dateBefore := Some(day)), m)
    ensures !Admits(r, NoCriteria.(dateAfter := Some(day)), m)
    ensures Admits(r, NoCriteria.(date := Some(day)), m)
  {
    assert DayOf(DayStart(day)) == day;
  }

  /** Revision bounds are strict: a revision passes neither bound equal to its own id. */
  lemma RevBoundsExclusive(r: Revision, m: Matchers)
    requires r.rev != 0
    ensures !Admits(r, NoCriteria.(revAfter := Some(r.rev)), m)
    ensures !Admits(r, NoCriteria.(revBefore := Some(r.rev)), m)
  {
  }
}
