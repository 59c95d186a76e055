/**
 * The persisted state the engine works on: the session (source and
 * destination branch) and the revision cache of that session, with the
 * three failures every cache-reading operation shares.
 */
module Snapshot {
  import opened Wrappers
  import opened Lists

  /** One revision's log entry as the revision fetcher returns it. `date` is a millisecond timestamp. */
  datatype Revision = Revision(rev: int, author: string, date: int, paths: seq<string>, message: string)

  /** The pair of branches being compared; the base url the source also stores is unused. */
  datatype Session = Session(source: string, destination: string)

  /**
   * The cache file of one session. `revisions` is keyed by the entry's id and
   * `order` is the enumeration order of that object's keys (insertion order).
   * A missing `lastFilteredRevisions` or `pickedRevisions` field reads as the
   * empty list, so both are plain sequences here.
   */
  datatype Cache = Cache(revisions: map<int, Revision>, order: seq<int>, lastFiltered: seq<int>, picked: seq<int>)

  /** What an operation finds on disk: the current session, and the cache file that belongs to it. */
  datatype Context = Context(session: Option<Session>, cacheFile: Option<Cache>)

  datatype Error =
    | NoSession
    | PopulateFirst
    | NoRevisions
    | SelectorRequired
    | AllNotPickable
    | FetchFailed(reason: string)

  /** The error text handed to the callback. */
  function ErrorText(e: Error): string {
    match e
    case NoSession => "no session"
    case PopulateFirst => "run populate before this"
    case NoRevisions => "no revisions"
    case SelectorRequired => "Provide revisions field"
    case AllNotPickable => "Invalid revisions field \"all\""
    case FetchFailed(reason) => reason
  }

  /** The key order lists every key of the revision object exactly once. */
  predicate Valid(c: Cache) {
    && Distinct(c.order)
    && (forall k :: k in c.order ==> k in c.revisions)
    && (forall k :: k in c.revisions ==> k in c.order)
  }

  /** Every entry's log carries the id it is filed under. */
  predicate WellKeyed(c: Cache) {
    forall k :: k in c.revisions ==> c.revisions[k].rev == k
  }

  /**
   * The guard every cache-reading operation starts with: a session must be
   * set up, its cache file must exist, and the cache must hold revisions.
   */
  function Load(ctx: Context): (r: Result<(Session, Cache), Error>)
    ensures ctx.session.None? ==> r == Failure(NoSession)
    ensures ctx.session.Some? && ctx.cacheFile.None? ==> r == Failure(PopulateFirst)
    ensures ctx.session.Some? && ctx.cacheFile.Some? && |ctx.cacheFile.value.revisions| == 0 ==> r == Failure(NoRevisions)
    ensures r.Success? <==> ctx.session.Some? && ctx.cacheFile.Some? && |ctx.cacheFile.value.revisions| > 0
    ensures r.Success? ==> r.value == (ctx.session.value, ctx.cacheFile.value)
  {
    if ctx.session.None? then Failure(NoSession)
    else if ctx.cacheFile.None? then Failure(PopulateFirst)
    else if |ctx.cacheFile.value.revisions| == 0 then Failure(NoRevisions)
    else Success((ctx.session.value, ctx.cacheFile.value))
  }
}
