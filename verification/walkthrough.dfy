/**
 * A two-revision cache run through the engine: three filters, a pick of the
 * last filter result and the merge command that follows.
 */
module Walkthrough {
  import opened Wrappers
  import opened Snapshot
  import opened Filtering
  import opened PickList
  import opened Merging
  import Lists
  import opened Patterns
  import opened Numbers

  /** r1 by alice on 2024-01-01 (day 19723) and r2 by bob on 2024-02-01 (day 19754). */
  const First: Revision := Revision(1, "alice", DayStart(19723), ["/src/a.js"], "fix bug")
  const Second: Revision := Revision(2, "bob", DayStart(19754), ["/docs/readme.md"], "update docs")
  const Branches: Session := Session("^/trunk", "^/branches/release")
  const Start: Context := Context(Some(Branches), Some(Cache(map[1 := First, 2 := Second], [1, 2], [], [])))

  /** Filtering the two-revision cache keeps each revision exactly when it passes the checks. */
  lemma SelectBoth(c: Criteria, m: Matchers)
    ensures Select([1, 2], map[1 := First, 2 := Second], c, m) ==
      (if Admits(First, c, m) then [1] else []) + (if Admits(Second, c, m) then [2] else [])
  {
    var revisions := map[1 := First, 2 := Second];
    assert [1, 2][..1] == [1];
    assert [1][..0] == [];
    assert Select([1], revisions, c, m) == (if Admits(First, c, m) then [1] else []);
  }

  /** Filtering `Start` with a check that keeps exactly `ids` of the two revisions returns `ids` and their revisions. */
  lemma FilterStart(c: Criteria, m: Matchers, ids: seq<int>)
    requires ids == Select([1, 2], map[1 := First, 2 := Second], c, m)
    ensures Filter(Start, c, m).Success?
    ensures Filter(Start, c, m).value.ids == ids
    ensures Filter(Start, c, m).value.saved.lastFiltered == if c.dontUpdateLast then [] else ids
    ensures |Filter(Start, c, m).value.matched| == |ids|
    ensures forall i :: 0 <= i < |ids| ==> Filter(Start, c, m).value.matched[i] == (map[1 := First, 2 := Second])[ids[i]]
  {
    FilterIsSelect(Start, c, m);
  }

  lemma AuthorChecks(m: Matchers)
    ensures Admits(First, NoCriteria.(author := "alice"), m)
    ensures !Admits(Second, NoCriteria.(author := "alice"), m)
  {
  }

  /** The author filter keeps r1 only. */
  lemma AuthorExample(m: Matchers)
    ensures Filter(Start, NoCriteria.(author := "alice"), m).Success?
    ensures Filter(Start, NoCriteria.(author := "alice"), m).value.matched == [First]
  {
    var c := NoCriteria.(author := "alice");
    AuthorChecks(m);
    SelectBoth(c, m);
    FilterStart(c, m, [1]);
    assert Filter(Start, c, m).value.matched[0] == First;
  }

  lemma GlobCriterion()
    ensures ParsePaths("g:*.js") == Glob("*.js")
  {
    assert "g:*.js"[..2] == "g:";
    assert "g:*.js"[..2] != "r:";
    assert "g:*.js"[2..] == "*.js";
  }

  lemma GlobChecks(m: Matchers)
    requires m.globMatch("*.js", "/src/a.js") && !m.globMatch("*.js", "/docs/readme.md")
    ensures Admits(First, NoCriteria.(paths := "g:*.js"), m)
    ensures !Admits(Second, NoCriteria.(paths := "g:*.js"), m)
  {
    GlobCriterion();
    assert First.paths[1..] == [];
    assert Second.paths[1..] == [];
    assert AnyPathHits(Glob("*.js"), First.paths, m);
    assert !AnyPathHits(Glob("*.js"), Second.paths, m);
  }

  /** The glob filter `g:*.js` keeps r1 only, given a glob matcher that matches `/src/a.js` but not `/docs/readme.md`. */
  lemma GlobExample(m: Matchers)
    requires m.globMatch("*.js", "/src/a.js") && !m.globMatch("*.js", "/docs/readme.md")
    ensures var r := Filter(Start, NoCriteria.(paths := "g:*.js"), m); r.Success? && r.value.matched == [First]
  {
    var c := NoCriteria.(paths := "g:*.js");
    GlobChecks(m);
    SelectBoth(c, m);
    FilterStart(c, m, [1]);
    assert Filter(Start, c, m).value.matched[0] == First;
  }

  lemma RevAfterChecks(m: Matchers)
    ensures !Admits(First, NoCriteria.(revAfter := Some(1)), m)
    ensures Admits(Second, NoCriteria.(revAfter := Some(1)), m)
  {
  }

  /** The revAfter filter keeps r2 only. */
  lemma RevAfterExample(m: Matchers)
    ensures Filter(Start, NoCriteria.(revAfter := Some(1)), m).Success?
    ensures Filter(Start, NoCriteria.(revAfter := Some(1)), m).value.matched == [Second]
  {
    var c := NoCriteria.(revAfter := Some(1));
    RevAfterChecks(m);
    SelectBoth(c, m);
    FilterStart(c, m, [2]);
    assert Filter(Start, c, m).value.matched[0] == Second;
  }

  /** The cache the revAfter filter writes back records r2 as its result. */
  lemma RevAfterRecordsSecond(m: Matchers)
    ensures Filter(Start, NoCriteria.(revAfter := Some(1)), m).Success?
    ensures Filter(Start, NoCriteria.(revAfter := Some(1)), m).value.saved ==
      Cache(map[1 := First, 2 := Second], [1, 2], [2], [])
  {
    var c := NoCriteria.(revAfter := Some(1));
    RevAfterChecks(m);
    SelectBoth(c, m);
    FilterStart(c, m, [2]);
  }

  /** Picking "last" on that cache picks r2. */
  lemma PickLastPicksSecond()
    ensures var p := PickRevisions(Context(Some(Branches), Some(Cache(map[1 := First, 2 := Second], [1, 2], [2], []))), "last", false);
      p.Success? && p.value.picked == [2] &&
      p.value.saved == Some(Cache(map[1 := First, 2 := Second], [1, 2], [2], [2]))
  {
    assert [] + [2] == [2];
    assert [2][..0] == [];
    assert Lists.Uniq([2]) == [2];
  }

  lemma IdListOfSecond()
    ensures IdList([2]) == "2"
  {
    assert IntToString(2) == "2";
    assert Rendered([2]) == ["2"] by {
      assert [2][1..] == [];
    }
  }

  /** The merge command then names r2 and the two branches. */
  lemma MergeNamesSecond()
    ensures GetMergeCommand(Context(Some(Branches), Some(Cache(map[1 := First, 2 := Second], [1, 2], [2], [2])))) ==
      Success("svn merge -c2 ^/trunk ^/branches/release")
  {
    IdListOfSecond();
    assert MergeCommand(Branches, [2]) == "svn merge " + "-c2" + " " + "^/trunk" + " " + "^/branches/release";
    CommandOfSecond();
  }

  /** The pieces of that command, put together. */
  lemma CommandOfSecond()
    ensures "svn merge " + "-c2" + " " + "^/trunk" + " " + "^/branches/release" == "svn merge -c2 ^/trunk ^/branches/release"
  {
  }
}
