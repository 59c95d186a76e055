/** The merge command handed to the user: `svn merge [-c<ids>] <source> <destination>`. */
module Merging {
  import opened Wrappers
  import opened Text
  import opened Snapshot
  import opened PickList

  /** The command `svn merge`, the `-c` argument when anything is picked, then the source and the destination. */
  function MergeCommand(s: Session, picked: seq<int>): (cmd: string)
    ensures exists arg :: cmd == "svn merge " + arg + " " + s.source + " " + s.destination && (arg == "" <==> |picked| == 0)
  {
    var arg := if |picked| > 0 then "-c" + IdList(picked) else "";
    "svn merge " + arg + " " + s.source + " " + s.destination
  }

  /** `core.getMergeCommand`: fails like every cache reader, otherwise names the session and the pick list. */
  function GetMergeCommand(ctx: Context): (r: Result<string, Error>)
    ensures Load(ctx).Failure? ==> r == Failure(Load(ctx).error)
    ensures Load(ctx).Success? ==> r == Success(MergeCommand(ctx.session.value, ctx.cacheFile.value.picked))
  {
    var (session, cache) :- Load(ctx);
    Success(MergeCommand(session, cache.picked))
  }

  /**
   * The command always starts with "svn merge " and ends with the source and
   * destination. With an empty pick list nothing stands between them; otherwise
   * the `-c` argument, read back as a pick selector, names exactly the picked
   * revisions in order.
   */
  lemma MergeCommandNamesPicked(s: Session, picked: seq<int>)
    requires forall i :: 0 <= i < |picked| ==> picked[i] != 0
    ensures var cmd := MergeCommand(s, picked);
      var tail := " " + s.source + " " + s.destination;
      && StartsWith(cmd, "svn merge ")
      && |cmd| >= 10 + |tail|
      && cmd[|cmd| - |tail|..] == tail
      && (|picked| == 0 ==> cmd == "svn merge " + tail)
      && (|picked| > 0 ==> cmd[10..12] == "-c" && ParseIdList(cmd[12..|cmd| - |tail|]) == picked)
  {
    var cmd := MergeCommand(s, picked);
    var tail := " " + s.source + " " + s.destination;
    if |picked| > 0 {
      var list := IdList(picked);
      var head := "svn merge -c";
      assert |head| == 12;
      assert cmd == head + list + tail;
      assert cmd[..10] == "svn merge ";
      assert cmd[10..12] == "-c";
      assert cmd[12..|cmd| - |tail|] == list;
      assert cmd[|cmd| - |tail|..] == tail;
      IdListRoundTrip(picked);
    } else {
      assert cmd == "svn merge " + tail;
    }
  }
}
