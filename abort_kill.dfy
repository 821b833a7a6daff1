/**
 * The abort-button handler of the renderer.  It asks the download helper to stop, re-enables
 * the controls, and, once the descendants of the downloader process are known, sends one
 * 'kill_pid' per descendant in the reverse of the order they were discovered in, and a last
 * one for the downloader process itself.
 *
 * The descendant list comes from the process-listing helper and is a parameter here; the
 * kills are sent when that helper's promise settles, which is after the controls were
 * re-enabled, so that is their place in the trace.
 */
module AbortKill {

  datatype AbortEffect =
    | StopDownload      // the download helper's abort
    | SetEnabled        // controls enabled
    | KillPid(pid: int) // 'kill_pid' to the main process

  /** `pids` back to front. */
  function Reversed(pids: seq<int>): seq<int>
    decreases |pids|
  {
    if |pids| == 0 then [] else [pids[|pids| - 1]] + Reversed(pids[..|pids| - 1])
  }

  /** Position `k` of the reversed list holds the `k`-th element from the end. */
  lemma {:induction false} ReversedIndex(pids: seq<int>, k: nat)
    requires k < |pids|
    ensures |Reversed(pids)| == |pids|
    ensures Reversed(pids)[k] == pids[|pids| - 1 - k]
    decreases |pids|
  {
    var n := |pids| - 1;
    if k > 0 {
      ReversedIndex(pids[..n], k - 1);
    } else if n > 0 {
      ReversedIndex(pids[..n], 0);
    }
  }

  /** Reversing keeps every PID, as often as it occurs. */
  lemma {:induction false} ReversedKeepsPids(pids: seq<int>)
    ensures multiset(Reversed(pids)) == multiset(pids)
    decreases |pids|
  {
    if |pids| > 0 {
      var n := |pids| - 1;
      ReversedKeepsPids(pids[..n]);
      assert pids == pids[..n] + [pids[n]];
    }
  }

  /** The PIDs to kill, in order: descendants in reverse discovery order, then the root. */
  function KillOrder(descendants: seq<int>, root: int): seq<int>
  {
    Reversed(descendants) + [root]
  }

  /** One 'kill_pid' per PID, in order. */
  function Kills(pids: seq<int>): seq<AbortEffect>
  {
    seq(|pids|, k requires 0 <= k < |pids| => KillPid(pids[k]))
  }

  /** Every descendant is killed once and before the root, which is killed last; a process
      discovered later is killed earlier. */
  lemma KillOrderLeavesFirst(descendants: seq<int>, root: int)
    ensures var kills := KillOrder(descendants, root);
      && |kills| == |descendants| + 1
      && kills[|descendants|] == root
      && (forall k :: 0 <= k < |descendants| ==> kills[k] == descendants[|descendants| - 1 - k])
      && multiset(kills) == multiset(descendants) + multiset{root}
  {
    var kills := KillOrder(descendants, root);
    ReversedKeepsPids(descendants);
    if |descendants| > 0 {
      ReversedIndex(descendants, 0);
    } else {
      assert Reversed(descendants) == [];
    }
    forall k | 0 <= k < |descendants|
      ensures kills[k] == descendants[|descendants| - 1 - k]
    {
      ReversedIndex(descendants, k);
    }
  }

  /** The abort-button handler. */
  method Abort(descendants: seq<int>, root: int) returns (effects: seq<AbortEffect>)
    ensures effects == [StopDownload, SetEnabled] + Kills(KillOrder(descendants, root))
  {
    effects := [StopDownload, SetEnabled];
    var pids := Reversed(descendants);
    for i := 0 to |pids|
      invariant effects == [StopDownload, SetEnabled] + Kills(pids[..i])
    {
      effects := effects + [KillPid(pids[i])];
      assert Kills(pids[..i + 1]) == Kills(pids[..i]) + [KillPid(pids[i])];
    }
    effects := effects + [KillPid(root)];
    assert pids[..|pids|] == pids;
    assert Kills(pids + [root]) == Kills(pids) + [KillPid(root)];
  }
}
