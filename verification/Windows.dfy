// Counting the recent ones of a list of times.
module Windows {
  import opened Sets

  ghost predicate Ascending(times: seq<int>) { forall i, j | 0 <= i < j < |times| :: times[i] <= times[j] }

  // How many of the times, which ascend, lie after the cut.
  function Recent(times: seq<int>, cut: int): nat {
    if times == [] || times[|times| - 1] <= cut then 0 else 1 + Recent(times[..|times| - 1], cut)
  }

  lemma {:induction false} RecentAreLast(times: seq<int>, cut: int)
    requires Ascending(times)
    ensures Recent(times, cut) <= |times|
    ensures forall i | 0 <= i < |times| :: times[i] > cut <==> |times| - Recent(times, cut) <= i
  {
    if times != [] && times[|times| - 1] > cut {
      RecentAreLast(times[..|times| - 1], cut);
    }
  }

  // Fewer than the limit are recent exactly if there are not so many, or the last but so many is old.
  lemma FewRecent(times: seq<int>, cut: int, limit: nat)
    requires Ascending(times) && limit > 0
    ensures Recent(times, cut) < limit <==> |times| < limit || times[|times| - limit] <= cut
  {
    RecentAreLast(times, cut);
  }

  lemma RecentCount(times: seq<int>, cut: int)
    requires Ascending(times)
    ensures |set i: nat | i < |times| && times[i] > cut| == Recent(times, cut)
  {
    RecentAreLast(times, cut);
    assert (set i: nat | i < |times| && times[i] > cut) == Range(|times| - Recent(times, cut), |times|);
  }
}
