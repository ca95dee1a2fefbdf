// Two facts about the sizes of finite sets.
module Sets {

  lemma SubsetSize<T>(a: set<T>, b: set<T>)
    requires a <= b
    ensures |a| <= |b|
  {
    assert a + (b - a) == b;
  }

  function Range(low: nat, high: nat): (r: set<nat>)
    requires low <= high
    ensures |r| == high - low && forall i: nat :: i in r <==> low <= i < high
  {
    if low == high then {} else Range(low, high - 1) + {high - 1}
  }
}
