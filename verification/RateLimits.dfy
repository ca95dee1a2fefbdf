// The script of server/Services/RedisRoomRateLimitStore.cs: several sliding windows consumed together.
module RateLimits {
  import opened Text
  import opened Sets
  import opened Windows

  type Key = JsString
  type Member = JsString

  // One key of a call, with its limit and its window in milliseconds.
  datatype Spec = Spec(key: Key, limit: nat, window: nat)

  // The limit and window a key is first passed with in every call.
  datatype Rate = Rate(limit: nat, window: nat)

  datatype Accepted = Accepted(now: int, member: Member, keys: set<Key>)

  // What every call keeps to: a key comes with its own limit and window, and if it comes again in
  // the same call, then with no shorter window.
  ghost predicate Agree(specs: seq<Spec>, rates: map<Key, Rate>) {
    forall j | 0 <= j < |specs| ::
      && specs[j].key in rates && rates[specs[j].key].window <= specs[j].window
      && ((forall i | 0 <= i < j :: specs[i].key != specs[j].key) ==>
            specs[j] == Spec(specs[j].key, rates[specs[j].key].limit, rates[specs[j].key].window))
  }

  function KeysOf(specs: seq<Spec>): (keys: set<Key>)
    ensures forall j | 0 <= j < |specs| :: specs[j].key in keys
    ensures forall k | k in keys :: exists j :: 0 <= j < |specs| && specs[j].key == k
  {
    set j | 0 <= j < |specs| :: specs[j].key
  }

  // The accepted operations of a key with a time in (t - window, t].
  function InWindow(trace: seq<Accepted>, k: Key, window: nat, t: int): set<nat> {
    set i: nat | i < |trace| && k in trace[i].keys && t - window < trace[i].now <= t
  }

  // No window of a key's length, wherever it ends, holds more than the key's limit.
  ghost predicate Bounded(trace: seq<Accepted>, k: Key, rate: Rate) {
    forall t: int :: |InWindow(trace, k, rate.window, t)| <= rate.limit
  }

  ghost predicate TraceOk(trace: seq<Accepted>, clock: int) {
    && (forall i | 0 <= i < |trace| :: trace[i].now <= clock)
    && (forall i, j | 0 <= i < j < |trace| :: trace[i].now <= trace[j].now)
    && (forall i, j | 0 <= i < j < |trace| :: trace[i].member != trace[j].member)
  }

  // A sorted set holds the accepted operations of its key that may still lie in a window.
  ghost predicate Holds(stored: map<Member, int>, trace: seq<Accepted>, k: Key, window: nat, clock: int) {
    && (forall m | m in stored :: exists i: nat :: IsEntry(trace, k, m, stored[m], i))
    && (forall i: nat | i < |trace| && k in trace[i].keys ::
          (trace[i].member in stored && stored[trace[i].member] == trace[i].now) || trace[i].now <= clock - window)
  }

  ghost predicate IsEntry(trace: seq<Accepted>, k: Key, m: Member, score: int, i: nat) {
    i < |trace| && k in trace[i].keys && trace[i].member == m && trace[i].now == score
  }

  function Trimmed(stored: map<Member, int>, cutoff: int): map<Member, int> {
    map m | m in stored && stored[m] > cutoff :: stored[m]
  }

  lemma TrimmingHolds(stored: map<Member, int>, trace: seq<Accepted>, k: Key, window: nat, clock: int, w: nat)
    requires Holds(stored, trace, k, window, clock) && window <= w
    ensures Holds(Trimmed(stored, clock - w), trace, k, window, clock)
  {
    var left := Trimmed(stored, clock - w);
    forall m | m in left
      ensures exists i: nat :: IsEntry(trace, k, m, left[m], i)
    {
      var i: nat :| IsEntry(trace, k, m, stored[m], i);
      assert IsEntry(trace, k, m, left[m], i);
    }
  }

  lemma {:induction false} SameSize(a: set<nat>, trace: seq<Accepted>)
    requires forall i | i in a :: i < |trace|
    requires forall i, j | 0 <= i < j < |trace| :: trace[i].member != trace[j].member
    ensures |set i | i in a :: trace[i].member| == |a|
  {
    if a != {} {
      var x :| x in a;
      SameSize(a - {x}, trace);
      assert (set i | i in a :: trace[i].member) == (set i | i in a - {x} :: trace[i].member) + {trace[x].member};
    }
  }

  // After trimming by its own window, the size of a sorted set is the number of accepted operations
  // in the window that ends now.
  lemma SizeIsCount(stored: map<Member, int>, trace: seq<Accepted>, k: Key, window: nat, now: int)
    requires Holds(stored, trace, k, window, now) && TraceOk(trace, now)
    requires forall m | m in stored :: stored[m] > now - window
    ensures |stored| == |InWindow(trace, k, window, now)|
  {
    var a := InWindow(trace, k, window, now);
    SameSize(a, trace);
    var members := set i | i in a :: trace[i].member;
    forall m | m in stored
      ensures m in members
    {
      var i: nat :| IsEntry(trace, k, m, stored[m], i);
      assert i in a;
    }
    assert members == stored.Keys;
  }

  // The window that ends now bounds every later one; earlier ones do not see the new operation.
  lemma StillBounded(trace: seq<Accepted>, clock: int, x: Accepted, k: Key, rate: Rate)
    requires TraceOk(trace, clock) && clock <= x.now && Bounded(trace, k, rate)
    requires k in x.keys ==> |InWindow(trace, k, rate.window, x.now)| < rate.limit
    ensures Bounded(trace + [x], k, rate)
  {
    var longer := trace + [x];
    forall t: int
      ensures |InWindow(longer, k, rate.window, t)| <= rate.limit
    {
      var here := InWindow(longer, k, rate.window, t);
      if t < x.now || k !in x.keys {
        assert here == InWindow(trace, k, rate.window, t);
      } else {
        var latest := InWindow(trace, k, rate.window, x.now) + {|trace|};
        assert here <= latest;
        SubsetSize(here, latest);
      }
    }
  }

  lemma AddingHolds(stored: map<Member, int>, trace: seq<Accepted>, x: Accepted, k: Key, window: nat)
    requires Holds(stored, trace, k, window, x.now) && x.member !in stored
    requires forall i | 0 <= i < |trace| :: trace[i].member != x.member
    ensures k in x.keys ==> Holds(stored[x.member := x.now], trace + [x], k, window, x.now)
    ensures k !in x.keys ==> Holds(stored, trace + [x], k, window, x.now)
  {
    var longer := trace + [x];
    forall m | m in stored
      ensures exists i: nat :: IsEntry(longer, k, m, stored[m], i)
    {
      var i: nat :| IsEntry(trace, k, m, stored[m], i);
      assert IsEntry(longer, k, m, stored[m], i);
    }
    if k in x.keys {
      assert IsEntry(longer, k, x.member, x.now, |trace|);
    }
  }

  lemma LaterHolds(stored: map<Member, int>, trace: seq<Accepted>, k: Key, window: nat, clock: int, now: int)
    requires Holds(stored, trace, k, window, clock) && clock <= now
    ensures Holds(stored, trace, k, window, now)
  {
  }

  lemma NewMemberNotHeld(stored: map<Member, int>, trace: seq<Accepted>, k: Key, window: nat, clock: int, m: Member)
    requires Holds(stored, trace, k, window, clock)
    requires forall i | 0 <= i < |trace| :: trace[i].member != m
    ensures m !in stored
  {
  }

  function SetOf(sets: map<Key, map<Member, int>>, k: Key): map<Member, int> { if k in sets then sets[k] else map[] }

  ghost predicate AllHold(sets: map<Key, map<Member, int>>, rates: map<Key, Rate>, trace: seq<Accepted>, clock: int) {
    forall k | k in rates :: Holds(SetOf(sets, k), trace, k, rates[k].window, clock)
  }

  ghost predicate AllBounded(rates: map<Key, Rate>, trace: seq<Accepted>) {
    forall k | k in rates :: Bounded(trace, k, rates[k])
  }

  // Every key of the call has room in its window.
  ghost predicate HasRoom(specs: seq<Spec>, rates: map<Key, Rate>, trace: seq<Accepted>, now: int, n: nat)
    requires Agree(specs, rates) && n <= |specs|
  {
    forall j | 0 <= j < n :: |InWindow(trace, specs[j].key, rates[specs[j].key].window, now)| < specs[j].limit
  }

  // The sets of these keys hold nothing older than their own window.
  ghost predicate AllTrimmed(sets: map<Key, map<Member, int>>, rates: map<Key, Rate>, now: int, keys: set<Key>) {
    forall k | k in keys && k in rates :: forall m | m in SetOf(sets, k) :: SetOf(sets, k)[m] > now - rates[k].window
  }

  function Recorded(sets: map<Key, map<Member, int>>, keys: set<Key>, member: Member, now: int,
                    k: Key): map<Member, int> {
    if k in keys then SetOf(sets, k)[member := now] else SetOf(sets, k)
  }

  lemma LaterAllHold(sets: map<Key, map<Member, int>>, rates: map<Key, Rate>, trace: seq<Accepted>, clock: int,
                     now: int)
    requires AllHold(sets, rates, trace, clock) && TraceOk(trace, clock) && clock <= now
    ensures AllHold(sets, rates, trace, now) && TraceOk(trace, now)
  {
    hide Holds;
    forall k | k in rates
      ensures Holds(SetOf(sets, k), trace, k, rates[k].window, now)
    {
      LaterHolds(SetOf(sets, k), trace, k, rates[k].window, clock, now);
    }
  }

  lemma NowhereHeld(sets: map<Key, map<Member, int>>, rates: map<Key, Rate>, trace: seq<Accepted>, clock: int,
                    member: Member)
    requires AllHold(sets, rates, trace, clock)
    requires forall i | 0 <= i < |trace| :: trace[i].member != member
    ensures forall k | k in rates :: member !in SetOf(sets, k)
  {
    hide Holds;
    forall k | k in rates
      ensures member !in SetOf(sets, k)
    {
      NewMemberNotHeld(SetOf(sets, k), trace, k, rates[k].window, clock, member);
    }
  }

  lemma RecordingOk(sets: map<Key, map<Member, int>>, rates: map<Key, Rate>, trace: seq<Accepted>, clock: int,
                    x: Accepted, sets': map<Key, map<Member, int>>)
    requires AllHold(sets, rates, trace, x.now) && TraceOk(trace, clock) && clock <= x.now
    requires forall i | 0 <= i < |trace| :: trace[i].member != x.member
    requires forall k :: SetOf(sets', k) == Recorded(sets, x.keys, x.member, x.now, k)
    ensures AllHold(sets', rates, trace + [x], x.now) && TraceOk(trace + [x], x.now)
  {
    hide Holds;
    NowhereHeld(sets, rates, trace, x.now, x.member);
    forall k | k in rates
      ensures Holds(SetOf(sets', k), trace + [x], k, rates[k].window, x.now)
    {
      AddingHolds(SetOf(sets, k), trace, x, k, rates[k].window);
    }
  }

  lemma AllStillBounded(rates: map<Key, Rate>, trace: seq<Accepted>, clock: int, x: Accepted)
    requires AllBounded(rates, trace) && TraceOk(trace, clock) && clock <= x.now
    requires forall k | k in rates && k in x.keys :: |InWindow(trace, k, rates[k].window, x.now)| < rates[k].limit
    ensures AllBounded(rates, trace + [x])
  {
    hide Bounded, InWindow;
    forall k | k in rates
      ensures Bounded(trace + [x], k, rates[k])
    {
      StillBounded(trace, clock, x, k, rates[k]);
    }
  }

  lemma KeysGrow(specs: seq<Spec>, j: nat)
    requires j < |specs|
    ensures KeysOf(specs[..j + 1]) == KeysOf(specs[..j]) + {specs[j].key}
  {
    assert specs[..j + 1] == specs[..j] + [specs[j]];
  }

  lemma RecordOne(start: map<Key, map<Member, int>>, sets: map<Key, map<Member, int>>, keys: set<Key>, key: Key,
                  member: Member, now: int)
    requires forall k :: SetOf(sets, k) == Recorded(start, keys, member, now, k)
    ensures var after := sets[key := SetOf(sets, key)[member := now]];
            forall k :: SetOf(after, k) == Recorded(start, keys + {key}, member, now, k)
  {
    var after := sets[key := SetOf(sets, key)[member := now]];
    forall k
      ensures SetOf(after, k) == Recorded(start, keys + {key}, member, now, k)
    {
      assert SetOf(sets, k) == Recorded(start, keys, member, now, k);
    }
  }

  lemma NoKeys(specs: seq<Spec>)
    ensures KeysOf(specs[..0]) == {}
  {
  }

  lemma SpecOk(specs: seq<Spec>, rates: map<Key, Rate>, j: nat)
    requires Agree(specs, rates) && j < |specs|
    ensures var spec := specs[j];
            && spec.key in rates && rates[spec.key].window <= spec.window
            && (spec.key !in KeysOf(specs[..j]) ==> spec.window == rates[spec.key].window)
  {
    assert forall i | 0 <= i < j :: specs[i].key == specs[..j][i].key;
  }

  class RateLimitStore {
    var sets: map<Key, map<Member, int>>
    ghost const rates: map<Key, Rate>
    ghost var trace: seq<Accepted>
    ghost var clock: int

    ghost predicate Valid()
      reads this
    {
      TraceOk(trace, clock) && AllHold(sets, rates, trace, clock) && AllBounded(rates, trace)
    }

    constructor (ghost configured: map<Key, Rate>, ghost start: int)
      ensures Valid() && rates == configured && trace == [] && clock == start
    {
      sets := map[];
      rates := configured;
      trace := [];
      clock := start;
      new;
      NothingAccepted(rates);
    }

    // One turn of the first loop.
    method TrimAndCount(now: int, ghost specs: seq<Spec>, spec: Spec, ghost j: nat) returns (count: nat)
      requires Agree(specs, rates) && j < |specs| && specs[j] == spec
      requires TraceOk(trace, now) && AllHold(sets, rates, trace, now)
      requires AllTrimmed(sets, rates, now, KeysOf(specs[..j]))
      modifies this`sets
      ensures AllHold(sets, rates, trace, now) && AllTrimmed(sets, rates, now, KeysOf(specs[..j + 1]))
      ensures count == |InWindow(trace, spec.key, rates[spec.key].window, now)|
    {
      hide Holds, InWindow, KeysOf, Agree, TraceOk;
      SpecOk(specs, rates, j);
      KeysGrow(specs, j);
      TrimmingHolds(SetOf(sets, spec.key), trace, spec.key, rates[spec.key].window, now, spec.window);
      sets := sets[spec.key := Trimmed(SetOf(sets, spec.key), now - spec.window)];
      count := |sets[spec.key]|;
      SizeIsCount(sets[spec.key], trace, spec.key, rates[spec.key].window, now);
    }

    // The first loop: trims and checks the keys in turn, and stops at the first that is full.
    method CheckAll(now: int, specs: seq<Spec>) returns (ok: bool)
      requires Agree(specs, rates) && TraceOk(trace, now) && AllHold(sets, rates, trace, now)
      modifies this`sets
      ensures AllHold(sets, rates, trace, now)
      ensures ok <==> HasRoom(specs, rates, trace, now, |specs|)
    {
      hide Holds, InWindow;
      for j := 0 to |specs|
        invariant AllHold(sets, rates, trace, now) && AllTrimmed(sets, rates, now, KeysOf(specs[..j]))
        invariant HasRoom(specs, rates, trace, now, j)
      {
        var count := TrimAndCount(now, specs, specs[j], j);
        if count >= specs[j].limit {
          return false;
        }
      }
      return true;
    }

    // The second loop: records the operation under every key.
    method RecordAll(now: int, member: Member, specs: seq<Spec>)
      modifies this`sets
      ensures forall k :: SetOf(sets, k) == Recorded(old(sets), KeysOf(specs), member, now, k)
    {
      hide KeysOf;
      NoKeys(specs);
      for j := 0 to |specs|
        invariant forall k :: SetOf(sets, k) == Recorded(old(sets), KeysOf(specs[..j]), member, now, k)
      {
        KeysGrow(specs, j);
        RecordOne(old(sets), sets, KeysOf(specs[..j]), specs[j].key, member, now);
        sets := sets[specs[j].key := SetOf(sets, specs[j].key)[member := now]];
      }
      assert specs[..|specs|] == specs;
    }

    // The script: one operation consumes all its windows, and is recorded under all of its keys or
    // under none.
    method TryConsume(now: int, member: Member, specs: seq<Spec>) returns (ok: bool)
      requires Valid() && clock <= now && Agree(specs, rates)
      requires forall i | 0 <= i < |trace| :: trace[i].member != member
      modifies this
      ensures Valid() && clock == now
      ensures ok <==> HasRoom(specs, rates, old(trace), now, |specs|)
      ensures trace == if ok then old(trace) + [Accepted(now, member, KeysOf(specs))] else old(trace)
      ensures forall k | k in KeysOf(specs) ::
                if ok then member in SetOf(sets, k) && SetOf(sets, k)[member] == now else member !in SetOf(sets, k)
    {
      hide Holds, Bounded, InWindow, HasRoom, TraceOk;
      LaterAllHold(sets, rates, trace, clock, now);
      ok := CheckAll(now, specs);
      NowhereHeld(sets, rates, trace, now, member);
      if ok {
        ghost var checked := sets;
        RecordAll(now, member, specs);
        ghost var x := Accepted(now, member, KeysOf(specs));
        RecordingOk(checked, rates, trace, clock, x, sets);
        OwnLimitsChecked(specs, rates, trace, now);
        AllStillBounded(rates, trace, clock, x);
        trace := trace + [x];
      }
      clock := now;
    }
  }

  lemma NothingAccepted(rates: map<Key, Rate>)
    ensures AllBounded(rates, [])
  {
    assert forall k, w: nat, t :: InWindow([], k, w, t) == {};
  }

  // A trace each of whose operations had room when it came, by a clock that never goes back.
  ghost predicate Admitted(trace: seq<Accepted>, rates: map<Key, Rate>) {
    && (forall i, j | 0 <= i < j < |trace| :: trace[i].now <= trace[j].now && trace[i].member != trace[j].member)
    && (forall i, k | 0 <= i < |trace| && k in trace[i].keys && k in rates ::
          |InWindow(trace[..i], k, rates[k].window, trace[i].now)| < rates[k].limit)
  }

  // Then in the whole run every window of every key holds at most the key's limit.
  lemma {:induction false} AdmittedBounded(trace: seq<Accepted>, rates: map<Key, Rate>)
    requires Admitted(trace, rates)
    ensures AllBounded(rates, trace)
  {
    hide AllBounded, InWindow;
    var n := |trace| - 1;
    if n < 0 {
      NothingAccepted(rates);
    } else {
      var front := trace[..n];
      assert forall i | 0 <= i < n :: front[..i] == trace[..i];
      AdmittedBounded(front, rates);
      AllStillBounded(rates, front, trace[n].now, trace[n]);
      assert front + [trace[n]] == trace;
    }
  }

  // The first spec of a key carries the key's own limit.
  lemma {:induction false} FirstSpec(specs: seq<Spec>, k: Key) returns (j: nat)
    requires k in KeysOf(specs)
    ensures j < |specs| && specs[j].key == k && forall i | 0 <= i < j :: specs[i].key != k
  {
    j := 0;
    while specs[j].key != k
      invariant j < |specs| && forall i | 0 <= i < j :: specs[i].key != k
      decreases |specs| - j
    {
      assert exists i :: j < i < |specs| && specs[i].key == k;
      j := j + 1;
    }
  }

  lemma OwnLimitsChecked(specs: seq<Spec>, rates: map<Key, Rate>, trace: seq<Accepted>, now: int)
    requires Agree(specs, rates) && HasRoom(specs, rates, trace, now, |specs|)
    ensures KeysOf(specs) <= rates.Keys
    ensures forall k | k in KeysOf(specs) :: |InWindow(trace, k, rates[k].window, now)| < rates[k].limit
  {
    hide InWindow;
    forall k | k in KeysOf(specs)
      ensures |InWindow(trace, k, rates[k].window, now)| < rates[k].limit
    {
      var j := FirstSpec(specs, k);
    }
  }

  // ----- Room without counting -----

  // When the operations of a key were accepted.
  function TimesOf(trace: seq<Accepted>, k: Key): seq<int> {
    if trace == [] then []
    else
      var last := trace[|trace| - 1];
      TimesOf(trace[..|trace| - 1], k) + if k in last.keys then [last.now] else []
  }

  lemma {:induction false} TimesAscend(trace: seq<Accepted>, k: Key, clock: int)
    requires TraceOk(trace, clock)
    ensures Ascending(TimesOf(trace, k)) && forall t | t in TimesOf(trace, k) :: t <= clock
  {
    if trace != [] {
      TimesAscend(trace[..|trace| - 1], k, trace[|trace| - 1].now);
      var times := TimesOf(trace[..|trace| - 1], k);
      assert forall i | 0 <= i < |times| :: times[i] in times;
    }
  }

  lemma WindowGrows(front: seq<Accepted>, last: Accepted, k: Key, window: nat, now: int)
    ensures InWindow(front + [last], k, window, now) ==
              InWindow(front, k, window, now) + if k in last.keys && now - window < last.now <= now
                then {|front|} else {}
  {
  }

  lemma OldOnly(trace: seq<Accepted>, k: Key, window: nat, now: int, clock: int)
    requires TraceOk(trace, clock) && clock <= now - window
    ensures InWindow(trace, k, window, now) == {}
  {
  }

  lemma {:induction false} WindowCount(trace: seq<Accepted>, k: Key, window: nat, now: int, clock: int)
    requires TraceOk(trace, clock) && clock <= now
    ensures |InWindow(trace, k, window, now)| == Recent(TimesOf(trace, k), now - window)
  {
    hide InWindow;
    if trace == [] {
      OldOnly(trace, k, window, now, now - window);
    } else {
      var n := |trace| - 1;
      var front, last := trace[..n], trace[n];
      assert trace == front + [last];
      WindowCount(front, k, window, now, last.now);
      WindowGrows(front, last, k, window, now);
      if k in last.keys {
        assert TimesOf(trace, k)[..|TimesOf(front, k)|] == TimesOf(front, k);
        if last.now <= now - window {
          OldOnly(front, k, window, now, last.now);
        } else {
          NewIndex(front, k, window, now);
        }
      } else {
        assert TimesOf(trace, k) == TimesOf(front, k);
      }
    }
  }

  lemma NewIndex(front: seq<Accepted>, k: Key, window: nat, now: int)
    ensures |InWindow(front, k, window, now) + {|front|}| == |InWindow(front, k, window, now)| + 1
  {
  }

  // A key has room exactly if fewer operations than the limit have been accepted under it at all, or
  // the last but so many was accepted a window ago or longer.
  lemma RoomMeans(trace: seq<Accepted>, k: Key, window: nat, limit: nat, now: int, clock: int)
    requires TraceOk(trace, clock) && clock <= now && limit > 0
    ensures var times := TimesOf(trace, k);
            |InWindow(trace, k, window, now)| < limit <==>
              |times| < limit || now - times[|times| - limit] >= window
  {
    WindowCount(trace, k, window, now, clock);
    TimesAscend(trace, k, clock);
    FewRecent(TimesOf(trace, k), now - window, limit);
  }

  // ----- One key passed twice -----

  // The sign-in limiter passes one key for both of its rates.
  function SignInSpecs(k: Key): seq<Spec> { [Spec(k, 5, 10_000), Spec(k, 20, 60_000)] }

  lemma SignInAgrees(k: Key, rates: map<Key, Rate>)
    requires k in rates && rates[k] == Rate(5, 10_000)
    ensures Agree(SignInSpecs(k), rates)
  {
    var specs := SignInSpecs(k);
    assert specs[0].key == specs[1].key;
  }

  // Its second limit never refuses: the set it counts has been trimmed to the first window.
  lemma SignInRoom(k: Key, rates: map<Key, Rate>, trace: seq<Accepted>, now: int)
    requires k in rates && rates[k] == Rate(5, 10_000)
    ensures Agree(SignInSpecs(k), rates)
    ensures HasRoom(SignInSpecs(k), rates, trace, now, 2) <==> |InWindow(trace, k, 10_000, now)| < 5
  {
    hide InWindow;
    SignInAgrees(k, rates);
    assert SignInSpecs(k)[0] == Spec(k, 5, 10_000);
  }

  // Five sign-ins every ten seconds.
  function SignIns(k: Key, n: nat): (trace: seq<Accepted>)
    ensures |trace| == n && forall i | 0 <= i < n :: trace[i] == Accepted(i / 5 * 10_000, Decimal(i), {k})
  {
    seq(n, (i: nat) => Accepted(i / 5 * 10_000, Decimal(i), {k}))
  }

  // All of them are accepted, so a minute can hold thirty, more than the twenty the second rate names.
  lemma SignInMinuteHoldsThirty(k: Key, rates: map<Key, Rate>)
    requires k in rates && rates[k] == Rate(5, 10_000)
    ensures Agree(SignInSpecs(k), rates)
    ensures forall n: nat | n < 30 :: HasRoom(SignInSpecs(k), rates, SignIns(k, n), n / 5 * 10_000, 2)
    ensures |InWindow(SignIns(k, 30), k, 60_000, 50_000)| == 30
  {
    hide HasRoom, InWindow, SignIns;
    SignInAgrees(k, rates);
    forall n: nat | n < 30
      ensures HasRoom(SignInSpecs(k), rates, SignIns(k, n), n / 5 * 10_000, 2)
    {
      SignInRoom(k, rates, SignIns(k, n), n / 5 * 10_000);
      RecentSignIns(k, n);
    }
    SignInsOfAMinute(k, 30);
  }

  // But never more than thirty: a minute is six of the shorter windows.
  lemma SignInMinuteBound(k: Key, rates: map<Key, Rate>, trace: seq<Accepted>, t: int)
    requires k in rates && rates[k] == Rate(5, 10_000) && AllBounded(rates, trace)
    ensures |InWindow(trace, k, 60_000, t)| <= 30
  {
    assert Bounded(trace, k, rates[k]);
    WindowsAddUp(trace, k, rates[k], 6, t);
  }

  // Over a whole number of its windows a key holds at most that many times its limit.
  lemma {:induction false} WindowsAddUp(trace: seq<Accepted>, k: Key, rate: Rate, times: nat, t: int)
    requires Bounded(trace, k, rate)
    ensures |InWindow(trace, k, times * rate.window, t)| <= times * rate.limit
    decreases times
  {
    if times == 0 {
      assert InWindow(trace, k, 0, t) == {};
    } else {
      WindowsAddUp(trace, k, rate, times - 1, t - rate.window);
      TwoWindows(trace, k, (times - 1) * rate.window, rate.window, t);
      assert |InWindow(trace, k, rate.window, t)| <= rate.limit;
      assert times * rate.window == (times - 1) * rate.window + rate.window;
      assert times * rate.limit == (times - 1) * rate.limit + rate.limit;
    }
  }

  lemma TwoWindows(trace: seq<Accepted>, k: Key, w1: nat, w2: nat, t: int)
    ensures |InWindow(trace, k, w1 + w2, t)| <= |InWindow(trace, k, w1, t - w2)| + |InWindow(trace, k, w2, t)|
  {
    var first, second := InWindow(trace, k, w1, t - w2), InWindow(trace, k, w2, t);
    assert InWindow(trace, k, w1 + w2, t) == first + second;
    assert first * second == {};
  }

  lemma SignInsOfAMinute(k: Key, n: nat)
    requires n <= 30
    ensures |InWindow(SignIns(k, n), k, 60_000, 50_000)| == n
  {
    hide Decimal;
    var trace := SignIns(k, n);
    forall i: nat | i < n
      ensures k in trace[i].keys && -10_000 < trace[i].now <= 50_000
    {
      assert trace[i] == Accepted(i / 5 * 10_000, Decimal(i), {k});
    }
    assert InWindow(trace, k, 60_000, 50_000) == Range(0, n);
  }

  lemma RecentSignIns(k: Key, n: nat)
    ensures |InWindow(SignIns(k, n), k, 10_000, n / 5 * 10_000)| < 5
  {
    var low := n / 5 * 5;
    var recent := InWindow(SignIns(k, n), k, 10_000, n / 5 * 10_000);
    var few := Range(low, n);
    forall i | i in recent
      ensures i in few
    {
      assert i / 5 >= n / 5;
    }
    SubsetSize(recent, few);
  }
}
