// The append script of server/Services/RedisProjectTreeStore.cs: recognition of known operations,
// admission, incremental compaction and the bounded history.
module RedisProjectTrees {
  import opened Wrappers
  import opened Text
  import opened CrdtIds
  import opened ProjectOps
  import opened ParentChains
  import opened ProjectRegisters
  import opened ProjectEntries
  import opened ProjectTreeObject

  const MAX_DEPTH: nat := 32
  const MAX_ENTRIES: nat := 500
  const HISTORY_LENGTH: nat := 1000

  // The keys of one room.
  datatype Store = Store(
    history: seq<CrdtId>,
    index: map<CrdtId, TreeOp>,
    snapshot: map<CrdtId, TreeOp>,
    entryIndex: map<EntryId, CrdtId>,
    siteCounters: map<JsString, nat>,
    siteLast: map<JsString, TreeOp>)

  // operationValue: everything but the id.
  predicate SameValue(a: TreeOp, b: TreeOp) { a == b.(opId := a.opId) }

  function PreviousCounter(s: Store, site: JsString): nat {
    if site in s.siteCounters then s.siteCounters[site] else 0
  }

  // The answer to an operation that is not taken for new: 0 for a repetition, -1 for a conflict.
  function Recognised(s: Store, op: TreeOp): Option<int> {
    var site, previous := op.opId.siteId, PreviousCounter(s, op.opId.siteId);
    if op.opId.counter == previous && site in s.siteLast then Some(if SameValue(s.siteLast[site], op) then 0 else -1)
    else if op.opId in s.snapshot then Some(if SameValue(s.snapshot[op.opId], op) then 0 else -1)
    else if op.opId in s.index then Some(if SameValue(s.index[op.opId], op) then 0 else -1)
    else if op.opId.counter <= previous then Some(0)
    else None
  }

  // ----- Depth -----

  ghost predicate Ends(par: Parents, e: EntryId) { exists n: nat :: Ancestor(par, e, n).None? }

  // An entry whose chain of parents is neither hidden by a deletion nor cyclic.
  ghost predicate Measured(regs: Registers, e: EntryId) { Shown(regs, e) && Ends(RawParents(regs), e) }

  // The entry is one level and each ancestor another.
  ghost predicate WithinDepth(regs: Registers, e: EntryId) { Ancestor(RawParents(regs), e, MAX_DEPTH).None? }

  ghost predicate DepthOk(regs: Registers) { forall e | Measured(regs, e) :: WithinDepth(regs, e) }

  function DepthRoot(op: TreeOp): Option<EntryId> {
    if op.CreateOp? || op.MoveOp? then Some(EntryOf(op)) else None
  }

  ghost predicate TooDeepBelow(regs: Registers, root: Option<EntryId>, e: EntryId) {
    root.Some? && Measured(regs, e) && Reaches(RawParents(regs), e, root.value) && !WithinDepth(regs, e)
  }

  // ----- Admission -----

  // What the script refuses, in its order; nameClash stands for its comparison of sibling names.
  ghost function Refusal(s: Store, op: TreeOp, regs: Registers, nameClash: bool): Option<int> {
    if op.CreateOp? && op.entry.id in s.entryIndex && s.entryIndex[op.entry.id] != op.opId then Some(-3)
    else if exists e :: TooDeepBelow(regs, DepthRoot(op), e) then Some(-6)
    else if op.CreateOp? && |ShownEntries(regs)| > MAX_ENTRIES then Some(-5)
    else if !op.RemoveOp? && nameClash then Some(-7)
    else None
  }

  // The newest entries of a list.
  function LastOf<T>(s: seq<T>, n: nat): seq<T> { if |s| <= n then s else s[|s| - n..] }

  lemma LastOfMeans<T>(front: seq<T>, back: seq<T>)
    ensures LastOf(front + back, |back|) == back
    ensures LastOf(back, |front + back|) == back
  {
    assert (front + back)[|front|..] == back;
  }

  function IdsOf(ops: seq<TreeOp>): (ids: seq<CrdtId>)
    ensures |ids| == |ops| && forall i | 0 <= i < |ops| :: ids[i] == ops[i].opId
  {
    seq(|ops|, i requires 0 <= i < |ops| => ops[i].opId)
  }

  // ----- The store after the accepted operations of a run -----

  ghost predicate CountersOk(s: Store, accepted: seq<TreeOp>) {
    && (forall op | op in accepted ::
          op.opId.siteId in s.siteCounters && op.opId.counter <= s.siteCounters[op.opId.siteId])
    && (forall site | site in s.siteLast ::
          s.siteLast[site] in accepted && s.siteLast[site].opId == CrdtId(site, PreviousCounter(s, site)))
    && s.siteCounters.Keys == s.siteLast.Keys
  }

  ghost predicate HistoryOk(s: Store, accepted: seq<TreeOp>) {
    && s.history == IdsOf(LastOf(accepted, HISTORY_LENGTH))
    && Indexes(s.index, LastOf(accepted, HISTORY_LENGTH))
  }

  ghost predicate Indexes(index: map<CrdtId, TreeOp>, ops: seq<TreeOp>) {
    && (forall op | op in ops :: op.opId in index && index[op.opId] == op)
    && (forall id | id in index :: index[id].opId == id && index[id] in ops)
  }

  lemma IndexValues(index: map<CrdtId, TreeOp>, ops: seq<TreeOp>)
    requires Indexes(index, ops)
    ensures index.Values == Batch(ops)
  {
    forall op | op in ops
      ensures op in index.Values
    {
      assert index[op.opId] == op;
    }
  }

  ghost predicate SnapshotOk(s: Store, accepted: seq<TreeOp>) {
    && s.snapshot.Values == Survivors(Batch(accepted))
    && (forall id | id in s.snapshot :: s.snapshot[id].opId == id)
  }

  // At most one create is ever accepted for an entry.
  ghost predicate EntryIndexOk(s: Store, accepted: seq<TreeOp>) {
    && (forall op | op in accepted && op.CreateOp? ::
          op.entry.id in s.entryIndex && s.entryIndex[op.entry.id] == op.opId)
    && (forall e | e in s.entryIndex :: AcceptedCreate(accepted, e, s.entryIndex[e]))
  }

  ghost predicate AcceptedCreate(accepted: seq<TreeOp>, e: EntryId, id: CrdtId) {
    exists op :: op in accepted && op.CreateOp? && op.entry.id == e && op.opId == id
  }

  // No two operations of a list share an id.
  ghost predicate DistinctOps(ops: seq<TreeOp>) {
    forall i, j | 0 <= i < j < |ops| :: ops[i].opId != ops[j].opId
  }

  ghost predicate StoreOk(s: Store, accepted: seq<TreeOp>) {
    && DistinctOps(accepted)
    && CountersOk(s, accepted) && HistoryOk(s, accepted) && SnapshotOk(s, accepted) && EntryIndexOk(s, accepted)
    && DepthOk(RegistersOf(Batch(accepted)))
  }

  lemma DistinctUnique(ops: seq<TreeOp>)
    requires DistinctOps(ops)
    ensures UniqueIds(Batch(ops))
  {
  }

  // The list grows at its end and loses what exceeds its length at its front, with the index.
  ghost predicate HistoryAppended(s: Store, op: TreeOp, s': Store) {
    && s'.history == LastOf(s.history + [op.opId], HISTORY_LENGTH)
    && s'.index == map id | id in s.index[op.opId := op] && id in s'.history :: s.index[op.opId := op][id]
  }

  // The store after an accepted operation.
  ghost predicate Appended(s: Store, op: TreeOp, s': Store) {
    && HistoryAppended(s, op, s')
    && s'.snapshot.Values == Compacted(RegistersOf(s.snapshot.Values + {op}))
    && (forall id | id in s'.snapshot :: s'.snapshot[id].opId == id)
    && s'.entryIndex == (if op.CreateOp? then s.entryIndex[op.entry.id := op.opId] else s.entryIndex)
    && s'.siteCounters == s.siteCounters[op.opId.siteId := op.opId.counter]
    && s'.siteLast == s.siteLast[op.opId.siteId := op]
  }

  lemma BatchAppend(ops: seq<TreeOp>, op: TreeOp)
    ensures Batch(ops + [op]) == Batch(ops) + {op}
  {
  }

  // An operation that is not recognised carries an id above every accepted one of its site.
  lemma UnrecognisedIsNew(s: Store, accepted: seq<TreeOp>, op: TreeOp)
    requires StoreOk(s, accepted) && Recognised(s, op).None?
    ensures DistinctOps(accepted + [op]) && UniqueIds(Batch(accepted) + {op})
    ensures forall o | o in accepted && o.opId.siteId == op.opId.siteId :: o.opId.counter < op.opId.counter
  {
    hide HistoryOk, SnapshotOk, EntryIndexOk, DepthOk;
    forall o | o in accepted && o.opId.siteId == op.opId.siteId
      ensures o.opId.counter < op.opId.counter
    {
    }
    DistinctUnique(accepted + [op]);
    BatchAppend(accepted, op);
  }

  // Below the last counter of its site, and held in neither snapshot nor index. A site that was never
  // heard of counts as one that stopped at 0.
  predicate Overtaken(s: Store, op: TreeOp) {
    && (op.opId.counter < PreviousCounter(s, op.opId.siteId) || (op.opId.counter == 0 && op.opId.siteId !in s.siteLast))
    && op.opId !in s.snapshot && op.opId !in s.index
  }

  // An accepted operation that comes again is always answered 0, and one that was never accepted
  // exactly if it was overtaken. Otherwise the answer is -1 exactly against a different operation
  // that was accepted under the id, and an operation is taken for new exactly if there is none.
  lemma RecognitionIsSound(s: Store, accepted: seq<TreeOp>, op: TreeOp)
    requires StoreOk(s, accepted)
    ensures op in accepted ==> Recognised(s, op) == Some(0)
    ensures op !in accepted ==> (Recognised(s, op) == Some(0) <==> Overtaken(s, op))
    ensures Recognised(s, op) == Some(-1) <==>
              !Overtaken(s, op) && exists o :: o in accepted && o.opId == op.opId && o != op
    ensures Recognised(s, op).None? <==> !Overtaken(s, op) && forall o | o in accepted :: o.opId != op.opId
  {
    hide StoreOk, Recognised, Overtaken;
    if exists o :: o in accepted && o.opId == op.opId {
      var o :| o in accepted && o.opId == op.opId;
      KnownIdAnswer(s, accepted, op, o);
    } else {
      NewIdAnswer(s, accepted, op);
    }
  }

  // An id that was accepted is answered by comparing with what was accepted under it, or with 0 if
  // that is no longer held.
  lemma KnownIdAnswer(s: Store, accepted: seq<TreeOp>, op: TreeOp, o: TreeOp)
    requires StoreOk(s, accepted) && o in accepted && o.opId == op.opId
    ensures o == op ==> Recognised(s, op) == Some(0)
    ensures o != op ==> Recognised(s, op) == if Overtaken(s, op) then Some(0) else Some(-1)
    ensures forall p | p in accepted && p.opId == op.opId :: p == o
  {
    hide StoreOk, CountersOk, DistinctOps;
    StoredIsAccepted(s, accepted, op.opId);
    DistinctUnique(accepted);
    LastIsAccepted(s, accepted, o);
    assert forall p | p in accepted :: p in Batch(accepted);
  }

  lemma NewIdAnswer(s: Store, accepted: seq<TreeOp>, op: TreeOp)
    requires StoreOk(s, accepted) && forall o | o in accepted :: o.opId != op.opId
    ensures Recognised(s, op) == if Overtaken(s, op) then Some(0) else None
    ensures op !in accepted
  {
    hide StoreOk, CountersOk, DistinctOps;
    StoredIsAccepted(s, accepted, op.opId);
    LastIsAccepted(s, accepted, op);
  }

  // What the store still holds under an id was accepted under it.
  lemma StoredIsAccepted(s: Store, accepted: seq<TreeOp>, id: CrdtId)
    requires StoreOk(s, accepted)
    ensures DistinctOps(accepted) && CountersOk(s, accepted)
    ensures id in s.snapshot ==> s.snapshot[id] in Batch(accepted) && s.snapshot[id].opId == id
    ensures id in s.index ==> s.index[id] in Batch(accepted) && s.index[id].opId == id
  {
    hide DepthOk, EntryIndexOk, CountersOk;
    LastOfMembers(accepted, HISTORY_LENGTH);
    if id in s.snapshot {
      assert s.snapshot[id] in s.snapshot.Values;
    }
  }

  lemma LastIsAccepted(s: Store, accepted: seq<TreeOp>, op: TreeOp)
    requires CountersOk(s, accepted)
    ensures var site := op.opId.siteId;
            && (site in s.siteLast ==> s.siteLast[site] in Batch(accepted))
            && (site in s.siteLast ==> s.siteLast[site].opId == CrdtId(site, PreviousCounter(s, site)))
            && (site !in s.siteLast ==> PreviousCounter(s, site) == 0)
            && (op in accepted ==> site in s.siteLast && op.opId.counter <= PreviousCounter(s, site))
  {
  }

  // So an operation that first arrives after a later one of its site is answered 0 and never kept.
  lemma OvertakenIsLost(s: Store, accepted: seq<TreeOp>, later: TreeOp, op: TreeOp)
    requires StoreOk(s, accepted) && later in accepted && forall o | o in accepted :: o.opId != op.opId
    requires later.opId.siteId == op.opId.siteId && op.opId.counter < later.opId.counter
    ensures op !in accepted && Recognised(s, op) == Some(0)
  {
    hide StoreOk;
    StoredIsAccepted(s, accepted, op.opId);
    RecognitionIsSound(s, accepted, op);
  }

  lemma LastOfMembers(ops: seq<TreeOp>, n: nat)
    ensures Batch(LastOf(ops, n)) <= Batch(ops)
  {
  }

  // ----- Incremental compaction -----

  lemma SnapshotStep(s: Store, accepted: seq<TreeOp>, op: TreeOp, s': Store)
    requires StoreOk(s, accepted) && UniqueIds(Batch(accepted) + {op}) && Appended(s, op, s')
    ensures SnapshotOk(s', accepted + [op])
    ensures RegistersOf(s.snapshot.Values + {op}) == RegistersOf(Batch(accepted + [op]))
  {
    hide RegistersOf, Survivors, Compacted, UniqueIds, HistoryOk, CountersOk, EntryIndexOk, DepthOk;
    BatchAppend(accepted, op);
    CompactionPreservesMeaning(Batch(accepted), {op});
    CompactedIsSurvivors(Batch(accepted + [op]));
  }

  lemma HistoryStep(s: Store, accepted: seq<TreeOp>, op: TreeOp, s': Store)
    requires HistoryOk(s, accepted) && DistinctOps(accepted + [op]) && HistoryAppended(s, op, s')
    ensures HistoryOk(s', accepted + [op])
  {
    var now, before := LastOf(accepted + [op], HISTORY_LENGTH), LastOf(accepted, HISTORY_LENGTH);
    HistoryIds(accepted, op);
    forall o | o in now
      ensures o.opId in s'.index && s'.index[o.opId] == o
    {
      NewIndex(s, accepted, op, s', o);
    }
    forall id | id in s'.index
      ensures s'.index[id].opId == id && s'.index[id] in now
    {
      var i: nat :| i < |s'.history| && s'.history[i] == id;
      assert now[i] in now && now[i].opId == id;
    }
  }

  lemma HistoryIds(accepted: seq<TreeOp>, op: TreeOp)
    ensures LastOf(IdsOf(LastOf(accepted, HISTORY_LENGTH)) + [op.opId], HISTORY_LENGTH) ==
              IdsOf(LastOf(accepted + [op], HISTORY_LENGTH))
    ensures forall o :: o in LastOf(accepted + [op], HISTORY_LENGTH) ==>
              o == op || o in LastOf(accepted, HISTORY_LENGTH)
  {
  }

  lemma NewIndex(s: Store, accepted: seq<TreeOp>, op: TreeOp, s': Store, o: TreeOp)
    requires HistoryOk(s, accepted) && DistinctOps(accepted + [op]) && HistoryAppended(s, op, s')
    requires o in LastOf(accepted + [op], HISTORY_LENGTH)
    ensures o.opId in s'.index && s'.index[o.opId] == o
  {
    hide LastOf;
    var now := LastOf(accepted + [op], HISTORY_LENGTH);
    HistoryIds(accepted, op);
    var i: nat :| i < |now| && now[i] == o;
    assert s'.history[i] == o.opId;
    if o != op {
      IsListed(accepted, o, op);
    }
  }

  lemma IsListed(accepted: seq<TreeOp>, o: TreeOp, op: TreeOp)
    requires o in LastOf(accepted, HISTORY_LENGTH) && DistinctOps(accepted + [op])
    ensures o.opId != op.opId
  {
    var i: nat :| i < |accepted| && accepted[i] == o;
    assert (accepted + [op])[i] == o && (accepted + [op])[|accepted|] == op;
  }

  // ----- The depth invariant -----

  // Only the chain that passes through the created or moved entry changes.
  lemma OtherEdgesKept(ops: set<TreeOp>, op: TreeOp, x: EntryId)
    requires UniqueIds(ops + {op}) && DepthRoot(op) != Some(x)
    ensures Up(RawParents(RegistersOf(ops + {op})), x) == Up(RawParents(RegistersOf(ops)), x)
  {
    hide RegistersOf, UniqueIds, CompareCrdtIds;
    RegistersAfter(ops, op);
  }

  lemma DeletedOnlyByRemove(ops: set<TreeOp>, op: TreeOp)
    requires UniqueIds(ops + {op})
    ensures RegistersOf(ops).deleted.Keys <= RegistersOf(ops + {op}).deleted.Keys
    ensures RegistersOf(ops).creates.Keys <= RegistersOf(ops + {op}).creates.Keys
    ensures forall e | e in RegistersOf(ops + {op}).creates :: e in RegistersOf(ops).creates || DepthRoot(op) == Some(e)
  {
    hide RegistersOf, UniqueIds, CompareCrdtIds;
    RegistersAfter(ops, op);
  }

  // An entry whose chain avoids the depth root was measured before, with the same chain.
  lemma MeasuredBefore(ops: set<TreeOp>, op: TreeOp, e: EntryId)
    requires UniqueIds(ops + {op}) && Measured(RegistersOf(ops + {op}), e)
    requires DepthRoot(op).Some? ==> !Reaches(RawParents(RegistersOf(ops + {op})), e, DepthRoot(op).value)
    ensures Measured(RegistersOf(ops), e)
    ensures WithinDepth(RegistersOf(ops), e) ==> WithinDepth(RegistersOf(ops + {op}), e)
  {
    hide RegistersOf, UniqueIds, RawParents;
    var before, after := RegistersOf(ops), RegistersOf(ops + {op});
    DeletedOnlyByRemove(ops, op);
    assert IsAncestor(RawParents(after), e, 0, e);
    forall n: nat
      ensures Ancestor(RawParents(before), e, n) == Ancestor(RawParents(after), e, n)
    {
      forall m: nat, y | m < n && IsAncestor(RawParents(after), e, m, y)
        ensures Up(RawParents(before), y) == Up(RawParents(after), y)
      {
        assert Reaches(RawParents(after), e, y);
        OtherEdgesKept(ops, op, y);
      }
      SameChain(RawParents(after), RawParents(before), e, n);
    }
    forall y | Reaches(RawParents(before), e, y)
      ensures Reaches(RawParents(after), e, y)
    {
      var n: nat :| IsAncestor(RawParents(before), e, n, y);
      assert IsAncestor(RawParents(after), e, n, y);
    }
  }

  // Whatever is accepted, no entry stands deeper than allowed - neither where it is put, nor where
  // a later move brings it out from under a deleted folder or frees it from a cycle.
  lemma DepthStep(ops: set<TreeOp>, op: TreeOp)
    requires UniqueIds(ops + {op}) && DepthOk(RegistersOf(ops))
    requires !exists e :: TooDeepBelow(RegistersOf(ops + {op}), DepthRoot(op), e)
    ensures DepthOk(RegistersOf(ops + {op}))
  {
    hide RegistersOf, UniqueIds, Measured, WithinDepth, Reaches;
    var after := RegistersOf(ops + {op});
    forall e | Measured(after, e)
      ensures WithinDepth(after, e)
    {
      if DepthRoot(op).Some? && Reaches(RawParents(after), e, DepthRoot(op).value) {
        assert !TooDeepBelow(after, DepthRoot(op), e);
      } else {
        MeasuredBefore(ops, op, e);
      }
    }
  }

  // ----- One accepted append keeps everything -----

  lemma AppendKeepsStoreOk(s: Store, accepted: seq<TreeOp>, op: TreeOp, nameClash: bool, s': Store)
    requires StoreOk(s, accepted) && Recognised(s, op).None?
    requires Refusal(s, op, RegistersOf(s.snapshot.Values + {op}), nameClash).None?
    requires Appended(s, op, s')
    ensures StoreOk(s', accepted + [op])
  {
    hide RegistersOf, DepthOk, Recognised, HistoryOk, SnapshotOk, CountersOk, EntryIndexOk;
    hide Compacted, TooDeepBelow, ShownEntries;
    UnrecognisedIsNew(s, accepted, op);
    SnapshotStep(s, accepted, op, s');
    BatchAppend(accepted, op);
    DepthStep(Batch(accepted), op);
    HistoryStep(s, accepted, op, s');
    CountersStep(s, accepted, op, s');
    EntryIndexStep(s, accepted, op, s');
  }

  lemma CountersStep(s: Store, accepted: seq<TreeOp>, op: TreeOp, s': Store)
    requires CountersOk(s, accepted) && Recognised(s, op).None? && Appended(s, op, s')
    ensures CountersOk(s', accepted + [op])
  {
    hide Compacted, RegistersOf;
  }

  lemma EntryIndexStep(s: Store, accepted: seq<TreeOp>, op: TreeOp, s': Store)
    requires EntryIndexOk(s, accepted) && Appended(s, op, s')
    requires op.CreateOp? && op.entry.id in s.entryIndex ==> s.entryIndex[op.entry.id] == op.opId
    ensures EntryIndexOk(s', accepted + [op])
  {
    hide Compacted, RegistersOf;
    forall e | e in s'.entryIndex
      ensures AcceptedCreate(accepted + [op], e, s'.entryIndex[e])
    {
      if op.CreateOp? && e == op.entry.id {
        assert op in accepted + [op];
      } else {
        var o :| o in accepted && o.CreateOp? && o.entry.id == e && o.opId == s.entryIndex[e];
        assert o in accepted + [op];
      }
    }
  }

  // ----- What the refusals mean -----

  ghost predicate CreatedBefore(accepted: seq<TreeOp>, op: TreeOp) {
    op.CreateOp? && exists o :: o in accepted && o.CreateOp? && o.entry.id == op.entry.id
  }

  // The chain above e, which the operation creates or moves or which it hangs below, has 32 ancestors
  // or more, but ends, and nothing on it is deleted.
  ghost predicate LiesTooDeep(regs: Registers, op: TreeOp, e: EntryId) {
    && (op.CreateOp? || op.MoveOp?) && Reaches(RawParents(regs), e, EntryOf(op))
    && e in ShownEntries(regs) && Ancestor(RawParents(regs), e, 32).Some? && Ends(RawParents(regs), e)
  }

  // For an operation that is taken for new: which answer is given, in the order in which they are.
  lemma RefusalMeans(s: Store, accepted: seq<TreeOp>, op: TreeOp, regs: Registers, nameClash: bool)
    requires StoreOk(s, accepted) && Recognised(s, op).None?
    ensures var created, deep := CreatedBefore(accepted, op), exists e :: LiesTooDeep(regs, op, e);
            var many := op.CreateOp? && |ShownEntries(regs)| > 500;
            Refusal(s, op, regs, nameClash) ==
              if created then Some(-3) else if deep then Some(-6) else if many then Some(-5)
              else if !op.RemoveOp? && nameClash then Some(-7) else None
  {
    hide StoreOk, Recognised, Measured, Reaches, Ends, WithinDepth, RawParents, ShownEntries;
    RecognitionIsSound(s, accepted, op);
    CreatedMeans(s, accepted, op);
    forall e
      ensures TooDeepBelow(regs, DepthRoot(op), e) <==> LiesTooDeep(regs, op, e)
    {
      TooDeepMeans(regs, op, e);
    }
    if e :| TooDeepBelow(regs, DepthRoot(op), e) {
      assert LiesTooDeep(regs, op, e);
    }
    if e :| LiesTooDeep(regs, op, e) {
      assert TooDeepBelow(regs, DepthRoot(op), e);
    }
  }

  lemma TooDeepMeans(regs: Registers, op: TreeOp, e: EntryId)
    ensures TooDeepBelow(regs, DepthRoot(op), e) <==> LiesTooDeep(regs, op, e)
  {
    hide Reaches, Ends, Ancestor;
  }

  lemma CreatedMeans(s: Store, accepted: seq<TreeOp>, op: TreeOp)
    requires StoreOk(s, accepted) && forall o | o in accepted :: o.opId != op.opId
    ensures (op.CreateOp? && op.entry.id in s.entryIndex && s.entryIndex[op.entry.id] != op.opId) <==>
              CreatedBefore(accepted, op)
  {
    hide DistinctOps, CountersOk, HistoryOk, SnapshotOk, DepthOk;
    if op.CreateOp? && op.entry.id in s.entryIndex {
      var o :| o in accepted && o.CreateOp? && o.entry.id == op.entry.id && o.opId == s.entryIndex[op.entry.id];
      assert CreatedBefore(accepted, op);
    }
  }

  const EMPTY_STORE := Store([], map[], map[], map[], map[], map[])

  // A run of accepted appends from the empty store, with the store after each of them. A name check
  // could only shorten the run.
  ghost predicate IsRun(stores: seq<Store>, ops: seq<TreeOp>) {
    && |stores| == |ops| + 1 && stores[0] == EMPTY_STORE
    && (forall i | 0 <= i < |ops| ::
          && Recognised(stores[i], ops[i]).None?
          && Refusal(stores[i], ops[i], RegistersOf(stores[i].snapshot.Values + {ops[i]}), false).None?
          && Appended(stores[i], ops[i], stores[i + 1]))
  }

  lemma {:induction false} RunStoreOk(stores: seq<Store>, ops: seq<TreeOp>, n: nat)
    requires IsRun(stores, ops) && n <= |ops|
    ensures StoreOk(stores[n], ops[..n])
  {
    hide RegistersOf, Recognised, Refusal, Appended, StoreOk;
    if n == 0 {
      EmptyOk(stores[0]);
      assert ops[..0] == [];
    } else {
      RunStoreOk(stores, ops, n - 1);
      AppendKeepsStoreOk(stores[n - 1], ops[..n - 1], ops[n - 1], false, stores[n]);
      assert ops[..n - 1] + [ops[n - 1]] == ops[..n];
    }
  }

  // The history lists the newest operations in their order, at most 1000, each held under its id.
  ghost predicate KeepsNewest(s: Store, accepted: seq<TreeOp>) {
    && |s.history| == (if |accepted| < 1000 then |accepted| else 1000)
    && (forall i | 0 <= i < |s.history| :: s.history[i] == accepted[|accepted| - |s.history| + i].opId)
    && (forall i | 0 <= i < |s.history| ::
          s.history[i] in s.index && s.index[s.history[i]] == accepted[|accepted| - |s.history| + i])
    && (forall id | id in s.index :: id in s.history)
  }

  // No shown entry whose chain of parents ends has 32 ancestors.
  ghost predicate NoneTooDeep(regs: Registers) {
    forall e | e in ShownEntries(regs) && Ends(RawParents(regs), e) :: Ancestor(RawParents(regs), e, 32).None?
  }

  // In every state of every run: no entry is too deep; the snapshot alone, or followed by the retained
  // history, decides every register as all accepted operations do; and the history keeps the newest.
  lemma EveryRun(stores: seq<Store>, ops: seq<TreeOp>, n: nat)
    requires IsRun(stores, ops) && n <= |ops|
    ensures UniqueIds(Batch(ops[..n]))
    ensures RegistersOf(stores[n].snapshot.Values) == RegistersOf(Batch(ops[..n]))
    ensures RegistersOf(stores[n].snapshot.Values + stores[n].index.Values) == RegistersOf(Batch(ops[..n]))
    ensures NoneTooDeep(RegistersOf(Batch(ops[..n]))) && KeepsNewest(stores[n], ops[..n])
  {
    assert |stores| == |ops| + 1;
    hide RegistersOf, UniqueIds, Batch, NoneTooDeep, KeepsNewest, IsRun, StoreOk;
    RunStoreOk(stores, ops, n);
    LateJoinerRegisters(stores[n], ops[..n]);
    StoreKeepsNewest(stores[n], ops[..n]);
  }

  lemma StoreKeepsNewest(s: Store, accepted: seq<TreeOp>)
    requires StoreOk(s, accepted)
    ensures NoneTooDeep(RegistersOf(Batch(accepted))) && KeepsNewest(s, accepted)
  {
    hide RegistersOf, Batch, HistoryOk, CountersOk, SnapshotOk, EntryIndexOk;
    hide DistinctOps, Ends, RawParents, Ancestor, ShownEntries, Shown, DepthOk, NoneTooDeep, KeepsNewest;
    HistoryIsNewest(s, accepted);
    DepthMeans(RegistersOf(Batch(accepted)));
  }

  lemma HistoryIsNewest(s: Store, accepted: seq<TreeOp>)
    requires HistoryOk(s, accepted)
    ensures KeepsNewest(s, accepted)
  {
    var now := LastOf(accepted, HISTORY_LENGTH);
    forall i | 0 <= i < |s.history|
      ensures s.history[i] in s.index && s.index[s.history[i]] == accepted[|accepted| - |s.history| + i]
    {
      assert now[i] in now;
    }
    forall id | id in s.index
      ensures id in s.history
    {
      var i :| 0 <= i < |now| && now[i] == s.index[id];
      assert s.history[i] == id;
    }
  }

  lemma HistoryIsNewestNow(s: Store, accepted: seq<TreeOp>)
    requires StoreOk(s, accepted) && accepted != []
    ensures s.history != [] && s.history[|s.history| - 1] == accepted[|accepted| - 1].opId
    ensures accepted[|accepted| - 1].opId in s.index
  {
    hide HistoryOk, CountersOk, SnapshotOk, EntryIndexOk, DepthOk;
    HistoryIsNewest(s, accepted);
  }

  lemma DepthMeans(regs: Registers)
    ensures DepthOk(regs) <==> NoneTooDeep(regs)
  {
    hide RawParents, Ends, Ancestor, ReachesAny;
    forall e
      ensures Measured(regs, e) <==> e in ShownEntries(regs) && Ends(RawParents(regs), e)
      ensures WithinDepth(regs, e) <==> Ancestor(RawParents(regs), e, 32).None?
    {
    }
  }

  // ----- Late joiners -----

  // The stored snapshot with the retained history decides every register as the full history does.
  lemma LateJoinerRegisters(s: Store, accepted: seq<TreeOp>)
    requires StoreOk(s, accepted)
    ensures UniqueIds(Batch(accepted))
    ensures s.snapshot.Values + s.index.Values <= Batch(accepted)
    ensures RegistersOf(s.snapshot.Values) == RegistersOf(Batch(accepted))
    ensures RegistersOf(s.snapshot.Values + s.index.Values) == RegistersOf(Batch(accepted))
  {
    hide RegistersOf, Survivors, UniqueIds, CountersOk, EntryIndexOk, DepthOk;
    DistinctUnique(accepted);
    LastOfMembers(accepted, HISTORY_LENGTH);
    IndexValues(s.index, LastOf(accepted, HISTORY_LENGTH));
    var all := Batch(accepted);
    CompactionPreservesMeaning(all, {});
    assert all + {} == all && Survivors(all) + {} == Survivors(all);
    var x := s.snapshot.Values + s.index.Values;
    RegistersBetween(all, x, {});
    assert x + {} == x;
  }

  // ----- Measuring one entry -----

  lemma FirstParent(par: Parents, e: EntryId, first: EntryId, n: nat)
    requires Up(par, e) == Some(first)
    ensures Ancestor(par, e, n + 1) == Ancestor(par, first, n)
  {
    assert Ancestor(par, e, 1) == Up(par, e);
    AncestorAdd(par, e, 1, first, n);
  }

  // The walk above e as the script does it: from the parent of e on, e itself not marked.
  ghost predicate Climbed(regs: Registers, e: EntryId, path: seq<EntryId>, next: Option<EntryId>) {
    && e in regs.creates && e !in regs.deleted
    && (forall y | y in path :: y !in regs.deleted)
    && (match RawParents(regs)[e]
        case None => path == [] && next == None
        case Some(first) => IsWalk(RawParents(regs), first, path, next))
  }

  lemma ClimbStep(regs: Registers, e: EntryId, path: seq<EntryId>, y: EntryId)
    requires Climbed(regs, e, path, Some(y)) && y !in path && y !in regs.deleted
    ensures Climbed(regs, e, path + [y], Up(RawParents(regs), y))
    ensures y in Universe(RawParents(regs))
  {
    var first := RawParents(regs)[e].value;
    WalkStep(RawParents(regs), first, path, y);
    WalkInUniverse(RawParents(regs), first, path, Some(y));
  }

  // All ancestors a finished climb can have met.
  lemma ClimbMetAll(regs: Registers, e: EntryId, path: seq<EntryId>, next: Option<EntryId>, n: nat, d: EntryId)
    requires Climbed(regs, e, path, next) && (next.Some? ==> next.value in path)
    requires IsAncestor(RawParents(regs), e, n, d)
    ensures d == e || d in path
  {
    if n > 0 {
      var raw := RawParents(regs);
      AncestorSome(raw, e, 1, n);
      assert Ancestor(raw, e, 1) == Up(raw, e);
      FirstParent(raw, e, raw[e].value, n - 1);
      WalkSaw(raw, raw[e].value, path, next, n - 1, d);
    }
  }

  lemma ClimbReaches(regs: Registers, e: EntryId, path: seq<EntryId>, next: Option<EntryId>, y: EntryId)
    requires Climbed(regs, e, path, next) && (y == e || y in path)
    ensures Reaches(RawParents(regs), e, y)
  {
    var raw := RawParents(regs);
    if y == e {
      assert IsAncestor(raw, e, 0, e);
    } else {
      var i: nat :| i < |path| && path[i] == y;
      var first := raw[e].value;
      assert IsAncestor(raw, first, i, path[i]);
      FirstParent(raw, e, first, i);
      assert IsAncestor(raw, e, i + 1, y);
    }
  }

  lemma ClimbShown(regs: Registers, e: EntryId, path: seq<EntryId>, next: Option<EntryId>)
    requires Climbed(regs, e, path, next) && (next.Some? ==> next.value in path)
    ensures Shown(regs, e)
    ensures forall y :: Reaches(RawParents(regs), e, y) <==> y == e || y in path
  {
    forall y
      ensures Reaches(RawParents(regs), e, y) <==> y == e || y in path
    {
      if Reaches(RawParents(regs), e, y) {
        var n: nat :| IsAncestor(RawParents(regs), e, n, y);
        ClimbMetAll(regs, e, path, next, n, y);
      }
      if y == e || y in path {
        ClimbReaches(regs, e, path, next, y);
      }
    }
  }

  lemma ClimbHitDeleted(regs: Registers, e: EntryId, path: seq<EntryId>, d: EntryId)
    requires Climbed(regs, e, path, Some(d)) && d in regs.deleted
    ensures !Shown(regs, e)
  {
    var raw := RawParents(regs);
    FirstParent(raw, e, raw[e].value, |path|);
    assert IsAncestor(raw, e, |path| + 1, d);
    assert Reaches(raw, e, d);
  }

  // A climb that ran off the top counted the depth.
  lemma ClimbEnded(regs: Registers, e: EntryId, path: seq<EntryId>)
    requires Climbed(regs, e, path, None)
    ensures Measured(regs, e)
    ensures WithinDepth(regs, e) <==> |path| + 1 <= MAX_DEPTH
  {
    var raw := RawParents(regs);
    ClimbShown(regs, e, path, None);
    assert Ancestor(raw, e, 1) == Up(raw, e);
    if raw[e].Some? {
      FirstParent(raw, e, raw[e].value, |path|);
    }
    assert Ancestor(raw, e, |path| + 1).None?;
    if |path| + 1 <= MAX_DEPTH {
      AncestorNone(raw, e, |path| + 1, MAX_DEPTH);
    } else {
      var first := raw[e].value;
      assert IsAncestor(raw, first, MAX_DEPTH - 1, path[MAX_DEPTH - 1]);
      FirstParent(raw, e, first, MAX_DEPTH - 1);
    }
  }

  // A climb that met itself never ends.
  lemma ClimbCyclic(regs: Registers, e: EntryId, path: seq<EntryId>, y: EntryId)
    requires Climbed(regs, e, path, Some(y)) && y in path
    ensures !Measured(regs, e)
  {
    var raw := RawParents(regs);
    var first := raw[e].value;
    var start: nat :| start < |path| && path[start] == y;
    forall n: nat
      ensures Ancestor(raw, e, n).Some?
    {
      if n > |path| {
        BehindCycle(raw, first, path, start, n - 1);
        FirstParent(raw, e, first, n - 1);
      } else if n > 0 {
        FirstParent(raw, e, first, n - 1);
        assert IsAncestor(raw, first, n - 1, path[n - 1]);
      }
    }
  }

  // ----- Compaction as the script writes it -----

  function ServerEntryOps(regs: Registers, e: EntryId): set<TreeOp>
    requires e in regs.creates
  {
    var create := regs.creates[e];
    {CreateOp(create.opId, create.value)}
    + (if e in regs.names && CompareCrdtIds(regs.names[e].opId, create.opId) > 0
       then {RenameOp(regs.names[e].opId, e, regs.names[e].value)} else {})
    + (if e in regs.parents && CompareCrdtIds(regs.parents[e].opId, create.opId) > 0
       then {MoveOp(regs.parents[e].opId, e, regs.parents[e].value)} else {})
    + (if e in regs.deleted then {RemoveOp(regs.deleted[e].opId, e)} else {})
  }

  // A name or parent is never older than the create, so "greater" and "different" pick the same.
  lemma ServerEntryOpsAgree(ops: set<TreeOp>, e: EntryId)
    requires UniqueIds(ops) && e in RegistersOf(ops).creates
    ensures ServerEntryOps(RegistersOf(ops), e) == EntryOps(RegistersOf(ops), e)
  {
    hide RegistersOf, UniqueIds, CompareCrdtIds;
    RegistersNotOlder(ops, e);
  }

  lemma RegistersNotOlder(ops: set<TreeOp>, e: EntryId)
    requires e in RegistersOf(ops).creates
    ensures e in RegistersOf(ops).names
              && CompareCrdtIds(RegistersOf(ops).names[e].opId, RegistersOf(ops).creates[e].opId) >= 0
    ensures e in RegistersOf(ops).parents
              && CompareCrdtIds(RegistersOf(ops).parents[e].opId, RegistersOf(ops).creates[e].opId) >= 0
  {
    hide Wins, CompareCrdtIds, Written;
    NotOlderThanCreate(ops, Names, e);
    NotOlderThanCreate(ops, Parents, e);
  }

  lemma NotOlderThanCreate(ops: set<TreeOp>, k: Kind, e: EntryId)
    requires e in Written(ops, Creates) && (k == Names || k == Parents)
    ensures e in Written(ops, k)
    ensures CompareCrdtIds(Deciders(ops, k)[e].opId, Deciders(ops, Creates)[e].opId) >= 0
  {
    CreatesWriteAll(ops);
    var w, c := Deciders(ops, k)[e], Deciders(ops, Creates)[e];
    assert Wins(ops, k, e, w) && Wins(ops, Creates, e, c);
    IdTrichotomy(w.opId, c.opId);
  }

  function ById(ops: set<TreeOp>): (m: map<CrdtId, TreeOp>)
    requires UniqueIds(ops)
    ensures m.Values == ops && forall id | id in m :: m[id].opId == id
  {
    var m := map op | op in ops :: op.opId := op;
    assert forall op | op in ops :: m[op.opId] == op;
    m
  }

  // The retained operations reach a tree one by one.
  method ReplayRetained(tree: ProjectTree, retained: seq<TreeOp>)
    requires tree.Valid() && UniqueIds(tree.Ops() + Batch(retained))
    modifies tree
    ensures tree.Valid() && tree.Ops() == old(tree.Ops()) + Batch(retained)
  {
    hide Batch, UniqueIds;
    ghost var before := tree.Ops();
    BatchEnds(retained);
    for i := 0 to |retained|
      invariant tree.Valid() && tree.Ops() == before + Batch(retained[..i])
    {
      BatchNext(retained, i);
      UniqueSubset(tree.Ops() + {retained[i]}, before + Batch(retained));
      var applied := tree.ApplyOperation(retained[i]);
    }
    BatchEnds(retained);
  }

  // ----- The store -----

  class RedisProjectTreeStore {
    var history: seq<CrdtId>
    var index: map<CrdtId, TreeOp>
    var snapshot: map<CrdtId, TreeOp>
    var entryIndex: map<EntryId, CrdtId>
    var siteCounters: map<JsString, nat>
    var siteLast: map<JsString, TreeOp>
    ghost var accepted: seq<TreeOp>

    ghost function State(): Store
      reads this
    {
      Store(history, index, snapshot, entryIndex, siteCounters, siteLast)
    }

    ghost predicate Valid()
      reads this
    {
      StoreOk(State(), accepted)
    }

    constructor ()
      ensures Valid() && accepted == []
    {
      history := [];
      index := map[];
      snapshot := map[];
      entryIndex := map[];
      siteCounters := map[];
      siteLast := map[];
      accepted := [];
      new;
      EmptyOk(State());
    }

    // One iteration of the loop over the entries' parents.
    method MeasureEntry(registers: Registers, e: EntryId, depthRoot: Option<EntryId>)
      returns (hidden: bool, refused: bool)
      requires e in registers.creates
      ensures hidden == !Shown(registers, e)
      ensures refused == TooDeepBelow(registers, depthRoot, e)
    {
      hide Climbed, Shown, RawParents, WithinDepth, Reaches, Ends;
      var entryParents := RawParents(registers);
      RawKeys(registers);
      if e in registers.deleted {
        DeletedIsHidden(registers, e);
        return true, false;
      }
      var visited: set<EntryId> := {};
      var depth := 1;
      var containsDepthRoot := depthRoot == Some(e);
      var parent := entryParents[e];
      ghost var path: seq<EntryId> := [];
      ClimbStart(registers, e);
      while parent.Some?
        invariant Climbed(registers, e, path, parent)
        invariant visited == (set y | y in path) && depth == 1 + |path|
        invariant containsDepthRoot <==> depthRoot.Some? && (depthRoot.value == e || depthRoot.value in path)
        decreases Universe(entryParents) - visited
      {
        if parent.value in registers.deleted {
          ClimbHitDeleted(registers, e, path, parent.value);
          return true, false;
        }
        if parent.value in visited {
          ClimbCyclic(registers, e, path, parent.value);
          ClimbShown(registers, e, path, parent);
          return false, false;
        }
        ClimbStep(registers, e, path, parent.value);
        path := path + [parent.value];
        visited := visited + {parent.value};
        if depthRoot == parent {
          containsDepthRoot := true;
        }
        depth := depth + 1;
        parent := if parent.value in entryParents then entryParents[parent.value] else None;
      }
      ClimbEnded(registers, e, path);
      ClimbShown(registers, e, path, None);
      return false, containsDepthRoot && depth > MAX_DEPTH;
    }

    // The loop over all entries: refuses at the first that stands too deep, and counts the active ones.
    method CheckDepths(registers: Registers, depthRoot: Option<EntryId>) returns (refused: bool, activeCount: nat)
      ensures refused <==> exists e :: TooDeepBelow(registers, depthRoot, e)
      ensures !refused ==> activeCount == |ShownEntries(registers)|
    {
      hide Shown, Measured, WithinDepth, Reaches, RawParents;
      activeCount := 0;
      var rest := registers.creates.Keys;
      ghost var active: set<EntryId> := {};
      while rest != {}
        invariant rest <= registers.creates.Keys && active !! rest
        invariant activeCount == |active| && active <= registers.creates.Keys
        invariant forall e | e in registers.creates && e !in rest ::
                    !TooDeepBelow(registers, depthRoot, e) && (e in active <==> Shown(registers, e))
        decreases rest
      {
        var e :| e in rest;
        rest := rest - {e};
        var hidden, tooDeep := MeasureEntry(registers, e, depthRoot);
        if tooDeep {
          return true, activeCount;
        }
        if !hidden {
          activeCount := activeCount + 1;
          active := active + {e};
        }
      }
      assert active == ShownEntries(registers);
      forall e
        ensures !TooDeepBelow(registers, depthRoot, e)
      {
        MeasuredIsCreated(registers, e);
      }
      return false, activeCount;
    }

    // The operations of the new snapshot.
    method CompactRegisters(registers: Registers, ghost ops: set<TreeOp>) returns (operations: set<TreeOp>)
      requires UniqueIds(ops) && registers == RegistersOf(ops)
      ensures operations == Compacted(registers)
    {
      hide RegistersOf, ServerEntryOps, EntryOps, CompactedFor, OrphansOf, UniqueIds;
      operations := {};
      var rest := registers.creates.Keys;
      CompactedNone(registers);
      while rest != {}
        invariant rest <= registers.creates.Keys
        invariant operations == CompactedFor(registers, registers.creates.Keys - rest)
        decreases rest
      {
        var e :| e in rest;
        ServerEntryOpsAgree(ops, e);
        OneMoreEntry(registers, registers.creates.Keys - rest, e);
        operations := operations + ServerEntryOps(registers, e);
        assert registers.creates.Keys - (rest - {e}) == registers.creates.Keys - rest + {e};
        rest := rest - {e};
      }
      assert registers.creates.Keys - rest == registers.creates.Keys;
      OrphansComplete(registers);
      operations := operations + OrphansOf(registers);
    }

    // The writes at the end of the script.
    method Write(operation: TreeOp, operations: set<TreeOp>)
      requires UniqueIds(operations) && operations == Compacted(RegistersOf(snapshot.Values + {operation}))
      modifies this
      ensures Appended(old(State()), operation, State()) && accepted == old(accepted)
    {
      hide Compacted, RegistersOf, UniqueIds, LastOf;
      index := index[operation.opId := operation];
      history := history + [operation.opId];
      if operation.CreateOp? {
        entryIndex := entryIndex[operation.entry.id := operation.opId];
      }
      history := LastOf(history, HISTORY_LENGTH);
      index := map id | id in index && id in history :: index[id];
      siteCounters := siteCounters[operation.opId.siteId := operation.opId.counter];
      siteLast := siteLast[operation.opId.siteId := operation];
      snapshot := ById(operations);
    }

    // The append script. Returns 1 if the operation is accepted, 0 if it is taken for a repetition -
    // of itself, or of one of its site that has been overtaken - and a negative code if it is refused;
    // only an accepted operation changes the store.
    method Append(operation: TreeOp, nameClash: bool) returns (code: int)
      requires Valid()
      modifies this
      ensures Valid()
      ensures var known := Recognised(old(State()), operation);
              var registers := RegistersOf(old(Batch(accepted)) + {operation});
              var refusal := Refusal(old(State()), operation, registers, nameClash);
              if known.Some? then code == known.value
              else if refusal.Some? then code == refusal.value
              else code == 1 && Appended(old(State()), operation, State())
      ensures accepted == if code == 1 then old(accepted) + [operation] else old(accepted)
      ensures code == 1 && operation.CreateOp? ==> |ShownEntries(RegistersOf(Batch(accepted)))| <= 500
      ensures code == 1 ==> history != [] && history[|history| - 1] == operation.opId && operation.opId in index
      ensures code != 1 ==> State() == old(State())
    {
      hide StoreOk, Recognised, RegistersOf, Shown, ShownEntries, TooDeepBelow, UniqueIds, Compacted, Batch, Appended;
      ghost var s := State();
      var known := Recognised(Store(history, index, snapshot, entryIndex, siteCounters, siteLast), operation);
      if known.Some? {
        RecognisedCode(s, operation);
        return known.value;
      }
      MergedRegisters(s, accepted, operation);
      var merged := snapshot[operation.opId := operation];
      if operation.CreateOp? && operation.entry.id in entryIndex && entryIndex[operation.entry.id] != operation.opId {
        return -3;
      }
      var registers := BuildRegisters(merged.Values);
      var tooDeep, activeCount := CheckDepths(registers, DepthRoot(operation));
      if tooDeep {
        return -6;
      }
      if operation.CreateOp? && activeCount > MAX_ENTRIES {
        return -5;
      }
      if !operation.RemoveOp? && nameClash {
        return -7;
      }
      var operations := CompactRegisters(registers, merged.Values);
      CompactedUnique(merged.Values);
      Write(operation, operations);
      AppendKeepsStoreOk(s, accepted, operation, nameClash, State());
      BatchAppend(accepted, operation);
      HistoryIsNewestNow(State(), accepted + [operation]);
      accepted := accepted + [operation];
      return 1;
    }

    // A late joiner loads the stored snapshot and then the retained history, and shows what a peer
    // shows that applied every accepted operation.
    method LateJoin(siteId: JsString, saved: seq<TreeOp>, retained: seq<TreeOp>) returns (tree: ProjectTree)
      requires Valid()
      requires Batch(saved) == snapshot.Values && Batch(retained) == index.Values
      ensures fresh(tree) && tree.Valid()
      ensures RegistersOf(tree.Ops()) == RegistersOf(Batch(accepted))
      ensures EntriesOf(RegistersOf(tree.Ops())) == EntriesOf(RegistersOf(Batch(accepted)))
      ensures forall op | op in accepted :: op.opId.counter <= tree.clock
    {
      hide StoreOk, RegistersOf, EntriesOf, Batch, UniqueIds;
      LateJoinerRegisters(State(), accepted);
      var all := snapshot.Values + index.Values;
      UniqueSubset(all, Batch(accepted));
      tree := new ProjectTree(siteId);
      UniqueSubset({} + Batch(saved), all);
      var loaded := tree.FromSnapshot(saved);
      assert tree.Ops() + Batch(retained) == all;
      ReplayRetained(tree, retained);
      ClockCoversAccepted(State(), accepted, tree.Ops(), tree);
    }
  }

  // Two renames of one site reach an empty store in the wrong order.
  method AppendOutOfOrder(later: TreeOp, earlier: TreeOp) returns (first: int, second: int)
    requires later.RenameOp? && earlier.RenameOp? && later.opId.siteId == earlier.opId.siteId
    requires 0 < earlier.opId.counter < later.opId.counter
    ensures first == 1 && second == 0
  {
    hide StoreOk, RegistersOf, Appended, Recognised, Measured, WithinDepth, Reaches;
    var store := new RedisProjectTreeStore();
    NothingRecognised(store.State(), later);
    first := store.Append(later, false);
    OvertakenIsLost(store.State(), store.accepted, later, earlier);
    second := store.Append(earlier, false);
  }

  lemma NothingRecognised(s: Store, op: TreeOp)
    requires StoreOk(s, []) && op.opId.counter > 0
    ensures Recognised(s, op).None?
  {
    RecognitionIsSound(s, [], op);
    assert Batch([]) == {};
  }

  lemma EmptyOk(s: Store)
    requires s == EMPTY_STORE
    ensures StoreOk(s, [])
  {
    assert Batch([]) == {};
    assert Survivors({}) == {};
    NoRegisters();
  }

  lemma RawKeys(regs: Registers)
    ensures RawParents(regs).Keys == regs.creates.Keys
  {
  }

  lemma ClimbStart(regs: Registers, e: EntryId)
    requires e in regs.creates && e !in regs.deleted
    ensures e in RawParents(regs) && Climbed(regs, e, [], RawParents(regs)[e])
  {
  }

  lemma MeasuredIsCreated(regs: Registers, e: EntryId)
    ensures Measured(regs, e) ==> e in regs.creates
  {
  }

  lemma CompactedNone(regs: Registers)
    ensures CompactedFor(regs, regs.creates.Keys - regs.creates.Keys) == {}
  {
  }

  lemma CompactedUnique(ops: set<TreeOp>)
    requires UniqueIds(ops)
    ensures UniqueIds(Compacted(RegistersOf(ops)))
  {
    CompactedIsSurvivors(ops);
  }

  lemma RecognisedCode(s: Store, op: TreeOp)
    requires Recognised(s, op).Some?
    ensures Recognised(s, op).value == 0 || Recognised(s, op).value == -1
  {
  }

  lemma MergedRegisters(s: Store, accepted: seq<TreeOp>, op: TreeOp)
    requires StoreOk(s, accepted) && Recognised(s, op).None?
    ensures s.snapshot[op.opId := op].Values == s.snapshot.Values + {op}
    ensures UniqueIds(s.snapshot.Values + {op})
    ensures RegistersOf(s.snapshot.Values + {op}) == RegistersOf(Batch(accepted) + {op})
  {
    hide RegistersOf, HistoryOk, CountersOk, EntryIndexOk, DepthOk;
    UnrecognisedIsNew(s, accepted, op);
    ValuesWith(s.snapshot, op);
    CompactionPreservesMeaning(Batch(accepted), {op});
    UniqueSubset(s.snapshot.Values + {op}, Batch(accepted) + {op});
  }

  lemma ClockCoversAccepted(s: Store, accepted: seq<TreeOp>, held: set<TreeOp>, tree: ProjectTree)
    requires StoreOk(s, accepted) && s.snapshot.Values <= held
    requires tree.Valid() && held == tree.Ops()
    ensures forall op | op in accepted :: op.opId.counter <= tree.clock
  {
    hide HistoryOk, CountersOk, EntryIndexOk, DepthOk, RegistersOf, Survivors;
    tree.OpsUnique();
    CompactionKeepsClock(Batch(accepted), tree.clock);
    forall op | op in accepted
      ensures op.opId.counter <= tree.clock
    {
      assert op in Batch(accepted);
    }
  }
}
