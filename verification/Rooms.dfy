// A room: replicas of one file that type, erase, receive each other's operations in any order and
// any number of times, and load each other's snapshots (client/src/providers/SignalRCrdtProvider.ts
// decides only which of these happens when). What is claimed holds in every run.
module Rooms {
  import opened Wrappers
  import opened Text
  import opened CrdtIds
  import opened Rga
  import opened CanonicalOrder
  import opened DocumentContents
  import opened Replicas
  import opened CrdtDocuments
  import opened PendingBuffers

  // What has come to one replica so far, by its own editing, by delivery or in a snapshot.
  datatype Seen = Seen(inserts: set<CrdtChar>, deletes: set<CrdtId>)

  datatype Room = Room(
    replicas: map<JsString, Replica>,
    sentInserts: set<CrdtChar>,
    sentDeletes: set<CrdtId>,
    saved: set<Snapshot>,
    seen: map<JsString, Seen>)

  datatype Step =
    | TypeStep(site: JsString, origin: Option<CrdtId>, value: JsString)
    | EraseStep(site: JsString, id: CrdtId)
    | DeliverStep(site: JsString, op: CrdtOp)
    | SaveStep(site: JsString)
    | LoadStep(site: JsString, snapshot: Snapshot)

  function NewChar(site: JsString, r: Replica, origin: Option<CrdtId>, value: JsString): CrdtChar {
    CrdtChar(CrdtId(site, r.clock + 1), value, origin, false)
  }

  function Sees(s: Seen, inserts: set<CrdtChar>, deletes: set<CrdtId>): Seen {
    Seen(s.inserts + inserts, s.deletes + deletes)
  }

  ghost predicate Initial(r: Room) {
    && (forall site | site in r.replicas :: r.replicas[site] == Replica([], 0, {}, {}))
    && r.sentInserts == {} && r.sentDeletes == {} && r.saved == {}
    && r.seen.Keys == r.replicas.Keys
    && (forall site | site in r.seen :: r.seen[site] == Seen({}, {}))
  }

  // The replica of one site becomes r' and has seen more; everything else in the room stays.
  ghost predicate OneReplicaMoves(r: Room, site: JsString, inserts: set<CrdtChar>, deletes: set<CrdtId>, r': Room) {
    && site in r.replicas && site in r.seen
    && r'.replicas.Keys == r.replicas.Keys
    && (forall other | other in r.replicas && other != site :: r'.replicas[other] == r.replicas[other])
    && r'.seen == r.seen[site := Sees(r.seen[site], inserts, deletes)]
  }

  ghost predicate Next(r: Room, step: Step, r': Room) {
    step.site in r.replicas && step.site in r.seen && step.site in r'.replicas &&
    var me, me' := r.replicas[step.site], r'.replicas[step.site];
    match step
    case TypeStep(site, origin, value) =>
      var c := NewChar(site, me, origin, value);
      && OriginPresent(me.chars, origin)
      && OneReplicaMoves(r, site, {c}, {}, r')
      && me' == me.(clock := me.clock + 1, chars := Inserted(me.chars, c))
      && r'.sentInserts == r.sentInserts + {c} && r'.sentDeletes == r.sentDeletes && r'.saved == r.saved
    case EraseStep(site, id) =>
      && Has(me.chars, id)
      && OneReplicaMoves(r, site, {}, {id}, r')
      && me' == me.(chars := Tombstoned(me.chars, id))
      && r'.sentInserts == r.sentInserts && r'.sentDeletes == r.sentDeletes + {id} && r'.saved == r.saved
    case DeliverStep(site, op) =>
      && OpInserts(op) <= r.sentInserts && OpDeletes(op) <= r.sentDeletes
      && OneReplicaMoves(r, site, OpInserts(op), OpDeletes(op), r')
      && Absorbs(me, OpInserts(op), OpDeletes(op), 0, me')
      && r'.sentInserts == r.sentInserts && r'.sentDeletes == r.sentDeletes && r'.saved == r.saved
    case SaveStep(site) =>
      r' == r.(saved := r.saved + {Snapshot(me.clock, me.chars)})
    case LoadStep(site, snapshot) =>
      && snapshot in r.saved
      && OneReplicaMoves(r, site, Inserts(snapshot.chars), Deleted(snapshot.chars), r')
      && Absorbs(me, Inserts(snapshot.chars), Deleted(snapshot.chars), snapshot.clock, me')
      && r'.sentInserts == r.sentInserts && r'.sentDeletes == r.sentDeletes && r'.saved == r.saved
  }

  ghost predicate CanFollow(r: Room, r': Room) { exists step :: Next(r, step, r') }

  ghost predicate IsRun(run: seq<Room>) {
    && run != [] && Initial(run[0])
    && (forall i | 0 < i < |run| :: CanFollow(run[i - 1], run[i]))
  }

  ghost predicate RunTo(run: seq<Room>, r: Room) { IsRun(run) && run[|run| - 1] == r }

  ghost predicate Reachable(r: Room) { exists run :: RunTo(run, r) }

  // ----- What every reachable room satisfies -----

  ghost predicate Issued(sent: set<CrdtChar>, id: CrdtId) { exists c :: c in sent && c.id == id }

  // Every insert sent so far was typed by a replica of the room, behind a character that had been
  // sent with a smaller counter.
  ghost predicate LogOk(sent: set<CrdtChar>, replicas: map<JsString, Replica>) {
    && OneMeaning(sent)
    && (forall c | c in sent :: !c.isDeleted && c.id.siteId in replicas && c.id.counter <= replicas[c.id.siteId].clock)
    && (forall c | c in sent && c.originId.Some? ::
          Issued(sent, c.originId.value) && c.originId.value.counter < c.id.counter)
  }

  ghost predicate ReplicaOk(sent: set<CrdtChar>, me: Replica, seen: Seen) {
    && Good(me)
    && Known(me) == seen.inserts && Tombs(me) == seen.deletes
    && seen.inserts <= sent
    && (forall id | id in seen.deletes :: Issued(sent, id))
  }

  ghost predicate SnapshotOk(sent: set<CrdtChar>, snapshot: Snapshot) {
    && GoodSnapshot(snapshot)
    && Inserts(snapshot.chars) <= sent
    && (forall id | id in Deleted(snapshot.chars) :: Issued(sent, id))
  }

  ghost predicate RoomOk(r: Room) {
    && r.replicas.Keys == r.seen.Keys
    && LogOk(r.sentInserts, r.replicas)
    && (forall site | site in r.replicas :: ReplicaOk(r.sentInserts, r.replicas[site], r.seen[site]))
    && (forall id | id in r.sentDeletes :: Issued(r.sentInserts, id))
    && (forall snapshot | snapshot in r.saved :: SnapshotOk(r.sentInserts, snapshot))
  }

  lemma InitialOk(r: Room)
    requires Initial(r)
    ensures RoomOk(r)
  {
    forall site | site in r.replicas
      ensures ReplicaOk(r.sentInserts, r.replicas[site], r.seen[site])
    {
      var me := r.replicas[site];
      assert PlainSeq(me.chars) == [];
      assert Known(me) == {} && Tombs(me) == {};
    }
  }

  lemma MoreSent(sent: set<CrdtChar>, sent': set<CrdtChar>, me: Replica, seen: Seen)
    requires ReplicaOk(sent, me, seen) && sent <= sent'
    ensures ReplicaOk(sent', me, seen)
  {
    hide Good;
  }

  lemma MoreSentSnapshot(sent: set<CrdtChar>, sent': set<CrdtChar>, snapshot: Snapshot)
    requires SnapshotOk(sent, snapshot) && sent <= sent'
    ensures SnapshotOk(sent', snapshot)
  {
    hide GoodSnapshot, Inserts, Deleted;
  }

  // ----- Typing -----

  lemma NewIdIsFresh(r: Room, site: JsString)
    requires RoomOk(r) && site in r.replicas
    ensures !Issued(r.sentInserts, CrdtId(site, r.replicas[site].clock + 1))
  {
  }

  lemma HasMeansKnown(me: Replica, id: CrdtId)
    requires Has(me.chars, id)
    ensures Issued(Known(me), id)
  {
    HasMeansInsert(me.chars, id);
  }

  lemma TypingContents(sent: set<CrdtChar>, me: Replica, c: CrdtChar)
    requires Good(me) && Known(me) <= sent && OneMeaning(sent)
    requires !Issued(sent, c.id) && !c.isDeleted && OriginPresent(me.chars, c.originId)
    ensures !Has(me.chars, c.id)
    ensures WellFormed(Inserted(me.chars, c))
    ensures OneMeaning(Known(me) + {c})
  {
    if Has(me.chars, c.id) {
      HasMeansKnown(me, c.id);
    }
    assert forall d | d in Known(me) :: d.id != c.id;
    InsertedWellFormed(me.chars, c);
  }

  // A local insert is absorbed: nothing in the room can yet have named the new id.
  lemma TypingAbsorbs(sent: set<CrdtChar>, me: Replica, c: CrdtChar)
    requires Good(me) && Known(me) <= sent && OneMeaning(sent)
    requires forall d | d in sent && d.originId.Some? :: Issued(sent, d.originId.value)
    requires forall id | id in Tombs(me) :: Issued(sent, id)
    requires !Issued(sent, c.id) && !c.isDeleted && OriginPresent(me.chars, c.originId)
    requires c.id.counter == me.clock + 1
    ensures Absorbs(me, {c}, {}, me.clock + 1, me.(clock := me.clock + 1, chars := Inserted(me.chars, c)))
  {
    hide WellFormed, Inserts, Deleted, Inserted, IndexOf;
    var me' := me.(clock := me.clock + 1, chars := Inserted(me.chars, c));
    TypingContents(sent, me, c);
    InsertedContents(me.chars, c);
    CounterOfInserted(me.chars, c, me.clock);
    assert Known(me') == Known(me) + {c};
    forall d | d in me.waitingInserts
      ensures d.originId.value != c.id
    {
      assert d in Known(me);
    }
    forall id | id in me.waitingDeletes
      ensures id != c.id
    {
      assert id in Tombs(me);
    }
  }

  lemma ErasingAbsorbs(me: Replica, id: CrdtId)
    requires Good(me) && Has(me.chars, id)
    ensures Absorbs(me, {}, {id}, 0, me.(chars := Tombstoned(me.chars, id)))
  {
    hide WellFormed, Inserts, Deleted, Tombstoned;
    var t := Tombstoned(me.chars, id);
    TombstonedShape(Buffered(me.chars, me.clock, map[], map[]), id);
    TombstonedContents(me.chars, id);
  }

  // ----- Every step keeps it -----

  lemma AbsorbedOk(sent: set<CrdtChar>, me: Replica, seen: Seen, inserts: set<CrdtChar>, deletes: set<CrdtId>,
                   floor: nat, me': Replica)
    requires ReplicaOk(sent, me, seen) && Absorbs(me, inserts, deletes, floor, me')
    requires inserts <= sent && forall id | id in deletes :: Issued(sent, id)
    ensures ReplicaOk(sent, me', Sees(seen, inserts, deletes))
    ensures me'.clock >= me.clock
  {
    hide Good, Known, Tombs;
  }

  // A step that only lets one replica learn what has already been sent.
  lemma LearningOk(r: Room, site: JsString, inserts: set<CrdtChar>, deletes: set<CrdtId>, floor: nat, r': Room)
    requires RoomOk(r) && OneReplicaMoves(r, site, inserts, deletes, r')
    requires site in r.replicas && site in r'.replicas
    requires Absorbs(r.replicas[site], inserts, deletes, floor, r'.replicas[site])
    requires inserts <= r.sentInserts && forall id | id in deletes :: Issued(r.sentInserts, id)
    requires r'.sentInserts == r.sentInserts && r'.saved == r.saved
    requires forall id | id in r'.sentDeletes :: id in r.sentDeletes || id in deletes
    ensures RoomOk(r')
  {
    hide Absorbs, ReplicaOk, SnapshotOk, OneMeaning, Issued;
    AbsorbedOk(r.sentInserts, r.replicas[site], r.seen[site], inserts, deletes, floor, r'.replicas[site]);
  }

  lemma TypeStepLog(r: Room, site: JsString, origin: Option<CrdtId>, value: JsString)
    requires RoomOk(r) && site in r.replicas && OriginPresent(r.replicas[site].chars, origin)
    ensures var c := NewChar(site, r.replicas[site], origin, value);
            var me := r.replicas[site];
            && !Issued(r.sentInserts, c.id)
            && OneMeaning(r.sentInserts + {c})
            && (origin.Some? ==> Issued(r.sentInserts, origin.value) && origin.value.counter < c.id.counter)
            && Absorbs(me, {c}, {}, me.clock + 1, me.(clock := me.clock + 1, chars := Inserted(me.chars, c)))
  {
    hide Good, Absorbs, Known, Tombs, Inserted;
    var me := r.replicas[site];
    var c := NewChar(site, me, origin, value);
    NewIdIsFresh(r, site);
    assert ReplicaOk(r.sentInserts, me, r.seen[site]);
    if origin.Some? {
      HasMeansKnown(me, origin.value);
      CoveredId(me, origin.value);
    }
    TypingAbsorbs(r.sentInserts, me, c);
  }

  lemma CoveredId(me: Replica, id: CrdtId)
    requires Good(me) && Has(me.chars, id)
    ensures id.counter <= me.clock
  {
    assert me.chars[IndexOf(me.chars, id)].id.counter <= me.clock;
  }

  lemma TypeStepOk(r: Room, site: JsString, origin: Option<CrdtId>, value: JsString, r': Room)
    requires RoomOk(r) && Next(r, TypeStep(site, origin, value), r')
    ensures RoomOk(r')
  {
    hide Absorbs, Inserted, OriginPresent, OneMeaning, ReplicaOk, SnapshotOk, LogOk;
    var me := r.replicas[site];
    var c := NewChar(site, me, origin, value);
    TypeStepLog(r, site, origin, value);
    forall other | other in r.replicas
      ensures ReplicaOk(r'.sentInserts, r.replicas[other], r.seen[other])
    {
      MoreSent(r.sentInserts, r'.sentInserts, r.replicas[other], r.seen[other]);
    }
    AbsorbedOk(r'.sentInserts, me, r.seen[site], {c}, {}, me.clock + 1, r'.replicas[site]);
    forall snapshot | snapshot in r.saved
      ensures SnapshotOk(r'.sentInserts, snapshot)
    {
      MoreSentSnapshot(r.sentInserts, r'.sentInserts, snapshot);
    }
    LongerLog(r.sentInserts, r.replicas, c, r'.replicas);
  }

  lemma LongerLog(sent: set<CrdtChar>, replicas: map<JsString, Replica>, c: CrdtChar, replicas': map<JsString, Replica>)
    requires LogOk(sent, replicas) && OneMeaning(sent + {c})
    requires replicas'.Keys == replicas.Keys
    requires forall site | site in replicas :: replicas[site].clock <= replicas'[site].clock
    requires !c.isDeleted && c.id.siteId in replicas' && c.id.counter <= replicas'[c.id.siteId].clock
    requires c.originId.Some? ==> Issued(sent, c.originId.value) && c.originId.value.counter < c.id.counter
    ensures LogOk(sent + {c}, replicas')
  {
    forall d | d in sent + {c} && d.originId.Some?
      ensures Issued(sent + {c}, d.originId.value)
    {
      assert Issued(sent, d.originId.value);
    }
  }

  lemma SavedOk(sent: set<CrdtChar>, me: Replica, seen: Seen)
    requires ReplicaOk(sent, me, seen)
    ensures SnapshotOk(sent, Snapshot(me.clock, me.chars))
  {
    hide WellFormed, Inserts, Deleted, IndexOf;
    OneMeaningSubset(Inserts(me.chars), Known(me));
    assert Inserts(me.chars) <= Known(me) && Deleted(me.chars) <= Tombs(me);
  }

  lemma SaveStepOk(r: Room, site: JsString, r': Room)
    requires RoomOk(r) && Next(r, SaveStep(site), r')
    ensures RoomOk(r')
  {
    hide LogOk, ReplicaOk, SnapshotOk, Issued;
    SavedOk(r.sentInserts, r.replicas[site], r.seen[site]);
  }

  lemma EraseStepOk(r: Room, site: JsString, id: CrdtId, r': Room)
    requires RoomOk(r) && Next(r, EraseStep(site, id), r')
    ensures RoomOk(r')
  {
    hide Good, Tombstoned, Absorbs, LogOk, SnapshotOk, Issued, Has;
    var me := r.replicas[site];
    ErasingAbsorbs(me, id);
    PresentIsIssued(r.sentInserts, me, r.seen[site], id);
    LearningOk(r, site, {}, {id}, 0, r');
  }

  lemma PresentIsIssued(sent: set<CrdtChar>, me: Replica, seen: Seen, id: CrdtId)
    requires ReplicaOk(sent, me, seen) && Has(me.chars, id)
    ensures Issued(sent, id)
  {
    hide Good, Has;
    HasMeansKnown(me, id);
  }

  lemma DeliverStepOk(r: Room, site: JsString, op: CrdtOp, r': Room)
    requires RoomOk(r) && Next(r, DeliverStep(site, op), r')
    ensures RoomOk(r')
  {
    hide Absorbs, LogOk, SnapshotOk, ReplicaOk, Issued;
    LearningOk(r, site, OpInserts(op), OpDeletes(op), 0, r');
  }

  lemma LoadStepOk(r: Room, site: JsString, snapshot: Snapshot, r': Room)
    requires RoomOk(r) && Next(r, LoadStep(site, snapshot), r')
    ensures RoomOk(r')
  {
    hide Absorbs, LogOk, ReplicaOk, Inserts, Deleted, GoodSnapshot, Issued;
    assert SnapshotOk(r.sentInserts, snapshot);
    LearningOk(r, site, Inserts(snapshot.chars), Deleted(snapshot.chars), snapshot.clock, r');
  }

  lemma StepOk(r: Room, step: Step, r': Room)
    requires RoomOk(r) && Next(r, step, r')
    ensures RoomOk(r')
  {
    hide RoomOk, Next;
    match step
    case TypeStep(site, origin, value) => TypeStepOk(r, site, origin, value, r');
    case EraseStep(site, id) => EraseStepOk(r, site, id, r');
    case DeliverStep(site, op) => DeliverStepOk(r, site, op, r');
    case SaveStep(site) => SaveStepOk(r, site, r');
    case LoadStep(site, snapshot) => LoadStepOk(r, site, snapshot, r');
  }

  lemma {:induction false} RunOk(run: seq<Room>)
    requires IsRun(run)
    ensures RoomOk(run[|run| - 1])
  {
    hide RoomOk, Next, Initial;
    var n := |run| - 1;
    if n == 0 {
      InitialOk(run[0]);
    } else {
      var front := run[..n];
      RunOk(front);
      assert CanFollow(run[n - 1], run[n]);
      var step :| Next(run[n - 1], step, run[n]);
      StepOk(run[n - 1], step, run[n]);
    }
  }

  lemma ReachableOk(r: Room)
    requires Reachable(r)
    ensures RoomOk(r)
  {
    hide RoomOk;
    var run :| RunTo(run, r);
    RunOk(run);
  }

  // ----- What that means -----

  // Strong convergence: in every run, two replicas that have seen the same inserts and deletes hold
  // the same characters, in the same order, with the same tombstones, and hold back the same rest.
  lemma StrongConvergence(r: Room, a: JsString, b: JsString)
    requires Reachable(r)
    requires a in r.replicas && b in r.replicas && a in r.seen && b in r.seen
    requires r.seen[a] == r.seen[b]
    ensures r.replicas[a].chars == r.replicas[b].chars
            && r.replicas[a].waitingInserts == r.replicas[b].waitingInserts
            && r.replicas[a].waitingDeletes == r.replicas[b].waitingDeletes
  {
    hide Reachable, LogOk, Good, Known, Tombs;
    ReachableOk(r);
    assert ReplicaOk(r.sentInserts, r.replicas[a], r.seen[a]);
    assert ReplicaOk(r.sentInserts, r.replicas[b], r.seen[b]);
    ReplicaDetermined(r.replicas[a], r.replicas[b]);
  }

  // In every run a replica's document is the canonical sequence of the inserts it has seen, deleted
  // where it has seen a delete; what it has seen is neither lost nor doubled.
  lemma ReplicaShowsWhatItSaw(r: Room, a: JsString)
    requires Reachable(r)
    requires a in r.replicas && a in r.seen
    ensures var me, seen := r.replicas[a], r.seen[a];
            && OneMeaning(seen.inserts)
            && Canonical(seen.inserts, PlainSeq(me.chars))
            && (forall i | 0 <= i < |me.chars| :: me.chars[i].isDeleted <==> me.chars[i].id in seen.deletes)
            && (forall c :: c in me.waitingInserts <==> c in seen.inserts && !Attached(seen.inserts, c))
            && (forall id :: id in me.waitingDeletes <==> id in seen.deletes && !Has(me.chars, id))
  {
    hide Reachable, LogOk, Known, Tombs, Canonical, Attached;
    ReachableOk(r);
    assert ReplicaOk(r.sentInserts, r.replicas[a], r.seen[a]);
    GoodIsCanonical(r.replicas[a]);
    HoldsWhatIsAttached(r.replicas[a]);
  }

  // A replica that has seen an origin-closed set of inserts, and deletes of those only, holds
  // nothing back.
  lemma NothingHeldBack(r: Room, a: JsString)
    requires Reachable(r)
    requires a in r.replicas && a in r.seen
    requires OriginClosed(r.seen[a].inserts)
    requires forall id | id in r.seen[a].deletes :: Issued(r.seen[a].inserts, id)
    ensures r.replicas[a].waitingInserts == {} && r.replicas[a].waitingDeletes == {}
  {
    hide Reachable, LogOk, Known, Tombs, Good, OriginClosed;
    ReachableOk(r);
    assert ReplicaOk(r.sentInserts, r.replicas[a], r.seen[a]);
    NothingWaits(r.replicas[a]);
  }

  lemma {:induction false} LogAttached(sent: set<CrdtChar>, replicas: map<JsString, Replica>, c: CrdtChar)
    requires LogOk(sent, replicas) && c in sent
    ensures Attached(sent, c)
    decreases c.id.counter
  {
    if c.originId.None? {
      assert RootPathOf(sent, [c], c);
    } else {
      assert Issued(sent, c.originId.value);
      var d :| d in sent && d.id == c.originId.value;
      LogAttached(sent, replicas, d);
      var p :| RootPathOf(sent, p, d);
      assert RootPathOf(sent, p + [c], c);
    }
  }

  // All inserts ever sent form an origin-closed set with one meaning per id, so replicas to which
  // everything has come agree and hold nothing back.
  lemma QuiescentRoomAgrees(r: Room, a: JsString, b: JsString)
    requires Reachable(r)
    requires a in r.replicas && b in r.replicas && a in r.seen && b in r.seen
    requires r.seen[a] == Seen(r.sentInserts, r.sentDeletes)
    requires r.seen[b] == Seen(r.sentInserts, r.sentDeletes)
    ensures r.replicas[a].chars == r.replicas[b].chars
            && Inserts(r.replicas[a].chars) == r.sentInserts
            && r.replicas[a].waitingInserts == {} && r.replicas[a].waitingDeletes == {}
  {
    hide Reachable, Good, ReplicaOk, SnapshotOk, LogOk, Attached;
    ReachableOk(r);
    forall c | c in r.sentInserts
      ensures Attached(r.sentInserts, c)
    {
      LogAttached(r.sentInserts, r.replicas, c);
    }
    StrongConvergence(r, a, b);
    NothingHeldBack(r, a);
    assert r.replicas[a].waitingInserts == {};
    KnownIsSeen(r.sentInserts, r.replicas[a], r.seen[a]);
  }

  lemma KnownIsSeen(sent: set<CrdtChar>, me: Replica, seen: Seen)
    requires ReplicaOk(sent, me, seen)
    ensures Inserts(me.chars) + me.waitingInserts == seen.inserts
  {
  }

  // In every reachable room the calls that a step stands for are legal: Process on a sent operation
  // and LoadSnapshot on a saved snapshot meet what PendingBuffer asks of them.
  lemma CallsAreLegal(r: Room, a: JsString, op: CrdtOp, snapshot: Snapshot)
    requires Reachable(r)
    requires a in r.replicas && a in r.seen
    requires OpInserts(op) <= r.sentInserts && snapshot in r.saved
    ensures var me := r.replicas[a];
            && Good(me) && Admissible(op) && OneMeaning(Known(me) + OpInserts(op))
            && GoodSnapshot(snapshot) && OneMeaning(Known(me) + Inserts(snapshot.chars))
  {
    hide Reachable, Good, Known, Inserts, OneMeaning, GoodSnapshot;
    ReachableOk(r);
    assert ReplicaOk(r.sentInserts, r.replicas[a], r.seen[a]) && SnapshotOk(r.sentInserts, snapshot);
    OneMeaningSubset(Known(r.replicas[a]) + OpInserts(op), r.sentInserts);
    OneMeaningSubset(Known(r.replicas[a]) + Inserts(snapshot.chars), r.sentInserts);
  }

  // ----- The objects take these steps -----

  // Typing in the document is the typing step of its replica.
  method TypeInto(buffer: PendingBuffer, origin: Option<CrdtId>, value: JsString) returns (op: CrdtOp)
    modifies buffer.doc
    ensures var me := old(View(buffer.State()));
            var c := NewChar(buffer.doc.siteId, me, origin, value);
            && op == InsertOp(c)
            && View(buffer.State()) == me.(clock := me.clock + 1, chars := Inserted(me.chars, c))
  {
    op := buffer.doc.LocalInsert(origin, value);
  }

  method EraseFrom(buffer: PendingBuffer, id: CrdtId) returns (op: CrdtOp)
    modifies buffer.doc
    ensures var me := old(View(buffer.State()));
            op == DeleteOp(id) && View(buffer.State()) == me.(chars := Tombstoned(me.chars, id))
  {
    op := buffer.doc.LocalDelete(id);
  }
}
