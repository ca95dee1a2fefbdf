// client/src/crdt/PendingBuffer.ts: operations held back until their origin or target arrives.
module PendingBuffers {
  import opened Wrappers
  import opened Text
  import opened CrdtIds
  import opened Rga
  import opened CanonicalOrder
  import opened DocumentContents
  import opened Replicas
  import opened CrdtDocuments

  // The fields of a buffer and its document as one value. The maps are keyed by the id the
  // operations wait for.
  datatype Buffered = Buffered(
    chars: seq<CrdtChar>,
    clock: nat,
    inserts: map<CrdtId, seq<CrdtChar>>,
    deletes: map<CrdtId, seq<CrdtId>>)

  function WaitingOf(m: map<CrdtId, seq<CrdtChar>>): set<CrdtChar> { set k, c | k in m && c in m[k] :: c }

  function Members(s: seq<CrdtChar>): set<CrdtChar> { set c | c in s }

  function View(b: Buffered): Replica {
    Replica(b.chars, b.clock, WaitingOf(b.inserts), b.deletes.Keys)
  }

  ghost predicate Shape(b: Buffered) {
    && WellFormed(b.chars)
    && ClockCovers(b.chars, b.clock)
    && (forall k | k in b.inserts ::
          b.inserts[k] != [] && forall c | c in b.inserts[k] :: c.originId == Some(k) && !c.isDeleted)
    && (forall k | k in b.deletes :: b.deletes[k] != [] && forall id | id in b.deletes[k] :: id == k)
  }

  // From b0 the document only grew, operations only left the buffer and only because what they
  // waited for is present, and whatever arrived released all that waited for it - except that of
  // the ids in open this is not yet said.
  ghost predicate Advances(b0: Buffered, b: Buffered, open: set<CrdtId>) {
    && Shape(b)
    && (forall k | k in b.inserts :: k in b0.inserts && b.inserts[k] == b0.inserts[k])
    && (forall k | k in b.deletes :: k in b0.deletes && b.deletes[k] == b0.deletes[k])
    && (forall k | k in b0.inserts && k !in b.inserts :: Has(b.chars, k))
    && (forall k | k in b0.deletes && k !in b.deletes :: Has(b.chars, k))
    && (forall id | Has(b0.chars, id) :: Has(b.chars, id))
    && (forall id | Has(b.chars, id) && !Has(b0.chars, id) && id !in open :: id !in b.inserts && id !in b.deletes)
    && ClockFollows(b0.clock, b0.clock, b.chars, b.clock)
  }

  lemma AdvancesReflexive(b: Buffered)
    requires Shape(b)
    ensures Advances(b, b, {})
  {
  }

  lemma ClockFollowsTransitive(b0: Buffered, b1: Buffered, b2: Buffered)
    requires ClockFollows(b0.clock, b0.clock, b1.chars, b1.clock)
    requires ClockFollows(b1.clock, b1.clock, b2.chars, b2.clock)
    requires forall id | Has(b1.chars, id) :: Has(b2.chars, id)
    ensures ClockFollows(b0.clock, b0.clock, b2.chars, b2.clock)
  {
    if b2.clock == b1.clock != b0.clock {
      var i :| 0 <= i < |b1.chars| && b1.chars[i].id.counter == b1.clock;
      assert Has(b1.chars, b1.chars[i].id);
      assert b2.chars[IndexOf(b2.chars, b1.chars[i].id)].id.counter == b2.clock;
    }
  }

  lemma AdvancesTransitive(b0: Buffered, b1: Buffered, b2: Buffered, open: set<CrdtId>)
    requires Advances(b0, b1, open) && Advances(b1, b2, {})
    requires forall id | id in open :: id !in b2.inserts && id !in b2.deletes
    ensures Advances(b0, b2, {})
  {
    ClockFollowsTransitive(b0, b1, b2);
  }

  // ----- The single steps -----

  lemma WaitingWithout(m: map<CrdtId, seq<CrdtChar>>, k: CrdtId)
    requires k in m
    ensures WaitingOf(m - {k}) + Members(m[k]) == WaitingOf(m)
  {
    forall c | c in WaitingOf(m)
      ensures c in WaitingOf(m - {k}) || c in m[k]
    {
      var j :| j in m && c in m[j];
      assert j == k || (j in m - {k} && c in (m - {k})[j]);
    }
  }

  lemma WaitingWith(m: map<CrdtId, seq<CrdtChar>>, k: CrdtId, s: seq<CrdtChar>)
    requires k in m ==> Members(m[k]) <= Members(s)
    ensures WaitingOf(m[k := s]) == WaitingOf(m) + Members(s)
  {
    var m' := m[k := s];
    forall c
      ensures c in WaitingOf(m') <==> c in WaitingOf(m) || c in s
    {
      if c in WaitingOf(m) {
        var j :| j in m && c in m[j];
        if j == k {
          assert c in Members(m[k]);
        }
        assert j in m' && c in m'[j];
      }
      if c in s {
        assert k in m' && c in m'[k];
      }
      if j :| j in m' && c in m'[j] {
        assert j == k || (j in m && c in m[j]);
      }
    }
  }

  function WithDelete(b: Buffered, id: CrdtId): Buffered {
    b.(chars := Tombstoned(b.chars, id), deletes := b.deletes - {id})
  }

  lemma TombstonedShape(b: Buffered, id: CrdtId)
    requires Shape(b)
    ensures Shape(b.(chars := Tombstoned(b.chars, id)))
    ensures forall x :: Has(Tombstoned(b.chars, id), x) <==> Has(b.chars, x)
  {
    var t := Tombstoned(b.chars, id);
    TombstonedContents(b.chars, id);
    SameShapeWellFormed(b.chars, t);
    forall x
      ensures Has(t, x) <==> Has(b.chars, x)
    {
      SameShapeSameIndex(b.chars, t, x);
    }
  }

  lemma DeleteReleased(b: Buffered, id: CrdtId)
    requires Shape(b) && Has(b.chars, id) && id in b.deletes
    ensures Advances(b, WithDelete(b, id), {})
    ensures Known(View(WithDelete(b, id))) == Known(View(b))
    ensures Tombs(View(WithDelete(b, id))) == Tombs(View(b))
    ensures b.deletes[id] != [] && forall d | d in b.deletes[id] :: d == id
  {
    hide WellFormed, Tombstoned, Inserts, Deleted, IndexOf, SameShape, WaitingOf;
    TombstonedShape(b, id);
    TombstonedContents(b.chars, id);
  }

  lemma InsertsReleased(b: Buffered, id: CrdtId)
    requires Shape(b) && Has(b.chars, id) && id in b.inserts
    ensures var b' := b.(inserts := b.inserts - {id});
            && Advances(b, b', {})
            && Known(View(b')) + Members(b.inserts[id]) == Known(View(b))
            && Tombs(View(b')) == Tombs(View(b))
    ensures forall c | c in b.inserts[id] :: c.originId == Some(id) && !c.isDeleted
  {
    hide WellFormed, Inserts, Deleted;
    WaitingWithout(b.inserts, id);
  }

  function WithInsert(b: Buffered, c: CrdtChar): Buffered {
    b.(clock := Max(b.clock, c.id.counter), chars := if Has(b.chars, c.id) then b.chars else Inserted(b.chars, c))
  }

  lemma DuplicateIntegrated(b: Buffered, c: CrdtChar)
    requires Shape(b) && Has(b.chars, c.id) && !c.isDeleted
    requires OneMeaning(Known(View(b)) + {c})
    ensures c in Inserts(b.chars) && WithInsert(b, c) == b
  {
    var i := IndexOf(b.chars, c.id);
    InInserts(b.chars, Plain(b.chars[i]));
    assert Plain(b.chars[i]) in Known(View(b)) + {c} && c in Known(View(b)) + {c};
  }

  lemma NewIntegrated(b: Buffered, c: CrdtChar)
    requires Shape(b) && !Has(b.chars, c.id) && OriginPresent(b.chars, c.originId) && !c.isDeleted
    ensures Advances(b, WithInsert(b, c), {c.id})
    ensures Inserts(WithInsert(b, c).chars) == Inserts(b.chars) + {c}
    ensures Deleted(WithInsert(b, c).chars) == Deleted(b.chars)
    ensures Has(WithInsert(b, c).chars, c.id)
  {
    hide WellFormed, Inserted, Inserts, Deleted;
    InsertedWellFormed(b.chars, c);
    InsertedContents(b.chars, c);
    CounterOfInserted(b.chars, c, b.clock);
  }

  lemma InsertIntegrated(b: Buffered, c: CrdtChar)
    requires Shape(b) && OriginPresent(b.chars, c.originId) && !c.isDeleted
    requires OneMeaning(Known(View(b)) + {c})
    ensures Advances(b, WithInsert(b, c), {c.id}) && Shape(WithInsert(b, c))
    ensures Has(WithInsert(b, c).chars, c.id) && c in Inserts(WithInsert(b, c).chars)
    ensures Known(View(WithInsert(b, c))) == Known(View(b)) + {c}
    ensures Tombs(View(WithInsert(b, c))) == Tombs(View(b))
  {
    hide Inserts, Deleted, Inserted, WellFormed, IndexOf, OneMeaning, Shape;
    if Has(b.chars, c.id) {
      DuplicateIntegrated(b, c);
      AdvancesReflexive(b);
    } else {
      NewIntegrated(b, c);
      assert Inserts(b.chars) + {c} + WaitingOf(b.inserts) == Inserts(b.chars) + WaitingOf(b.inserts) + {c};
    }
  }

  lemma CounterOfInserted(s: seq<CrdtChar>, c: CrdtChar, clock: nat)
    requires ClockCovers(s, clock)
    ensures ClockFollows(clock, clock, Inserted(s, c), Max(clock, c.id.counter))
  {
    var t := Inserted(s, c);
    assert t[ScanPos(s, c)] == c;
    InsertedMembers(s, c);
    forall i | 0 <= i < |t|
      ensures t[i].id.counter <= Max(clock, c.id.counter)
    {
      assert t[i] in t;
      assert t[i] in s || t[i] == c;
    }
  }

  // A released insert is integrated, and what waited for it is released in turn.
  lemma ReleaseStep(b0: Buffered, b: Buffered, c: CrdtChar, b': Buffered)
    requires Advances(b0, b, {}) && Advances(b, WithInsert(b, c), {c.id}) && Advances(WithInsert(b, c), b', {})
    requires c.id !in b'.inserts && c.id !in b'.deletes
    ensures Advances(b0, b', {})
  {
    AdvancesTransitive(b, WithInsert(b, c), b', {c.id});
    AdvancesTransitive(b0, b, b', {});
  }

  lemma AdvancesFacts(b0: Buffered, b: Buffered, open: set<CrdtId> := {})
    requires Advances(b0, b, open)
    ensures Shape(b) && b.inserts.Keys <= b0.inserts.Keys && b.deletes.Keys <= b0.deletes.Keys
    ensures forall id | Has(b0.chars, id) :: Has(b.chars, id)
  {
  }

  lemma OneMoreInHand(b: Buffered, s: seq<CrdtChar>, n: nat, all: set<CrdtChar>)
    requires n < |s| && Known(View(b)) + Members(s[n..]) == all && OneMeaning(all)
    ensures s[n] in s && OneMeaning(Known(View(b)) + {s[n]})
    ensures Known(View(b)) + {s[n]} + Members(s[n + 1..]) == all
    ensures OneMeaning(Known(View(b)))
  {
    assert s[n..] == [s[n]] + s[n + 1..];
    assert Members(s[n..]) == {s[n]} + Members(s[n + 1..]);
  }

  lemma MembersOfNone(s: seq<CrdtChar>)
    ensures Members(s[|s|..]) == {}
  {
  }

  // ----- processPending -----

  // An operation list of b0 was integrated entirely while nothing else was lost.
  lemma ReadyKeyDone(b0: Buffered, b: Buffered, k: CrdtId)
    requires Shape(b0) && Advances(b0, b, {}) && k in b0.inserts && Has(b.chars, k)
    requires forall c | c in b0.inserts[k] :: Has(b.chars, c.id)
    requires Known(View(b)) == Known(View(b0)) && OneMeaning(Known(View(b0)))
    ensures var b' := b.(inserts := b.inserts - {k});
            Advances(b0, b', {}) && Known(View(b')) == Known(View(b0)) && Tombs(View(b')) == Tombs(View(b))
  {
    hide Shape, Advances, Inserts, Deleted, OneMeaning, IndexOf, WaitingOf;
    var b' := b.(inserts := b.inserts - {k});
    AdvancesFacts(b0, b);
    if k in b.inserts {
      SameListStill(b0, b, k);
      InsertsReleased(b, k);
      AdvancesTransitive(b0, b, b', {});
      forall c | c in Members(b.inserts[k])
        ensures c in Known(View(b'))
      {
        PresentIsIntegrated(b, k, c);
      }
    } else {
      assert b' == b;
    }
  }

  lemma SameListStill(b0: Buffered, b: Buffered, k: CrdtId)
    requires Advances(b0, b, {}) && k in b.inserts
    ensures k in b0.inserts && b.inserts[k] == b0.inserts[k]
  {
  }

  lemma PresentIsIntegrated(b: Buffered, k: CrdtId, c: CrdtChar)
    requires k in b.inserts && c in b.inserts[k] && Has(b.chars, c.id) && OneMeaning(Known(View(b)))
    ensures c in Inserts(b.chars)
  {
    var i := IndexOf(b.chars, c.id);
    InInserts(b.chars, Plain(b.chars[i]));
    assert c in WaitingOf(b.inserts) && Plain(b.chars[i]) in Known(View(b)) && c in Known(View(b));
  }

  lemma OperationsWaitFor(b: Buffered, k: CrdtId)
    requires Shape(b) && k in b.inserts
    ensures b.inserts[k] != [] && forall c | c in b.inserts[k] :: c.originId == Some(k) && !c.isDeleted
  {
  }

  lemma AlreadyKnown(b0: Buffered, k: CrdtId, c: CrdtChar, b: Buffered)
    requires k in b0.inserts && c in b0.inserts[k]
    requires Known(View(b)) == Known(View(b0)) && OneMeaning(Known(View(b0)))
    ensures Known(View(b)) + {c} == Known(View(b)) && OneMeaning(Known(View(b)) + {c})
  {
    assert c in WaitingOf(b0.inserts);
  }

  lemma NotReadyStays(b0: Buffered, b: Buffered, k: CrdtId)
    requires Advances(b0, b, {}) && k in b0.inserts && !Has(b.chars, k)
    ensures k in b.inserts && b.inserts[k] == b0.inserts[k]
    ensures b.inserts[k := b0.inserts[k]] == b.inserts
  {
  }

  lemma DeletesWaitFor(b: Buffered, k: CrdtId)
    requires Shape(b) && k in b.deletes
    ensures b.deletes[k] != [] && forall id | id in b.deletes[k] :: id == k
  {
  }

  // The deletes under one key of the stale copy: all applied and gone, or all kept.
  lemma DeletesAtKeyDone(b0: Buffered, b: Buffered, k: CrdtId)
    requires Shape(b0) && Advances(b0, b, {}) && k in b0.deletes && k in b.deletes
    ensures b.deletes[k := b0.deletes[k]] == b.deletes
    ensures Has(b.chars, k) ==>
              && Advances(b0, WithDelete(b, k), {})
              && Known(View(WithDelete(b, k))) == Known(View(b))
              && Tombs(View(WithDelete(b, k))) == Tombs(View(b))
              && (forall x :: Has(WithDelete(b, k).chars, x) <==> Has(b.chars, x))
  {
    hide Known, Tombs, View, Tombstoned;
    if Has(b.chars, k) {
      DeleteReleased(b, k);
      TombstonedShape(b, k);
      AdvancesTransitive(b0, b, WithDelete(b, k), {});
    }
  }

  // ----- Whole calls -----

  lemma StaysSettled(b0: Buffered, b: Buffered)
    requires Shape(b0) && Advances(b0, b, {}) && Settled(View(b0))
    ensures Settled(View(b))
  {
    forall c | c in WaitingOf(b.inserts)
      ensures !c.isDeleted && c.originId.Some? && !Has(b.chars, c.originId.value)
    {
      var k :| k in b.inserts && c in b.inserts[k];
      assert k in b0.inserts && c in b0.inserts[k];
      assert c in WaitingOf(b0.inserts);
    }
    forall id | id in b.deletes
      ensures !Has(b.chars, id)
    {
      assert id in View(b0).waitingDeletes;
    }
  }

  lemma NothingReadySettles(b: Buffered)
    requires Shape(b)
    requires forall k | k in b.inserts :: !Has(b.chars, k)
    requires forall k | k in b.deletes :: !Has(b.chars, k)
    ensures Settled(View(b))
  {
  }

  lemma SettledKeys(b: Buffered)
    requires Shape(b) && Settled(View(b))
    ensures forall k | k in b.inserts :: !Has(b.chars, k)
    ensures forall k | k in b.deletes :: !Has(b.chars, k)
  {
    forall k | k in b.inserts
      ensures !Has(b.chars, k)
    {
      var c := b.inserts[k][0];
      assert c in b.inserts[k] && c in WaitingOf(b.inserts);
    }
    forall k | k in b.deletes
      ensures !Has(b.chars, k)
    {
      assert k in View(b).waitingDeletes;
    }
  }

  lemma AbsorbsWhenSettled(b0: Buffered, b: Buffered, inserts: set<CrdtChar>, deletes: set<CrdtId>)
    requires Advances(b0, b, {}) && Settled(View(b)) && OneMeaning(Known(View(b)))
    requires Known(View(b)) == Known(View(b0)) + inserts
    requires Tombs(View(b)) == Tombs(View(b0)) + deletes
    ensures Absorbs(View(b0), inserts, deletes, 0, View(b))
  {
  }

  function WithHeldInsert(b: Buffered, k: CrdtId, c: CrdtChar): Buffered {
    b.(inserts := b.inserts[k := (if k in b.inserts then b.inserts[k] else []) + [c]])
  }

  function WithHeldDelete(b: Buffered, id: CrdtId): Buffered {
    b.(deletes := b.deletes[id := (if id in b.deletes then b.deletes[id] else []) + [id]])
  }

  lemma HeldWaiting(b: Buffered, k: CrdtId, c: CrdtChar)
    ensures WaitingOf(WithHeldInsert(b, k, c).inserts) == WaitingOf(b.inserts) + {c}
  {
    var held := if k in b.inserts then b.inserts[k] else [];
    WaitingWith(b.inserts, k, held + [c]);
    assert Members(held + [c]) == Members(held) + {c};
    if k in b.inserts {
      WaitingWithout(b.inserts, k);
    }
  }

  lemma HeldShape(b: Buffered, k: CrdtId, c: CrdtChar)
    requires Shape(b) && Settled(View(b))
    requires c.originId == Some(k) && !Has(b.chars, k) && !c.isDeleted
    ensures Shape(WithHeldInsert(b, k, c)) && Settled(View(WithHeldInsert(b, k, c)))
  {
    SettledKeys(b);
    NothingReadySettles(WithHeldInsert(b, k, c));
  }

  lemma InsertHeldBack(b: Buffered, c: CrdtChar)
    requires Shape(b) && Settled(View(b)) && OneMeaning(Known(View(b)) + {c})
    requires c.originId.Some? && !Has(b.chars, c.originId.value) && !c.isDeleted
    ensures var b' := WithHeldInsert(b, c.originId.value, c);
            Shape(b') && Absorbs(View(b), {c}, {}, 0, View(b'))
  {
    hide WellFormed, Inserts, Deleted, OneMeaning, WaitingOf, Settled;
    HeldWaiting(b, c.originId.value, c);
    HeldShape(b, c.originId.value, c);
    var b' := WithHeldInsert(b, c.originId.value, c);
    assert Known(View(b')) == Known(View(b)) + {c};
  }

  lemma DeleteHeldBack(b: Buffered, id: CrdtId)
    requires Shape(b) && Settled(View(b)) && OneMeaning(Known(View(b))) && !Has(b.chars, id)
    ensures Shape(WithHeldDelete(b, id)) && Absorbs(View(b), {}, {id}, 0, View(WithHeldDelete(b, id)))
  {
    hide WellFormed, Inserts, Deleted;
    SettledKeys(b);
    NothingReadySettles(WithHeldDelete(b, id));
  }

  lemma DeleteApplied(b: Buffered, id: CrdtId)
    requires Shape(b) && Settled(View(b)) && OneMeaning(Known(View(b))) && Has(b.chars, id)
    ensures var b' := b.(chars := Tombstoned(b.chars, id));
            Shape(b') && Absorbs(View(b), {}, {id}, 0, View(b'))
  {
    hide WellFormed, Inserts, Deleted, Tombstoned;
    TombstonedShape(b, id);
    TombstonedContents(b.chars, id);
    SettledKeys(b);
    NothingReadySettles(b.(chars := Tombstoned(b.chars, id)));
  }

  // ----- Loading a snapshot -----

  ghost predicate GoodSnapshot(snapshot: Snapshot) {
    && WellFormed(snapshot.chars)
    && ClockCovers(snapshot.chars, snapshot.clock)
    && OneMeaning(Inserts(snapshot.chars))
  }

  // The snapshot of an imported text is one that can be loaded.
  lemma ImportedSnapshotIsGood(siteId: JsString, values: seq<JsString>)
    ensures GoodSnapshot(Snapshot(|values|, Typed(siteId, values)))
  {
    var s := Typed(siteId, values);
    TypedWellFormed(siteId, values);
    forall c, d | c in Inserts(s) && d in Inserts(s) && c.id == d.id
      ensures c == d
    {
      InInserts(s, c);
      InInserts(s, d);
    }
  }

  lemma CoveredMembers(snapshot: Snapshot)
    requires GoodSnapshot(snapshot)
    ensures forall c | c in snapshot.chars :: c.id.counter <= snapshot.clock
  {
  }

  // What an operation tells its receiver. The server admits only inserts that are not deleted.
  function OpInserts(op: CrdtOp): set<CrdtChar> { if op.InsertOp? then {op.character} else {} }

  function OpDeletes(op: CrdtOp): set<CrdtId> { if op.DeleteOp? then {op.id} else {} }

  predicate Admissible(op: CrdtOp) { op.InsertOp? ==> !op.character.isDeleted }

  function WithSnapshot(b: Buffered, snapshot: Snapshot): Buffered {
    b.(chars := Merged(b.chars, snapshot.chars), clock := Max(b.clock, snapshot.clock))
  }

  lemma CountersOfMerged(s: seq<CrdtChar>, t: seq<CrdtChar>, m: seq<CrdtChar>, a: nat, b: nat)
    requires ClockCovers(s, a) && ClockCovers(t, b) && Inserts(m) == Inserts(s) + Inserts(t)
    ensures ClockCovers(m, Max(a, b))
  {
    forall i | 0 <= i < |m|
      ensures m[i].id.counter <= Max(a, b)
    {
      InInserts(m, Plain(m[i]));
      InInserts(s, Plain(m[i]));
      InInserts(t, Plain(m[i]));
    }
  }

  lemma SnapshotMerged(b: Buffered, snapshot: Snapshot)
    requires Shape(b) && GoodSnapshot(snapshot) && OneMeaning(Known(View(b)) + Inserts(snapshot.chars))
    ensures Shape(WithSnapshot(b, snapshot))
    ensures Known(View(WithSnapshot(b, snapshot))) == Known(View(b)) + Inserts(snapshot.chars)
    ensures Tombs(View(WithSnapshot(b, snapshot))) == Tombs(View(b)) + Deleted(snapshot.chars)
  {
    hide WellFormed, Inserts, Deleted, WaitingOf, Merged, OneMeaning, ClockCovers;
    OneMeaningSubset(Inserts(b.chars) + Inserts(snapshot.chars), Known(View(b)) + Inserts(snapshot.chars));
    MergedContents(b.chars, snapshot.chars);
    CountersOfMerged(b.chars, snapshot.chars, Merged(b.chars, snapshot.chars), b.clock, snapshot.clock);
  }

  lemma AbsorbsSnapshot(b0: Buffered, b: Buffered, snapshot: Snapshot)
    requires Shape(b0) && GoodSnapshot(snapshot)
    requires OneMeaning(Known(View(b0)) + Inserts(snapshot.chars))
    requires Advances(WithSnapshot(b0, snapshot), b, {}) && Settled(View(b))
    requires Known(View(b)) == Known(View(WithSnapshot(b0, snapshot)))
    requires Tombs(View(b)) == Tombs(View(WithSnapshot(b0, snapshot)))
    ensures Absorbs(View(b0), Inserts(snapshot.chars), Deleted(snapshot.chars), snapshot.clock, View(b))
  {
    hide WellFormed, Inserts, Deleted, WaitingOf, Merged;
    SnapshotMerged(b0, snapshot);
  }

  // ----- The buffer -----

  class PendingBuffer {
    const doc: CrdtDocument
    var pendingInserts: map<CrdtId, seq<CrdtChar>>
    var pendingDeletes: map<CrdtId, seq<CrdtId>>

    ghost function State(): Buffered
      reads this, doc
    {
      Buffered(doc.chars, doc.clock, pendingInserts, pendingDeletes)
    }

    constructor (doc: CrdtDocument)
      ensures this.doc == doc && pendingInserts == map[] && pendingDeletes == map[]
    {
      this.doc := doc;
      pendingInserts := map[];
      pendingDeletes := map[];
    }

    method ApplyDeletes(deletes: seq<CrdtId>, ghost id: CrdtId)
      requires deletes != [] && forall d | d in deletes :: d == id
      modifies doc`chars
      ensures doc.chars == Tombstoned(old(doc.chars), id)
    {
      for n := 0 to |deletes|
        invariant doc.chars == if n == 0 then old(doc.chars) else Tombstoned(old(doc.chars), id)
      {
        TombstonedTwice(old(doc.chars), id);
        assert deletes[n] in deletes;
        doc.IntegrateRemoteDelete(deletes[n]);
      }
    }

    // The first half of drain: the deletes that waited for this character.
    method DrainDeletes(id: CrdtId)
      requires Shape(State()) && Has(doc.chars, id)
      modifies this`pendingDeletes, doc`chars
      ensures Advances(old(State()), State(), {}) && Shape(State())
      ensures Known(View(State())) == old(Known(View(State())))
      ensures Tombs(View(State())) == old(Tombs(View(State())))
      ensures id !in pendingDeletes
      ensures Has(doc.chars, id)
    {
      hide Advances, Shape, Known, Tombs, View, Tombstoned, Has, IndexOf;
      ghost var b0 := State();
      AdvancesReflexive(b0);
      if id in pendingDeletes {
        DeleteReleased(b0, id);
        var pendingDels := pendingDeletes[id];
        pendingDeletes := pendingDeletes - {id};
        ApplyDeletes(pendingDels, id);
        assert State() == WithDelete(b0, id);
      }
      AdvancesFacts(b0, State());
    }

    // Releases whatever waited for this character, and whatever waited for that in turn.
    method Drain(id: CrdtId)
      requires Shape(State()) && Has(doc.chars, id) && OneMeaning(Known(View(State())))
      modifies this, doc
      ensures Advances(old(State()), State(), {})
      ensures Known(View(State())) == old(Known(View(State())))
      ensures Tombs(View(State())) == old(Tombs(View(State())))
      ensures id !in pendingInserts && id !in pendingDeletes
      decreases pendingInserts.Keys
    {
      hide Advances, Shape, Known, Tombs, View, OneMeaning, Members, Inserted, Has, IndexOf;
      ghost var b0 := State();
      DrainDeletes(id);
      ghost var b1 := State();
      AdvancesReflexive(b1);
      if id in pendingInserts {
        InsertsReleased(b1, id);
        var pendingIns := pendingInserts[id];
        pendingInserts := pendingInserts - {id};
        assert pendingIns[0..] == pendingIns;
        for n := 0 to |pendingIns|
          invariant Advances(b1, State(), {})
          invariant Known(View(State())) + Members(pendingIns[n..]) == Known(View(b1))
          invariant Tombs(View(State())) == Tombs(View(b1))
          invariant id !in pendingInserts
        {
          var ins := pendingIns[n];
          ghost var b := State();
          AdvancesFacts(b1, b);
          OneMoreInHand(b, pendingIns, n, Known(View(b1)));
          InsertIntegrated(b, ins);
          doc.IntegrateRemoteInsert(ins);
          assert State() == WithInsert(b, ins);
          Drain(ins.id);
          ReleaseStep(b1, b, ins, State());
          AdvancesFacts(WithInsert(b, ins), State());
        }
        MembersOfNone(pendingIns);
      }
      AdvancesFacts(b1, State());
      AdvancesTransitive(b0, b1, State(), {});
    }

    method IsInsertReady(c: CrdtChar) returns (ready: bool)
      ensures ready == OriginPresent(doc.chars, c.originId)
    {
      if c.originId.None? {
        return true;
      }
      ready := doc.HasChar(c.originId.value);
    }

    method ProcessInsert(c: CrdtChar)
      requires Shape(State()) && Settled(View(State())) && OneMeaning(Known(View(State())) + {c}) && !c.isDeleted
      modifies this, doc
      ensures Shape(State())
      ensures Absorbs(old(View(State())), {c}, {}, 0, View(State()))
    {
      hide Advances, Shape, Known, Tombs, View, Settled, OneMeaning, Absorbs, Has, IndexOf;
      ghost var b0 := State();
      var ready := IsInsertReady(c);
      if !ready {
        InsertHeldBack(b0, c);
        var key := c.originId.value;
        if key !in pendingInserts {
          pendingInserts := pendingInserts[key := []];
        }
        pendingInserts := pendingInserts[key := pendingInserts[key] + [c]];
        assert State() == WithHeldInsert(b0, key, c);
        return;
      }
      InsertIntegrated(b0, c);
      doc.IntegrateRemoteInsert(c);
      assert State() == WithInsert(b0, c);
      Drain(c.id);
      AdvancesReflexive(b0);
      ReleaseStep(b0, b0, c, State());
      StaysSettled(b0, State());
      AdvancesFacts(b0, State());
      AbsorbsWhenSettled(b0, State(), {c}, {});
    }

    method ProcessDelete(id: CrdtId)
      requires Shape(State()) && Settled(View(State())) && OneMeaning(Known(View(State())))
      modifies this, doc
      ensures Shape(State())
      ensures Absorbs(old(View(State())), {}, {id}, 0, View(State()))
    {
      hide Advances, Shape, Known, Tombs, View, Settled, OneMeaning, Absorbs, Has, IndexOf;
      ghost var b0 := State();
      var present := doc.HasChar(id);
      if !present {
        DeleteHeldBack(b0, id);
        if id !in pendingDeletes {
          pendingDeletes := pendingDeletes[id := []];
        }
        pendingDeletes := pendingDeletes[id := pendingDeletes[id] + [id]];
        assert State() == WithHeldDelete(b0, id);
        return;
      }
      DeleteApplied(b0, id);
      doc.IntegrateRemoteDelete(id);
      assert State() == b0.(chars := Tombstoned(b0.chars, id));
    }

    // The filter callback of processReadyInserts, over the list that the stale copy holds for a key.
    method ProcessReadyInsertsAt(key: CrdtId, operations: seq<CrdtChar>, ghost b0: Buffered) returns (progressed: bool)
      requires Shape(b0) && Advances(b0, State(), {}) && OneMeaning(Known(View(b0)))
      requires Known(View(State())) == Known(View(b0)) && Tombs(View(State())) == Tombs(View(b0))
      requires key in b0.inserts && operations == b0.inserts[key]
      modifies this, doc
      ensures Advances(b0, State(), {})
      ensures Known(View(State())) == Known(View(b0)) && Tombs(View(State())) == Tombs(View(b0))
      ensures progressed == old(Has(doc.chars, key))
      ensures !progressed ==> State() == old(State())
      ensures progressed ==> key !in pendingInserts
      ensures pendingInserts.Keys <= old(pendingInserts.Keys)
    {
      hide Advances, Shape, Known, Tombs, View, OneMeaning, IndexOf, WellFormed;
      ghost var ready := Has(doc.chars, key);
      ghost var before := State();
      OperationsWaitFor(b0, key);
      var remaining: seq<CrdtChar> := [];
      progressed := false;
      for n := 0 to |operations|
        invariant Advances(b0, State(), {})
        invariant Known(View(State())) == Known(View(b0)) && Tombs(View(State())) == Tombs(View(b0))
        invariant ready ==> Has(doc.chars, key) && remaining == [] && progressed == (n > 0)
        invariant ready ==> forall c | c in operations[..n] :: Has(doc.chars, c.id)
        invariant !ready ==> !progressed && State() == before && remaining == operations[..n]
        invariant pendingInserts.Keys <= before.inserts.Keys
      {
        var op := operations[n];
        assert op in operations;
        assert operations[..n + 1] == operations[..n] + [op];
        var opReady := IsInsertReady(op);
        if !opReady {
          remaining := remaining + [op];
        } else {
          ghost var b := State();
          AdvancesFacts(b0, b);
          AlreadyKnown(b0, key, op, b);
          InsertIntegrated(b, op);
          doc.IntegrateRemoteInsert(op);
          assert State() == WithInsert(b, op);
          Drain(op.id);
          ReleaseStep(b0, b, op, State());
          AdvancesFacts(b, WithInsert(b, op), {op.id});
          AdvancesFacts(WithInsert(b, op), State());
          progressed := true;
        }
      }
      assert operations[..|operations|] == operations;
      if |remaining| == 0 {
        ReadyKeyDone(b0, State(), key);
        pendingInserts := pendingInserts - {key};
      } else {
        NotReadyStays(b0, before, key);
        pendingInserts := pendingInserts[key := remaining];
      }
    }

    method ProcessReadyInserts() returns (progressed: bool)
      requires Shape(State()) && OneMeaning(Known(View(State())))
      modifies this, doc
      ensures Advances(old(State()), State(), {})
      ensures Known(View(State())) == old(Known(View(State())))
      ensures Tombs(View(State())) == old(Tombs(View(State())))
      ensures forall k | k in pendingInserts :: !Has(doc.chars, k)
      ensures if progressed then pendingInserts.Keys < old(pendingInserts.Keys) else State() == old(State())
    {
      hide Shape, Known, Tombs, View, OneMeaning, Has;
      ghost var b0 := State();
      AdvancesReflexive(b0);
      progressed := false;
      var copy := pendingInserts;
      var keys := copy.Keys;
      while keys != {}
        invariant keys <= copy.Keys
        invariant Advances(b0, State(), {})
        invariant Known(View(State())) == Known(View(b0)) && Tombs(View(State())) == Tombs(View(b0))
        invariant forall k | k in copy && k !in keys && Has(b0.chars, k) :: k !in pendingInserts
        invariant if progressed then exists k :: k in copy && k !in pendingInserts else State() == b0
        decreases keys
      {
        var key :| key in keys;
        keys := keys - {key};
        ghost var b := State();
        var moved := ProcessReadyInsertsAt(key, copy[key], b0);
        progressed := moved || progressed;
      }
    }

    // The filter callback of processReadyDeletes.
    method ProcessReadyDeletesAt(key: CrdtId, operations: seq<CrdtId>, ghost b0: Buffered) returns (progressed: bool)
      requires Shape(b0) && Advances(b0, State(), {})
      requires key in b0.deletes && operations == b0.deletes[key] && key in pendingDeletes
      modifies this`pendingDeletes, doc`chars
      ensures Advances(b0, State(), {})
      ensures Known(View(State())) == old(Known(View(State())))
      ensures Tombs(View(State())) == old(Tombs(View(State())))
      ensures forall x :: Has(doc.chars, x) <==> old(Has(doc.chars, x))
      ensures progressed == Has(doc.chars, key)
      ensures pendingDeletes == if progressed then old(pendingDeletes) - {key} else old(pendingDeletes)
      ensures !progressed ==> State() == old(State())
    {
      hide Advances, Shape, Known, Tombs, View, WellFormed, IndexOf, Tombstoned;
      ghost var ready := Has(doc.chars, key);
      ghost var b := State();
      DeletesWaitFor(b0, key);
      DeletesAtKeyDone(b0, b, key);
      AdvancesFacts(b0, b);
      TombstonedShape(b, key);
      var remaining: seq<CrdtId> := [];
      progressed := false;
      for n := 0 to |operations|
        invariant pendingDeletes == b.deletes
        invariant ready ==> remaining == [] && progressed == (n > 0)
        invariant doc.chars == if ready && n > 0 then Tombstoned(b.chars, key) else b.chars
        invariant !ready ==> !progressed && remaining == operations[..n]
      {
        var op := operations[n];
        assert op in operations;
        assert operations[..n + 1] == operations[..n] + [op];
        TombstonedTwice(b.chars, key);
        var present := doc.HasChar(op);
        if !present {
          remaining := remaining + [op];
        } else {
          doc.IntegrateRemoteDelete(op);
          progressed := true;
        }
      }
      assert operations[..|operations|] == operations;
      if |remaining| == 0 {
        pendingDeletes := pendingDeletes - {key};
        assert State() == WithDelete(b, key);
      } else {
        pendingDeletes := pendingDeletes[key := remaining];
        assert State() == b;
      }
    }

    method ProcessReadyDeletes() returns (progressed: bool)
      requires Shape(State())
      modifies this`pendingDeletes, doc`chars
      ensures Advances(old(State()), State(), {})
      ensures Known(View(State())) == old(Known(View(State())))
      ensures Tombs(View(State())) == old(Tombs(View(State())))
      ensures forall x :: Has(doc.chars, x) <==> old(Has(doc.chars, x))
      ensures forall k | k in pendingDeletes :: !Has(doc.chars, k)
      ensures if progressed then pendingDeletes.Keys < old(pendingDeletes.Keys) else State() == old(State())
    {
      hide Advances, Shape, Known, Tombs, View, Has;
      ghost var b0 := State();
      AdvancesReflexive(b0);
      progressed := false;
      var copy := pendingDeletes;
      var keys := copy.Keys;
      while keys != {}
        invariant keys <= pendingDeletes.Keys <= copy.Keys
        invariant Advances(b0, State(), {})
        invariant Known(View(State())) == Known(View(b0)) && Tombs(View(State())) == Tombs(View(b0))
        invariant forall x :: Has(doc.chars, x) <==> Has(b0.chars, x)
        invariant forall k | k in pendingDeletes && k !in keys :: !Has(b0.chars, k)
        invariant if progressed then exists k :: k in copy && k !in pendingDeletes else State() == b0
        decreases keys
      {
        var key :| key in keys;
        keys := keys - {key};
        var moved := ProcessReadyDeletesAt(key, copy[key], b0);
        progressed := moved || progressed;
      }
    }

    // Runs until a pass moves nothing; afterwards nothing that waits could have been applied.
    method ProcessPending()
      requires Shape(State()) && OneMeaning(Known(View(State())))
      modifies this, doc
      ensures Advances(old(State()), State(), {})
      ensures Known(View(State())) == old(Known(View(State())))
      ensures Tombs(View(State())) == old(Tombs(View(State())))
      ensures Settled(View(State()))
    {
      hide Advances, Shape, Known, Tombs, View, OneMeaning, Settled, IndexOf, Has;
      ghost var b0 := State();
      AdvancesReflexive(b0);
      var progressed := true;
      while progressed
        invariant Advances(b0, State(), {})
        invariant Known(View(State())) == Known(View(b0)) && Tombs(View(State())) == Tombs(View(b0))
        invariant !progressed ==> forall k | k in pendingInserts :: !Has(doc.chars, k)
        invariant !progressed ==> forall k | k in pendingDeletes :: !Has(doc.chars, k)
        decreases pendingInserts.Keys, pendingDeletes.Keys, progressed
      {
        ghost var b := State();
        AdvancesFacts(b0, b);
        progressed := ProcessReadyInserts();
        ghost var b1 := State();
        AdvancesFacts(b, b1);
        AdvancesTransitive(b0, b, b1, {});
        var moved := ProcessReadyDeletes();
        AdvancesFacts(b1, State());
        AdvancesTransitive(b0, b1, State(), {});
        progressed := moved || progressed;
      }
      AdvancesFacts(b0, State());
      NothingReadySettles(State());
    }

    method Process(op: CrdtOp)
      requires Shape(State()) && Settled(View(State()))
      requires OneMeaning(Known(View(State())) + OpInserts(op)) && Admissible(op)
      modifies this, doc
      ensures Shape(State())
      ensures Absorbs(old(View(State())), OpInserts(op), OpDeletes(op), 0, View(State()))
    {
      if op.InsertOp? {
        ProcessInsert(op.character);
      } else {
        assert Known(View(State())) + {} == Known(View(State()));
        ProcessDelete(op.id);
      }
    }

    // LoadFileSnapshot: the snapshot is merged, then the buffer is offered everything it holds.
    method LoadSnapshot(snapshot: Snapshot)
      requires Shape(State()) && Settled(View(State())) && GoodSnapshot(snapshot)
      requires OneMeaning(Known(View(State())) + Inserts(snapshot.chars))
      modifies this, doc
      ensures Shape(State())
      ensures Absorbs(old(View(State())), Inserts(snapshot.chars), Deleted(snapshot.chars), snapshot.clock,
                View(State()))
    {
      hide Advances, Shape, Known, Tombs, View, OneMeaning, Settled, Absorbs, Inserts, Deleted, Merged;
      ghost var b0 := State();
      SnapshotMerged(b0, snapshot);
      CoveredMembers(snapshot);
      doc.FromSnapshot(snapshot);
      assert State() == WithSnapshot(b0, snapshot);
      ProcessPending();
      AbsorbsSnapshot(b0, State(), snapshot);
      AdvancesFacts(WithSnapshot(b0, snapshot), State());
    }
  }
}
