// load-tests/CrdtReplica.cs: a second implementation of the document, which replays a whole list of
// operations in any order by scanning what is left backwards until nothing is left.
module CrdtReplicas {
  import opened Wrappers
  import opened Text
  import opened CrdtIds
  import opened Rga
  import opened CanonicalOrder
  import opened DocumentContents
  import opened Replicas
  import opened CrdtDocuments
  import opened PendingBuffers
  import opened Rooms

  datatype ReplayError = UnresolvedDependency

  function ListInserts(ops: seq<CrdtOp>): set<CrdtChar> { set op | op in ops && op.InsertOp? :: op.character }

  function ListDeletes(ops: seq<CrdtOp>): set<CrdtId> { set op | op in ops && op.DeleteOp? :: op.id }

  ghost predicate Replayable(ops: seq<CrdtOp>) {
    OneMeaning(ListInserts(ops)) && forall op | op in ops :: Admissible(op)
  }

  // Every origin leads back to the start through the list, and every delete has its insert.
  ghost predicate DependencyClosed(ops: seq<CrdtOp>) {
    OriginClosed(ListInserts(ops)) && forall id | id in ListDeletes(ops) :: Issued(ListInserts(ops), id)
  }

  predicate Blocked(s: seq<CrdtChar>, op: CrdtOp) {
    if op.InsertOp? then !OriginPresent(s, op.character.originId) else !Has(s, op.id)
  }

  ghost predicate Applied(s: seq<CrdtChar>, op: CrdtOp) {
    if op.InsertOp? then op.character in Inserts(s) else op.id in Deleted(s)
  }

  // The characters are made of listed operations only.
  ghost predicate MadeOf(s: seq<CrdtChar>, ops: seq<CrdtOp>) {
    WellFormed(s) && Inserts(s) <= ListInserts(ops) && Deleted(s) <= ListDeletes(ops)
  }

  // Nothing is lost: each operation is applied or still pending.
  ghost predicate Accounted(s: seq<CrdtChar>, pending: seq<CrdtOp>, ops: seq<CrdtOp>) {
    && MadeOf(s, ops)
    && (forall op | op in pending :: op in ops)
    && (forall op | op in ops && op !in pending :: Applied(s, op))
  }

  // The characters as the list means them, whatever its order.
  ghost predicate Resolved(ops: seq<CrdtOp>, s: seq<CrdtChar>) {
    && WellFormed(s)
    && Canonical(ListInserts(ops), PlainSeq(s))
    && (forall i | 0 <= i < |s| :: s[i].isDeleted <==> s[i].id in ListDeletes(ops))
  }

  function Without(pending: seq<CrdtOp>, index: nat): seq<CrdtOp>
    requires index < |pending|
  {
    pending[..index] + pending[index + 1..]
  }

  lemma WithoutMembers(pending: seq<CrdtOp>, index: nat)
    requires index < |pending|
    ensures forall op :: op in pending <==> op in Without(pending, index) || op == pending[index]
  {
    assert pending == pending[..index] + [pending[index]] + pending[index + 1..];
  }

  lemma ListedInsert(ops: seq<CrdtOp>, op: CrdtOp)
    requires op in ops
    ensures if op.InsertOp? then op.character in ListInserts(ops) else op.id in ListDeletes(ops)
  {
  }

  // One character of the C# Insert, or a tombstone set.
  function ApplyOp(s: seq<CrdtChar>, op: CrdtOp): seq<CrdtChar> {
    match op
    case InsertOp(c) => if Has(s, c.id) then s else Inserted(s, c)
    case DeleteOp(id) => Tombstoned(s, id)
  }

  lemma ApplyOpMadeOf(s: seq<CrdtChar>, op: CrdtOp, ops: seq<CrdtOp>)
    requires Replayable(ops) && MadeOf(s, ops) && op in ops && !Blocked(s, op)
    ensures MadeOf(ApplyOp(s, op), ops) && Applied(ApplyOp(s, op), op)
    ensures Inserts(s) <= Inserts(ApplyOp(s, op)) && Deleted(s) <= Deleted(ApplyOp(s, op))
  {
    ListedInsert(ops, op);
    match op
    case InsertOp(c) =>
      if Has(s, c.id) {
        var d := Plain(s[IndexOf(s, c.id)]);
        InInserts(s, d);
        assert d in ListInserts(ops) && c == d;
      } else {
        InsertedWellFormed(s, c);
        InsertedContents(s, c);
      }
    case DeleteOp(id) =>
      TombstonedContents(s, id);
      SameShapeWellFormed(s, Tombstoned(s, id));
  }

  lemma AccountedStep(s: seq<CrdtChar>, pending: seq<CrdtOp>, index: nat, ops: seq<CrdtOp>)
    requires Replayable(ops) && Accounted(s, pending, ops) && index < |pending| && !Blocked(s, pending[index])
    ensures Accounted(ApplyOp(s, pending[index]), Without(pending, index), ops)
  {
    hide MadeOf, Inserts, Deleted, Blocked;
    var op := pending[index];
    WithoutMembers(pending, index);
    assert op in pending;
    ApplyOpMadeOf(s, op, ops);
  }

  lemma AccountedInit(s: seq<CrdtChar>, ops: seq<CrdtOp>)
    requires MadeOf(s, ops)
    ensures Accounted(s, ops, ops)
  {
  }

  // When nothing more can move, the characters are as the list means them.
  lemma StuckIsResolved(s: seq<CrdtChar>, pending: seq<CrdtOp>, ops: seq<CrdtOp>)
    requires Replayable(ops) && Accounted(s, pending, ops)
    requires forall op | op in pending :: Blocked(s, op)
    ensures Resolved(ops, s)
  {
    var known := ListInserts(ops);
    forall c | c in known && c !in PlainSeq(s)
      ensures c.originId.Some? && !Has(s, c.originId.value)
    {
      assert c !in Inserts(s);
      assert InsertOp(c) in ops && InsertOp(c) in pending;
    }
    forall k | 0 <= k < |s|
      ensures Plain(s[k]) in known
    {
      InInserts(s, Plain(s[k]));
    }
    WellFormedIsCanonical(known, s);
    forall i | 0 <= i < |s|
      ensures s[i].isDeleted <==> s[i].id in ListDeletes(ops)
    {
      FlagIsDeleted(s, i);
      IndexOfAt(s, i);
      if s[i].id in ListDeletes(ops) {
        assert DeleteOp(s[i].id) in ops;
        assert !Blocked(s, DeleteOp(s[i].id));
      }
    }
  }

  lemma StuckIsOpen(s: seq<CrdtChar>, pending: seq<CrdtOp>, ops: seq<CrdtOp>)
    requires Replayable(ops) && Accounted(s, pending, ops) && pending != []
    requires forall op | op in pending :: Blocked(s, op)
    ensures !DependencyClosed(ops)
  {
    StuckIsResolved(s, pending, ops);
    assert pending[0] in pending;
    if DependencyClosed(ops) {
      ClosedMoves(ops, s, pending[0]);
    }
  }

  lemma ClosedMoves(ops: seq<CrdtOp>, s: seq<CrdtChar>, op: CrdtOp)
    requires Resolved(ops, s) && DependencyClosed(ops) && op in ops
    ensures !Blocked(s, op)
  {
    ListedInsert(ops, op);
    if op.InsertOp? {
      AttachedStands(ops, s, op.character);
    } else {
      var c :| c in ListInserts(ops) && c.id == op.id;
      AttachedStands(ops, s, c);
    }
  }

  lemma AttachedStands(ops: seq<CrdtOp>, s: seq<CrdtChar>, c: CrdtChar)
    requires Resolved(ops, s) && Attached(ListInserts(ops), c)
    ensures Has(s, c.id) && OriginPresent(s, c.originId)
  {
    assert c in PlainSeq(s);
    var i :| 0 <= i < |s| && PlainSeq(s)[i] == c;
    IndexOfAt(s, i);
    assert OriginPresent(s, s[i].originId);
  }

  lemma DoneIsClosed(s: seq<CrdtChar>, ops: seq<CrdtOp>)
    requires Replayable(ops) && Accounted(s, [], ops)
    ensures Resolved(ops, s) && DependencyClosed(ops)
    ensures Inserts(s) == ListInserts(ops) && Deleted(s) == ListDeletes(ops)
  {
    StuckIsResolved(s, [], ops);
    forall c | c in ListInserts(ops)
      ensures c in Inserts(s)
    {
      assert InsertOp(c) in ops;
    }
    forall id | id in ListDeletes(ops)
      ensures id in Deleted(s)
    {
      assert DeleteOp(id) in ops;
    }
    forall c | c in ListInserts(ops)
      ensures Attached(ListInserts(ops), c)
    {
      assert c in PlainSeq(s);
    }
    forall id | id in ListDeletes(ops)
      ensures Issued(ListInserts(ops), id)
    {
      HasIff(s, s, id);
      HasMeansInsert(s, id);
    }
  }

  // The Max over the counters, or 0.
  method GreatestCounter(characters: seq<CrdtChar>) returns (clock: nat)
    ensures ClockFollows(0, 0, characters, clock)
  {
    clock := 0;
    for i := 0 to |characters|
      invariant forall k | 0 <= k < i :: characters[k].id.counter <= clock
      invariant clock == 0 || exists k :: 0 <= k < i && characters[k].id.counter == clock
    {
      clock := Max(clock, characters[i].id.counter);
    }
  }

  class CrdtReplica {
    const operations: seq<CrdtOp>
    var characters: seq<CrdtChar>

    constructor (operations: seq<CrdtOp>)
      ensures this.operations == operations && characters == []
    {
      this.operations := operations;
      characters := [];
    }

    method Find(id: CrdtId) returns (index: int)
      ensures index == IndexOf(characters, id)
    {
      index := 0;
      while index < |characters|
        invariant 0 <= index <= |characters|
        invariant forall k | 0 <= k < index :: characters[k].id != id
      {
        if characters[index].id == id {
          return;
        }
        index := index + 1;
      }
      index := -1;
    }

    method Insert(character: CrdtChar)
      modifies this
      ensures characters == Inserted(old(characters), character)
    {
      var originPosition := -1;
      if character.originId.Some? {
        originPosition := Find(character.originId.value);
      }
      var insertPosition := originPosition + 1;
      while insertPosition < |characters|
        invariant characters == old(characters) && originPosition == OriginPos(characters, character.originId)
        invariant originPosition < insertPosition <= |characters|
        invariant ScanFrom(characters, character, insertPosition) == ScanPos(characters, character)
      {
        var next := characters[insertPosition];
        IdTrichotomy(character.id, next.id);
        if next.originId == character.originId {
          if CompareCrdtIds(character.id, next.id) > 0 {
            assert Stops(characters, character, insertPosition);
            break;
          }
        } else {
          var nextOriginPosition := -1;
          if next.originId.Some? {
            nextOriginPosition := Find(next.originId.value);
          }
          if nextOriginPosition < originPosition {
            assert Stops(characters, character, insertPosition);
            break;
          }
        }
        insertPosition := insertPosition + 1;
      }
      assert insertPosition == ScanPos(characters, character);
      characters := characters[..insertPosition] + [character] + characters[insertPosition..];
    }

    // The body of the backward scan at one index.
    method TryApply(operation: CrdtOp) returns (applied: bool)
      modifies this
      ensures applied == !Blocked(old(characters), operation)
      ensures characters == if applied then ApplyOp(old(characters), operation) else old(characters)
    {
      if operation.InsertOp? {
        var character := operation.character;
        if character.originId.Some? {
          var origin := Find(character.originId.value);
          if origin < 0 {
            return false;
          }
        }
        var present := Find(character.id);
        if present < 0 {
          Insert(character);
        }
        return true;
      } else {
        var targetIndex := Find(operation.id);
        if targetIndex < 0 {
          return false;
        }
        characters := characters[targetIndex := characters[targetIndex].(isDeleted := true)];
        return true;
      }
    }

    // One pass over the pending list, from its end to its start.
    method ScanBackwards(pending0: seq<CrdtOp>) returns (pending: seq<CrdtOp>)
      requires Replayable(operations) && Accounted(characters, pending0, operations)
      modifies this
      ensures Accounted(characters, pending, operations) && |pending| <= |pending0|
      ensures |pending| == |pending0| ==> forall op | op in pending :: Blocked(characters, op)
    {
      hide Accounted, Replayable, Blocked, ApplyOp;
      pending := pending0;
      var index := |pending| - 1;
      while index >= 0
        invariant -1 <= index < |pending| <= |pending0|
        invariant Accounted(characters, pending, operations)
        invariant |pending| == |pending0| ==> forall k | index < k < |pending| :: Blocked(characters, pending[k])
      {
        var operation := pending[index];
        ghost var before := characters;
        var applied := TryApply(operation);
        if applied {
          AccountedStep(before, pending, index, operations);
          pending := pending[..index] + pending[index + 1..];
        }
        index := index - 1;
      }
    }

    // Returns the text exactly if the list is dependency-closed, and throws otherwise; either way the
    // characters end as the list means them.
    method GetVisibleText() returns (result: Result<JsString, ReplayError>)
      requires Replayable(operations) && MadeOf(characters, operations)
      modifies this
      ensures MadeOf(characters, operations) && Resolved(operations, characters)
      ensures result.Ok? <==> DependencyClosed(operations)
      ensures result.Ok? ==> result.value == VisibleText(characters)
      ensures result.Ok? ==>
                Inserts(characters) == ListInserts(operations) && Deleted(characters) == ListDeletes(operations)
    {
      hide Accounted, Replayable, Resolved, DependencyClosed, MadeOf, VisibleText;
      AccountedInit(characters, operations);
      var pending := operations;
      while |pending| > 0
        invariant Accounted(characters, pending, operations)
        decreases |pending|
      {
        var before := |pending|;
        pending := ScanBackwards(pending);
        if |pending| == before {
          StuckIsResolved(characters, pending, operations);
          StuckIsOpen(characters, pending, operations);
          AccountedMadeOf(characters, pending, operations);
          return Err(UnresolvedDependency);
        }
      }
      DoneIsClosed(characters, operations);
      AccountedMadeOf(characters, pending, operations);
      return Ok(VisibleText(characters));
    }

    method ToSnapshot() returns (result: Result<Snapshot, ReplayError>)
      requires Replayable(operations) && MadeOf(characters, operations)
      modifies this
      ensures result.Ok? <==> DependencyClosed(operations)
      ensures result.Ok? ==> result.value.chars == characters && GoodSnapshot(result.value)
      ensures result.Ok? ==> ClockFollows(0, 0, characters, result.value.clock)
      ensures result.Ok? ==>
                Inserts(characters) == ListInserts(operations) && Deleted(characters) == ListDeletes(operations)
    {
      hide WellFormed, Inserts, Deleted, DependencyClosed, Applied, Resolved;
      var text := GetVisibleText();
      if text.Err? {
        return Err(text.error);
      }
      var clock := GreatestCounter(characters);
      return Ok(Snapshot(clock, characters));
    }
  }

  lemma AccountedMadeOf(s: seq<CrdtChar>, pending: seq<CrdtOp>, ops: seq<CrdtOp>)
    requires Accounted(s, pending, ops)
    ensures MadeOf(s, ops)
  {
  }

  // The order of the list does not matter, and a replica that received the same operations through
  // its buffer shows the same characters.
  lemma ReplayAgreesWithBuffer(ops: seq<CrdtOp>, s: seq<CrdtChar>, r: Replica)
    requires Replayable(ops) && Resolved(ops, s)
    requires Good(r) && Known(r) == ListInserts(ops) && Tombs(r) == ListDeletes(ops)
    ensures s == r.chars
  {
    GoodIsCanonical(r);
    HoldsWhatIsAttached(r);
    CanonicalUnique(Known(r), PlainSeq(s), PlainSeq(r.chars));
    forall i | 0 <= i < |s|
      ensures s[i] == r.chars[i]
    {
      assert PlainSeq(s)[i] == PlainSeq(r.chars)[i];
    }
  }

  lemma ReplayIgnoresOrder(ops: seq<CrdtOp>, ops': seq<CrdtOp>, s: seq<CrdtChar>, s': seq<CrdtChar>)
    requires Replayable(ops) && Resolved(ops, s) && Resolved(ops', s')
    requires forall op :: op in ops <==> op in ops'
    ensures s == s'
  {
    assert ListInserts(ops) == ListInserts(ops') && ListDeletes(ops) == ListDeletes(ops');
    CanonicalUnique(ListInserts(ops), PlainSeq(s), PlainSeq(s'));
    forall i | 0 <= i < |s|
      ensures s[i] == s'[i]
    {
      assert PlainSeq(s)[i] == PlainSeq(s')[i];
    }
  }

  // ----- CrdtReplicaSnapshot -----

  function DeletesOf(s: seq<CrdtChar>): seq<CrdtOp> {
    if s == [] then []
    else if s[0].isDeleted then [DeleteOp(s[0].id)] + DeletesOf(s[1..])
    else DeletesOf(s[1..])
  }

  function InsertsOf(s: seq<CrdtChar>): (ops: seq<CrdtOp>)
    ensures |ops| == |s| && forall i | 0 <= i < |s| :: ops[i] == InsertOp(Plain(s[i]))
  {
    seq(|s|, i requires 0 <= i < |s| => InsertOp(Plain(s[i])))
  }

  // The operations a snapshot stands for: an insert for every character, then a delete for every tombstone.
  function ReadOperations(s: seq<CrdtChar>): seq<CrdtOp> { InsertsOf(s) + DeletesOf(s) }

  // One insert for each character, then one delete for each tombstone, both in document order.
  lemma {:induction false} ReadOperationsListed(a: seq<CrdtChar>, c: CrdtChar, b: seq<CrdtChar>)
    ensures |InsertsOf(a + [c] + b)| == |a| + 1 + |b| && InsertsOf(a + [c] + b)[|a|] == InsertOp(c.(isDeleted := false))
    ensures DeletesOf(a + [c] + b) == DeletesOf(a) + (if c.isDeleted then [DeleteOp(c.id)] else []) + DeletesOf(b)
  {
    var s := a + [c] + b;
    if a == [] {
      assert s[1..] == b;
    } else {
      assert s[1..] == a[1..] + [c] + b;
      ReadOperationsListed(a[1..], c, b);
    }
  }

  lemma {:induction false} DeletesOfMembers(s: seq<CrdtChar>)
    ensures forall op :: op in DeletesOf(s) <==> op.DeleteOp? && op.id in Deleted(s)
  {
    if s != [] {
      DeletesOfMembers(s[1..]);
      assert s == [s[0]] + s[1..];
      assert Deleted(s) == Deleted(s[1..]) + Mark(s[0]);
    }
  }

  lemma ReadOperationsContents(s: seq<CrdtChar>)
    ensures ListInserts(ReadOperations(s)) == Inserts(s)
    ensures ListDeletes(ReadOperations(s)) == Deleted(s)
    ensures forall op | op in ReadOperations(s) :: Admissible(op)
  {
    DeletesOfMembers(s);
    forall c
      ensures c in ListInserts(ReadOperations(s)) <==> c in Inserts(s)
    {
      InInserts(s, c);
      if c in Inserts(s) {
        var i :| 0 <= i < |s| && Plain(s[i]) == c;
        assert InsertsOf(s)[i] == InsertOp(c);
        assert InsertOp(c) in ReadOperations(s);
      }
    }
    forall id
      ensures id in ListDeletes(ReadOperations(s)) <==> id in Deleted(s)
    {
      if id in Deleted(s) {
        assert DeleteOp(id) in DeletesOf(s) && DeleteOp(id) in ReadOperations(s);
      }
    }
  }

  // A snapshot replays: its operations are dependency-closed, and replaying them gives the
  // characters and the text of the snapshot back.
  lemma SnapshotReplays(snapshot: Snapshot, s: seq<CrdtChar>)
    requires GoodSnapshot(snapshot) && Resolved(ReadOperations(snapshot.chars), s)
    ensures Replayable(ReadOperations(snapshot.chars)) && DependencyClosed(ReadOperations(snapshot.chars))
    ensures s == snapshot.chars && VisibleText(s) == VisibleText(snapshot.chars)
  {
    hide VisibleText, ReadOperations;
    ReadOperationsContents(snapshot.chars);
    var ops := ReadOperations(snapshot.chars);
    var r := Replica(snapshot.chars, snapshot.clock, {}, {});
    assert Known(r) == ListInserts(ops) && Tombs(r) == ListDeletes(ops);
    ReplayAgreesWithBuffer(ops, s, r);
    SnapshotClosed(snapshot);
  }

  lemma SnapshotClosed(snapshot: Snapshot)
    requires GoodSnapshot(snapshot)
    ensures DependencyClosed(ReadOperations(snapshot.chars))
  {
    hide ReadOperations;
    ReadOperationsContents(snapshot.chars);
    var r := Replica(snapshot.chars, snapshot.clock, {}, {});
    assert Known(r) == Inserts(snapshot.chars);
    HoldsWhatIsAttached(r);
    forall id | id in Deleted(snapshot.chars)
      ensures Issued(Inserts(snapshot.chars), id)
    {
      HasIff(snapshot.chars, snapshot.chars, id);
      HasMeansInsert(snapshot.chars, id);
    }
  }
}
