// The operations of client/src/crdt/ProjectTree.ts and what a set of them means: per entry, the
// operation with the greatest id decides each of the four registers.
module ProjectOps {
  import opened Wrappers
  import opened Text
  import opened Sets
  import opened CrdtIds

  type EntryId = JsString

  datatype RoomEntry = RoomEntry(id: EntryId, name: JsString, parentId: Option<EntryId>, isFolder: bool)

  datatype TreeOp =
    | CreateOp(opId: CrdtId, entry: RoomEntry)
    | RenameOp(opId: CrdtId, entryId: EntryId, name: JsString)
    | MoveOp(opId: CrdtId, entryId: EntryId, parentId: Option<EntryId>)
    | RemoveOp(opId: CrdtId, entryId: EntryId)

  datatype Kind = Creates | Names | Parents | Deletions

  function EntryOf(op: TreeOp): EntryId { if op.CreateOp? then op.entry.id else op.entryId }

  // Which registers an operation writes.
  predicate Writes(op: TreeOp, k: Kind) {
    match op
    case CreateOp(_, _) => !k.Deletions?
    case RenameOp(_, _, _) => k.Names?
    case MoveOp(_, _, _) => k.Parents?
    case RemoveOp(_, _) => k.Deletions?
  }

  ghost predicate UniqueIds(ops: set<TreeOp>) {
    forall a, b | a in ops && b in ops && a.opId == b.opId :: a == b
  }

  // op decides register k of its entry.
  ghost predicate Wins(ops: set<TreeOp>, k: Kind, e: EntryId, op: TreeOp) {
    && op in ops && Writes(op, k) && EntryOf(op) == e
    && (forall o | o in ops && Writes(o, k) && EntryOf(o) == e :: !IdLess(op.opId, o.opId))
  }

  function Written(ops: set<TreeOp>, k: Kind): set<EntryId> {
    set op | op in ops && Writes(op, k) :: EntryOf(op)
  }

  lemma WinsUnique(ops: set<TreeOp>, k: Kind, e: EntryId, a: TreeOp, b: TreeOp)
    requires UniqueIds(ops) && Wins(ops, k, e, a) && Wins(ops, k, e, b)
    ensures a == b
  {
    IdTrichotomy(a.opId, b.opId);
  }

  lemma {:induction false} GreatestExists(ops: set<TreeOp>) returns (top: TreeOp)
    requires ops != {}
    ensures top in ops && forall o | o in ops :: !IdLess(top.opId, o.opId)
  {
    var op :| op in ops;
    top := op;
    if ops != {op} {
      var t := GreatestExists(ops - {op});
      if IdLess(op.opId, t.opId) {
        top := t;
      }
      forall o | o in ops
        ensures !IdLess(top.opId, o.opId)
      {
        IdTrichotomy(top.opId, op.opId);
        if o != op {
          IdTrichotomy(op.opId, t.opId);
          NotLessTransitive(top.opId, t.opId, o.opId);
        }
      }
    } else {
      IdTrichotomy(op.opId, op.opId);
    }
  }

  lemma WinnerExists(ops: set<TreeOp>, k: Kind, e: EntryId)
    requires e in Written(ops, k)
    ensures exists op :: Wins(ops, k, e, op)
  {
    var writers := set op | op in ops && Writes(op, k) && EntryOf(op) == e;
    var op :| op in ops && Writes(op, k) && EntryOf(op) == e;
    assert op in writers;
    var top := GreatestExists(writers);
    assert Wins(ops, k, e, top);
  }

  ghost function Winner(ops: set<TreeOp>, k: Kind, e: EntryId): (op: TreeOp)
    requires e in Written(ops, k)
    ensures Wins(ops, k, e, op)
  {
    WinnerExists(ops, k, e);
    var op :| Wins(ops, k, e, op);
    op
  }

  // ----- The registers -----

  datatype Register<T> = Register(opId: CrdtId, value: T)

  datatype Registers = Registers(
    creates: map<EntryId, Register<RoomEntry>>,
    names: map<EntryId, Register<JsString>>,
    parents: map<EntryId, Register<Option<EntryId>>>,
    deleted: map<EntryId, Register<bool>>)

  function NameValue(op: TreeOp): JsString
    requires Writes(op, Names)
  {
    if op.CreateOp? then op.entry.name else op.name
  }

  function ParentValue(op: TreeOp): Option<EntryId>
    requires Writes(op, Parents)
  {
    if op.CreateOp? then op.entry.parentId else op.parentId
  }

  // The deciding operation of every entry that register k is written for.
  ghost function Deciders(ops: set<TreeOp>, k: Kind): (d: map<EntryId, TreeOp>)
    ensures d.Keys == Written(ops, k) && forall e | e in d :: Wins(ops, k, e, d[e])
  {
    map e | e in Written(ops, k) :: Winner(ops, k, e)
  }

  ghost predicate AllWrite(d: map<EntryId, TreeOp>, k: Kind) { forall e | e in d :: Writes(d[e], k) }

  function CreateRegisters(d: map<EntryId, TreeOp>): map<EntryId, Register<RoomEntry>>
    requires AllWrite(d, Creates)
  {
    map e | e in d :: Register(d[e].opId, d[e].entry)
  }

  function NameRegisters(d: map<EntryId, TreeOp>): map<EntryId, Register<JsString>>
    requires AllWrite(d, Names)
  {
    map e | e in d :: Register(d[e].opId, NameValue(d[e]))
  }

  function ParentRegisters(d: map<EntryId, TreeOp>): map<EntryId, Register<Option<EntryId>>>
    requires AllWrite(d, Parents)
  {
    map e | e in d :: Register(d[e].opId, ParentValue(d[e]))
  }

  function DeletedRegisters(d: map<EntryId, TreeOp>): map<EntryId, Register<bool>> {
    map e | e in d :: Register(d[e].opId, true)
  }

  ghost function RegistersOf(ops: set<TreeOp>): Registers {
    Registers(CreateRegisters(Deciders(ops, Creates)), NameRegisters(Deciders(ops, Names)),
              ParentRegisters(Deciders(ops, Parents)), DeletedRegisters(Deciders(ops, Deletions)))
  }

  // ----- Compaction -----

  // The operations that decide some register.
  ghost function Survivors(ops: set<TreeOp>): set<TreeOp> {
    set op | op in ops && exists k :: Wins(ops, k, EntryOf(op), op)
  }

  // Dropping operations that decide nothing, before or after others arrive, changes no register.
  lemma SameDeciders(a: set<TreeOp>, x: set<TreeOp>, b: set<TreeOp>, k: Kind)
    requires UniqueIds(a + b) && Survivors(a) <= x <= a
    ensures Deciders(x + b, k) == Deciders(a + b, k)
  {
    forall e | e in Written(a + b, k)
      ensures e in Written(x + b, k) && Winner(x + b, k, e) == Winner(a + b, k, e)
    {
      var top := Winner(a + b, k, e);
      assert top in x + b by {
        if top in a {
          assert Wins(a, k, EntryOf(top), top);
        }
      }
      assert Wins(x + b, k, e, top);
      WinsUnique(x + b, k, e, Winner(x + b, k, e), top);
    }
    assert Written(x + b, k) <= Written(a + b, k);
  }

  lemma RegistersBetween(a: set<TreeOp>, x: set<TreeOp>, b: set<TreeOp>)
    requires UniqueIds(a + b) && Survivors(a) <= x <= a
    ensures RegistersOf(x + b) == RegistersOf(a + b)
  {
    SameDeciders(a, x, b, Creates);
    SameDeciders(a, x, b, Names);
    SameDeciders(a, x, b, Parents);
    SameDeciders(a, x, b, Deletions);
  }

  // Compaction preserves meaning under every future merge.
  lemma CompactionPreservesMeaning(a: set<TreeOp>, b: set<TreeOp>)
    requires UniqueIds(a + b)
    ensures Survivors(a) <= a
    ensures RegistersOf(Survivors(a) + b) == RegistersOf(a + b)
  {
    RegistersBetween(a, Survivors(a), b);
  }

  lemma CompactionIdempotent(a: set<TreeOp>)
    requires UniqueIds(a)
    ensures Survivors(Survivors(a)) == Survivors(a)
  {
    forall op | op in Survivors(a)
      ensures op in Survivors(Survivors(a))
    {
      var k :| Wins(a, k, EntryOf(op), op);
      assert Wins(Survivors(a), k, EntryOf(op), op);
    }
  }

  // Of one entry at most four operations survive.
  lemma AtMostFourPerEntry(a: set<TreeOp>, e: EntryId)
    requires UniqueIds(a)
    ensures |set op | op in Survivors(a) && EntryOf(op) == e| <= 4
  {
    var mine := set op | op in Survivors(a) && EntryOf(op) == e;
    var bound := DecidingSet(a, e, Creates) + DecidingSet(a, e, Names)
                 + DecidingSet(a, e, Parents) + DecidingSet(a, e, Deletions);
    forall op | op in mine
      ensures op in bound
    {
      var k :| Wins(a, k, EntryOf(op), op);
      WinsUnique(a, k, e, Winner(a, k, e), op);
    }
    SubsetSize(mine, bound);
  }

  ghost function DecidingSet(a: set<TreeOp>, e: EntryId, k: Kind): (r: set<TreeOp>)
    ensures |r| <= 1
  {
    if e in Written(a, k) then {Winner(a, k, e)} else {}
  }

  // The operation with the greatest id always survives, so compaction never lowers a clock.
  lemma GreatestSurvives(a: set<TreeOp>)
    requires a != {}
    ensures exists top :: top in Survivors(a) && forall o | o in a :: o.opId.counter <= top.opId.counter
  {
    var top := GreatestExists(a);
    var k := if top.CreateOp? then Creates else if top.RenameOp? then Names
             else if top.MoveOp? then Parents else Deletions;
    assert Wins(a, k, EntryOf(top), top);
    assert top in Survivors(a);
    forall o | o in a
      ensures o.opId.counter <= top.opId.counter
    {
      assert !IdLess(top.opId, o.opId);
    }
  }
}
