// One replica of a file as its operations change it: a document, its clock, and the operations its
// buffer holds back. The contents alone decide all of it except the clock.
module Replicas {
  import opened Wrappers
  import opened CrdtIds
  import opened Rga
  import opened CanonicalOrder
  import opened DocumentContents

  datatype Replica = Replica(
    chars: seq<CrdtChar>,
    clock: nat,
    waitingInserts: set<CrdtChar>,
    waitingDeletes: set<CrdtId>)

  // Every insert, and every deleted id, that has reached the replica.
  function Known(r: Replica): set<CrdtChar> { Inserts(r.chars) + r.waitingInserts }

  function Tombs(r: Replica): set<CrdtId> { Deleted(r.chars) + r.waitingDeletes }

  // What waits, waits for something that is missing.
  ghost predicate Settled(r: Replica) {
    && (forall c | c in r.waitingInserts :: !c.isDeleted && c.originId.Some? && !Has(r.chars, c.originId.value))
    && (forall id | id in r.waitingDeletes :: !Has(r.chars, id))
  }

  ghost predicate ClockCovers(s: seq<CrdtChar>, clock: nat) {
    forall i | 0 <= i < |s| :: s[i].id.counter <= clock
  }

  ghost predicate Good(r: Replica) {
    WellFormed(r.chars) && Settled(r) && ClockCovers(r.chars, r.clock) && OneMeaning(Known(r))
  }

  // The clock after characters arrived: the least that reaches its old value, a given floor and
  // every counter in the document.
  ghost predicate ClockFollows(before: nat, floor: nat, s: seq<CrdtChar>, clock: nat) {
    && before <= clock
    && floor <= clock
    && ClockCovers(s, clock)
    && (clock == before || clock == floor || exists i :: 0 <= i < |s| && s[i].id.counter == clock)
  }

  // The one contract of every operation: afterwards the replica is good again and has learnt exactly
  // these inserts and these deletes.
  ghost predicate Absorbs(r: Replica, inserts: set<CrdtChar>, deletes: set<CrdtId>, floor: nat, r': Replica) {
    && Good(r')
    && Known(r') == Known(r) + inserts
    && Tombs(r') == Tombs(r) + deletes
    && ClockFollows(r.clock, floor, r'.chars, r'.clock)
  }

  lemma GoodIsCanonical(r: Replica)
    requires Good(r)
    ensures Canonical(Known(r), PlainSeq(r.chars))
  {
    forall k | 0 <= k < |r.chars|
      ensures Plain(r.chars[k]) in Known(r)
    {
      InInserts(r.chars, Plain(r.chars[k]));
    }
    forall c | c in Known(r) && c !in PlainSeq(r.chars)
      ensures c.originId.Some? && !Has(r.chars, c.originId.value)
    {
      assert c in r.waitingInserts;
    }
    WellFormedIsCanonical(Known(r), r.chars);
  }

  lemma PresentHasOrigin(r: Replica, c: CrdtChar)
    requires Good(r) && c in Inserts(r.chars)
    ensures OriginPresent(r.chars, c.originId) && c !in r.waitingInserts
  {
    InInserts(r.chars, c);
    var i :| 0 <= i < |r.chars| && Plain(r.chars[i]) == c;
    assert OriginPresent(r.chars, r.chars[i].originId);
  }

  // The document holds exactly the received inserts that hang on the start of the document through
  // received origins, deleted exactly where a delete was received; the buffer holds exactly the rest.
  lemma HoldsWhatIsAttached(r: Replica)
    requires Good(r)
    ensures forall c :: c in Inserts(r.chars) <==> Attached(Known(r), c)
    ensures forall c :: c in r.waitingInserts <==> c in Known(r) && !Attached(Known(r), c)
    ensures forall i | 0 <= i < |r.chars| :: r.chars[i].isDeleted <==> r.chars[i].id in Tombs(r)
    ensures forall id :: id in r.waitingDeletes <==> id in Tombs(r) && !Has(r.chars, id)
  {
    GoodIsCanonical(r);
    forall c
      ensures c in Inserts(r.chars) <==> Attached(Known(r), c)
      ensures c in r.waitingInserts <==> c in Known(r) && !Attached(Known(r), c)
    {
      assert c in PlainSeq(r.chars) <==> Attached(Known(r), c);
      if c in Inserts(r.chars) {
        PresentHasOrigin(r, c);
      }
    }
    forall i | 0 <= i < |r.chars|
      ensures r.chars[i].isDeleted <==> r.chars[i].id in Tombs(r)
    {
      FlagIsDeleted(r.chars, i);
      HasIff(r.chars, r.chars, r.chars[i].id);
      assert r.chars[i] in r.chars;
    }
    forall id | id in Deleted(r.chars)
      ensures Has(r.chars, id)
    {
      HasIff(r.chars, r.chars, id);
    }
  }

  // Two replicas to which the same inserts and deletes have come hold the same characters in the
  // same order with the same tombstones, and hold back the same operations.
  lemma ReplicaDetermined(a: Replica, b: Replica)
    requires Good(a) && Good(b)
    requires Known(a) == Known(b) && Tombs(a) == Tombs(b)
    ensures a.chars == b.chars && a.waitingInserts == b.waitingInserts && a.waitingDeletes == b.waitingDeletes
  {
    HoldsWhatIsAttached(a);
    HoldsWhatIsAttached(b);
    GoodIsCanonical(a);
    GoodIsCanonical(b);
    CanonicalUnique(Known(a), PlainSeq(a.chars), PlainSeq(b.chars));
    forall i | 0 <= i < |a.chars|
      ensures a.chars[i] == b.chars[i]
    {
      assert PlainSeq(a.chars)[i] == PlainSeq(b.chars)[i];
    }
    assert a.chars == b.chars;
  }

  // Once every received insert hangs on the start and every received delete has its character,
  // nothing is held back.
  lemma NothingWaits(r: Replica)
    requires Good(r) && OriginClosed(Known(r))
    requires forall id | id in Tombs(r) :: exists c :: c in Known(r) && c.id == id
    ensures r.waitingInserts == {} && r.waitingDeletes == {}
  {
    HoldsWhatIsAttached(r);
    forall id | id in Tombs(r)
      ensures Has(r.chars, id)
    {
      var c :| c in Known(r) && c.id == id;
      assert Attached(Known(r), c);
      HasMeansInsert(r.chars, id);
    }
  }
}
