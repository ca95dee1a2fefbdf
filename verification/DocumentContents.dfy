// What a document holds - its inserts and its tombstones - and how each operation of
// client/src/crdt/CrdtDocument.ts changes that, up to the merge of a whole snapshot.
module DocumentContents {
  import opened Wrappers
  import opened CrdtIds
  import opened Rga
  import opened CanonicalOrder

  function Inserts(s: seq<CrdtChar>): set<CrdtChar> { set c | c in PlainSeq(s) }

  function Deleted(s: seq<CrdtChar>): set<CrdtId> { set c | c in s && c.isDeleted :: c.id }

  // What one character adds to the tombstones.
  function Mark(c: CrdtChar): set<CrdtId> { if c.isDeleted then {c.id} else {} }

  // ----- Membership -----

  lemma InInserts(s: seq<CrdtChar>, c: CrdtChar)
    ensures c in Inserts(s) <==> exists i :: 0 <= i < |s| && Plain(s[i]) == c
  {
    if c in Inserts(s) {
      var i :| 0 <= i < |s| && PlainSeq(s)[i] == c;
      assert Plain(s[i]) == c;
    }
    if i :| 0 <= i < |s| && Plain(s[i]) == c {
      assert PlainSeq(s)[i] == c;
    }
  }

  lemma HasMeansInsert(s: seq<CrdtChar>, id: CrdtId)
    ensures Has(s, id) <==> exists c :: c in Inserts(s) && c.id == id
  {
    if Has(s, id) {
      InInserts(s, Plain(s[IndexOf(s, id)]));
    }
    if c :| c in Inserts(s) && c.id == id {
      InInserts(s, c);
    }
  }

  lemma InsertedContents(s: seq<CrdtChar>, c: CrdtChar)
    ensures Inserts(Inserted(s, c)) == Inserts(s) + {Plain(c)}
    ensures Deleted(Inserted(s, c)) == Deleted(s) + Mark(c)
    ensures forall id :: Has(Inserted(s, c), id) <==> Has(s, id) || id == c.id
  {
    var t := Inserted(s, c);
    InsertedMembers(s, c);
    forall d
      ensures d in Inserts(t) <==> d in Inserts(s) || d == Plain(c)
    {
      InInserts(s, d);
      InInserts(t, d);
      if d in Inserts(t) {
        var i :| 0 <= i < |t| && Plain(t[i]) == d;
        assert t[i] in t;
      }
      if d in Inserts(s) {
        var i :| 0 <= i < |s| && Plain(s[i]) == d;
        assert s[i] in t;
      }
      assert c in t;
    }
    forall id
      ensures Has(t, id) <==> Has(s, id) || id == c.id
    {
      HasIff(s, s, id);
      HasIff(t, t, id);
    }
  }

  // ----- Setting a tombstone -----

  function Tombstoned(s: seq<CrdtChar>, id: CrdtId): seq<CrdtChar> {
    var i := IndexOf(s, id);
    if i == -1 then s else s[i := s[i].(isDeleted := true)]
  }

  // Same ids and origins in the same places.
  ghost predicate SameShape(s: seq<CrdtChar>, t: seq<CrdtChar>) {
    |s| == |t| && forall i | 0 <= i < |s| :: s[i].id == t[i].id && s[i].originId == t[i].originId
  }

  lemma SameShapeSameIndex(s: seq<CrdtChar>, t: seq<CrdtChar>, id: CrdtId)
    requires SameShape(s, t)
    ensures IndexOf(s, id) == IndexOf(t, id)
  {
    var i, j := IndexOf(s, id), IndexOf(t, id);
    assert i >= 0 ==> t[i].id == id;
    assert j >= 0 ==> s[j].id == id;
  }

  lemma SameShapeWellFormed(s: seq<CrdtChar>, t: seq<CrdtChar>)
    requires SameShape(s, t) && WellFormed(s)
    ensures WellFormed(t)
  {
    forall i | 0 <= i < |s|
      ensures ParentPos(t, i) == ParentPos(s, i) < i && OriginPresent(t, t[i].originId)
    {
      assert OriginPresent(s, s[i].originId);
      if s[i].originId.Some? {
        SameShapeSameIndex(s, t, s[i].originId.value);
      }
    }
    forall k, j | 0 <= k < j < |s|
      ensures NestedPair(t, k, j)
    {
      assert NestedPair(s, k, j);
    }
  }

  lemma TombstonedContents(s: seq<CrdtChar>, id: CrdtId)
    ensures SameShape(s, Tombstoned(s, id))
    ensures PlainSeq(Tombstoned(s, id)) == PlainSeq(s)
    ensures Inserts(Tombstoned(s, id)) == Inserts(s)
    ensures Deleted(Tombstoned(s, id)) == Deleted(s) + if Has(s, id) then {id} else {}
  {
    var t := Tombstoned(s, id);
    assert PlainSeq(t) == PlainSeq(s);
    forall x
      ensures x in Deleted(t) <==> x in Deleted(s) || (x == id && Has(s, id))
    {
      if c :| c in s && c.isDeleted && c.id == x {
        var i :| 0 <= i < |s| && s[i] == c;
        assert t[i] in t && t[i].isDeleted && t[i].id == x;
      }
      if Has(s, id) {
        assert t[IndexOf(s, id)] in t;
      }
      if c :| c in t && c.isDeleted && c.id == x {
        var i :| 0 <= i < |t| && t[i] == c;
        assert s[i] in s;
      }
    }
  }

  lemma TombstonedTwice(s: seq<CrdtChar>, id: CrdtId)
    ensures Tombstoned(Tombstoned(s, id), id) == Tombstoned(s, id)
  {
    TombstonedContents(s, id);
    SameShapeSameIndex(s, Tombstoned(s, id), id);
  }

  // ----- A document is determined by its contents -----

  lemma SetTombstones(s: seq<CrdtChar>, t: seq<CrdtChar>)
    requires DistinctIds(s) && DistinctIds(t) && PlainSeq(s) == PlainSeq(t) && Deleted(s) == Deleted(t)
    ensures s == t
  {
    forall i | 0 <= i < |s|
      ensures s[i] == t[i]
    {
      assert PlainSeq(s)[i] == PlainSeq(t)[i];
      assert s[i].isDeleted <==> s[i].id in Deleted(s) by { FlagIsDeleted(s, i); }
      assert t[i].isDeleted <==> t[i].id in Deleted(t) by { FlagIsDeleted(t, i); }
    }
  }

  lemma FlagIsDeleted(s: seq<CrdtChar>, i: nat)
    requires DistinctIds(s) && i < |s|
    ensures s[i].isDeleted <==> s[i].id in Deleted(s)
  {
    assert s[i] in s;
    if s[i].id in Deleted(s) {
      var c :| c in s && c.isDeleted && c.id == s[i].id;
      var j :| 0 <= j < |s| && s[j] == c;
      assert j == i;
    }
  }

  // Two documents with the same inserts and the same tombstones are the same sequence, however
  // each of them came about.
  lemma DocumentDetermined(s: seq<CrdtChar>, t: seq<CrdtChar>)
    requires WellFormed(s) && WellFormed(t) && OneMeaning(Inserts(s))
    requires Inserts(s) == Inserts(t) && Deleted(s) == Deleted(t)
    ensures s == t
  {
    forall k | 0 <= k < |s|
      ensures Plain(s[k]) in Inserts(s)
    {
      InInserts(s, Plain(s[k]));
    }
    forall k | 0 <= k < |t|
      ensures Plain(t[k]) in Inserts(t)
    {
      InInserts(t, Plain(t[k]));
    }
    WellFormedIsCanonical(Inserts(s), s);
    WellFormedIsCanonical(Inserts(t), t);
    CanonicalUnique(Inserts(s), PlainSeq(s), PlainSeq(t));
    SetTombstones(s, t);
  }

  // ----- Merging a snapshot -----

  // One iteration of the loop in fromSnapshot.
  function MergeOne(s: seq<CrdtChar>, c: CrdtChar): seq<CrdtChar> {
    if !Has(s, c.id) then Inserted(s, c)
    else if c.isDeleted then Tombstoned(s, c.id)
    else s
  }

  function MergeAll(s: seq<CrdtChar>, t: seq<CrdtChar>): seq<CrdtChar> {
    if t == [] then s else MergeOne(MergeAll(s, t[..|t| - 1]), t[|t| - 1])
  }

  function Merged(s: seq<CrdtChar>, t: seq<CrdtChar>): seq<CrdtChar> {
    if s == [] then t else MergeAll(s, t)
  }

  lemma MergeOneContents(s: seq<CrdtChar>, c: CrdtChar)
    requires WellFormed(s) && OriginPresent(s, c.originId) && OneMeaning(Inserts(s) + {Plain(c)})
    ensures WellFormed(MergeOne(s, c))
    ensures Inserts(MergeOne(s, c)) == Inserts(s) + {Plain(c)}
    ensures Deleted(MergeOne(s, c)) == Deleted(s) + Mark(c)
  {
    if !Has(s, c.id) {
      InsertedWellFormed(s, c);
      InsertedContents(s, c);
    } else {
      InInserts(s, Plain(s[IndexOf(s, c.id)]));
      assert Plain(s[IndexOf(s, c.id)]) in Inserts(s) + {Plain(c)} && Plain(c) in Inserts(s) + {Plain(c)};
      TombstonedContents(s, c.id);
      SameShapeWellFormed(s, Tombstoned(s, c.id));
    }
  }

  lemma WellFormedIsCausal(s: seq<CrdtChar>)
    requires WellFormed(s)
    ensures CausalOrder(s)
  {
    forall n | 0 <= n < |s|
      ensures OriginAhead(s, n)
    {
      assert ParentPos(s, n) < n && OriginPresent(s, s[n].originId);
    }
  }

  lemma ContentsOfLast(t: seq<CrdtChar>)
    requires t != []
    ensures var front, c := t[..|t| - 1], t[|t| - 1];
            && Inserts(t) == Inserts(front) + {Plain(c)}
            && Deleted(t) == Deleted(front) + Mark(c)
  {
    var front, c := t[..|t| - 1], t[|t| - 1];
    assert t == front + [c];
    assert PlainSeq(t) == PlainSeq(front) + [Plain(c)];
  }

  lemma OneMeaningSubset(some: set<CrdtChar>, all: set<CrdtChar>)
    requires some <= all && OneMeaning(all)
    ensures OneMeaning(some)
  {
  }

  lemma OriginMerged(t: seq<CrdtChar>, m: seq<CrdtChar>)
    requires CausalOrder(t) && t != [] && Inserts(t[..|t| - 1]) <= Inserts(m)
    ensures OriginPresent(m, t[|t| - 1].originId)
  {
    var front, c := t[..|t| - 1], t[|t| - 1];
    CausalLast(t);
    if c.originId.Some? {
      var d :| d in front && d.id == c.originId.value;
      var i :| 0 <= i < |front| && front[i] == d;
      InInserts(front, Plain(d));
      assert Plain(d) in Inserts(m);
      HasMeansInsert(m, d.id);
    }
  }

  lemma MergeNext(s: seq<CrdtChar>, t: seq<CrdtChar>, m: seq<CrdtChar>)
    requires CausalOrder(t) && t != [] && OneMeaning(Inserts(s) + Inserts(t))
    requires WellFormed(m)
    requires Inserts(m) == Inserts(s) + Inserts(t[..|t| - 1]) && Deleted(m) == Deleted(s) + Deleted(t[..|t| - 1])
    ensures var r := MergeOne(m, t[|t| - 1]);
            && WellFormed(r)
            && Inserts(r) == Inserts(s) + Inserts(t)
            && Deleted(r) == Deleted(s) + Deleted(t)
  {
    hide Inserts, Deleted, WellFormed, CausalOrder, MergeOne, OneMeaning;
    ContentsOfLast(t);
    OriginMerged(t, m);
    assert Inserts(m) + {Plain(t[|t| - 1])} == Inserts(s) + Inserts(t);
    MergeOneContents(m, t[|t| - 1]);
  }

  lemma {:induction false} MergeAllContents(s: seq<CrdtChar>, t: seq<CrdtChar>)
    requires WellFormed(s) && CausalOrder(t) && OneMeaning(Inserts(s) + Inserts(t))
    ensures WellFormed(MergeAll(s, t))
    ensures Inserts(MergeAll(s, t)) == Inserts(s) + Inserts(t)
    ensures Deleted(MergeAll(s, t)) == Deleted(s) + Deleted(t)
  {
    if t == [] {
      assert Inserts(t) == {} && Deleted(t) == {};
    } else {
      hide Inserts, Deleted, WellFormed, CausalOrder, MergeOne, OneMeaning;
      ContentsOfLast(t);
      CausalPrefix(t, |t| - 1);
      OneMeaningSubset(Inserts(s) + Inserts(t[..|t| - 1]), Inserts(s) + Inserts(t));
      MergeAllContents(s, t[..|t| - 1]);
      MergeNext(s, t, MergeAll(s, t[..|t| - 1]));
    }
  }

  // fromSnapshot merges: the result is well-formed and holds the union of both contents.
  lemma MergedContents(s: seq<CrdtChar>, t: seq<CrdtChar>)
    requires WellFormed(s) && WellFormed(t) && OneMeaning(Inserts(s) + Inserts(t))
    ensures WellFormed(Merged(s, t))
    ensures Inserts(Merged(s, t)) == Inserts(s) + Inserts(t)
    ensures Deleted(Merged(s, t)) == Deleted(s) + Deleted(t)
  {
    WellFormedIsCausal(t);
    if s != [] {
      MergeAllContents(s, t);
    }
  }

  // The fast path for an empty document gives what the loop would have given.
  lemma FastPathIsLoop(t: seq<CrdtChar>)
    requires WellFormed(t) && OneMeaning(Inserts(t))
    ensures MergeAll([], t) == t
  {
    WellFormedIsCausal(t);
    assert Inserts([]) + Inserts(t) == Inserts(t);
    MergeAllContents([], t);
    DocumentDetermined(MergeAll([], t), t);
  }

  lemma MergeIdempotent(s: seq<CrdtChar>)
    requires WellFormed(s) && OneMeaning(Inserts(s))
    ensures Merged(s, s) == s
  {
    assert Inserts(s) + Inserts(s) == Inserts(s);
    MergedContents(s, s);
    DocumentDetermined(Merged(s, s), s);
  }

  lemma MergeCommutative(s: seq<CrdtChar>, t: seq<CrdtChar>)
    requires WellFormed(s) && WellFormed(t) && OneMeaning(Inserts(s) + Inserts(t))
    ensures Merged(s, t) == Merged(t, s)
  {
    assert Inserts(t) + Inserts(s) == Inserts(s) + Inserts(t);
    MergedContents(s, t);
    MergedContents(t, s);
    DocumentDetermined(Merged(s, t), Merged(t, s));
  }

  lemma MergeAssociative(s: seq<CrdtChar>, t: seq<CrdtChar>, u: seq<CrdtChar>)
    requires WellFormed(s) && WellFormed(t) && WellFormed(u)
    requires OneMeaning(Inserts(s) + Inserts(t) + Inserts(u))
    ensures Merged(Merged(s, t), u) == Merged(s, Merged(t, u))
  {
    var left, right := MergedThrice(s, t, u);
    DocumentDetermined(left, right);
  }

  lemma MergedThrice(s: seq<CrdtChar>, t: seq<CrdtChar>, u: seq<CrdtChar>)
    returns (left: seq<CrdtChar>, right: seq<CrdtChar>)
    requires WellFormed(s) && WellFormed(t) && WellFormed(u)
    requires OneMeaning(Inserts(s) + Inserts(t) + Inserts(u))
    ensures left == Merged(Merged(s, t), u) && right == Merged(s, Merged(t, u))
    ensures WellFormed(left) && WellFormed(right)
    ensures Inserts(left) == Inserts(right) == Inserts(s) + Inserts(t) + Inserts(u)
    ensures Deleted(left) == Deleted(right)
  {
    hide Inserts, Deleted, WellFormed, OneMeaning, Merged;
    var all := Inserts(s) + Inserts(t) + Inserts(u);
    assert Inserts(s) + (Inserts(t) + Inserts(u)) == all;
    OneMeaningSubset(Inserts(s) + Inserts(t), all);
    OneMeaningSubset(Inserts(t) + Inserts(u), all);
    MergedContents(s, t);
    MergedContents(t, u);
    left, right := Merged(Merged(s, t), u), Merged(s, Merged(t, u));
    MergedContents(Merged(s, t), u);
    MergedContents(s, Merged(t, u));
    assert Deleted(s) + Deleted(t) + Deleted(u) == Deleted(s) + (Deleted(t) + Deleted(u));
  }
}
