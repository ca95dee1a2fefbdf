// The character sequence of client/src/crdt/CrdtDocument.ts as a value: where insertChar stops,
// what shape a document always has, and the order that shape amounts to.
module Rga {
  import opened Wrappers
  import opened Text
  import opened CrdtIds

  datatype CrdtChar = CrdtChar(id: CrdtId, value: JsString, originId: Option<CrdtId>, isDeleted: bool)

  // findCharIndex: the position of the character with this id, or -1.
  function IndexOf(s: seq<CrdtChar>, id: CrdtId): (r: int)
    ensures -1 <= r < |s|
    ensures r >= 0 ==> s[r].id == id && forall k | 0 <= k < r :: s[k].id != id
    ensures r == -1 ==> forall k | 0 <= k < |s| :: s[k].id != id
  {
    if s == [] then -1
    else if s[0].id == id then 0
    else
      var r := IndexOf(s[1..], id);
      if r == -1 then -1 else r + 1
  }

  predicate Has(s: seq<CrdtChar>, id: CrdtId) { IndexOf(s, id) >= 0 }

  // Where an origin stands; the start of the document stands at -1.
  function OriginPos(s: seq<CrdtChar>, origin: Option<CrdtId>): (r: int)
    ensures -1 <= r < |s|
  {
    if origin.None? then -1 else IndexOf(s, origin.value)
  }

  predicate OriginPresent(s: seq<CrdtChar>, origin: Option<CrdtId>) {
    origin.Some? ==> Has(s, origin.value)
  }

  // The break conditions of the scan in insertChar, at position k.
  predicate Stops(s: seq<CrdtChar>, c: CrdtChar, k: nat)
    requires k < |s|
  {
    if s[k].originId == c.originId then IdLess(s[k].id, c.id)
    else OriginPos(s, s[k].originId) < OriginPos(s, c.originId)
  }

  // p is where the scan ends: behind the origin, at the first position that stops it.
  ghost predicate IsScanPos(s: seq<CrdtChar>, c: CrdtChar, p: nat) {
    && OriginPos(s, c.originId) < p <= |s|
    && (forall k | OriginPos(s, c.originId) < k < p :: !Stops(s, c, k))
    && (p < |s| ==> Stops(s, c, p))
  }

  function ScanFrom(s: seq<CrdtChar>, c: CrdtChar, p: nat): (r: nat)
    requires p <= |s|
    ensures p <= r <= |s|
    ensures forall k | p <= k < r :: !Stops(s, c, k)
    ensures r < |s| ==> Stops(s, c, r)
    decreases |s| - p
  {
    if p == |s| || Stops(s, c, p) then p else ScanFrom(s, c, p + 1)
  }

  function ScanPos(s: seq<CrdtChar>, c: CrdtChar): (p: nat)
    ensures IsScanPos(s, c, p)
  {
    ScanFrom(s, c, OriginPos(s, c.originId) + 1)
  }

  function SpliceAt(s: seq<CrdtChar>, p: nat, c: CrdtChar): seq<CrdtChar>
    requires p <= |s|
  {
    s[..p] + [c] + s[p..]
  }

  function Inserted(s: seq<CrdtChar>, c: CrdtChar): seq<CrdtChar> { SpliceAt(s, ScanPos(s, c), c) }

  // ----- The shape every document keeps -----

  ghost predicate DistinctIds(s: seq<CrdtChar>) {
    forall i, j | 0 <= i < j < |s| :: s[i].id != s[j].id
  }

  function ParentPos(s: seq<CrdtChar>, i: nat): (r: int)
    requires i < |s|
    ensures -1 <= r < |s|
  {
    OriginPos(s, s[i].originId)
  }

  ghost predicate OriginsFirst(s: seq<CrdtChar>) {
    forall i | 0 <= i < |s| :: ParentPos(s, i) < i && OriginPresent(s, s[i].originId)
  }

  // Between a character and its origin stand only descendants of that origin, and of two
  // characters with one origin the greater id stands first.
  ghost predicate NestedPair(s: seq<CrdtChar>, k: nat, j: nat)
    requires k < j < |s|
  {
    ParentPos(s, j) < k ==>
      ParentPos(s, k) > ParentPos(s, j) || (ParentPos(s, k) == ParentPos(s, j) && IdLess(s[j].id, s[k].id))
  }

  ghost predicate Nested(s: seq<CrdtChar>) {
    forall k, j | 0 <= k < j < |s| :: NestedPair(s, k, j)
  }

  ghost predicate WellFormed(s: seq<CrdtChar>) { DistinctIds(s) && OriginsFirst(s) && Nested(s) }

  lemma IndexOfAt(s: seq<CrdtChar>, i: nat)
    requires DistinctIds(s) && i < |s|
    ensures IndexOf(s, s[i].id) == i
  {
  }

  // ----- insertChar keeps the shape -----

  function Shift(p: nat, i: int): int { if i < p then i else i + 1 }

  lemma IndexOfSplice(s: seq<CrdtChar>, p: nat, c: CrdtChar, id: CrdtId)
    requires DistinctIds(s) && p <= |s| && !Has(s, c.id) && id != c.id
    ensures IndexOf(SpliceAt(s, p, c), id) == if Has(s, id) then Shift(p, IndexOf(s, id)) else -1
  {
    var t := SpliceAt(s, p, c);
    var i, r := IndexOf(s, id), IndexOf(t, id);
    assert i >= 0 ==> t[Shift(p, i)] == s[i];
    assert 0 <= r < p ==> s[r] == t[r];
    assert r > p ==> s[r - 1] == t[r];
  }

  lemma SpliceDistinct(s: seq<CrdtChar>, p: nat, c: CrdtChar)
    requires DistinctIds(s) && p <= |s| && !Has(s, c.id)
    ensures DistinctIds(SpliceAt(s, p, c))
    ensures IndexOf(SpliceAt(s, p, c), c.id) == p
  {
    assert SpliceAt(s, p, c)[p] == c;
    assert forall k | 0 <= k < |s| :: s[k].id != c.id;
  }

  // No character of a well-formed document has an id as origin that the document lacks, so a new
  // character is a leaf and every other origin keeps its place.
  lemma ParentAfterSplice(s: seq<CrdtChar>, p: nat, c: CrdtChar, i: nat)
    requires WellFormed(s) && p <= |s| && !Has(s, c.id) && i < |s|
    ensures var t := SpliceAt(s, p, c);
            t[Shift(p, i)] == s[i] && ParentPos(t, Shift(p, i)) == Shift(p, ParentPos(s, i))
  {
    assert OriginPresent(s, s[i].originId);
    if s[i].originId.Some? {
      IndexOfSplice(s, p, c, s[i].originId.value);
    }
  }

  lemma ParentOfNew(s: seq<CrdtChar>, p: nat, c: CrdtChar)
    requires WellFormed(s) && p <= |s| && !Has(s, c.id) && OriginPresent(s, c.originId)
    requires OriginPos(s, c.originId) < p
    ensures var t := SpliceAt(s, p, c);
            t[p] == c && ParentPos(t, p) == OriginPos(s, c.originId) && OriginPresent(t, c.originId)
  {
    if c.originId.Some? {
      IndexOfSplice(s, p, c, c.originId.value);
    }
  }

  lemma SameOriginPos(s: seq<CrdtChar>, a: Option<CrdtId>, b: Option<CrdtId>)
    requires OriginPresent(s, a) && OriginPresent(s, b)
    ensures OriginPos(s, a) == OriginPos(s, b) <==> a == b
  {
  }

  // Everything the scan passed belongs below the origin, ahead of the new character.
  lemma PassedByScan(s: seq<CrdtChar>, c: CrdtChar, p: nat, k: nat)
    requires WellFormed(s) && !Has(s, c.id) && OriginPresent(s, c.originId) && IsScanPos(s, c, p)
    requires OriginPos(s, c.originId) < k < p
    ensures ParentPos(s, k) > OriginPos(s, c.originId)
            || (ParentPos(s, k) == OriginPos(s, c.originId) && IdLess(c.id, s[k].id))
  {
    assert !Stops(s, c, k) && OriginPresent(s, s[k].originId);
    IdTrichotomy(s[k].id, c.id);
    SameOriginPos(s, s[k].originId, c.originId);
  }

  // Everything from the scan position on is either outside the origin's descendants or behind the new one.
  lemma BehindScan(s: seq<CrdtChar>, c: CrdtChar, p: nat, j: nat)
    requires WellFormed(s) && !Has(s, c.id) && OriginPresent(s, c.originId) && IsScanPos(s, c, p)
    requires p <= j < |s| && ParentPos(s, j) < p
    ensures OriginPos(s, c.originId) > ParentPos(s, j)
            || (OriginPos(s, c.originId) == ParentPos(s, j) && IdLess(s[j].id, c.id))
  {
    assert Stops(s, c, p) && OriginPresent(s, s[p].originId);
    SameOriginPos(s, s[p].originId, c.originId);
    if p < j {
      assert NestedPair(s, p, j);
      if ParentPos(s, j) == OriginPos(s, c.originId) {
        IdTransitive(s[j].id, s[p].id, c.id);
      }
    }
  }

  lemma NestingOfOld(s: seq<CrdtChar>, c: CrdtChar, p: nat, k: nat, j: nat)
    requires WellFormed(s) && !Has(s, c.id) && p <= |s|
    requires k < j < |s|
    ensures NestedPair(SpliceAt(s, p, c), Shift(p, k), Shift(p, j))
  {
    ParentAfterSplice(s, p, c, k);
    ParentAfterSplice(s, p, c, j);
    assert NestedPair(s, k, j);
  }

  lemma NestingBeforeNew(s: seq<CrdtChar>, c: CrdtChar, p: nat, k: nat)
    requires WellFormed(s) && !Has(s, c.id) && OriginPresent(s, c.originId) && IsScanPos(s, c, p)
    requires k < p
    ensures NestedPair(SpliceAt(s, p, c), k, p)
  {
    ParentOfNew(s, p, c);
    ParentAfterSplice(s, p, c, k);
    if OriginPos(s, c.originId) < k {
      PassedByScan(s, c, p, k);
    }
  }

  lemma NestingAfterNew(s: seq<CrdtChar>, c: CrdtChar, p: nat, j: nat)
    requires WellFormed(s) && !Has(s, c.id) && OriginPresent(s, c.originId) && IsScanPos(s, c, p)
    requires p <= j < |s|
    ensures NestedPair(SpliceAt(s, p, c), p, j + 1)
  {
    ParentOfNew(s, p, c);
    ParentAfterSplice(s, p, c, j);
    if ParentPos(s, j) < p {
      BehindScan(s, c, p, j);
    }
  }

  lemma InsertedOriginsFirst(s: seq<CrdtChar>, c: CrdtChar, p: nat, i: nat)
    requires WellFormed(s) && !Has(s, c.id) && OriginPresent(s, c.originId) && IsScanPos(s, c, p)
    requires i <= |s|
    ensures var t := SpliceAt(s, p, c); ParentPos(t, i) < i && OriginPresent(t, t[i].originId)
  {
    if i == p {
      ParentOfNew(s, p, c);
    } else {
      var h := if i < p then i else i - 1;
      ParentAfterSplice(s, p, c, h);
      assert ParentPos(s, h) < h && OriginPresent(s, s[h].originId);
      if s[h].originId.Some? {
        IndexOfSplice(s, p, c, s[h].originId.value);
      }
    }
  }

  lemma InsertedNested(s: seq<CrdtChar>, c: CrdtChar, p: nat, k: nat, j: nat)
    requires WellFormed(s) && !Has(s, c.id) && OriginPresent(s, c.originId) && IsScanPos(s, c, p)
    requires k < j <= |s|
    ensures NestedPair(SpliceAt(s, p, c), k, j)
  {
    if j == p {
      NestingBeforeNew(s, c, p, k);
    } else if k == p {
      NestingAfterNew(s, c, p, j - 1);
    } else {
      NestingOfOld(s, c, p, if k < p then k else k - 1, if j < p then j else j - 1);
    }
  }

  // insertChar keeps a document well-formed.
  lemma InsertedWellFormed(s: seq<CrdtChar>, c: CrdtChar)
    requires WellFormed(s) && !Has(s, c.id) && OriginPresent(s, c.originId)
    ensures WellFormed(Inserted(s, c))
  {
    var p := ScanPos(s, c);
    SpliceDistinct(s, p, c);
    forall i | 0 <= i <= |s|
      ensures var t := SpliceAt(s, p, c); ParentPos(t, i) < i && OriginPresent(t, t[i].originId)
    {
      InsertedOriginsFirst(s, c, p, i);
    }
    forall k, j | 0 <= k < j <= |s|
      ensures NestedPair(SpliceAt(s, p, c), k, j)
    {
      InsertedNested(s, c, p, k, j);
    }
  }

  // Of two characters typed behind the same one, that with the greater id stands first.
  lemma SiblingsDescend(s: seq<CrdtChar>, i: nat, j: nat)
    requires WellFormed(s) && i < j < |s| && s[i].originId == s[j].originId
    ensures CompareCrdtIds(s[i].id, s[j].id) > 0
  {
    assert NestedPair(s, i, j) && ParentPos(s, i) < i;
    IdTrichotomy(s[i].id, s[j].id);
  }

  // Two sites type into an empty document: whichever character comes first, the greater id ends in front.
  lemma TwoAtTheStart(x: CrdtChar, y: CrdtChar)
    requires x.originId.None? && y.originId.None? && CompareCrdtIds(x.id, y.id) > 0
    ensures Inserted([x], y) == [x, y] && Inserted([y], x) == [x, y]
  {
    IdTrichotomy(x.id, y.id);
    assert IsScanPos([x], y, ScanPos([x], y)) && IsScanPos([y], x, ScanPos([y], x));
    assert OriginPos([x], None) == -1 && OriginPos([y], None) == -1;
    assert !Stops([x], y, 0) && Stops([y], x, 0);
    assert ScanPos([x], y) == 1 && ScanPos([y], x) == 0;
  }
}
