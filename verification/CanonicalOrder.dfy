// What the sequence of client/src/crdt/CrdtDocument.ts means, without mentioning positions or scans:
// every insert has one path of origins from the start of the document, and the document lists the
// inserts that have such a path in the order of their paths - an ancestor before its descendants,
// and where two paths part, the greater id first.
module CanonicalOrder {
  import opened Wrappers
  import opened CrdtIds
  import opened Rga

  // An insert as it was issued: a character before any delete reached it.
  function Plain(c: CrdtChar): CrdtChar { c.(isDeleted := false) }

  function PlainSeq(s: seq<CrdtChar>): (r: seq<CrdtChar>)
    ensures |r| == |s| && forall i | 0 <= i < |s| :: r[i] == Plain(s[i])
  {
    seq(|s|, i requires 0 <= i < |s| => Plain(s[i]))
  }

  // One id stands for one value and one origin.
  ghost predicate OneMeaning(known: set<CrdtChar>) {
    forall c, d | c in known && d in known && c.id == d.id :: c == d
  }

  ghost predicate IsRootPath(known: set<CrdtChar>, p: seq<CrdtChar>) {
    && p != []
    && p[0].originId == None
    && (forall k | 0 <= k < |p| :: p[k] in known)
    && (forall k | 0 < k < |p| :: p[k].originId == Some(p[k - 1].id))
  }

  ghost predicate RootPathOf(known: set<CrdtChar>, p: seq<CrdtChar>, c: CrdtChar) {
    IsRootPath(known, p) && p[|p| - 1] == c
  }

  ghost predicate Attached(known: set<CrdtChar>, c: CrdtChar) { exists p :: RootPathOf(known, p, c) }

  predicate PathBefore(p: seq<CrdtChar>, q: seq<CrdtChar>) {
    q != [] && (p == [] || (if p[0].id == q[0].id then PathBefore(p[1..], q[1..]) else IdLess(q[0].id, p[0].id)))
  }

  ghost predicate Before(known: set<CrdtChar>, c: CrdtChar, d: CrdtChar) {
    exists p, q :: RootPathOf(known, p, c) && RootPathOf(known, q, d) && PathBefore(p, q)
  }

  // s lists exactly the inserts of known that hang on the start of the document, in path order.
  ghost predicate Canonical(known: set<CrdtChar>, s: seq<CrdtChar>) {
    && (forall c :: c in s <==> Attached(known, c))
    && Sorted(known, s)
  }

  // ----- The path order is strict, and paths are unique -----

  lemma {:induction false} PathBeforeAsymmetric(p: seq<CrdtChar>, q: seq<CrdtChar>)
    ensures !(PathBefore(p, q) && PathBefore(q, p))
    ensures !PathBefore(p, p)
  {
    if p != [] {
      PathBeforeAsymmetric(p[1..], p[1..]);
    }
    if p != [] && q != [] {
      IdTrichotomy(p[0].id, q[0].id);
      PathBeforeAsymmetric(p[1..], q[1..]);
    }
  }

  lemma {:induction false} PrefixIsBefore(p: seq<CrdtChar>, q: seq<CrdtChar>)
    requires q != []
    ensures PathBefore(p, p + q)
  {
    if p == [] {
      assert p + q == q;
    } else {
      assert (p + q)[1..] == p[1..] + q;
      PrefixIsBefore(p[1..], q);
    }
  }

  lemma {:induction false} BeforeExtension(p: seq<CrdtChar>, q: seq<CrdtChar>, c: CrdtChar)
    requires PathBefore(p, q)
    ensures PathBefore(p, q + [c])
  {
    assert (q + [c])[1..] == q[1..] + [c];
    if p != [] && p[0].id == q[0].id {
      BeforeExtension(p[1..], q[1..], c);
    }
  }

  // The two paths part, and p takes the greater id there: any extension of p stays before q.
  predicate Parts(p: seq<CrdtChar>, q: seq<CrdtChar>) {
    p != [] && q != [] && (if p[0].id == q[0].id then Parts(p[1..], q[1..]) else IdLess(q[0].id, p[0].id))
  }

  lemma {:induction false} PartsExtension(p: seq<CrdtChar>, q: seq<CrdtChar>, c: CrdtChar)
    requires Parts(p, q)
    ensures Parts(p + [c], q) && PathBefore(p, q)
  {
    assert (p + [c])[1..] == p[1..] + [c];
    if p[0].id == q[0].id {
      PartsExtension(p[1..], q[1..], c);
    }
  }

  lemma {:induction false} SiblingsPart(p: seq<CrdtChar>, c: CrdtChar, d: CrdtChar)
    requires IdLess(d.id, c.id)
    ensures Parts(p + [c], p + [d])
  {
    IdTrichotomy(c.id, d.id);
    if p == [] {
      assert p + [c] == [c] && p + [d] == [d];
    } else {
      assert (p + [c])[1..] == p[1..] + [c] && (p + [d])[1..] == p[1..] + [d];
      SiblingsPart(p[1..], c, d);
    }
  }

  lemma {:induction false} RootPathUnique(known: set<CrdtChar>, p: seq<CrdtChar>, q: seq<CrdtChar>, c: CrdtChar)
    requires OneMeaning(known) && RootPathOf(known, p, c) && RootPathOf(known, q, c)
    ensures p == q
    decreases |p|
  {
    var m, n := |p| - 1, |q| - 1;
    assert p == p[..m] + [c] && q == q[..n] + [c];
    assert m > 0 ==> p[m].originId == Some(p[m - 1].id);
    assert n > 0 ==> q[n].originId == Some(q[n - 1].id);
    if m > 0 && n > 0 {
      RootPathUnique(known, p[..m], q[..n], p[m - 1]);
    }
  }

  lemma BeforeAsymmetric(known: set<CrdtChar>, c: CrdtChar, d: CrdtChar)
    requires OneMeaning(known)
    ensures Before(known, c, d) ==> !Before(known, d, c) && c != d
  {
    if Before(known, c, d) {
      BeforeMeansPaths(known, c, d);
    }
  }

  lemma BeforeMeansPaths(known: set<CrdtChar>, c: CrdtChar, d: CrdtChar)
    requires OneMeaning(known) && Before(known, c, d)
    ensures !Before(known, d, c) && c != d
  {
    var p, q :| RootPathOf(known, p, c) && RootPathOf(known, q, d) && PathBefore(p, q);
    PathBeforeAsymmetric(p, q);
    forall p', q' | RootPathOf(known, p', c) && RootPathOf(known, q', d)
      ensures p' == p && q' == q
    {
      RootPathUnique(known, p, p', c);
      RootPathUnique(known, q, q', d);
    }
  }

  // ----- A set of inserts has one canonical sequence -----

  ghost predicate Sorted(known: set<CrdtChar>, s: seq<CrdtChar>) {
    forall i, j | 0 <= i < j < |s| :: Before(known, s[i], s[j])
  }

  ghost predicate SameMembers(s: seq<CrdtChar>, t: seq<CrdtChar>) { forall c :: c in s <==> c in t }

  lemma SameHead(known: set<CrdtChar>, s: seq<CrdtChar>, t: seq<CrdtChar>)
    requires OneMeaning(known) && SameMembers(s, t) && Sorted(known, s) && Sorted(known, t)
    requires s != [] && t != []
    ensures s[0] == t[0]
  {
    assert s[0] in t && t[0] in s;
    var i :| 0 <= i < |s| && s[i] == t[0];
    var j :| 0 <= j < |t| && t[j] == s[0];
    BeforeAsymmetric(known, s[0], t[0]);
    assert i == 0 || j == 0;
  }

  lemma TailMembers(known: set<CrdtChar>, s: seq<CrdtChar>, c: CrdtChar)
    requires OneMeaning(known) && Sorted(known, s) && s != []
    ensures c in s[1..] <==> c in s && c != s[0]
  {
    if c in s[1..] {
      BeforeAsymmetric(known, s[0], c);
    }
  }

  lemma {:induction false} SortedUnique(known: set<CrdtChar>, s: seq<CrdtChar>, t: seq<CrdtChar>)
    requires OneMeaning(known) && SameMembers(s, t) && Sorted(known, s) && Sorted(known, t)
    ensures s == t
  {
    assert (t != [] ==> t[0] in t) && (s != [] ==> s[0] in s);
    if s != [] {
      SameHead(known, s, t);
      forall c
        ensures c in s[1..] <==> c in t[1..]
      {
        TailMembers(known, s, c);
        TailMembers(known, t, c);
      }
      SortedUnique(known, s[1..], t[1..]);
      assert s == [s[0]] + s[1..] && t == [t[0]] + t[1..];
    }
  }

  lemma CanonicalUnique(known: set<CrdtChar>, s: seq<CrdtChar>, t: seq<CrdtChar>)
    requires OneMeaning(known) && Canonical(known, s) && Canonical(known, t)
    ensures s == t
  {
    forall c
      ensures c in s <==> c in t
    {
      assert c in s <==> Attached(known, c);
      assert c in t <==> Attached(known, c);
    }
    SortedUnique(known, s, t);
  }

  // ----- A well-formed document is canonical -----

  function PathTo(s: seq<CrdtChar>, i: nat): seq<CrdtChar>
    requires WellFormed(s) && i < |s|
    decreases i
  {
    assert ParentPos(s, i) < i && OriginPresent(s, s[i].originId);
    (if s[i].originId.None? then [] else PathTo(s, ParentPos(s, i))) + [Plain(s[i])]
  }

  lemma {:induction false} PathToIsRootPath(known: set<CrdtChar>, s: seq<CrdtChar>, i: nat)
    requires WellFormed(s) && i < |s|
    requires forall k | 0 <= k < |s| :: Plain(s[k]) in known
    ensures RootPathOf(known, PathTo(s, i), Plain(s[i]))
    decreases i
  {
    assert ParentPos(s, i) < i && OriginPresent(s, s[i].originId);
    if s[i].originId.Some? {
      PathToIsRootPath(known, s, ParentPos(s, i));
    }
  }

  // What stands between a character and its origin branches off below the origin, ahead of it.
  lemma {:induction false} BetweenParts(s: seq<CrdtChar>, k: nat, j: nat)
    requires WellFormed(s) && k < j < |s| && ParentPos(s, j) < k
    ensures Parts(PathTo(s, k), PathTo(s, j))
    decreases k
  {
    assert NestedPair(s, k, j);
    assert ParentPos(s, k) < k && OriginPresent(s, s[k].originId) && OriginPresent(s, s[j].originId);
    if ParentPos(s, k) > ParentPos(s, j) {
      BetweenParts(s, ParentPos(s, k), j);
      PartsExtension(PathTo(s, ParentPos(s, k)), PathTo(s, j), Plain(s[k]));
    } else {
      var common := if s[j].originId.None? then [] else PathTo(s, ParentPos(s, j));
      SiblingsPart(common, Plain(s[k]), Plain(s[j]));
    }
  }

  lemma {:induction false} WellFormedSorted(s: seq<CrdtChar>, i: nat, j: nat)
    requires WellFormed(s) && i < j < |s|
    ensures PathBefore(PathTo(s, i), PathTo(s, j))
    decreases j
  {
    var h := ParentPos(s, j);
    assert h < j && OriginPresent(s, s[j].originId);
    if i > h {
      BetweenParts(s, i, j);
      PartsExtension(PathTo(s, i), PathTo(s, j), Plain(s[i]));
    } else if i == h {
      PrefixIsBefore(PathTo(s, i), [Plain(s[j])]);
    } else {
      WellFormedSorted(s, i, h);
      BeforeExtension(PathTo(s, i), PathTo(s, h), Plain(s[j]));
    }
  }

  // Every known insert is in the document or waits for an origin the document lacks.
  ghost predicate NothingReady(known: set<CrdtChar>, s: seq<CrdtChar>) {
    forall c | c in known && c !in PlainSeq(s) :: c.originId.Some? && !Has(s, c.originId.value)
  }

  lemma {:induction false} AttachedIsPresent(known: set<CrdtChar>, s: seq<CrdtChar>, p: seq<CrdtChar>)
    requires NothingReady(known, s) && IsRootPath(known, p)
    ensures p[|p| - 1] in PlainSeq(s)
    decreases |p|
  {
    var c := p[|p| - 1];
    if |p| > 1 {
      AttachedIsPresent(known, s, p[..|p| - 1]);
      var i :| 0 <= i < |s| && Plain(s[i]) == p[|p| - 2];
      assert s[i].id == c.originId.value;
    }
  }

  // A document without ready inserts is the canonical sequence of everything known to it.
  lemma WellFormedIsCanonical(known: set<CrdtChar>, s: seq<CrdtChar>)
    requires WellFormed(s) && NothingReady(known, s)
    requires forall k | 0 <= k < |s| :: Plain(s[k]) in known
    ensures Canonical(known, PlainSeq(s))
  {
    var t := PlainSeq(s);
    forall c
      ensures c in t <==> Attached(known, c)
    {
      if c in t {
        var i :| 0 <= i < |t| && t[i] == c;
        PathToIsRootPath(known, s, i);
      }
      if Attached(known, c) {
        var p :| RootPathOf(known, p, c);
        AttachedIsPresent(known, s, p);
      }
    }
    forall i, j | 0 <= i < j < |t|
      ensures Before(known, t[i], t[j])
    {
      PathToIsRootPath(known, s, i);
      PathToIsRootPath(known, s, j);
      WellFormedSorted(s, i, j);
    }
  }

  // ----- A canonical sequence is well-formed -----

  ghost predicate OriginAhead(s: seq<CrdtChar>, n: nat)
    requires n < |s|
  {
    s[n].originId.Some? ==> exists m :: 0 <= m < n && s[m].id == s[n].originId.value
  }

  // Distinct inserts, each behind the one it was typed after: any order a causal channel delivers.
  ghost predicate CausalOrder(s: seq<CrdtChar>) {
    DistinctIds(s) && forall n | 0 <= n < |s| :: OriginAhead(s, n)
  }

  lemma OriginIsBefore(known: set<CrdtChar>, c: CrdtChar) returns (d: CrdtChar)
    requires Attached(known, c) && c.originId.Some?
    ensures Attached(known, d) && d.id == c.originId.value && Before(known, d, c)
  {
    var p :| RootPathOf(known, p, c);
    var q := p[..|p| - 1];
    d := p[|p| - 2];
    assert RootPathOf(known, q, d);
    assert p == q + [c];
    PrefixIsBefore(q, [c]);
  }

  lemma OriginStandsAhead(known: set<CrdtChar>, s: seq<CrdtChar>, n: nat)
    requires OneMeaning(known) && Canonical(known, s) && n < |s|
    ensures s[n] in known && OriginAhead(s, n)
  {
    assert s[n] in s;
    if s[n].originId.Some? {
      var d := OriginIsBefore(known, s[n]);
      assert d in s;
      var m :| 0 <= m < |s| && s[m] == d;
      BeforeAsymmetric(known, d, s[n]);
      assert m < n;
    }
  }

  lemma CanonicalDistinct(known: set<CrdtChar>, s: seq<CrdtChar>)
    requires OneMeaning(known) && Canonical(known, s)
    ensures DistinctIds(s)
  {
    forall i, j | 0 <= i < j < |s|
      ensures s[i].id != s[j].id
    {
      OriginStandsAhead(known, s, i);
      OriginStandsAhead(known, s, j);
      BeforeAsymmetric(known, s[i], s[j]);
    }
  }

  lemma HasIff(s: seq<CrdtChar>, t: seq<CrdtChar>, id: CrdtId)
    requires SameMembers(s, t)
    ensures Has(s, id) <==> exists d :: d in t && d.id == id
  {
    if Has(s, id) {
      assert s[IndexOf(s, id)] in t;
    }
    if d :| d in t && d.id == id {
      assert d in s;
    }
  }

  // Inserting a canonical sequence into an empty document, character by character.
  function Rebuild(s: seq<CrdtChar>): seq<CrdtChar> {
    if s == [] then [] else Inserted(Rebuild(s[..|s| - 1]), s[|s| - 1])
  }

  lemma InsertedMembers(s: seq<CrdtChar>, c: CrdtChar)
    ensures forall d :: d in Inserted(s, c) <==> d in s || d == c
  {
    var p := ScanPos(s, c);
    var t := Inserted(s, c);
    assert s == s[..p] + s[p..];
    assert t == s[..p] + [c] + s[p..];
  }

  lemma InsertNext(t: seq<CrdtChar>, front: seq<CrdtChar>, c: CrdtChar)
    requires WellFormed(t) && SameMembers(t, front)
    requires forall d | d in front :: d.id != c.id
    requires c.originId.Some? ==> exists d :: d in front && d.id == c.originId.value
    ensures WellFormed(Inserted(t, c)) && SameMembers(Inserted(t, c), front + [c])
  {
    HasIff(t, front, c.id);
    if c.originId.Some? {
      HasIff(t, front, c.originId.value);
    }
    InsertedWellFormed(t, c);
    InsertedMembers(t, c);
  }

  lemma CausalPrefix(s: seq<CrdtChar>, n: nat)
    requires CausalOrder(s) && n <= |s|
    ensures CausalOrder(s[..n])
  {
    var t := s[..n];
    forall k | 0 <= k < |t|
      ensures OriginAhead(t, k)
    {
      assert OriginAhead(s, k);
      if s[k].originId.Some? {
        var m :| 0 <= m < k && s[m].id == s[k].originId.value;
        assert t[m] == s[m];
      }
    }
  }

  lemma CausalLast(s: seq<CrdtChar>)
    requires CausalOrder(s) && s != []
    ensures var front, c := s[..|s| - 1], s[|s| - 1];
            && (forall d | d in front :: d.id != c.id)
            && (c.originId.Some? ==> exists d :: d in front && d.id == c.originId.value)
  {
    var n := |s| - 1;
    assert OriginAhead(s, n);
    if s[n].originId.Some? {
      var m :| 0 <= m < n && s[m].id == s[n].originId.value;
      assert s[..n][m] == s[m];
    }
  }

  // Inserting in any causal order yields a well-formed document with exactly these inserts.
  lemma {:induction false} RebuildWellFormed(s: seq<CrdtChar>)
    requires CausalOrder(s)
    ensures WellFormed(Rebuild(s)) && SameMembers(Rebuild(s), s)
  {
    if s != [] {
      var front, c := s[..|s| - 1], s[|s| - 1];
      CausalPrefix(s, |s| - 1);
      RebuildWellFormed(front);
      CausalLast(s);
      InsertNext(Rebuild(front), front, c);
      assert s == front + [c];
    }
  }

  lemma CanonicalIsWellFormed(known: set<CrdtChar>, s: seq<CrdtChar>)
    requires OneMeaning(known) && Canonical(known, s)
    requires forall c | c in known :: !c.isDeleted
    ensures WellFormed(s)
    ensures Rebuild(s) == s
  {
    CanonicalDistinct(known, s);
    forall n | 0 <= n < |s|
      ensures OriginAhead(s, n)
    {
      OriginStandsAhead(known, s, n);
    }
    RebuildWellFormed(s);
    var t := Rebuild(s);
    forall i | 0 <= i < |t|
      ensures Plain(t[i]) == t[i] && Plain(t[i]) in known
    {
      assert t[i] in s;
      var n :| 0 <= n < |s| && s[n] == t[i];
      OriginStandsAhead(known, s, n);
    }
    assert PlainSeq(t) == t;
    forall i, j | 0 <= i < j < |t|
      ensures Before(known, t[i], t[j])
    {
      PathToIsRootPath(known, t, i);
      PathToIsRootPath(known, t, j);
      WellFormedSorted(t, i, j);
    }
    SortedUnique(known, s, t);
  }

  ghost predicate OriginClosed(known: set<CrdtChar>) { forall c | c in known :: Attached(known, c) }

  // insertChar turns the canonical sequence of an origin-closed set into that of the set with one
  // more insert, so every causal order of the same inserts ends in the same sequence.
  lemma InsertCharCanonical(known: set<CrdtChar>, s: seq<CrdtChar>, c: CrdtChar)
    requires OneMeaning(known) && OriginClosed(known) && Canonical(known, s)
    requires forall d | d in known :: !d.isDeleted && d.id != c.id
    requires !c.isDeleted
    requires c.originId.Some? ==> exists d :: d in known && d.id == c.originId.value
    ensures Canonical(known + {c}, Inserted(s, c))
  {
    CanonicalIsWellFormed(known, s);
    forall d
      ensures d in s <==> d in known
    {
      assert d in s <==> Attached(known, d);
    }
    if c.originId.Some? {
      var d :| d in known && d.id == c.originId.value;
      assert d in s;
      HasIff(s, s, c.originId.value);
    }
    HasIff(s, s, c.id);
    InsertedWellFormed(s, c);
    InsertedMembers(s, c);
    var t := Inserted(s, c);
    forall i | 0 <= i < |t|
      ensures Plain(t[i]) == t[i] && t[i] in known + {c}
    {
      assert t[i] in t;
    }
    assert PlainSeq(t) == t;
    WellFormedIsCanonical(known + {c}, t);
  }
}
