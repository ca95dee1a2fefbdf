// client/src/crdt/CrdtDocument.ts: the mutable document.
module CrdtDocuments {
  import opened Wrappers
  import opened Text
  import opened CrdtIds
  import opened Rga
  import opened CanonicalOrder
  import opened DocumentContents
  import opened Replicas

  datatype CrdtOp = InsertOp(character: CrdtChar) | DeleteOp(id: CrdtId)

  datatype Snapshot = Snapshot(clock: nat, chars: seq<CrdtChar>)

  function Max(a: nat, b: nat): nat { if a < b then b else a }

  // The character the n-th code point of an imported text becomes.
  function TypedChar(siteId: JsString, values: seq<JsString>, n: nat): CrdtChar
    requires n < |values|
  {
    CrdtChar(CrdtId(siteId, n + 1), values[n], if n == 0 then None else Some(CrdtId(siteId, n)), false)
  }

  function Typed(siteId: JsString, values: seq<JsString>): (s: seq<CrdtChar>)
    ensures |s| == |values| && forall n | 0 <= n < |s| :: s[n] == TypedChar(siteId, values, n)
  {
    seq(|values|, n requires 0 <= n < |values| => TypedChar(siteId, values, n))
  }

  function VisibleValues(s: seq<CrdtChar>): seq<JsString> {
    if s == [] then []
    else if s[0].isDeleted then VisibleValues(s[1..])
    else [s[0].value] + VisibleValues(s[1..])
  }

  function VisibleText(s: seq<CrdtChar>): JsString { Join(VisibleValues(s)) }

  lemma TypedWellFormed(siteId: JsString, values: seq<JsString>)
    ensures WellFormed(Typed(siteId, values))
  {
    var s := Typed(siteId, values);
    assert DistinctIds(s);
    forall n | 0 <= n < |s|
      ensures ParentPos(s, n) == n - 1 && OriginPresent(s, s[n].originId)
    {
      if n > 0 {
        IndexOfAt(s, n - 1);
      }
    }
  }

  lemma TypedFront(siteId: JsString, values: seq<JsString>)
    requires values != []
    ensures var n := |values| - 1;
            Typed(siteId, values) == Typed(siteId, values[..n]) + [TypedChar(siteId, values, n)]
  {
    var n := |values| - 1;
    forall k | 0 <= k < n
      ensures Typed(siteId, values)[k] == Typed(siteId, values[..n])[k]
    {
    }
  }

  lemma TypedAtEnd(siteId: JsString, values: seq<JsString>)
    requires values != []
    ensures var n := |values| - 1;
            var front, c := Typed(siteId, values[..n]), TypedChar(siteId, values, n);
            Inserted(front, c) == front + [c]
  {
    var n := |values| - 1;
    var front := Typed(siteId, values[..n]);
    TypedWellFormed(siteId, values[..n]);
    if n > 0 {
      IndexOfAt(front, n - 1);
    }
  }

  // Characters with the counters 1, 2, ..., each behind the one before: no id is used twice, and a
  // clock at their number covers them all.
  lemma TypedCounters(siteId: JsString, values: seq<JsString>)
    ensures var s := Typed(siteId, values);
            && |s| == |values|
            && (forall n | 0 <= n < |s| :: s[n].id == CrdtId(siteId, n + 1) && s[n].value == values[n])
            && (forall n | 0 <= n < |s| :: s[n].originId == if n == 0 then None else Some(s[n - 1].id))
            && (forall n | 0 <= n < |s| :: !s[n].isDeleted)
            && ClockCovers(s, |values|)
  {
  }

  // The direct construction in fromText gives what typing the text character by character gives.
  lemma {:induction false} FromTextIsTyping(siteId: JsString, values: seq<JsString>)
    ensures Rebuild(Typed(siteId, values)) == Typed(siteId, values)
    ensures VisibleValues(Typed(siteId, values)) == values
  {
    if values != [] {
      var n := |values| - 1;
      var front, c := Typed(siteId, values[..n]), TypedChar(siteId, values, n);
      FromTextIsTyping(siteId, values[..n]);
      TypedFront(siteId, values);
      TypedAtEnd(siteId, values);
      assert (front + [c])[..n] == front;
      VisibleAppend(front, [c]);
    }
  }

  lemma {:induction false} VisibleAppend(s: seq<CrdtChar>, t: seq<CrdtChar>)
    ensures VisibleValues(s + t) == VisibleValues(s) + VisibleValues(t)
  {
    if s == [] {
      assert s + t == t;
    } else {
      assert (s + t)[1..] == s[1..] + t;
      VisibleAppend(s[1..], t);
    }
  }

  // ----- The clock while a snapshot is merged -----

  // After n characters of t: the least clock from base on that covers those that were new to s.
  ghost predicate ClockMerged(s: seq<CrdtChar>, base: nat, t: seq<CrdtChar>, n: nat, m: seq<CrdtChar>, clock: nat)
    requires n <= |t|
  {
    && base <= clock
    && (forall c | c in t[..n] && !Has(s, c.id) :: c.id.counter <= clock)
    && (clock == base || exists c :: c in t && !Has(s, c.id) && c.id.counter == clock)
    && (forall id :: Has(m, id) <==> Has(s, id) || exists c :: c in t[..n] && c.id == id)
  }

  lemma MergeStarts(s: seq<CrdtChar>, base: nat, t: seq<CrdtChar>)
    ensures ClockMerged(s, base, t, 0, s, base) && MergeAll(s, t[..0]) == s
  {
  }

  lemma MergeNextOf(s: seq<CrdtChar>, t: seq<CrdtChar>, n: nat)
    requires n < |t|
    ensures MergeAll(s, t[..n + 1]) == MergeOne(MergeAll(s, t[..n]), t[n])
  {
    assert t[..n + 1][..n] == t[..n];
  }

  lemma MergeOneCases(m: seq<CrdtChar>, c: CrdtChar)
    ensures IndexOf(m, c.id) == -1 ==> MergeOne(m, c) == Inserted(m, c)
    ensures IndexOf(m, c.id) != -1 && c.isDeleted ==> MergeOne(m, c) == Tombstoned(m, c.id)
    ensures IndexOf(m, c.id) != -1 && (!c.isDeleted || m[IndexOf(m, c.id)].isDeleted) ==> MergeOne(m, c) == m
    ensures Has(m, c.id) <==> IndexOf(m, c.id) != -1
  {
  }

  lemma ClockMergedNext(s: seq<CrdtChar>, base: nat, t: seq<CrdtChar>, n: nat, m: seq<CrdtChar>, clock: nat,
                        clock': nat)
    requires n < |t| && ClockMerged(s, base, t, n, m, clock)
    requires clock' == if Has(m, t[n].id) then clock else Max(clock, t[n].id.counter)
    ensures ClockMerged(s, base, t, n + 1, MergeOne(m, t[n]), clock')
  {
    hide MergeOne, Has;
    var c, m' := t[n], MergeOne(m, t[n]);
    assert t[..n + 1] == t[..n] + [c] && c in t && c in t[..n + 1];
    MergeOneHas(m, c);
    if Has(m, c.id) && !Has(s, c.id) {
      var d :| d in t[..n] && d.id == c.id;
      assert c.id.counter <= clock;
    }
    forall id
      ensures Has(m', id) <==> Has(s, id) || exists d :: d in t[..n + 1] && d.id == id
    {
      if d :| d in t[..n + 1] && d.id == id {
        assert d in t[..n] || d == c;
      }
    }
  }

  lemma MergeOneHas(m: seq<CrdtChar>, c: CrdtChar)
    ensures forall id :: Has(MergeOne(m, c), id) <==> Has(m, id) || id == c.id
  {
    hide Tombstoned, Inserted, IndexOf;
    InsertedContents(m, c);
    TombstonedContents(m, c.id);
    forall id
      ensures Has(Tombstoned(m, c.id), id) <==> Has(m, id)
    {
      SameShapeSameIndex(m, Tombstoned(m, c.id), id);
    }
  }

  lemma MergeEnds(s: seq<CrdtChar>, base: nat, t: seq<CrdtChar>, m: seq<CrdtChar>, clock: nat)
    requires m == MergeAll(s, t[..|t|]) && ClockMerged(s, base, t, |t|, m, clock)
    ensures s != [] ==> m == Merged(s, t)
    ensures forall c | c in t && !Has(s, c.id) :: c.id.counter <= clock
    ensures clock == base || exists c :: c in t && !Has(s, c.id) && c.id.counter == clock
  {
    assert t[..|t|] == t;
  }

  class CrdtDocument {
    const siteId: JsString
    var clock: nat
    var chars: seq<CrdtChar>

    constructor (siteId: JsString)
      ensures this.siteId == siteId && clock == 0 && chars == []
    {
      this.siteId := siteId;
      clock := 0;
      chars := [];
    }

    static method FromText(siteId: JsString, text: JsString) returns (document: CrdtDocument)
      ensures fresh(document) && document.siteId == siteId
      ensures document.chars == Typed(siteId, CodePoints(text)) && document.clock == |CodePoints(text)|
      ensures VisibleText(document.chars) == text
      ensures WellFormed(document.chars) && ClockCovers(document.chars, document.clock)
    {
      hide SplitAtCodePoints, CodePoints;
      document := new CrdtDocument(siteId);
      var values := CodePoints(text);
      var originId: Option<CrdtId> := None;
      for n := 0 to |values|
        invariant document.siteId == siteId && document.clock == n
        invariant originId == if n == 0 then None else Some(CrdtId(siteId, n))
        invariant document.chars == Typed(siteId, values)[..n]
      {
        document.clock := document.clock + 1;
        var id := CrdtId(siteId, document.clock);
        document.chars := document.chars + [CrdtChar(id, values[n], originId, false)];
        originId := Some(id);
      }
      FromTextIsTyping(siteId, values);
      TypedWellFormed(siteId, values);
    }

    method FindCharIndex(id: CrdtId) returns (index: int)
      ensures index == IndexOf(chars, id)
    {
      for i := 0 to |chars|
        invariant forall k | 0 <= k < i :: chars[k].id != id
      {
        if chars[i].id == id {
          return i;
        }
      }
      return -1;
    }

    method HasChar(id: CrdtId) returns (present: bool)
      ensures present == Has(chars, id)
    {
      var index := FindCharIndex(id);
      return index != -1;
    }

    method InsertChar(newChar: CrdtChar)
      modifies this`chars
      ensures chars == Inserted(old(chars), newChar)
    {
      var originPos := -1;
      if newChar.originId.Some? {
        originPos := FindCharIndex(newChar.originId.value);
      }
      var insertPos := originPos + 1;
      while insertPos < |chars|
        invariant chars == old(chars) && originPos == OriginPos(chars, newChar.originId)
        invariant originPos < insertPos <= |chars|
        invariant ScanFrom(chars, newChar, insertPos) == ScanPos(chars, newChar)
      {
        var next := chars[insertPos];
        IdTrichotomy(newChar.id, next.id);
        if next.originId == newChar.originId {
          if CompareCrdtIds(newChar.id, next.id) > 0 {
            assert Stops(chars, newChar, insertPos);
            break;
          }
        } else {
          var nextOriginPos := -1;
          if next.originId.Some? {
            nextOriginPos := FindCharIndex(next.originId.value);
          }
          if nextOriginPos < originPos {
            assert Stops(chars, newChar, insertPos);
            break;
          }
        }
        insertPos := insertPos + 1;
      }
      assert insertPos == ScanPos(chars, newChar);
      chars := chars[..insertPos] + [newChar] + chars[insertPos..];
    }

    method LocalInsert(originId: Option<CrdtId>, value: JsString) returns (op: CrdtOp)
      modifies this
      ensures op == InsertOp(CrdtChar(CrdtId(siteId, clock), value, originId, false))
      ensures clock == old(clock) + 1
      ensures chars == Inserted(old(chars), op.character)
    {
      clock := clock + 1;
      var character := CrdtChar(CrdtId(siteId, clock), value, originId, false);
      InsertChar(character);
      return InsertOp(character);
    }

    method MarkDeleted(id: CrdtId)
      modifies this`chars
      ensures chars == Tombstoned(old(chars), id)
    {
      var index := FindCharIndex(id);
      if index != -1 {
        chars := chars[index := chars[index].(isDeleted := true)];
      }
    }

    method LocalDelete(id: CrdtId) returns (op: CrdtOp)
      modifies this`chars
      ensures op == DeleteOp(id)
      ensures chars == Tombstoned(old(chars), id)
    {
      MarkDeleted(id);
      return DeleteOp(id);
    }

    method IntegrateRemoteInsert(character: CrdtChar)
      modifies this
      ensures clock == Max(old(clock), character.id.counter)
      ensures chars == if Has(old(chars), character.id) then old(chars) else Inserted(old(chars), character)
    {
      clock := Max(clock, character.id.counter);
      var index := FindCharIndex(character.id);
      if index != -1 {
        return;
      }
      InsertChar(character);
    }

    method IntegrateRemoteDelete(id: CrdtId)
      modifies this`chars
      ensures chars == Tombstoned(old(chars), id)
    {
      MarkDeleted(id);
    }

    method ToVisibleString() returns (text: JsString)
      ensures text == VisibleText(chars)
    {
      var values: seq<JsString> := [];
      for i := 0 to |chars|
        invariant values == VisibleValues(chars[..i])
      {
        VisibleAppend(chars[..i], [chars[i]]);
        assert chars[..i + 1] == chars[..i] + [chars[i]];
        if !chars[i].isDeleted {
          values := values + [chars[i].value];
        }
      }
      assert chars[..|chars|] == chars;
      return Join(values);
    }

    method ToSnapshot() returns (snapshot: Snapshot)
      ensures snapshot == Snapshot(clock, chars)
    {
      return Snapshot(clock, chars);
    }

    method FromSnapshot(snapshot: Snapshot)
      modifies this
      ensures chars == Merged(old(chars), snapshot.chars)
      ensures clock >= old(clock) && clock >= snapshot.clock
      ensures old(chars) == [] ==> clock == Max(old(clock), snapshot.clock)
      ensures old(chars) != [] ==>
                forall c | c in snapshot.chars && !Has(old(chars), c.id) :: c.id.counter <= clock
      ensures clock == Max(old(clock), snapshot.clock)
              || exists c :: c in snapshot.chars && !Has(old(chars), c.id) && c.id.counter == clock
      ensures (forall c | c in snapshot.chars :: c.id.counter <= snapshot.clock) ==>
                clock == Max(old(clock), snapshot.clock)
    {
      clock := Max(clock, snapshot.clock);
      if |chars| == 0 {
        chars := snapshot.chars;
        return;
      }
      hide ClockMerged, MergeAll, Has, Tombstoned, Inserted;
      ghost var base := clock;
      MergeStarts(chars, base, snapshot.chars);
      for n := 0 to |snapshot.chars|
        invariant chars == MergeAll(old(chars), snapshot.chars[..n])
        invariant clock >= old(clock) && clock >= snapshot.clock
        invariant ClockMerged(old(chars), base, snapshot.chars, n, chars, clock)
        invariant (forall c | c in snapshot.chars :: c.id.counter <= snapshot.clock) ==>
                    clock == Max(old(clock), snapshot.clock)
      {
        var character := snapshot.chars[n];
        ghost var before, clockBefore := chars, clock;
        MergeNextOf(old(chars), snapshot.chars, n);
        MergeOneCases(before, character);
        var index := FindCharIndex(character.id);
        if index == -1 {
          IntegrateRemoteInsert(character);
        } else if character.isDeleted && !chars[index].isDeleted {
          IntegrateRemoteDelete(character.id);
        }
        ClockMergedNext(old(chars), base, snapshot.chars, n, before, clockBefore, clock);
        assert character in snapshot.chars;
      }
      MergeEnds(old(chars), base, snapshot.chars, chars, clock);
    }
  }
}
