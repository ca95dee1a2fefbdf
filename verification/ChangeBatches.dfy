// registerLocalChangeHandler in client/src/bindings/MonacoCrdtBinding.ts: the changes of one editor
// event all speak about the text before the event, and are applied one by one from the back.
module ChangeBatches {
  import opened Text
  import opened Rga
  import opened DocumentContents
  import opened CrdtDocuments
  import opened TextEdits

  datatype Change = Change(rangeOffset: nat, rangeLength: nat, text: JsString)

  function End(e: Change): nat { e.rangeOffset + e.rangeLength }

  // ----- The sort of the handler -----

  function InsertByOffset(e: Change, sorted: seq<Change>): seq<Change> {
    if sorted == [] || sorted[0].rangeOffset <= e.rangeOffset then [e] + sorted
    else [sorted[0]] + InsertByOffset(e, sorted[1..])
  }

  function SortDescending(changes: seq<Change>): seq<Change> {
    if changes == [] then [] else InsertByOffset(changes[0], SortDescending(changes[1..]))
  }

  ghost predicate Descending(s: seq<Change>) {
    forall i, j | 0 <= i < j < |s| :: s[i].rangeOffset >= s[j].rangeOffset
  }

  lemma {:induction false} InsertByOffsetMembers(e: Change, sorted: seq<Change>)
    ensures multiset(InsertByOffset(e, sorted)) == multiset{e} + multiset(sorted)
  {
    if sorted != [] && sorted[0].rangeOffset > e.rangeOffset {
      InsertByOffsetMembers(e, sorted[1..]);
      assert sorted == [sorted[0]] + sorted[1..];
    }
  }

  lemma {:induction false} InsertByOffsetSorts(e: Change, sorted: seq<Change>)
    requires Descending(sorted)
    ensures Descending(InsertByOffset(e, sorted))
  {
    if sorted != [] && sorted[0].rangeOffset > e.rangeOffset {
      InsertByOffsetSorts(e, sorted[1..]);
      InsertByOffsetMembers(e, sorted[1..]);
      var rest := InsertByOffset(e, sorted[1..]);
      forall k | 0 <= k < |rest|
        ensures sorted[0].rangeOffset >= rest[k].rangeOffset
      {
        assert rest[k] in multiset(rest);
        assert rest[k] == e || rest[k] in sorted[1..];
      }
    }
  }

  lemma {:induction false} SortDescendingSorts(changes: seq<Change>)
    ensures Descending(SortDescending(changes)) && multiset(SortDescending(changes)) == multiset(changes)
  {
    if changes != [] {
      SortDescendingSorts(changes[1..]);
      InsertByOffsetSorts(changes[0], SortDescending(changes[1..]));
      InsertByOffsetMembers(changes[0], SortDescending(changes[1..]));
      assert changes == [changes[0]] + changes[1..];
    }
  }

  // ----- What a batch means -----

  // Changes in text order, of which no two overlap; they may touch.
  ghost predicate Separate(asc: seq<Change>) {
    forall i, j | 0 <= i < j < |asc| :: End(asc[i]) <= asc[j].rangeOffset
  }

  ghost predicate DistinctOffsets(s: seq<Change>) {
    forall i, j | 0 <= i < j < |s| :: s[i].rangeOffset != s[j].rangeOffset
  }

  ghost predicate Within(asc: seq<Change>, from: nat, to: nat) {
    forall e | e in asc :: from <= e.rangeOffset && End(e) <= to
  }

  lemma TailSeparate(from: nat, to: nat, asc: seq<Change>)
    requires asc != [] && Separate(asc) && Within(asc, from, to)
    ensures from <= asc[0].rangeOffset && End(asc[0]) <= to
    ensures Separate(asc[1..]) && Within(asc[1..], End(asc[0]), to)
  {
    assert asc[0] in asc;
    forall e | e in asc[1..]
      ensures End(asc[0]) <= e.rangeOffset && End(e) <= to
    {
      assert e in asc;
    }
  }

  // All changes at once: the text from position from on, copied between the ranges, each range
  // replaced by its new text.
  function Simultaneous(text: JsString, from: nat, asc: seq<Change>): JsString
    requires from <= |text| && Separate(asc) && Within(asc, from, |text|)
    decreases |asc|
  {
    if asc == [] then text[from..]
    else
      TailSeparate(from, |text|, asc);
      text[from..asc[0].rangeOffset] + asc[0].text + Simultaneous(text, End(asc[0]), asc[1..])
  }

  lemma OneChange(text: JsString, from: nat, e: Change)
    requires from <= |text| && Separate([e]) && Within([e], from, |text|)
    ensures End(e) <= |text| && from <= e.rangeOffset
    ensures var now := ReplaceRange(text, e.rangeOffset, e.rangeLength, e.text);
            from <= |now| && Simultaneous(text, from, [e]) == now[from..] == Simultaneous(now, from, [])
  {
    TailSeparate(from, |text|, [e]);
    assert [e][1..] == [];
  }

  lemma SimultaneousHead(text: JsString, from: nat, e: Change, rest: seq<Change>)
    requires from <= |text| && Separate([e] + rest) && Within([e] + rest, from, |text|)
    ensures from <= e.rangeOffset && End(e) <= |text|
    ensures Separate(rest) && Within(rest, End(e), |text|)
    ensures Simultaneous(text, from, [e] + rest) ==
              text[from..e.rangeOffset] + e.text + Simultaneous(text, End(e), rest)
  {
    TailSeparate(from, |text|, [e] + rest);
    assert ([e] + rest)[1..] == rest;
  }

  ghost predicate Applicable(text: JsString, from: nat, asc: seq<Change>) {
    from <= |text| && Separate(asc) && Within(asc, from, |text|)
  }

  function After(text: JsString, e: Change): JsString
    requires End(e) <= |text|
  {
    ReplaceRange(text, e.rangeOffset, e.rangeLength, e.text)
  }

  lemma LastFirstStep(text: JsString, from: nat, d: Change, rest: seq<Change>, e: Change)
    requires Applicable(text, from, [d] + (rest + [e])) && End(e) <= |text|
    requires Applicable(After(text, e), from, [d] + rest)
    requires from <= d.rangeOffset && End(d) <= e.rangeOffset
    requires Applicable(text, End(d), rest + [e]) && Applicable(After(text, e), End(d), rest)
    requires Simultaneous(text, End(d), rest + [e]) == Simultaneous(After(text, e), End(d), rest)
    ensures Simultaneous(text, from, [d] + (rest + [e])) == Simultaneous(After(text, e), from, [d] + rest)
  {
    hide Separate, Within, Simultaneous;
    SimultaneousHead(text, from, d, rest + [e]);
    SimultaneousHead(After(text, e), from, d, rest);
    assert After(text, e)[from..d.rangeOffset] == text[from..d.rangeOffset];
  }

  // Applying the last change first leaves the text in front of it alone, so the others still mean
  // what they meant.
  lemma {:induction false} LastFirst(text: JsString, from: nat, front: seq<Change>, e: Change)
    requires Applicable(text, from, front + [e])
    ensures End(e) <= |text| && Applicable(After(text, e), from, front)
    ensures Simultaneous(text, from, front + [e]) == Simultaneous(After(text, e), from, front)
    decreases |front|
  {
    hide Separate, Within, Simultaneous;
    FrontWithin(text, from, front, e);
    if front == [] {
      assert front + [e] == [e];
      OneChange(text, from, e);
    } else {
      var d, rest := front[0], front[1..];
      assert front == [d] + rest && front + [e] == [d] + (rest + [e]);
      SimultaneousHead(text, from, d, rest + [e]);
      LastFirst(text, End(d), rest, e);
      FrontBefore(front, from, e);
      LastFirstStep(text, from, d, rest, e);
    }
  }

  lemma FrontBefore(front: seq<Change>, from: nat, e: Change)
    requires front != [] && Within(front, from, e.rangeOffset)
    ensures from <= front[0].rangeOffset && End(front[0]) <= e.rangeOffset
  {
    assert front[0] in front;
  }

  lemma FrontWithin(text: JsString, from: nat, front: seq<Change>, e: Change)
    requires from <= |text| && Separate(front + [e]) && Within(front + [e], from, |text|)
    ensures Separate(front) && Within(front, from, e.rangeOffset)
    ensures from <= e.rangeOffset && End(e) <= |text|
    ensures forall to: nat | e.rangeOffset <= to :: Within(front, from, to)
  {
    var all := front + [e];
    assert all[|front|] == e && e in all;
    forall d | d in front
      ensures from <= d.rangeOffset && End(d) <= e.rangeOffset
    {
      var i :| 0 <= i < |front| && front[i] == d;
      assert all[i] == d && d in all;
    }
    forall i, j | 0 <= i < j < |front|
      ensures End(front[i]) <= front[j].rangeOffset
    {
      assert all[i] == front[i] && all[j] == front[j];
    }
  }

  function Reverse(s: seq<Change>): (r: seq<Change>)
    ensures |r| == |s| && forall k | 0 <= k < |s| :: r[k] == s[|s| - 1 - k]
  {
    if s == [] then [] else [s[|s| - 1]] + Reverse(s[..|s| - 1])
  }

  // The order in which the handler takes the changes, backwards.
  function TextOrder(event: seq<Change>): seq<Change> { Reverse(SortDescending(event)) }

  lemma {:induction false} SortedIsReverse(asc: seq<Change>, desc: seq<Change>)
    requires Separate(asc) && DistinctOffsets(asc) && Descending(desc) && multiset(asc) == multiset(desc)
    ensures desc == Reverse(asc)
    decreases |asc|
  {
    if asc == [] {
      assert |multiset(desc)| == |desc|;
    } else {
      var n := |asc| - 1;
      FirstIsLast(asc, desc);
      assert asc == asc[..n] + [asc[n]] && desc == [desc[0]] + desc[1..];
      SameRest(asc, desc);
      SortedIsReverse(asc[..n], desc[1..]);
    }
  }

  lemma SameRest(asc: seq<Change>, desc: seq<Change>)
    requires asc != [] && desc != [] && desc[0] == asc[|asc| - 1] && multiset(asc) == multiset(desc)
    ensures multiset(asc[..|asc| - 1]) == multiset(desc[1..])
  {
    var front, last, rest := asc[..|asc| - 1], asc[|asc| - 1], desc[1..];
    assert asc == front + [last] && desc == [last] + rest;
    calc {
      multiset(front);
      multiset(front + [last]) - multiset{last};
      multiset([last] + rest) - multiset{last};
      multiset(rest);
    }
  }

  lemma FirstIsLast(asc: seq<Change>, desc: seq<Change>)
    requires asc != [] && Separate(asc) && DistinctOffsets(asc) && Descending(desc) && multiset(asc) == multiset(desc)
    ensures desc != [] && desc[0] == asc[|asc| - 1]
  {
    var last := asc[|asc| - 1];
    assert last in multiset(asc) && last in desc;
    assert desc[0] in multiset(desc) && desc[0] in asc;
    var i :| 0 <= i < |asc| && asc[i] == desc[0];
    var j :| 0 <= j < |desc| && desc[j] == last;
    assert desc[0].rangeOffset >= desc[j].rangeOffset;
  }

  lemma {:induction false} ReverseTwice(s: seq<Change>)
    ensures Reverse(Reverse(s)) == s
  {
  }

  // If no two changes start at one offset, that is their text order, however the event lists them.
  lemma DistinctOffsetsInTextOrder(asc: seq<Change>, event: seq<Change>)
    requires Separate(asc) && DistinctOffsets(asc) && multiset(asc) == multiset(event)
    ensures TextOrder(event) == asc
  {
    SortDescendingSorts(event);
    SortedIsReverse(asc, SortDescending(event));
    ReverseTwice(asc);
  }

  // ----- Changes at one offset -----

  function AtOffset(s: seq<Change>, offset: nat): seq<Change> {
    if s == [] then [] else (if s[0].rangeOffset == offset then [s[0]] else []) + AtOffset(s[1..], offset)
  }

  lemma {:induction false} AtOffsetConcat(s: seq<Change>, t: seq<Change>, offset: nat)
    ensures AtOffset(s + t, offset) == AtOffset(s, offset) + AtOffset(t, offset)
  {
    if s == [] {
      assert s + t == t;
    } else {
      var first := if s[0].rangeOffset == offset then [s[0]] else [];
      AtOffsetConcat(s[1..], t, offset);
      assert (s + t)[1..] == s[1..] + t;
      assert first + (AtOffset(s[1..], offset) + AtOffset(t, offset)) ==
               first + AtOffset(s[1..], offset) + AtOffset(t, offset);
    }
  }

  lemma {:induction false} AtOffsetInserted(e: Change, sorted: seq<Change>, offset: nat)
    ensures AtOffset(InsertByOffset(e, sorted), offset) == AtOffset([e] + sorted, offset)
  {
    assert ([e] + sorted)[1..] == sorted;
    if sorted != [] && sorted[0].rangeOffset > e.rangeOffset {
      AtOffsetInserted(e, sorted[1..], offset);
      var rest := InsertByOffset(e, sorted[1..]);
      assert ([sorted[0]] + rest)[1..] == rest && ([e] + sorted[1..])[1..] == sorted[1..];
    }
  }

  // The sort is stable.
  lemma {:induction false} SortIsStable(event: seq<Change>, offset: nat)
    ensures AtOffset(SortDescending(event), offset) == AtOffset(event, offset)
  {
    if event != [] {
      var sorted := SortDescending(event[1..]);
      SortIsStable(event[1..], offset);
      AtOffsetInserted(event[0], sorted, offset);
      assert ([event[0]] + sorted)[1..] == sorted;
    }
  }

  lemma {:induction false} AtOffsetReversed(s: seq<Change>, offset: nat)
    ensures AtOffset(Reverse(s), offset) == Reverse(AtOffset(s, offset))
  {
    if s != [] {
      var n := |s| - 1;
      AtOffsetReversed(s[..n], offset);
      AtOffsetConcat(s[..n], [s[n]], offset);
      assert s == s[..n] + [s[n]];
      assert ([s[n]] + Reverse(s[..n]))[1..] == Reverse(s[..n]) && [s[n]][1..] == [];
      assert AtOffset([s[n]], offset) == if s[n].rangeOffset == offset then [s[n]] else [];
      ReverseConcatOne(AtOffset(s[..n], offset), s[n]);
    }
  }

  lemma ReverseConcatOne(s: seq<Change>, e: Change)
    ensures Reverse(s + [e]) == [e] + Reverse(s)
    ensures s + [] == s
  {
    assert (s + [e])[..|s|] == s;
  }

  lemma {:induction false} MemberAtOffset(s: seq<Change>, k: nat)
    requires k < |s|
    ensures AtOffset(s, s[k].rangeOffset) != []
  {
    if k > 0 {
      MemberAtOffset(s[1..], k - 1);
    }
  }

  lemma {:induction false} NoneAtOffset(s: seq<Change>, offset: nat)
    requires AtOffset(s, offset) != []
    ensures exists k :: 0 <= k < |s| && s[k].rangeOffset == offset
  {
    if s[0].rangeOffset != offset {
      NoneAtOffset(s[1..], offset);
      var k :| 0 <= k < |s| - 1 && s[1..][k].rangeOffset == offset;
      assert s[k + 1].rangeOffset == offset;
    }
  }

  lemma NothingAtOffsets(s: seq<Change>)
    requires forall o: nat :: AtOffset(s, o) == []
    ensures s == []
  {
    if s != [] {
      MemberAtOffset(s, 0);
    }
  }

  ghost predicate SameAtOffsets(s: seq<Change>, t: seq<Change>) { forall o: nat :: AtOffset(s, o) == AtOffset(t, o) }

  lemma SameFirst(s: seq<Change>, t: seq<Change>)
    requires Descending(s) && Descending(t) && SameAtOffsets(s, t) && s != []
    ensures t != [] && s[0] == t[0]
  {
    MemberAtOffset(s, 0);
    NoneAtOffset(t, s[0].rangeOffset);
    MemberAtOffset(t, 0);
    NoneAtOffset(s, t[0].rangeOffset);
    assert s[0].rangeOffset == t[0].rangeOffset;
    assert AtOffset(s, s[0].rangeOffset)[0] == s[0] && AtOffset(t, t[0].rangeOffset)[0] == t[0];
  }

  lemma {:induction false} DescendingUnique(s: seq<Change>, t: seq<Change>)
    requires Descending(s) && Descending(t) && SameAtOffsets(s, t)
    ensures s == t
  {
    if s == [] {
      assert forall o: nat :: AtOffset(s, o) == [];
      NothingAtOffsets(t);
    } else {
      SameFirst(s, t);
      forall o: nat
        ensures AtOffset(s[1..], o) == AtOffset(t[1..], o)
      {
        var first := if s[0].rangeOffset == o then [s[0]] else [];
        assert AtOffset(s, o) == first + AtOffset(s[1..], o) && AtOffset(t, o) == first + AtOffset(t[1..], o);
        assert AtOffset(s, o)[|first|..] == AtOffset(s[1..], o) && AtOffset(t, o)[|first|..] == AtOffset(t[1..], o);
      }
      DescendingUnique(s[1..], t[1..]);
    }
  }

  lemma ReverseDescends(asc: seq<Change>)
    requires Separate(asc)
    ensures Descending(Reverse(asc))
  {
  }

  // The handler takes the changes in their text order, backwards, if and only if the event lists
  // those at each one offset backwards.
  lemma TextOrderIff(asc: seq<Change>, event: seq<Change>)
    requires Separate(asc)
    ensures TextOrder(event) == asc <==> SameAtOffsets(event, Reverse(asc))
  {
    hide SortDescending, AtOffset, Reverse, Descending, Separate;
    var desc := SortDescending(event);
    SortDescendingSorts(event);
    ReverseTwice(asc);
    ReverseTwice(desc);
    ReverseDescends(asc);
    forall o: nat
      ensures AtOffset(desc, o) == AtOffset(event, o)
    {
      SortIsStable(event, o);
    }
    if SameAtOffsets(event, Reverse(asc)) {
      assert SameAtOffsets(desc, Reverse(asc));
      DescendingUnique(desc, Reverse(asc));
    }
    if TextOrder(event) == asc {
      assert Reverse(asc) == desc;
    }
  }

  // Listed the other way round, two changes at one offset do not mean what they meant: an insertion
  // that comes first is overwritten by the replacement behind it.
  lemma ListedForwards(text: JsString, inserted: CodeUnit, typed: CodeUnit)
    requires text != [] && inserted != typed
    ensures var first, second := Change(0, 0, [inserted]), Change(0, 1, [typed]);
            && SortDescending([first, second]) == [first, second]
            && After(After(text, first), second) == [typed] + text
            && Applicable(text, 0, [first, second])
            && Simultaneous(text, 0, [first, second]) == [inserted, typed] + text[1..]
  {
    hide Simultaneous, After, Separate, Within;
    var first, second := Change(0, 0, [inserted]), Change(0, 1, [typed]);
    KeptInOrder(first, second);
    Overwritten(text, first, second);
    BothMeant(text, first, second);
  }

  lemma KeptInOrder(first: Change, second: Change)
    requires first.rangeOffset == second.rangeOffset
    ensures SortDescending([first, second]) == [first, second]
  {
    assert [first, second][1..] == [second] && [second][1..] == [];
    assert SortDescending([]) == [];
    assert SortDescending([second]) == InsertByOffset(second, []) == [second];
    assert InsertByOffset(first, [second]) == [first] + [second];
  }

  lemma Overwritten(text: JsString, first: Change, second: Change)
    requires first.rangeOffset == first.rangeLength == second.rangeOffset == 0
               && |first.text| == 1 == second.rangeLength
    ensures After(text, first) == first.text + text
    ensures After(After(text, first), second) == second.text + text
  {
    assert After(text, first) == text[..0] + first.text + text[0..];
    assert (first.text + text)[1..] == text;
  }

  lemma BothMeant(text: JsString, first: Change, second: Change)
    requires first.rangeOffset == first.rangeLength == second.rangeOffset == 0 && second.rangeLength == 1 && text != []
    ensures Applicable(text, 0, [first, second])
    ensures Simultaneous(text, 0, [first, second]) == first.text + second.text + text[1..]
  {
    assert [first] + [second] == [first, second] && [second] + [] == [second];
    SimultaneousHead(text, 0, first, [second]);
    SimultaneousHead(text, 0, second, []);
    assert text[0..0] == [];
  }

  // ----- The handler -----

  // Both ends of a change fall between characters.
  ghost predicate Aligned(v: seq<CrdtChar>, e: Change) {
    OnBoundary(v, e.rangeOffset) && OnBoundary(v, End(e))
  }

  // Up to code unit limit the visible characters are still those of v.
  ghost predicate FrontKept(v: seq<CrdtChar>, now: seq<CrdtChar>, limit: nat) {
    exists m: nat :: Boundary(v, limit, m) && m <= |now| && now[..m] == v[..m]
  }

  lemma BoundaryKept(v: seq<CrdtChar>, now: seq<CrdtChar>, limit: nat, offset: nat)
    requires NonEmptyValues(v) && FrontKept(v, now, limit) && offset <= limit
    requires OnBoundary(v, offset)
    ensures exists i: nat :: Boundary(v, offset, i) && Boundary(now, offset, i) && now[..i] == v[..i]
  {
    var m: nat :| Boundary(v, limit, m) && m <= |now| && now[..m] == v[..m];
    var i: nat :| Boundary(v, offset, i);
    if m < i {
      OffsetMonotone(v, m, i);
    }
    assert i <= m;
    assert now[..m][..i] == now[..i] && v[..m][..i] == v[..i];
    assert Boundary(now, offset, i);
  }

  lemma BoundariesOrdered(v: seq<CrdtChar>, a: nat, i: nat, b: nat, j: nat)
    requires NonEmptyValues(v) && Boundary(v, a, i) && Boundary(v, b, j) && a <= b
    ensures i <= j
  {
    if j < i {
      OffsetMonotone(v, j, i);
    }
  }

  // No character is lost and no tombstone taken back.
  ghost predicate Grows(s: seq<CrdtChar>, clock: nat, t: seq<CrdtChar>, clock': nat) {
    Inserts(s) <= Inserts(t) && Deleted(s) <= Deleted(t) && clock <= clock'
  }

  lemma GrowsOn(s: seq<CrdtChar>, a: nat, t: seq<CrdtChar>, b: nat, u: seq<CrdtChar>, c: nat)
    requires Grows(s, a, t, b) && Grows(t, b, u, c)
    ensures Grows(s, a, u, c)
  {
  }

  method ApplyAligned(doc: CrdtDocument, e: Change, ghost v: seq<CrdtChar>, ghost limit: nat)
    requires Editable(doc.chars, doc.clock) && NonEmptyValues(Visible(doc.chars)) && NonEmptyValues(v)
    requires FrontKept(v, Visible(doc.chars), limit) && Aligned(v, e) && End(e) <= limit
    modifies doc
    ensures Editable(doc.chars, doc.clock) && NonEmptyValues(Visible(doc.chars))
    ensures FrontKept(v, Visible(doc.chars), e.rangeOffset)
    ensures End(e) <= |old(VisibleText(doc.chars))|
    ensures VisibleText(doc.chars) == After(old(VisibleText(doc.chars)), e)
    ensures Grows(old(doc.chars), old(doc.clock), doc.chars, doc.clock)
  {
    hide Editable, Visible, NonEmptyValues, TextOffset, Spliced, VisibleText, CodePoints, ReplaceRange;
    ghost var s := doc.chars;
    BoundaryKept(v, Visible(s), limit, e.rangeOffset);
    BoundaryKept(v, Visible(s), limit, End(e));
    ghost var i: nat :| Boundary(v, e.rangeOffset, i) && Boundary(Visible(s), e.rangeOffset, i)
      && Visible(s)[..i] == v[..i];
    ghost var j: nat :| Boundary(v, End(e), j) && Boundary(Visible(s), End(e), j) && Visible(s)[..j] == v[..j];
    BoundariesOrdered(Visible(s), e.rangeOffset, i, End(e), j);
    ghost var i', j' := ApplyLocalChange(doc, e.rangeOffset, e.rangeLength, e.text);
    BoundaryIsGap(Visible(s), e.rangeOffset, i, i', j);
    BoundaryIsGap(Visible(s), End(e), j, i, j');
    SplicedText(s, i, j, e.text, doc.chars);
    EditKeepsFront(s, i, j, CodePoints(e.text), doc.chars);
    EditKeepsValues(s, i, j, e.text, doc.chars);
  }

  // The first n changes are still to come, and mean on the present text what they meant.
  ghost predicate Remaining(text: JsString, asc: seq<Change>, now: JsString, n: nat, limit: nat) {
    && n <= |asc|
    && Applicable(text, 0, asc) && Applicable(now, 0, asc[..n]) && Within(asc[..n], 0, limit)
    && Simultaneous(now, 0, asc[..n]) == Simultaneous(text, 0, asc)
  }

  lemma RemainingAtFirst(text: JsString, asc: seq<Change>)
    requires Applicable(text, 0, asc)
    ensures Remaining(text, asc, text, |asc|, |text|)
  {
    assert asc[..|asc|] == asc;
  }

  lemma RemainingStep(text: JsString, asc: seq<Change>, now: JsString, n: nat, limit: nat)
    requires n > 0 && Remaining(text, asc, now, n, limit)
    ensures var e := asc[n - 1];
            End(e) <= |now| && End(e) <= limit && Remaining(text, asc, After(now, e), n - 1, e.rangeOffset)
  {
    hide Separate, Simultaneous;
    var e := asc[n - 1];
    assert asc[..n] == asc[..n - 1] + [e];
    assert e in asc[..n];
    LastFirst(now, 0, asc[..n - 1], e);
    FrontWithin(now, 0, asc[..n - 1], e);
  }

  lemma RemainingAtLast(text: JsString, asc: seq<Change>, now: JsString, limit: nat)
    requires Remaining(text, asc, now, 0, limit)
    ensures Applicable(text, 0, asc) && now == Simultaneous(text, 0, asc)
  {
    assert asc[..0] == [] && now[0..] == now;
  }

  // One iteration of the handler's loop.
  method TakeNext(doc: CrdtDocument, e: Change, ghost v: seq<CrdtChar>, ghost limit: nat, ghost text: JsString,
                  ghost asc: seq<Change>, ghost n: nat, ghost start: seq<CrdtChar>, ghost clock: nat)
    requires Editable(doc.chars, doc.clock) && NonEmptyValues(Visible(doc.chars)) && NonEmptyValues(v)
    requires FrontKept(v, Visible(doc.chars), limit) && Aligned(v, e)
    requires 0 < n <= |asc| && asc[n - 1] == e && Remaining(text, asc, VisibleText(doc.chars), n, limit)
    requires Grows(start, clock, doc.chars, doc.clock)
    modifies doc
    ensures Editable(doc.chars, doc.clock) && NonEmptyValues(Visible(doc.chars))
    ensures FrontKept(v, Visible(doc.chars), e.rangeOffset)
    ensures Remaining(text, asc, VisibleText(doc.chars), n - 1, e.rangeOffset)
    ensures Grows(start, clock, doc.chars, doc.clock)
  {
    hide Editable, Visible, NonEmptyValues, VisibleText, Aligned, FrontKept, Remaining, After, Grows;
    RemainingStep(text, asc, VisibleText(doc.chars), n, limit);
    ghost var before, clockBefore := doc.chars, doc.clock;
    ApplyAligned(doc, e, v, limit);
    GrowsOn(start, clock, before, clockBefore, doc.chars, doc.clock);
  }

  // The whole batch equals replacing all ranges of the original text at once.
  method ApplyChanges(doc: CrdtDocument, event: seq<Change>)
    requires Editable(doc.chars, doc.clock) && NonEmptyValues(Visible(doc.chars))
    requires Separate(TextOrder(event))
    requires forall e | e in event :: Aligned(Visible(doc.chars), e)
    modifies doc
    ensures Editable(doc.chars, doc.clock) && NonEmptyValues(Visible(doc.chars))
    ensures Applicable(old(VisibleText(doc.chars)), 0, TextOrder(event))
    ensures VisibleText(doc.chars) == Simultaneous(old(VisibleText(doc.chars)), 0, TextOrder(event))
    ensures Grows(old(doc.chars), old(doc.clock), doc.chars, doc.clock)
  {
    hide Editable, Visible, NonEmptyValues, VisibleText, Aligned, FrontKept, Remaining, Separate, Within, Simultaneous;
    hide After, SortDescending, Reverse, TextOrder, Grows, Applicable;
    ghost var v, text, start, clock := Visible(doc.chars), VisibleText(doc.chars), doc.chars, doc.clock;
    StillThere(start, clock);
    var changes := SortDescending(event);
    ghost var asc := TextOrder(event);
    OrderedMembers(event);
    AllWithin(doc.chars, asc);
    RemainingAtFirst(text, asc);
    WholeTextKept(doc.chars);
    ghost var limit: nat := |text|;
    for k := 0 to |changes|
      invariant Editable(doc.chars, doc.clock) && NonEmptyValues(Visible(doc.chars))
      invariant FrontKept(v, Visible(doc.chars), limit)
      invariant Grows(start, clock, doc.chars, doc.clock)
      invariant Remaining(text, asc, VisibleText(doc.chars), |asc| - k, limit)
    {
      var e := changes[k];
      assert e == asc[|asc| - k - 1] && e in asc;
      TakeNext(doc, e, v, limit, text, asc, |asc| - k, start, clock);
      limit := e.rangeOffset;
    }
    RemainingAtLast(text, asc, VisibleText(doc.chars), limit);
  }

  lemma OrderedMembers(event: seq<Change>)
    ensures forall e | e in TextOrder(event) :: e in event
    ensures |TextOrder(event)| == |SortDescending(event)|
    ensures forall k | 0 <= k < |TextOrder(event)| ::
              SortDescending(event)[k] == TextOrder(event)[|TextOrder(event)| - k - 1]
  {
    SortDescendingSorts(event);
    forall e | e in TextOrder(event)
      ensures e in event
    {
      assert e in multiset(SortDescending(event));
    }
  }

  lemma StillThere(s: seq<CrdtChar>, clock: nat)
    ensures Grows(s, clock, s, clock)
  {
  }

  lemma WholeTextKept(s: seq<CrdtChar>)
    ensures FrontKept(Visible(s), Visible(s), |VisibleText(s)|)
  {
    var v := Visible(s);
    TextOfParts(s, v);
    assert v[..|v|] == v;
    assert Boundary(v, |VisibleText(s)|, |v|);
  }

  lemma AllWithin(s: seq<CrdtChar>, asc: seq<Change>)
    requires forall e | e in asc :: Aligned(Visible(s), e)
    ensures Within(asc, 0, |VisibleText(s)|)
  {
    TextOfParts(s, Visible(s));
    forall e | e in asc
      ensures End(e) <= |VisibleText(s)|
    {
      assert Aligned(Visible(s), e);
      var j: nat :| Boundary(Visible(s), End(e), j);
      TextSplit(Visible(s), j);
    }
  }
}
