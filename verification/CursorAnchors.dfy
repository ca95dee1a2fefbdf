// client/src/crdt/CursorAnchor.ts: cursors held between characters instead of at an offset.
module CursorAnchors {
  import opened Wrappers
  import opened Text
  import opened CrdtIds
  import opened Rga
  import opened CanonicalOrder
  import opened DocumentContents
  import opened CrdtDocuments
  import opened TextEdits

  datatype CursorAnchor = CursorAnchor(afterId: Option<CrdtId>, beforeId: Option<CrdtId>)

  datatype CursorPosition = CursorPosition(offset: nat, lineNumber: nat, column: nat)

  // ----- Lines and columns -----

  // One-based, as the editor counts.
  function LineAt(text: JsString, n: nat): nat
    requires n <= |text|
  {
    if n == 0 then 1 else LineAt(text, n - 1) + if text[n - 1] == NEWLINE then 1 else 0
  }

  function ColumnAt(text: JsString, n: nat): nat
    requires n <= |text|
  {
    if n == 0 || text[n - 1] == NEWLINE then 1 else ColumnAt(text, n - 1) + 1
  }

  function PositionAt(text: JsString, n: nat): CursorPosition
    requires n <= |text|
  {
    CursorPosition(n, LineAt(text, n), ColumnAt(text, n))
  }

  function Breaks(text: JsString): nat {
    if text == [] then 0 else (if text[0] == 10 then 1 else 0) + Breaks(text[1..])
  }

  lemma {:induction false} BreaksAppend(a: JsString, u: CodeUnit)
    ensures Breaks(a + [u]) == Breaks(a) + if u == 10 then 1 else 0
  {
    if a == [] {
      assert [u][1..] == [];
    } else {
      assert (a + [u])[1..] == a[1..] + [u];
      BreaksAppend(a[1..], u);
    }
  }

  // The line is one more than the line feeds in front; the column is one more than the units since
  // the last of them, or since the start of the text.
  lemma {:induction false} PositionMeans(text: JsString, n: nat, line: JsString)
    requires n <= |text| && 10 !in line && |line| <= n && text[n - |line|..n] == line
    requires |line| < n ==> text[n - |line| - 1] == 10
    ensures PositionAt(text, n) == CursorPosition(n, 1 + Breaks(text[..n]), 1 + |line|)
    decreases n
  {
    if n > 0 {
      assert text[..n] == text[..n - 1] + [text[n - 1]];
      BreaksAppend(text[..n - 1], text[n - 1]);
      if line == [] {
        LastLine(text, n - 1);
      } else {
        var front := line[..|line| - 1];
        assert text[n - 1] == line[|line| - 1] && text[n - 1] in line;
        assert text[n - 1 - |front|..n - 1] == front;
        PositionMeans(text, n - 1, front);
      }
    }
  }

  lemma {:induction false} LastLine(text: JsString, n: nat)
    requires n <= |text|
    ensures LineAt(text, n) == 1 + Breaks(text[..n])
  {
    if n > 0 {
      assert text[..n] == text[..n - 1] + [text[n - 1]];
      BreaksAppend(text[..n - 1], text[n - 1]);
      LastLine(text, n - 1);
    }
  }

  // Reading order on positions is the order of their offsets, so a position names one offset.
  lemma {:induction false} PositionsOrdered(text: JsString, m: nat, n: nat)
    requires m < n <= |text|
    ensures LineAt(text, m) < LineAt(text, n)
            || (LineAt(text, m) == LineAt(text, n) && ColumnAt(text, m) < ColumnAt(text, n))
    decreases n
  {
    if m < n - 1 {
      PositionsOrdered(text, m, n - 1);
    }
  }

  // ----- Anchors -----

  function AnchorAt(v: seq<CrdtChar>, k: nat): CursorAnchor
    requires k <= |v|
  {
    CursorAnchor(if k == 0 then None else Some(v[k - 1].id), if k == |v| then None else Some(v[k].id))
  }

  // The anchor between two stretches of visible characters names the last of the first and the first
  // of the second.
  lemma AnchorBetween(a: seq<CrdtChar>, b: seq<CrdtChar>)
    ensures var anchor := AnchorAt(a + b, |a|);
            && (a == [] ==> anchor.afterId == None) && (a != [] ==> anchor.afterId == Some(a[|a| - 1].id))
            && (b == [] ==> anchor.beforeId == None) && (b != [] ==> anchor.beforeId == Some(b[0].id))
  {
  }

  // The anchor of an offset: the characters on both sides of the gap it falls in.
  ghost predicate IsAnchorOf(v: seq<CrdtChar>, offset: nat, anchor: CursorAnchor) {
    exists k: nat :: IsGap(v, offset, k) && anchor == AnchorAt(v, k)
  }

  method CreateCursorAnchor(doc: CrdtDocument, offset: nat) returns (anchor: CursorAnchor)
    ensures IsAnchorOf(Visible(doc.chars), offset, anchor)
  {
    hide TextOffset;
    var visibleChars := Visible(doc.chars);
    var afterId: Option<CrdtId> := None;
    var textOffset := 0;
    NoOffset(visibleChars);
    for i := 0 to |visibleChars|
      invariant textOffset == TextOffset(visibleChars, i)
      invariant i > 0 ==> textOffset <= offset
      invariant afterId == if i == 0 then None else Some(visibleChars[i - 1].id)
    {
      var nextOffset := textOffset + |visibleChars[i].value|;
      OffsetStep(visibleChars, i);
      if offset < nextOffset {
        assert IsGap(visibleChars, offset, i);
        return CursorAnchor(afterId, Some(visibleChars[i].id));
      }
      afterId := Some(visibleChars[i].id);
      textOffset := nextOffset;
    }
    assert IsGap(visibleChars, offset, |visibleChars|);
    return CursorAnchor(afterId, None);
  }

  // The offset at which a line and column stand, or the end of the text if they stand nowhere.
  ghost predicate IsPositionOffset(text: JsString, lineNumber: nat, column: nat, offset: nat) {
    && offset <= |text|
    && (offset < |text| ==> LineAt(text, offset) == lineNumber && ColumnAt(text, offset) == column)
    && (offset == |text| ==> forall i | 0 <= i < |text| :: LineAt(text, i) != lineNumber || ColumnAt(text, i) != column)
  }

  method CreateCursorAnchorFromPosition(doc: CrdtDocument, lineNumber: nat, column: nat) returns (anchor: CursorAnchor)
    ensures exists offset: nat :: IsPositionOffset(VisibleText(doc.chars), lineNumber, column, offset)
                                  && IsAnchorOf(Visible(doc.chars), offset, anchor)
  {
    hide Visible, IsAnchorOf, VisibleText;
    var text := doc.ToVisibleString();
    var currentLine, currentCol := 1, 1;
    for i := 0 to |text|
      invariant currentLine == LineAt(text, i) && currentCol == ColumnAt(text, i)
      invariant forall h | 0 <= h < i :: LineAt(text, h) != lineNumber || ColumnAt(text, h) != column
    {
      if currentLine == lineNumber && currentCol == column {
        anchor := CreateCursorAnchor(doc, i);
        assert IsPositionOffset(text, lineNumber, column, i);
        return anchor;
      }
      if text[i] == NEWLINE {
        currentLine, currentCol := currentLine + 1, 1;
      } else {
        currentCol := currentCol + 1;
      }
    }
    anchor := CreateCursorAnchor(doc, |text|);
    assert IsPositionOffset(text, lineNumber, column, |text|);
  }

  // ----- Resolution -----

  // The visible code units in front of position index of the whole sequence.
  function OffsetBefore(s: seq<CrdtChar>, index: nat): nat
    requires index <= |s|
  {
    |VisibleText(s[..index])|
  }

  function ResolvedOffset(s: seq<CrdtChar>, anchor: CursorAnchor): (offset: nat) {
    if anchor.beforeId.Some? && Has(s, anchor.beforeId.value) then OffsetBefore(s, IndexOf(s, anchor.beforeId.value))
    else if anchor.afterId.Some? && Has(s, anchor.afterId.value) then
      OffsetBefore(s, IndexOf(s, anchor.afterId.value) + 1)
    else 0
  }

  lemma OffsetBeforeSplit(s: seq<CrdtChar>, index: nat)
    requires index <= |s|
    ensures VisibleText(s) == VisibleText(s[..index]) + VisibleText(s[index..])
    ensures OffsetBefore(s, index) <= |VisibleText(s)|
  {
    assert s == s[..index] + s[index..];
    VisibleAppend(s[..index], s[index..]);
    JoinAppend(VisibleValues(s[..index]), VisibleValues(s[index..]));
  }

  lemma OffsetBeforeStep(s: seq<CrdtChar>, index: nat)
    requires index < |s|
    ensures OffsetBefore(s, index + 1) == OffsetBefore(s, index) + if s[index].isDeleted then 0 else |s[index].value|
  {
    assert s[..index + 1] == s[..index] + [s[index]];
    VisibleAppend(s[..index], [s[index]]);
    JoinAppend(VisibleValues(s[..index]), VisibleValues([s[index]]));
    assert Join([s[index].value]) == s[index].value + Join([]) == s[index].value;
  }

  lemma {:induction false} OffsetBeforeMonotone(s: seq<CrdtChar>, i: nat, j: nat)
    requires i <= j <= |s|
    ensures OffsetBefore(s, i) <= OffsetBefore(s, j)
    decreases j
  {
    if i < j {
      OffsetBeforeMonotone(s, i, j - 1);
      OffsetBeforeStep(s, j - 1);
    }
  }

  method FindAnchorIndex(doc: CrdtDocument, id: Option<CrdtId>) returns (index: int)
    ensures index == if id.Some? then IndexOf(doc.chars, id.value) else -1
  {
    if id.None? {
      return -1;
    }
    index := doc.FindCharIndex(id.value);
  }

  method VisibleOffsetBefore(doc: CrdtDocument, index: nat) returns (offset: nat)
    requires index <= |doc.chars|
    ensures offset == OffsetBefore(doc.chars, index)
  {
    offset := 0;
    for i := 0 to index
      invariant offset == OffsetBefore(doc.chars, i)
    {
      OffsetBeforeStep(doc.chars, i);
      if !doc.chars[i].isDeleted {
        offset := offset + |doc.chars[i].value|;
      }
    }
  }

  method ResolveVisibleOffset(doc: CrdtDocument, visibleOffset: nat) returns (position: CursorPosition)
    ensures var text := VisibleText(doc.chars);
            position == PositionAt(text, if visibleOffset <= |text| then visibleOffset else |text|)
  {
    var text := doc.ToVisibleString();
    var clampedOffset := if visibleOffset <= |text| then visibleOffset else |text|;
    var lineNumber, column := 1, 1;
    for i := 0 to clampedOffset
      invariant lineNumber == LineAt(text, i) && column == ColumnAt(text, i)
    {
      if text[i] == NEWLINE {
        lineNumber, column := lineNumber + 1, 1;
      } else {
        column := column + 1;
      }
    }
    return CursorPosition(clampedOffset, lineNumber, column);
  }

  lemma ResolvedInText(s: seq<CrdtChar>, anchor: CursorAnchor)
    ensures ResolvedOffset(s, anchor) <= |VisibleText(s)|
  {
    if anchor.beforeId.Some? && Has(s, anchor.beforeId.value) {
      OffsetBeforeSplit(s, IndexOf(s, anchor.beforeId.value));
    } else if anchor.afterId.Some? && Has(s, anchor.afterId.value) {
      OffsetBeforeSplit(s, IndexOf(s, anchor.afterId.value) + 1);
    }
  }

  method ResolveCursorAnchor(doc: CrdtDocument, anchor: Option<CursorAnchor>) returns (position: CursorPosition)
    ensures var offset := if anchor.Some? then ResolvedOffset(doc.chars, anchor.value) else 0;
            offset <= |VisibleText(doc.chars)| && position == PositionAt(VisibleText(doc.chars), offset)
  {
    hide VisibleText, IndexOf;
    if anchor.None? {
      return CursorPosition(0, 1, 1);
    }
    ResolvedInText(doc.chars, anchor.value);
    var beforeIndex := FindAnchorIndex(doc, anchor.value.beforeId);
    if beforeIndex != -1 {
      var offset := VisibleOffsetBefore(doc, beforeIndex);
      position := ResolveVisibleOffset(doc, offset);
      return;
    }
    var afterIndex := FindAnchorIndex(doc, anchor.value.afterId);
    if afterIndex == -1 {
      return CursorPosition(0, 1, 1);
    }
    var offset := VisibleOffsetBefore(doc, afterIndex + 1);
    position := ResolveVisibleOffset(doc, offset);
  }

  // An anchor resolves right in front of its right neighbour if that is present; else right behind its
  // left neighbour if that is present; else at the start. It does not matter whether they are deleted.
  lemma ResolvedBetween(a: seq<CrdtChar>, c: CrdtChar, b: seq<CrdtChar>, anchor: CursorAnchor)
    requires DistinctIds(a + [c] + b)
    ensures anchor.beforeId == Some(c.id) ==> ResolvedOffset(a + [c] + b, anchor) == |VisibleText(a)|
    ensures anchor.afterId == Some(c.id) && !IsPresent(a + [c] + b, anchor.beforeId) ==>
              ResolvedOffset(a + [c] + b, anchor) == |VisibleText(a + [c])|
    ensures !IsPresent(a + [c] + b, anchor.beforeId) && !IsPresent(a + [c] + b, anchor.afterId) ==>
              ResolvedOffset(a + [c] + b, anchor) == 0
  {
    hide VisibleText;
    var s := a + [c] + b;
    assert s[|a|] == c && s[..|a|] == a && s[..|a| + 1] == a + [c];
    IndexOfAt(s, |a|);
  }

  // The id is named and stands in the document, deleted or not.
  ghost predicate IsPresent(s: seq<CrdtChar>, id: Option<CrdtId>) {
    id.Some? && exists i :: 0 <= i < |s| && s[i].id == id.value
  }

  // ----- Create, then resolve -----

  // A visible character's place in the whole sequence, and the text in front of it.
  lemma PlaceOfVisible(s: seq<CrdtChar>, k: nat) returns (q: nat)
    requires DistinctIds(s) && k < |Visible(s)|
    ensures q < |s| && IndexOf(s, Visible(s)[k].id) == q && s[q] == Visible(s)[k] && !s[q].isDeleted
    ensures OffsetBefore(s, q) == TextOffset(Visible(s), k)
    ensures OffsetBefore(s, q + 1) == TextOffset(Visible(s), k + 1)
  {
    var a, c, b := AroundVisible(s, k);
    q := |a|;
    IndexBetween(a, c, b);
    assert s[..q] == a;
    TextOfParts(a, Visible(s)[..k]);
    OffsetBeforeStep(s, q);
    OffsetStep(Visible(s), k);
  }

  // An anchor resolves to the start of the gap it was created in.
  lemma ResolvesToGap(s: seq<CrdtChar>, k: nat)
    requires DistinctIds(s) && k <= |Visible(s)|
    ensures ResolvedOffset(s, AnchorAt(Visible(s), k)) == TextOffset(Visible(s), k)
  {
    hide Visible, TextOffset, OffsetBefore;
    if k < |Visible(s)| {
      var q := PlaceOfVisible(s, k);
    } else if k > 0 {
      var q := PlaceOfVisible(s, k - 1);
    } else {
      NoOffset(Visible(s));
    }
  }

  // Create then resolve is the identity exactly on the offsets between characters; inside a
  // character it goes back to its start, and behind the text to its end.
  lemma CreateThenResolve(s: seq<CrdtChar>, offset: nat, k: nat)
    requires DistinctIds(s) && NonEmptyValues(Visible(s)) && IsGap(Visible(s), offset, k)
    ensures ResolvedOffset(s, AnchorAt(Visible(s), k)) <= offset
    ensures ResolvedOffset(s, AnchorAt(Visible(s), k)) == offset <==> OnBoundary(Visible(s), offset)
  {
    ResolvesToGap(s, k);
    NoOffset(Visible(s));
    if n: nat :| Boundary(Visible(s), offset, n) {
      BoundaryIsGap(Visible(s), offset, n, k, 0);
    }
    if TextOffset(Visible(s), k) == offset {
      assert Boundary(Visible(s), offset, k);
    }
  }

  // An anchor made from the line and column of an offset is the anchor made from the offset.
  lemma PositionAgreesWithOffset(text: JsString, offset: nat, found: nat)
    requires offset <= |text| && IsPositionOffset(text, LineAt(text, offset), ColumnAt(text, offset), found)
    ensures found == offset
  {
    if found < offset {
      PositionsOrdered(text, found, offset);
    } else if offset < found {
      PositionsOrdered(text, offset, found);
    }
  }

  lemma GapUnique(v: seq<CrdtChar>, o1: nat, k1: nat, o2: nat, k2: nat)
    requires o1 <= o2 && IsGap(v, o1, k1) && IsGap(v, o2, k2)
    ensures k1 <= k2
  {
    if k2 < k1 {
      OffsetOrder(v, k2 + 1, k1);
    }
  }

  // ----- Anchors under later edits -----

  // Two states of one document, at any replicas and times: one id means one insert in both.
  ghost predicate Related(s: seq<CrdtChar>, t: seq<CrdtChar>) {
    WellFormed(s) && WellFormed(t) && OneMeaning(Inserts(s) + Inserts(t))
  }

  // t holds at least the inserts of s: a later state of the same document.
  ghost predicate Later(s: seq<CrdtChar>, t: seq<CrdtChar>) {
    WellFormed(s) && WellFormed(t) && OneMeaning(Inserts(t)) && Inserts(s) <= Inserts(t)
  }

  lemma LaterIsRelated(s: seq<CrdtChar>, t: seq<CrdtChar>)
    requires Later(s, t)
    ensures Related(s, t)
    ensures forall i | 0 <= i < |s| :: Has(t, s[i].id)
  {
    assert Inserts(s) + Inserts(t) == Inserts(t);
    forall i | 0 <= i < |s|
      ensures Has(t, s[i].id)
    {
      InInserts(s, Plain(s[i]));
      HasMeansInsert(t, s[i].id);
    }
  }

  // Characters never change places: two characters that both documents hold stand in one order.
  lemma OrderKept(s: seq<CrdtChar>, t: seq<CrdtChar>, i: nat, j: nat)
    requires Related(s, t)
    requires i < j < |s| && Has(t, s[i].id) && Has(t, s[j].id)
    ensures 0 <= IndexOf(t, s[i].id) < IndexOf(t, s[j].id)
  {
    hide Related;
    var a := PlaceOfInsert(s, t, i);
    var b := PlaceOfInsert(s, t, j);
    RelatedFacts(s, t);
    WellFormedSorted(s, i, j);
    PathBeforeAsymmetric(PathTo(s, i), PathTo(s, j));
    if b < a {
      WellFormedSorted(t, b, a);
    }
    assert a != b;
  }

  lemma RelatedFacts(s: seq<CrdtChar>, t: seq<CrdtChar>)
    requires Related(s, t)
    ensures WellFormed(s) && WellFormed(t) && DistinctIds(s) && DistinctIds(t)
  {
  }

  lemma PlaceOfInsert(s: seq<CrdtChar>, t: seq<CrdtChar>, i: nat) returns (a: nat)
    requires Related(s, t)
    requires i < |s| && Has(t, s[i].id)
    ensures WellFormed(s) && WellFormed(t)
    ensures a < |t| && IndexOf(t, s[i].id) == a && PathTo(t, a) == PathTo(s, i)
  {
    hide WellFormed;
    var known := Inserts(s) + Inserts(t);
    a := IndexOf(t, s[i].id);
    PlainsIn(s, known);
    PlainsIn(t, known);
    assert Plain(s[i]) == Plain(t[a]);
    PathToIsRootPath(known, s, i);
    PathToIsRootPath(known, t, a);
    RootPathUnique(known, PathTo(s, i), PathTo(t, a), Plain(s[i]));
  }

  lemma PlainsIn(s: seq<CrdtChar>, known: set<CrdtChar>)
    requires Inserts(s) <= known
    ensures forall k | 0 <= k < |s| :: Plain(s[k]) in known
  {
    forall k | 0 <= k < |s|
      ensures Plain(s[k]) in known
    {
      InInserts(s, Plain(s[k]));
    }
  }

  // Where a gap of s lies in t: in front of its right neighbour or, if t lacks that, right behind its
  // left one or, if t lacks that too, at the start.
  function GapPlace(s: seq<CrdtChar>, k: nat, t: seq<CrdtChar>): int
    requires k <= |Visible(s)|
  {
    if k < |Visible(s)| && Has(t, Visible(s)[k].id) then IndexOf(t, Visible(s)[k].id)
    else if k > 0 && Has(t, Visible(s)[k - 1].id) then IndexOf(t, Visible(s)[k - 1].id) + 1
    else 0
  }

  // t holds one of the two neighbours.
  ghost predicate Anchored(s: seq<CrdtChar>, k: nat, t: seq<CrdtChar>)
    requires k <= |Visible(s)|
  {
    (k < |Visible(s)| && Has(t, Visible(s)[k].id)) || (k > 0 && Has(t, Visible(s)[k - 1].id))
  }

  lemma GapPlacesOrdered(s: seq<CrdtChar>, t: seq<CrdtChar>, k1: nat, k2: nat)
    requires Related(s, t) && k1 <= k2 <= |Visible(s)| && Anchored(s, k2, t)
    ensures 0 <= GapPlace(s, k1, t) <= GapPlace(s, k2, t) <= |t|
  {
    hide Related, Visible, IndexOf;
    var v := Visible(s);
    if k1 < k2 && Anchored(s, k1, t) {
      var n1 := if Has(t, v[k1].id) then k1 else k1 - 1;
      var n2 := if k2 < |v| && Has(t, v[k2].id) then k2 else k2 - 1;
      assert n1 <= n2 && Has(t, v[n1].id) && Has(t, v[n2].id);
      VisibleOrder(s, t, n1, n2);
      assert n1 < n2 || (n1 == k1 && n2 == k2 - 1);
    }
  }

  lemma ResolvesToPlace(s: seq<CrdtChar>, t: seq<CrdtChar>, k: nat)
    requires k <= |Visible(s)|
    ensures 0 <= GapPlace(s, k, t) <= |t|
    ensures ResolvedOffset(t, AnchorAt(Visible(s), k)) == OffsetBefore(t, GapPlace(s, k, t))
  {
    hide Visible, IndexOf, VisibleText;
    NothingBefore(t);
  }

  lemma NothingBefore(t: seq<CrdtChar>)
    ensures OffsetBefore(t, 0) == 0
  {
    assert VisibleValues(t[..0]) == [];
  }

  lemma VisibleOrder(s: seq<CrdtChar>, t: seq<CrdtChar>, k1: nat, k2: nat)
    requires Related(s, t)
    requires k1 <= k2 < |Visible(s)| && Has(t, Visible(s)[k1].id) && Has(t, Visible(s)[k2].id)
    ensures IndexOf(t, Visible(s)[k1].id) <= IndexOf(t, Visible(s)[k2].id)
    ensures k1 < k2 ==> IndexOf(t, Visible(s)[k1].id) < IndexOf(t, Visible(s)[k2].id)
  {
    hide Related, Visible, IndexOf;
    RelatedFacts(s, t);
    if k1 < k2 {
      var q1 := PlaceOfVisible(s, k1);
      var q2 := PlaceOfVisible(s, k2);
      VisiblePlacesOrdered(s, k1, k2);
      OrderKept(s, t, q1, q2);
    }
  }

  lemma VisiblePlacesOrdered(s: seq<CrdtChar>, k1: nat, k2: nat)
    requires DistinctIds(s) && k1 < k2 < |Visible(s)|
    ensures IndexOf(s, Visible(s)[k1].id) < IndexOf(s, Visible(s)[k2].id)
  {
    hide Visible;
    var a, c, b := AroundVisible(s, k2);
    var d, e, f := AroundVisible(a, k1);
    assert s[|d|] == e && s[|a|] == c;
    IndexOfAt(s, |d|);
    IndexOfAt(s, |a|);
  }

  // Two cursors keep their order: anchors taken at o1 <= o2 resolve in that order, by offset and so by
  // line and column, in every related document that holds a neighbour of the second, be it only the
  // left one. In a document that holds neither, the second resolves at the start.
  lemma AnchorsOrdered(s: seq<CrdtChar>, t: seq<CrdtChar>, o1: nat, k1: nat, o2: nat, k2: nat)
    requires Related(s, t)
    requires o1 <= o2 && IsGap(Visible(s), o1, k1) && IsGap(Visible(s), o2, k2)
    ensures Anchored(s, k2, t) ==>
              ResolvedOffset(t, AnchorAt(Visible(s), k1)) <= ResolvedOffset(t, AnchorAt(Visible(s), k2))
    ensures !Anchored(s, k2, t) ==> ResolvedOffset(t, AnchorAt(Visible(s), k2)) == 0
  {
    hide Related, Visible, OffsetBefore, ResolvedOffset, GapPlace;
    GapUnique(Visible(s), o1, k1, o2, k2);
    ResolvesToPlace(s, t, k1);
    ResolvesToPlace(s, t, k2);
    if Anchored(s, k2, t) {
      GapPlacesOrdered(s, t, k1, k2);
      OffsetBeforeMonotone(t, GapPlace(s, k1, t), GapPlace(s, k2, t));
    } else {
      UnanchoredPlace(s, k2, t);
      NothingBefore(t);
    }
  }

  lemma UnanchoredPlace(s: seq<CrdtChar>, k: nat, t: seq<CrdtChar>)
    requires k <= |Visible(s)| && !Anchored(s, k, t)
    ensures GapPlace(s, k, t) == 0
  {
  }

  // In a later state of the document both neighbours are there.
  lemma AnchorsStayOrdered(s: seq<CrdtChar>, t: seq<CrdtChar>, o1: nat, k1: nat, o2: nat, k2: nat)
    requires Later(s, t)
    requires o1 <= o2 && IsGap(Visible(s), o1, k1) && IsGap(Visible(s), o2, k2)
    ensures ResolvedOffset(t, AnchorAt(Visible(s), k1)) <= ResolvedOffset(t, AnchorAt(Visible(s), k2))
  {
    hide Later, Related, Visible, ResolvedOffset;
    LaterIsRelated(s, t);
    RelatedFacts(s, t);
    AnchorsOrdered(s, t, o1, k1, o2, k2);
    GapUnique(Visible(s), o1, k1, o2, k2);
    if k2 > 0 {
      var q := PlaceOfVisible(s, k2 - 1);
      assert Anchored(s, k2, t);
    }
  }
}
