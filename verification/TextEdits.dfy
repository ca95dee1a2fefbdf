// Editor changes as character operations: client/src/bindings/MonacoCrdtBinding.ts maps a change of
// a text range, and client/src/providers/SignalRCrdtProvider.ts replaces a whole file.
module TextEdits {
  import opened Wrappers
  import opened Text
  import opened CrdtIds
  import opened Rga
  import opened DocumentContents
  import opened Replicas
  import opened CrdtDocuments
  import opened PendingBuffers

  // The characters the user sees.
  function Visible(s: seq<CrdtChar>): seq<CrdtChar> {
    if s == [] then []
    else if s[0].isDeleted then Visible(s[1..])
    else [s[0]] + Visible(s[1..])
  }

  function Values(s: seq<CrdtChar>): (v: seq<JsString>)
    ensures |v| == |s| && forall i | 0 <= i < |s| :: v[i] == s[i].value
  {
    seq(|s|, i requires 0 <= i < |s| => s[i].value)
  }

  lemma {:induction false} ValuesOfVisible(s: seq<CrdtChar>)
    ensures VisibleValues(s) == Values(Visible(s))
  {
    if s != [] {
      ValuesOfVisible(s[1..]);
    }
  }

  lemma {:induction false} VisibleConcat(s: seq<CrdtChar>, t: seq<CrdtChar>)
    ensures Visible(s + t) == Visible(s) + Visible(t)
  {
    if s == [] {
      assert s + t == t;
    } else {
      assert (s + t)[1..] == s[1..] + t;
      VisibleConcat(s[1..], t);
    }
  }

  // The n-th visible character, and what is visible on both sides of it.
  lemma {:induction false} AroundVisible(s: seq<CrdtChar>, n: nat)
    returns (a: seq<CrdtChar>, c: CrdtChar, b: seq<CrdtChar>)
    requires n < |Visible(s)|
    ensures s == a + [c] + b && c == Visible(s)[n] && !c.isDeleted
    ensures Visible(a) == Visible(s)[..n] && Visible(b) == Visible(s)[n + 1..]
  {
    if s[0].isDeleted {
      a, c, b := AroundVisible(s[1..], n);
      a := [s[0]] + a;
      assert a[1..] + [c] + b == s[1..];
    } else if n == 0 {
      a, c, b := [], s[0], s[1..];
    } else {
      a, c, b := AroundVisible(s[1..], n - 1);
      assert Visible(s) == [s[0]] + Visible(s[1..]);
      a := [s[0]] + a;
      assert a[1..] + [c] + b == s[1..];
    }
  }

  lemma IndexBetween(a: seq<CrdtChar>, c: CrdtChar, b: seq<CrdtChar>)
    requires DistinctIds(a + [c] + b)
    ensures IndexOf(a + [c] + b, c.id) == |a|
  {
    assert (a + [c] + b)[|a|] == c;
    IndexOfAt(a + [c] + b, |a|);
  }

  // A character that carries a counter above the whole document lands right behind its origin,
  // whatever tombstones follow it.
  lemma LandsBehindOrigin(s: seq<CrdtChar>, clock: nat, c: CrdtChar)
    requires WellFormed(s) && ClockCovers(s, clock) && c.id.counter == clock + 1
    requires OriginPresent(s, c.originId)
    ensures !Has(s, c.id)
    ensures ScanPos(s, c) == OriginPos(s, c.originId) + 1
  {
    var p := OriginPos(s, c.originId) + 1;
    assert IsScanPos(s, c, ScanPos(s, c));
    if p < |s| {
      assert ParentPos(s, p) < p && OriginPresent(s, s[p].originId);
      SameOriginPos(s, s[p].originId, c.originId);
      assert Stops(s, c, p);
    }
  }

  // ----- A document in two parts: the left one stays, the right one is edited -----

  function Origin(left: seq<CrdtChar>): Option<CrdtId> {
    if left == [] then None else Some(left[|left| - 1].id)
  }

  ghost predicate Editable(s: seq<CrdtChar>, clock: nat) { WellFormed(s) && ClockCovers(s, clock) }

  lemma TombstonedBetween(a: seq<CrdtChar>, c: CrdtChar, b: seq<CrdtChar>)
    requires DistinctIds(a + [c] + b)
    ensures Tombstoned(a + [c] + b, c.id) == a + [c.(isDeleted := true)] + b
  {
    IndexBetween(a, c, b);
  }

  lemma TombstonedEditable(s: seq<CrdtChar>, clock: nat, id: CrdtId)
    requires Editable(s, clock)
    ensures Editable(Tombstoned(s, id), clock)
  {
    TombstonedContents(s, id);
    SameShapeWellFormed(s, Tombstoned(s, id));
  }

  lemma VisibleAround(a: seq<CrdtChar>, mark: CrdtChar, b: seq<CrdtChar>)
    requires mark.isDeleted
    ensures Visible(a + [mark] + b) == Visible(a) + Visible(b)
  {
    VisibleConcat(a + [mark], b);
    VisibleConcat(a, [mark]);
    assert Visible([mark]) == [];
  }

  // Removing the first visible character of the right part.
  lemma EraseNext(left: seq<CrdtChar>, right: seq<CrdtChar>) returns (right': seq<CrdtChar>)
    requires DistinctIds(left + right) && Visible(right) != []
    ensures Tombstoned(left + right, Visible(right)[0].id) == left + right'
    ensures Visible(right') == Visible(right)[1..]
  {
    hide Visible, Tombstoned;
    var a, c, b := AroundVisible(right, 0);
    var mark := c.(isDeleted := true);
    assert left + right == (left + a) + [c] + b;
    TombstonedBetween(left + a, c, b);
    right' := a + [mark] + b;
    assert left + right' == (left + a) + [mark] + b;
    VisibleAround(a, mark, b);
  }

  // Typing one character between the parts.
  lemma TypeNext(left: seq<CrdtChar>, right: seq<CrdtChar>, clock: nat, c: CrdtChar)
    requires Editable(left + right, clock)
    requires c.id.counter == clock + 1 && c.originId == Origin(left)
    ensures Editable(Inserted(left + right, c), clock + 1)
    ensures Inserted(left + right, c) == left + [c] + right
  {
    var s := left + right;
    if left != [] {
      assert s[|left| - 1] == left[|left| - 1];
      IndexOfAt(s, |left| - 1);
    }
    LandsBehindOrigin(s, clock, c);
    InsertedWellFormed(s, c);
    CounterOfInserted(s, c, clock);
    assert s[..|left|] == left && s[|left|..] == right;
  }

  // The two parts of a document, cut right behind its n-th visible character.
  lemma CutBehind(s: seq<CrdtChar>, n: nat) returns (left: seq<CrdtChar>, right: seq<CrdtChar>)
    requires n <= |Visible(s)|
    ensures s == left + right
    ensures Visible(left) == Visible(s)[..n] && Visible(right) == Visible(s)[n..]
    ensures Origin(left) == if n == 0 then None else Some(Visible(s)[n - 1].id)
  {
    if n == 0 {
      left, right := [], s;
    } else {
      var a, c, b := AroundVisible(s, n - 1);
      left, right := a + [c], b;
      VisibleConcat(a, [c]);
      assert Visible([c]) == [c];
    }
  }

  // ----- What an edit leaves of the document itself -----

  // The characters that typing these values issues: fresh ids in order, each behind the one before.
  function Issued(siteId: JsString, clock: nat, origin: Option<CrdtId>, values: seq<JsString>): (run: seq<CrdtChar>)
    ensures |run| == |values|
  {
    seq(|values|, n requires 0 <= n < |values| =>
      CrdtChar(CrdtId(siteId, clock + 1 + n), values[n], if n == 0 then origin else Some(CrdtId(siteId, clock + n)),
               false))
  }

  lemma IssuedMeans(siteId: JsString, clock: nat, origin: Option<CrdtId>, values: seq<JsString>, n: nat)
    requires n < |values|
    ensures var run := Issued(siteId, clock, origin, values);
            && run[n].id == CrdtId(siteId, clock + 1 + n) && run[n].value == values[n] && !run[n].isDeleted
            && run[n].originId == if n == 0 then origin else Some(run[n - 1].id)
  {
  }

  ghost function SetOf(s: seq<CrdtChar>): set<CrdtChar> { set c | c in s }

  ghost function IdsOf(s: seq<CrdtChar>): set<CrdtId> { set c | c in s :: c.id }

  lemma OneMore(s: seq<CrdtChar>, n: nat)
    requires n < |s|
    ensures SetOf(s[..n + 1]) == SetOf(s[..n]) + {s[n]} && IdsOf(s[..n + 1]) == IdsOf(s[..n]) + {s[n].id}
  {
    assert s[..n + 1] == s[..n] + [s[n]];
  }

  lemma OneMoreBetween(s: seq<CrdtChar>, i: nat, k: nat)
    requires i <= k < |s|
    ensures IdsOf(s[i..k + 1]) == IdsOf(s[i..k]) + {s[k].id}
  {
    assert s[i..k + 1] == s[i..k] + [s[k]];
  }

  lemma NothingBetween(s: seq<CrdtChar>, i: nat)
    requires i <= |s|
    ensures IdsOf(s[i..i]) == {}
  {
  }

  lemma AllOf(s: seq<CrdtChar>)
    ensures s[..0] == [] && SetOf(s[..0]) == {} && IdsOf(s[..0]) == {} && s[..|s|] == s
  {
  }

  // Which characters an edit adds and which it deletes, and how far it takes the clock. With the shape
  // that every document keeps, this determines the whole document, tombstones included.
  ghost predicate Edits(siteId: JsString, s: seq<CrdtChar>, clock: nat, i: nat, j: nat, values: seq<JsString>,
                        t: seq<CrdtChar>, clock': nat)
    requires i <= j <= |Visible(s)|
  {
    var v := Visible(s);
    && Inserts(t) == Inserts(s) + SetOf(Issued(siteId, clock, if i == 0 then None else Some(v[i - 1].id), values))
    && Deleted(t) == Deleted(s) + IdsOf(v[i..j])
    && clock' == clock + |values|
  }

  lemma ErasedContents(s: seq<CrdtChar>, id: CrdtId)
    requires Has(s, id)
    ensures Inserts(Tombstoned(s, id)) == Inserts(s) && Deleted(Tombstoned(s, id)) == Deleted(s) + {id}
  {
    TombstonedContents(s, id);
  }

  lemma TypedContents(s: seq<CrdtChar>, c: CrdtChar)
    requires !c.isDeleted
    ensures Inserts(Inserted(s, c)) == Inserts(s) + {c} && Deleted(Inserted(s, c)) == Deleted(s)
  {
    InsertedContents(s, c);
  }

  lemma FirstVisiblePresent(left: seq<CrdtChar>, right: seq<CrdtChar>)
    requires DistinctIds(left + right) && Visible(right) != []
    ensures Has(left + right, Visible(right)[0].id)
  {
    hide Visible;
    var a, c, b := AroundVisible(right, 0);
    assert (left + right)[|left| + |a|] == c;
  }

  // deleteReplacedCharacters: the given characters, which are the first visible ones of the right part.
  method EraseAll(doc: CrdtDocument, characters: seq<CrdtChar>, ghost left: seq<CrdtChar>, ghost right: seq<CrdtChar>)
    returns (ghost right': seq<CrdtChar>)
    requires Editable(doc.chars, doc.clock)
    requires doc.chars == left + right && characters <= Visible(right)
    modifies doc`chars
    ensures Editable(doc.chars, doc.clock)
    ensures doc.chars == left + right' && Visible(right') == Visible(right)[|characters|..]
    ensures Inserts(doc.chars) == old(Inserts(doc.chars))
    ensures Deleted(doc.chars) == old(Deleted(doc.chars)) + IdsOf(characters)
  {
    hide Editable, Tombstoned, Visible, Inserts, Deleted, SetOf, IdsOf, DistinctIds, IndexOf;
    right' := right;
    AllOf(characters);
    for n := 0 to |characters|
      invariant Editable(doc.chars, doc.clock)
      invariant Inserts(doc.chars) == old(Inserts(doc.chars))
      invariant Deleted(doc.chars) == old(Deleted(doc.chars)) + IdsOf(characters[..n])
      invariant doc.chars == left + right' && Visible(right') == Visible(right)[n..]
    {
      EditableDistinct(doc.chars, doc.clock);
      TombstonedEditable(doc.chars, doc.clock, characters[n].id);
      FirstVisiblePresent(left, right');
      ErasedContents(doc.chars, characters[n].id);
      OneMore(characters, n);
      right' := EraseNext(left, right');
      var op := doc.LocalDelete(characters[n].id);
    }
  }

  lemma EditableDistinct(s: seq<CrdtChar>, clock: nat)
    requires Editable(s, clock)
    ensures DistinctIds(s)
  {
  }

  // insertReplacementCharacters, which is also the insert loop of applyLocalChange.
  method TypeAll(doc: CrdtDocument, characters: seq<JsString>, initialOriginId: Option<CrdtId>,
                 ghost left: seq<CrdtChar>, ghost right: seq<CrdtChar>)
    returns (ghost mid: seq<CrdtChar>)
    requires Editable(doc.chars, doc.clock)
    requires doc.chars == left + right && initialOriginId == Origin(left)
    modifies doc
    ensures Editable(doc.chars, doc.clock)
    ensures doc.chars == left + mid + right
    ensures Visible(mid) == mid && Values(mid) == characters
    ensures mid == Issued(doc.siteId, old(doc.clock), initialOriginId, characters)
    ensures Inserts(doc.chars) == old(Inserts(doc.chars)) + SetOf(mid) && Deleted(doc.chars) == old(Deleted(doc.chars))
    ensures doc.clock == old(doc.clock) + |characters|
  {
    hide Editable, Inserted, Inserts, Deleted, SetOf, Issued, Origin;
    var originId := initialOriginId;
    ghost var run := Issued(doc.siteId, doc.clock, initialOriginId, characters);
    AllOf(run);
    assert left + run[..0] == left;
    for n := 0 to |characters|
      invariant Editable(doc.chars, doc.clock) && doc.chars == left + run[..n] + right
      invariant doc.clock == old(doc.clock) + n
      invariant originId == Origin(left + run[..n])
      invariant originId == if n == 0 then initialOriginId else Some(run[n - 1].id)
      invariant Inserts(doc.chars) == old(Inserts(doc.chars)) + SetOf(run[..n])
      invariant Deleted(doc.chars) == old(Deleted(doc.chars))
    {
      IssuedMeans(doc.siteId, old(doc.clock), initialOriginId, characters, n);
      ghost var before, clock := doc.chars, doc.clock;
      var op := doc.LocalInsert(originId, characters[n]);
      assert op.character == run[n];
      TypedContents(before, run[n]);
      OneMore(run, n);
      TypeNext(left + run[..n], right, clock, run[n]);
      OriginOfRun(left, run, n);
      originId := Some(op.character.id);
    }
    IssuedIsVisible(doc.siteId, old(doc.clock), initialOriginId, characters);
    return run;
  }

  lemma OriginOfRun(left: seq<CrdtChar>, run: seq<CrdtChar>, n: nat)
    requires n < |run|
    ensures left + run[..n] + [run[n]] == left + run[..n + 1]
    ensures Origin(left + run[..n + 1]) == Some(run[n].id)
  {
  }

  lemma IssuedIsVisible(siteId: JsString, clock: nat, origin: Option<CrdtId>, values: seq<JsString>)
    ensures var run := Issued(siteId, clock, origin, values);
            Visible(run) == run && Values(run) == values
  {
    var run := Issued(siteId, clock, origin, values);
    AllVisible(run);
    assert forall n | 0 <= n < |run| :: Values(run)[n] == values[n];
  }

  lemma {:induction false} AllVisible(s: seq<CrdtChar>)
    requires forall i | 0 <= i < |s| :: !s[i].isDeleted
    ensures Visible(s) == s
  {
    if s != [] {
      AllVisible(s[1..]);
    }
  }

  // What an edit of the visible characters i..j leaves: the same characters around the new ones.
  ghost predicate Spliced(s: seq<CrdtChar>, i: nat, j: nat, values: seq<JsString>, t: seq<CrdtChar>)
    requires i <= j <= |Visible(s)|
  {
    exists mid :: Values(mid) == values && Visible(t) == Visible(s)[..i] + mid + Visible(s)[j..]
  }

  // The edit common to both callers: characters i..j of the visible text give way to values, typed
  // behind the visible character in front of them.
  method SpliceVisible(doc: CrdtDocument, i: nat, j: nat, values: seq<JsString>)
    requires Editable(doc.chars, doc.clock) && i <= j <= |Visible(doc.chars)|
    modifies doc
    ensures Editable(doc.chars, doc.clock)
    ensures Spliced(old(doc.chars), i, j, values, doc.chars)
    ensures Edits(doc.siteId, old(doc.chars), old(doc.clock), i, j, values, doc.chars, doc.clock)
  {
    hide Editable, Visible, Inserts, Deleted, SetOf, IdsOf, Issued, Values;
    ghost var s := doc.chars;
    var current := Visible(doc.chars);
    ghost var left, right := CutBehind(s, i);
    ghost var right' := EraseAll(doc, current[i..j], left, right);
    ghost var mid := TypeAll(doc, values, if i == 0 then None else Some(current[i - 1].id), left, right');
    VisibleConcat(left + mid, right');
    VisibleConcat(left, mid);
  }

  // ----- replaceFileContent -----

  method CommonPrefixLength(current: seq<CrdtChar>, next: seq<JsString>) returns (length: nat)
    ensures length <= |current| && length <= |next|
    ensures Values(current)[..length] == next[..length]
    ensures length == |current| || length == |next| || current[length].value != next[length]
  {
    length := 0;
    while length < |current| && length < |next| && current[length].value == next[length]
      invariant length <= |current| && length <= |next|
      invariant Values(current)[..length] == next[..length]
    {
      assert Values(current)[..length + 1] == Values(current)[..length] + [current[length].value];
      length := length + 1;
    }
  }

  method CommonSuffixLength(current: seq<CrdtChar>, next: seq<JsString>, prefixLength: nat) returns (length: nat)
    requires prefixLength <= |current| && prefixLength <= |next|
    ensures length <= |current| - prefixLength && length <= |next| - prefixLength
    ensures Values(current)[|current| - length..] == next[|next| - length..]
    ensures length == |current| - prefixLength || length == |next| - prefixLength
            || current[|current| - length - 1].value != next[|next| - length - 1]
  {
    length := 0;
    while length < |current| - prefixLength && length < |next| - prefixLength
          && current[|current| - length - 1].value == next[|next| - length - 1]
      invariant length <= |current| - prefixLength && length <= |next| - prefixLength
      invariant Values(current)[|current| - length..] == next[|next| - length..]
    {
      var a, b := |current| - length - 1, |next| - length - 1;
      assert Values(current)[a..] == [current[a].value] + Values(current)[a + 1..];
      assert next[b..] == [next[b]] + next[b + 1..];
      length := length + 1;
    }
  }

  lemma ValuesConcat(a: seq<CrdtChar>, b: seq<CrdtChar>)
    ensures Values(a + b) == Values(a) + Values(b)
  {
  }

  lemma EndsOf(front: seq<CrdtChar>, mid: seq<CrdtChar>, back: seq<CrdtChar>)
    ensures var r := front + mid + back; r[..|front|] == front && r[|r| - |back|..] == back
  {
  }

  lemma ReplacedIsNext(front: seq<CrdtChar>, mid: seq<CrdtChar>, back: seq<CrdtChar>, next: seq<JsString>, p: nat,
                       q: nat)
    requires p + q <= |next|
    requires Values(front) == next[..p] && Values(mid) == next[p..|next| - q] && Values(back) == next[|next| - q..]
    ensures Values(front + mid + back) == next
  {
    ValuesConcat(front + mid, back);
    ValuesConcat(front, mid);
    assert next[..p] + next[p..|next| - q] == next[..|next| - q];
  }

  // p and q are the lengths of the longest common front, and of the longest common back behind it.
  ghost predicate Maximal(current: seq<CrdtChar>, next: seq<JsString>, p: nat, q: nat) {
    && p + q <= |current| && p + q <= |next|
    && Values(current)[..p] == next[..p]
    && Values(current)[|current| - q..] == next[|next| - q..]
    && (p == |current| || p == |next| || current[p].value != next[p])
    && (p + q == |current| || p + q == |next| || current[|current| - q - 1].value != next[|next| - q - 1])
  }

  // p and q visible characters of the two ends are kept.
  ghost predicate KeepsEnds(current: seq<CrdtChar>, next: seq<JsString>, result: seq<CrdtChar>, p: nat, q: nat) {
    && Maximal(current, next, p, q)
    && |result| == |next|
    && result[..p] == current[..p]
    && result[|next| - q..] == current[|current| - q..]
  }

  lemma SplicedIsNext(s: seq<CrdtChar>, t: seq<CrdtChar>, next: seq<JsString>, p: nat, q: nat)
    requires Maximal(Visible(s), next, p, q)
    requires Spliced(s, p, |Visible(s)| - q, next[p..|next| - q], t)
    ensures Values(Visible(t)) == next && KeepsEnds(Visible(s), next, Visible(t), p, q)
  {
    hide Visible, Values, Maximal;
    var current := Visible(s);
    var front, back := CommonEnds(current, next, p, q);
    var mid :| Values(mid) == next[p..|next| - q] && Visible(t) == front + mid + back;
    ReplacedIsNext(front, mid, back, next, p, q);
    EndsOf(front, mid, back);
    SameLength(Visible(t), next);
  }

  lemma SameLength(s: seq<CrdtChar>, values: seq<JsString>)
    requires Values(s) == values
    ensures |s| == |values|
  {
  }

  lemma CommonEnds(current: seq<CrdtChar>, next: seq<JsString>, p: nat, q: nat)
    returns (front: seq<CrdtChar>, back: seq<CrdtChar>)
    requires Maximal(current, next, p, q)
    ensures p + q <= |current| && p + q <= |next|
    ensures front == current[..p] && back == current[|current| - q..]
    ensures |front| == p && |back| == q
    ensures Values(front) == next[..p] && Values(back) == next[|next| - q..]
  {
    front, back := current[..p], current[|current| - q..];
    assert Values(front) == Values(current)[..p];
    assert Values(back) == Values(current)[|current| - q..];
  }

  lemma TextOfVisible(s: seq<CrdtChar>, text: JsString)
    requires Values(Visible(s)) == CodePoints(text)
    ensures VisibleText(s) == text
  {
    ValuesOfVisible(s);
  }

  method CommonLengths(current: seq<CrdtChar>, next: seq<JsString>) returns (prefix: nat, suffix: nat)
    ensures prefix + suffix <= |current| && prefix + suffix <= |next|
    ensures Maximal(current, next, prefix, suffix)
  {
    prefix := CommonPrefixLength(current, next);
    suffix := CommonSuffixLength(current, next, prefix);
  }

  // Replacing a file's content makes its visible text equal the argument, and keeps the characters
  // of the longest common front, and of the longest common back behind it.
  method ReplaceFileContent(doc: CrdtDocument, content: JsString) returns (prefix: nat, suffix: nat)
    requires Editable(doc.chars, doc.clock)
    modifies doc
    ensures Editable(doc.chars, doc.clock)
    ensures VisibleText(doc.chars) == content
    ensures KeepsEnds(old(Visible(doc.chars)), CodePoints(content), Visible(doc.chars), prefix, suffix)
    ensures prefix + suffix <= |old(Visible(doc.chars))| && prefix + suffix <= |CodePoints(content)|
    ensures var next := CodePoints(content);
            Edits(doc.siteId, old(doc.chars), old(doc.clock), prefix, |old(Visible(doc.chars))| - suffix,
                  next[prefix..|next| - suffix], doc.chars, doc.clock)
  {
    hide Editable, Visible, VisibleText, Spliced, Values, KeepsEnds, CodePoints, Maximal, Edits;
    var current := Visible(doc.chars);
    var next := CodePoints(content);
    prefix, suffix := CommonLengths(current, next);
    SpliceVisible(doc, prefix, |current| - suffix, next[prefix..|next| - suffix]);
    SplicedIsNext(old(doc.chars), doc.chars, next, prefix, suffix);
    TextOfVisible(doc.chars, content);
  }

  // ----- applyLocalChange -----

  // The number of code units in front of the n-th character of v.
  function TextOffset(v: seq<CrdtChar>, n: nat): nat
    requires n <= |v|
  {
    |Join(Values(v[..n]))|
  }

  ghost predicate NonEmptyValues(s: seq<CrdtChar>) { forall c | c in s :: c.value != [] }

  // An offset of the visible text that does not fall inside a character.
  ghost predicate Boundary(v: seq<CrdtChar>, offset: nat, n: nat) {
    n <= |v| && TextOffset(v, n) == offset
  }

  ghost predicate OnBoundary(v: seq<CrdtChar>, offset: nat) { exists n: nat :: Boundary(v, offset, n) }

  lemma OffsetStep(v: seq<CrdtChar>, n: nat)
    requires n < |v|
    ensures TextOffset(v, n + 1) == TextOffset(v, n) + |v[n].value|
  {
    assert v[..n + 1] == v[..n] + [v[n]];
    ValuesConcat(v[..n], [v[n]]);
    JoinAppend(Values(v[..n]), Values([v[n]]));
    assert Values([v[n]]) == [v[n].value];
    assert Join([v[n].value]) == v[n].value + Join([]) == v[n].value;
  }

  lemma {:induction false} OffsetMonotone(v: seq<CrdtChar>, m: nat, n: nat)
    requires NonEmptyValues(v) && m <= n <= |v|
    ensures TextOffset(v, n) >= TextOffset(v, m) + (n - m)
    decreases n
  {
    if m < n {
      OffsetMonotone(v, m, n - 1);
      OffsetStep(v, n - 1);
      assert v[n - 1] in v;
    }
  }

  lemma TextSplit(v: seq<CrdtChar>, n: nat)
    requires n <= |v|
    ensures var text := Join(Values(v));
            && TextOffset(v, n) <= |text|
            && text[..TextOffset(v, n)] == Join(Values(v[..n]))
            && text[TextOffset(v, n)..] == Join(Values(v[n..]))
  {
    assert v == v[..n] + v[n..];
    ValuesConcat(v[..n], v[n..]);
    JoinAppend(Values(v[..n]), Values(v[n..]));
  }

  // Replacing a range of a text.
  function ReplaceRange(text: JsString, offset: nat, length: nat, inserted: JsString): JsString
    requires offset + length <= |text|
  {
    text[..offset] + inserted + text[offset + length..]
  }

  lemma JoinedRange(v: seq<CrdtChar>, i: nat, j: nat, mid: seq<CrdtChar>)
    requires i <= j <= |v|
    ensures TextOffset(v, i) <= TextOffset(v, j) <= |Join(Values(v))|
    ensures Join(Values(v[..i] + mid + v[j..])) ==
              ReplaceRange(Join(Values(v)), TextOffset(v, i), TextOffset(v, j) - TextOffset(v, i), Join(Values(mid)))
  {
    hide Values, Join, TextOffset;
    TextSplit(v, i);
    TextSplit(v, j);
    OffsetOrder(v, i, j);
    JoinThree(v[..i], mid, v[j..]);
  }

  lemma SplicedText(s: seq<CrdtChar>, i: nat, j: nat, inserted: JsString, t: seq<CrdtChar>)
    requires i <= j <= |Visible(s)|
    requires Spliced(s, i, j, CodePoints(inserted), t)
    ensures TextOffset(Visible(s), i) <= TextOffset(Visible(s), j) <= |VisibleText(s)|
    ensures VisibleText(t) == ReplaceRange(VisibleText(s), TextOffset(Visible(s), i),
                                           TextOffset(Visible(s), j) - TextOffset(Visible(s), i), inserted)
  {
    hide Visible, Values, CodePoints, VisibleText, Join, TextOffset, ReplaceRange;
    var v := Visible(s);
    var mid :| Values(mid) == CodePoints(inserted) && Visible(t) == v[..i] + mid + v[j..];
    TextOfParts(s, v);
    TextOfParts(t, Visible(t));
    CodePointsJoin(inserted);
    JoinedRange(v, i, j, mid);
  }

  lemma JoinThree(a: seq<CrdtChar>, mid: seq<CrdtChar>, b: seq<CrdtChar>)
    ensures Join(Values(a + mid + b)) == Join(Values(a)) + Join(Values(mid)) + Join(Values(b))
  {
    hide Values, Join;
    ValuesConcat(a + mid, b);
    ValuesConcat(a, mid);
    JoinAppend(Values(a + mid), Values(b));
    JoinAppend(Values(a), Values(mid));
  }

  lemma CodePointsJoin(text: JsString)
    ensures Join(CodePoints(text)) == text
  {
  }

  lemma TextOfParts(s: seq<CrdtChar>, v: seq<CrdtChar>)
    requires v == Visible(s)
    ensures VisibleText(s) == Join(Values(v))
  {
    ValuesOfVisible(s);
  }

  lemma {:induction false} OffsetOrder(v: seq<CrdtChar>, i: nat, j: nat)
    requires i <= j <= |v|
    ensures TextOffset(v, i) <= TextOffset(v, j)
    decreases j
  {
    if i < j {
      OffsetOrder(v, i, j - 1);
      OffsetStep(v, j - 1);
    }
  }

  lemma EditKeepsFront(s: seq<CrdtChar>, i: nat, j: nat, values: seq<JsString>, t: seq<CrdtChar>)
    requires i <= j <= |Visible(s)|
    requires Spliced(s, i, j, values, t)
    ensures i <= |Visible(t)| && Visible(t)[..i] == Visible(s)[..i]
  {
  }

  lemma EditKeepsValues(s: seq<CrdtChar>, i: nat, j: nat, inserted: JsString, t: seq<CrdtChar>)
    requires i <= j <= |Visible(s)| && NonEmptyValues(Visible(s))
    requires Spliced(s, i, j, CodePoints(inserted), t)
    ensures NonEmptyValues(Visible(t))
  {
    hide Visible, Values;
    var v := Visible(s);
    var mid :| Values(mid) == CodePoints(inserted) && Visible(t) == v[..i] + mid + v[j..];
    forall c | c in Visible(t)
      ensures c.value != []
    {
      if c in mid {
        ValueAmong(mid, c);
      }
    }
  }

  lemma ValueAmong(s: seq<CrdtChar>, c: CrdtChar)
    requires c in s
    ensures c.value in Values(s)
  {
    var i :| 0 <= i < |s| && s[i] == c;
    assert Values(s)[i] == c.value;
  }

  // The gap between two visible characters in which an offset falls: the first k characters, and no
  // others, end at or before it.
  ghost predicate IsGap(v: seq<CrdtChar>, offset: nat, k: nat) {
    && k <= |v|
    && (k > 0 ==> TextOffset(v, k) <= offset)
    && (k < |v| ==> offset < TextOffset(v, k + 1))
  }

  // The first k characters, and no others, start before the offset.
  ghost predicate StartBefore(v: seq<CrdtChar>, offset: nat, k: nat) {
    && k <= |v|
    && (k > 0 ==> TextOffset(v, k - 1) < offset)
    && (k < |v| ==> offset <= TextOffset(v, k))
  }

  lemma NoOffset(v: seq<CrdtChar>)
    ensures TextOffset(v, 0) == 0
  {
    assert Values(v[..0]) == [];
  }

  lemma GapExists(v: seq<CrdtChar>, offset: nat) returns (k: nat)
    ensures IsGap(v, offset, k)
  {
    k := |v|;
    while k > 0 && TextOffset(v, k) > offset
      invariant k <= |v| && (k < |v| ==> offset < TextOffset(v, k + 1))
    {
      k := k - 1;
      OffsetStep(v, k);
    }
  }

  lemma StartExists(v: seq<CrdtChar>, offset: nat) returns (k: nat)
    ensures StartBefore(v, offset, k)
  {
    k := |v|;
    while k > 0 && TextOffset(v, k - 1) >= offset
      invariant k <= |v| && (k < |v| ==> offset <= TextOffset(v, k))
    {
      k := k - 1;
    }
  }

  lemma WalkStep(v: seq<CrdtChar>, offset: nat, i: nat, end: nat, j: nat, k: nat)
    requires IsGap(v, offset, i) && StartBefore(v, end, j) && k < |v|
    ensures TextOffset(v, k) + |v[k].value| == TextOffset(v, k + 1)
    ensures TextOffset(v, k + 1) <= offset <==> k < i
    ensures TextOffset(v, k) < end <==> k < j
  {
    OffsetStep(v, k);
    if k < i {
      OffsetOrder(v, k + 1, i);
    } else {
      OffsetOrder(v, i + 1, k + 1);
    }
    if k < j {
      OffsetOrder(v, k, j - 1);
    } else {
      OffsetOrder(v, j, k);
    }
  }

  lemma EndsAfterStarts(v: seq<CrdtChar>, offset: nat, i: nat, end: nat, j: nat)
    requires NonEmptyValues(v) && IsGap(v, offset, i) && StartBefore(v, end, j) && offset <= end
    ensures i <= j
  {
    if j < i {
      OffsetMonotone(v, j, i);
    }
  }

  // One change of a text range: the characters it touches are deleted while the visible characters
  // are walked, the new ones are typed behind the last character that ends in front of it.
  method ApplyLocalChange(doc: CrdtDocument, offset: nat, deleteCount: nat, insertedText: JsString)
    returns (ghost i: nat, ghost j: nat)
    requires Editable(doc.chars, doc.clock) && NonEmptyValues(Visible(doc.chars))
    modifies doc
    ensures Editable(doc.chars, doc.clock)
    ensures IsGap(old(Visible(doc.chars)), offset, i)
              && StartBefore(old(Visible(doc.chars)), offset + deleteCount, j) && i <= j
    ensures Spliced(old(doc.chars), i, j, CodePoints(insertedText), doc.chars)
    ensures Edits(doc.siteId, old(doc.chars), old(doc.clock), i, j, CodePoints(insertedText), doc.chars, doc.clock)
  {
    hide Editable, Tombstoned, CodePoints, TextOffset, NonEmptyValues, Visible, IsGap, StartBefore;
    hide Inserts, Deleted, SetOf, IdsOf, Issued, DistinctIds, IndexOf, Values;
    ghost var s := doc.chars;
    var visibleChars := Visible(doc.chars);
    i := GapExists(visibleChars, offset);
    j := StartExists(visibleChars, offset + deleteCount);
    EndsAfterStarts(visibleChars, offset, i, offset + deleteCount, j);
    GapInside(visibleChars, offset, i, offset + deleteCount, j);
    ghost var left, right := CutBehind(s, i);
    var textOffset := 0;
    var originId: Option<CrdtId> := None;
    NoOffset(visibleChars);
    NothingBetween(visibleChars, i);
    for k := 0 to |visibleChars|
      invariant Editable(doc.chars, doc.clock)
      invariant textOffset == TextOffset(visibleChars, k)
      invariant originId == if k == 0 || i == 0 then None else Some(visibleChars[(if k < i then k else i) - 1].id)
      invariant doc.chars == left + right
      invariant Visible(right) == visibleChars[if k <= i then i else if k < j then k else j..]
      invariant doc.clock == old(doc.clock) && Inserts(doc.chars) == old(Inserts(doc.chars))
      invariant Deleted(doc.chars) ==
                  old(Deleted(doc.chars)) + IdsOf(visibleChars[i..if k <= i then i else if k < j then k else j])
    {
      var shown := visibleChars[k];
      var charEnd := textOffset + |shown.value|;
      WalkStep(visibleChars, offset, i, offset + deleteCount, j, k);
      if charEnd <= offset {
        originId := Some(shown.id);
      }
      if textOffset < offset + deleteCount && charEnd > offset {
        EditableDistinct(doc.chars, doc.clock);
        TombstonedEditable(doc.chars, doc.clock, shown.id);
        FirstVisiblePresent(left, right);
        ErasedContents(doc.chars, shown.id);
        OneMoreBetween(visibleChars, i, k);
        right := EraseNext(left, right);
        var op := doc.LocalDelete(shown.id);
      }
      textOffset := charEnd;
    }
    ghost var mid := TypeAll(doc, CodePoints(insertedText), originId, left, right);
    VisibleConcat(left + mid, right);
    VisibleConcat(left, mid);
  }

  lemma GapInside(v: seq<CrdtChar>, offset: nat, i: nat, end: nat, j: nat)
    requires IsGap(v, offset, i) && StartBefore(v, end, j)
    ensures i <= |v| && j <= |v|
  {
  }

  // On an offset between characters the two agree.
  lemma BoundaryIsGap(v: seq<CrdtChar>, offset: nat, n: nat, i: nat, j: nat)
    requires NonEmptyValues(v) && Boundary(v, offset, n)
    ensures IsGap(v, offset, i) ==> i == n
    ensures StartBefore(v, offset, j) ==> j == n
  {
    if i < n {
      OffsetMonotone(v, i + 1, n);
    } else if n < i <= |v| {
      OffsetMonotone(v, n, i);
    }
    if j < n {
      OffsetMonotone(v, j, n);
    } else if n < j <= |v| {
      OffsetMonotone(v, n, j - 1);
    }
  }

  // The visible text changes as the editor's did if and only if neither end of the replaced range
  // falls inside a character; otherwise more is deleted than the editor deleted.
  lemma ReplacesRangeIffAligned(s: seq<CrdtChar>, offset: nat, deleteCount: nat, inserted: JsString, i: nat, j: nat,
                                t: seq<CrdtChar>)
    requires NonEmptyValues(Visible(s)) && offset + deleteCount <= |VisibleText(s)|
    requires IsGap(Visible(s), offset, i) && StartBefore(Visible(s), offset + deleteCount, j) && i <= j
    requires Spliced(s, i, j, CodePoints(inserted), t)
    ensures VisibleText(t) == ReplaceRange(VisibleText(s), offset, deleteCount, inserted) <==>
              OnBoundary(Visible(s), offset) && OnBoundary(Visible(s), offset + deleteCount)
  {
    hide Visible, Spliced, CodePoints, VisibleText, NonEmptyValues, ReplaceRange, TextOffset;
    var v, text := Visible(s), VisibleText(s);
    SplicedText(s, i, j, inserted, t);
    ReplacedLength(text, offset, deleteCount, inserted);
    ReplacedLength(text, TextOffset(v, i), TextOffset(v, j) - TextOffset(v, i), inserted);
    WidenedRange(s, offset, i, offset + deleteCount, j);
  }

  lemma ReplacedLength(text: JsString, offset: nat, length: nat, inserted: JsString)
    requires offset + length <= |text|
    ensures |ReplaceRange(text, offset, length, inserted)| == |text| - length + |inserted|
  {
  }

  lemma WidenedRange(s: seq<CrdtChar>, offset: nat, i: nat, end: nat, j: nat)
    requires NonEmptyValues(Visible(s)) && offset <= end <= |VisibleText(s)|
    requires IsGap(Visible(s), offset, i) && StartBefore(Visible(s), end, j) && i <= j
    ensures TextOffset(Visible(s), i) <= offset && end <= TextOffset(Visible(s), j)
    ensures TextOffset(Visible(s), i) == offset <==> OnBoundary(Visible(s), offset)
    ensures TextOffset(Visible(s), j) == end <==> OnBoundary(Visible(s), end)
  {
    hide Visible, NonEmptyValues, VisibleText;
    var v := Visible(s);
    TextOfParts(s, v);
    NoOffset(v);
    assert v[..|v|] == v;
    if m: nat :| Boundary(v, offset, m) {
      BoundaryIsGap(v, offset, m, i, j);
    }
    if n: nat :| Boundary(v, end, n) {
      BoundaryIsGap(v, end, n, i, j);
    }
    assert TextOffset(v, i) == offset ==> Boundary(v, offset, i);
    assert TextOffset(v, j) == end ==> Boundary(v, end, j);
  }

  // An edit that fails the condition: in a document of one character of two code units, erasing the
  // second unit erases the character, and the visible text is not what the editor shows.
  lemma HalfACharacter(c: CrdtChar, i: nat, j: nat, t: seq<CrdtChar>)
    requires |c.value| == 2 && !c.isDeleted
    requires IsGap(Visible([c]), 1, i) && StartBefore(Visible([c]), 2, j) && i <= j
    requires Spliced([c], i, j, CodePoints([]), t)
    ensures VisibleText([c]) == c.value && !OnBoundary(Visible([c]), 1) && OnBoundary(Visible([c]), 2)
    ensures VisibleText(t) == [] && ReplaceRange(VisibleText([c]), 1, 1, []) == c.value[..1]
  {
    hide Spliced, VisibleText, CodePoints, Visible, TextOffset;
    OneCharacter(c);
    assert Boundary([c], 2, 1);
    SplicedText([c], i, j, [], t);
    assert c.value[..0] + [] + c.value[2..] == [] && c.value[..1] + [] + c.value[2..] == c.value[..1];
  }

  lemma OneCharacter(c: CrdtChar)
    requires !c.isDeleted
    ensures Visible([c]) == [c] && VisibleText([c]) == c.value
    ensures TextOffset([c], 0) == 0 && TextOffset([c], 1) == |c.value|
  {
    var v := Visible([c]);
    assert [c][1..] == [];
    assert v == [c] + Visible([c][1..]) == [c];
    NoOffset(v);
    OffsetStep(v, 0);
    TextOfParts([c], v);
    assert Values(v) == [c.value] && Join([c.value]) == c.value + Join([]) == c.value;
  }

  method EraseHalfACharacter(siteId: JsString, value: JsString) returns (before: JsString, after: JsString)
    requires |value| == 2
    ensures before == value && after == [] != ReplaceRange(before, 1, 1, [])
  {
    hide VisibleText, Spliced, CodePoints, Visible, ReplaceRange, IsGap, StartBefore;
    var doc := new CrdtDocument(siteId);
    NothingTyped();
    ghost var none: seq<CrdtChar> := doc.chars;
    assert none + none == none;
    var op := doc.LocalInsert(None, value);
    TypeNext(none, none, 0, op.character);
    assert none + [op.character] + none == [op.character];
    before := doc.ToVisibleString();
    OneCharacter(op.character);
    ghost var i, j := ApplyLocalChange(doc, 1, 1, []);
    HalfACharacter(op.character, i, j, doc.chars);
    after := doc.ToVisibleString();
  }

  lemma NothingTyped()
    ensures Editable([], 0)
  {
  }
}
