// client/src/crdt/CrdtId.ts: Lamport identifiers, their order and their map keys.
module CrdtIds {
  import opened Wrappers
  import opened Text

  datatype CrdtId = CrdtId(siteId: JsString, counter: nat)

  function CompareCrdtIds(a: CrdtId, b: CrdtId): int {
    if a.counter != b.counter then a.counter - b.counter
    else if StringLess(a.siteId, b.siteId) then -1
    else if StringLess(b.siteId, a.siteId) then 1
    else 0
  }

  predicate IdLess(a: CrdtId, b: CrdtId) { CompareCrdtIds(a, b) < 0 }

  lemma IdTrichotomy(a: CrdtId, b: CrdtId)
    ensures CompareCrdtIds(a, b) == 0 <==> a == b
    ensures CompareCrdtIds(a, b) > 0 <==> IdLess(b, a)
    ensures a == b || IdLess(a, b) || IdLess(b, a)
    ensures !(IdLess(a, b) && IdLess(b, a))
    ensures !IdLess(a, a)
  {
    StringLessTrichotomy(a.siteId, b.siteId);
    StringLessTrichotomy(a.siteId, a.siteId);
  }

  // Counters decide; on equal counters the ordinal order of the site ids does.
  lemma ComparisonMeans(a: CrdtId, b: CrdtId)
    ensures a.counter < b.counter ==> CompareCrdtIds(a, b) < 0 && CompareCrdtIds(b, a) > 0
    ensures a.counter == b.counter ==>
              (CompareCrdtIds(a, b) < 0 <==> a.siteId < b.siteId || exists i :: SmallerAt(a.siteId, b.siteId, i))
    ensures a.counter == b.counter ==>
              (CompareCrdtIds(b, a) > 0 <==> a.siteId < b.siteId || exists i :: SmallerAt(a.siteId, b.siteId, i))
  {
    StringLessIff(a.siteId, b.siteId);
    IdTrichotomy(a, b);
    IdTrichotomy(b, a);
  }

  lemma IdTransitive(a: CrdtId, b: CrdtId, c: CrdtId)
    requires IdLess(a, b) && IdLess(b, c)
    ensures IdLess(a, c)
  {
    IdTrichotomy(a, c);
    if a.counter == b.counter == c.counter {
      StringLessTransitive(a.siteId, b.siteId, c.siteId);
    }
  }

  lemma NotLessTransitive(a: CrdtId, b: CrdtId, c: CrdtId)
    requires !IdLess(a, b) && !IdLess(b, c)
    ensures !IdLess(a, c)
  {
    IdTrichotomy(a, b);
    IdTrichotomy(b, c);
    IdTrichotomy(a, c);
    if IdLess(b, a) && IdLess(c, b) {
      IdTransitive(c, b, a);
    }
  }

  // The key under which the buffers and the operation maps store an id.
  function CrdtIdToString(id: Option<CrdtId>): JsString {
    match id
    case None => [82, 79, 79, 84]
    case Some(i) => i.siteId + [COLON] + Decimal(i.counter)
  }

  // The key spelled out: "ROOT", or the site id, a colon and the counter.
  lemma KeyMeans(id: Option<CrdtId>)
    ensures id.None? ==> |CrdtIdToString(id)| == 4 && forall i | 0 <= i < 4 :: CrdtIdToString(id)[i] == "ROOT"[i] as int
    ensures id.Some? ==>
              exists d :: CrdtIdToString(id) == id.value.siteId + [58] + d && DigitsValue(d) == id.value.counter
  {
    if id.Some? {
      DecimalMeans(id.value.counter);
      assert CrdtIdToString(id) == id.value.siteId + [58] + Decimal(id.value.counter);
    }
  }

  // Distinct ids have distinct keys, even when a site id contains colons and digits, so the maps
  // keyed by these strings may be modelled as maps keyed by the ids themselves.
  lemma CrdtIdToStringInjective(a: Option<CrdtId>, b: Option<CrdtId>)
    requires CrdtIdToString(a) == CrdtIdToString(b)
    ensures a == b
  {
    if a.Some? && b.Some? {
      SplitAtLastColon(a.value.siteId, Decimal(a.value.counter), b.value.siteId, Decimal(b.value.counter));
      DecimalInjective(a.value.counter, b.value.counter);
    } else if a.Some? {
      ColonIn(a.value);
    } else if b.Some? {
      ColonIn(b.value);
    }
  }

  lemma ColonIn(id: CrdtId)
    ensures COLON in CrdtIdToString(Some(id))
  {
    assert CrdtIdToString(Some(id))[|id.siteId|] == COLON;
  }

  lemma SplitAtLastColon(s: JsString, d: JsString, t: JsString, e: JsString)
    requires COLON !in d && COLON !in e
    ensures s + [COLON] + d == t + [COLON] + e ==> s == t && d == e
  {
    var left, right := s + [COLON] + d, t + [COLON] + e;
    assert left[|s|] == COLON && right[|t|] == COLON;
    assert |s| < |t| < |left| ==> left[|t|] == d[|t| - |s| - 1];
    assert |t| < |s| < |right| ==> right[|s|] == e[|s| - |t| - 1];
    assert s == left[..|s|] && d == left[|s| + 1..];
    assert t == right[..|t|] && e == right[|t| + 1..];
  }
}
