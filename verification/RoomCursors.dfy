// What a remote cursor may rely on while a room goes on editing (client/src/crdt/CursorAnchor.ts).
module RoomCursors {
  import opened Text
  import opened Rga
  import opened CanonicalOrder
  import opened DocumentContents
  import opened Replicas
  import opened CrdtDocuments
  import opened PendingBuffers
  import opened Rooms
  import opened TextEdits
  import opened CursorAnchors

  lemma StillAttached(known: set<CrdtChar>, more: set<CrdtChar>, c: CrdtChar)
    requires known <= more && Attached(known, c)
    ensures Attached(more, c)
  {
    var p :| RootPathOf(known, p, c);
    assert RootPathOf(more, p, c);
  }

  // A replica that knows more shows a later document.
  lemma KnowingMoreIsLater(a: Replica, b: Replica)
    requires Good(a) && Good(b) && Known(a) <= Known(b)
    ensures Later(a.chars, b.chars)
  {
    hide Attached, WellFormed, Inserts;
    HoldsWhatIsAttached(a);
    HoldsWhatIsAttached(b);
    OneMeaningSubset(Inserts(b.chars), Known(b));
    forall c | c in Inserts(a.chars)
      ensures c in Inserts(b.chars)
    {
      StillAttached(Known(a), Known(b), c);
    }
  }

  lemma SeenGrows(r: Room, step: Step, r': Room)
    requires RoomOk(r) && Next(r, step, r')
    ensures r.seen.Keys == r'.seen.Keys
    ensures forall site | site in r.seen :: r.seen[site].inserts <= r'.seen[site].inserts
  {
    hide Absorbs, ReplicaOk, LogOk, SnapshotOk, Inserted, Tombstoned, OriginPresent, Inserts, Deleted;
  }

  ghost predicate SeesMore(r: Room, r': Room) {
    r.seen.Keys <= r'.seen.Keys && forall site | site in r.seen :: r.seen[site].inserts <= r'.seen[site].inserts
  }

  lemma {:induction false} RunSeesMore(run: seq<Room>, i: nat)
    requires IsRun(run) && i < |run|
    ensures SeesMore(run[i], run[|run| - 1])
    decreases |run|
  {
    hide Next, RoomOk, Initial;
    var n := |run| - 1;
    if i < n {
      var front := run[..n];
      RunSeesMore(front, i);
      RunOk(front);
      assert CanFollow(run[n - 1], run[n]);
      var step :| Next(run[n - 1], step, run[n]);
      SeenGrows(run[n - 1], step, run[n]);
    }
  }

  lemma ReplicaOfRun(r: Room, site: JsString)
    requires RoomOk(r) && site in r.replicas
    ensures site in r.seen && Good(r.replicas[site]) && Known(r.replicas[site]) == r.seen[site].inserts
  {
    hide Good, Known, LogOk, SnapshotOk;
    assert ReplicaOk(r.sentInserts, r.replicas[site], r.seen[site]);
  }

  // However a run goes on, a replica's document only gains characters and tombstones.
  lemma DocumentsOnlyGrow(run: seq<Room>, i: nat, site: JsString)
    requires IsRun(run) && i < |run|
    requires site in run[i].replicas && site in run[|run| - 1].replicas
    ensures Later(run[i].replicas[site].chars, run[|run| - 1].replicas[site].chars)
  {
    hide RoomOk, Good, Known, Later, CanFollow, Initial;
    RunSeesMore(run, i);
    RunOk(run[..i + 1]);
    RunOk(run);
    ReplicaOfRun(run[i], site);
    ReplicaOfRun(run[|run| - 1], site);
    KnowingMoreIsLater(run[i].replicas[site], run[|run| - 1].replicas[site]);
  }

  lemma SentGrows(r: Room, step: Step, r': Room)
    requires Next(r, step, r')
    ensures r.sentInserts <= r'.sentInserts
  {
    hide Absorbs, Inserted, Tombstoned, OriginPresent, Inserts, Deleted, OneReplicaMoves;
  }

  lemma {:induction false} RunSends(run: seq<Room>, i: nat)
    requires IsRun(run) && i < |run|
    ensures run[i].sentInserts <= run[|run| - 1].sentInserts
    decreases |run|
  {
    hide Next, Initial;
    var n := |run| - 1;
    if i < n {
      RunSends(run[..n], i);
      assert CanFollow(run[n - 1], run[n]);
      var step :| Next(run[n - 1], step, run[n]);
      SentGrows(run[n - 1], step, run[n]);
    }
  }

  lemma ShownWasSent(run: seq<Room>, i: nat, a: JsString)
    requires IsRun(run) && i < |run| && a in run[i].replicas
    ensures WellFormed(run[i].replicas[a].chars)
    ensures Inserts(run[i].replicas[a].chars) <= run[|run| - 1].sentInserts
  {
    hide WellFormed, LogOk, SnapshotOk, CanFollow, Initial, Settled, ClockCovers;
    RunSends(run, i);
    RunOk(run[..i + 1]);
    assert ReplicaOk(run[i].sentInserts, run[i].replicas[a], run[i].seen[a]);
  }

  // Whatever two replicas show at any two points of a run is related.
  lemma DocumentsRelated(run: seq<Room>, i: nat, a: JsString, j: nat, b: JsString)
    requires IsRun(run) && i < |run| && j < |run| && a in run[i].replicas && b in run[j].replicas
    ensures Related(run[i].replicas[a].chars, run[j].replicas[b].chars)
  {
    hide IsRun, WellFormed, ReplicaOk, SnapshotOk;
    ShownWasSent(run, i, a);
    ShownWasSent(run, j, b);
    RunOk(run);
    OneMeaningSubset(Inserts(run[i].replicas[a].chars) + Inserts(run[j].replicas[b].chars), run[|run| - 1].sentInserts);
  }

  // Anchors taken at o1 <= o2 at one site resolve in that order at every replica, before or after and
  // however much of the room it has seen, that holds a neighbour of the second.
  lemma AnchorsOrderedInRooms(run: seq<Room>, i: nat, a: JsString, j: nat, b: JsString,
                              o1: nat, k1: nat, o2: nat, k2: nat)
    requires IsRun(run) && i < |run| && j < |run| && a in run[i].replicas && b in run[j].replicas
    requires o1 <= o2 && IsGap(Visible(run[i].replicas[a].chars), o1, k1)
               && IsGap(Visible(run[i].replicas[a].chars), o2, k2)
    requires Anchored(run[i].replicas[a].chars, k2, run[j].replicas[b].chars)
    ensures var v, t := Visible(run[i].replicas[a].chars), run[j].replicas[b].chars;
            ResolvedOffset(t, AnchorAt(v, k1)) <= ResolvedOffset(t, AnchorAt(v, k2))
  {
    hide IsRun, Related, Visible, ResolvedOffset, Anchored;
    DocumentsRelated(run, i, a, j, b);
    AnchorsOrdered(run[i].replicas[a].chars, run[j].replicas[b].chars, o1, k1, o2, k2);
  }

  // A replica that has seen, at whatever point of the run, the inserts their site had seen holds all
  // neighbours - the site itself, later, included.
  lemma AnchorsStayOrderedInRooms(run: seq<Room>, i: nat, a: JsString, j: nat, b: JsString,
                                  o1: nat, k1: nat, o2: nat, k2: nat)
    requires IsRun(run) && i < |run| && j < |run|
    requires a in run[i].replicas && a in run[i].seen && b in run[j].replicas && b in run[j].seen
    requires run[i].seen[a].inserts <= run[j].seen[b].inserts
    requires o1 <= o2 && IsGap(Visible(run[i].replicas[a].chars), o1, k1)
               && IsGap(Visible(run[i].replicas[a].chars), o2, k2)
    ensures var v, t := Visible(run[i].replicas[a].chars), run[j].replicas[b].chars;
            ResolvedOffset(t, AnchorAt(v, k1)) <= ResolvedOffset(t, AnchorAt(v, k2))
  {
    hide RoomOk, Good, Known, Later, CanFollow, Initial, Visible, ResolvedOffset;
    RunOk(run[..i + 1]);
    RunOk(run[..j + 1]);
    ReplicaOfRun(run[i], a);
    ReplicaOfRun(run[j], b);
    KnowingMoreIsLater(run[i].replicas[a], run[j].replicas[b]);
    AnchorsStayOrdered(run[i].replicas[a].chars, run[j].replicas[b].chars, o1, k1, o2, k2);
  }
}
