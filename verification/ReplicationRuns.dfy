/** Concrete runs of a replication session that show where its promises end. */
module ReplicationRuns {
  import opened Interest
  import opened Baseline
  import opened Replication

  // ---- What one step leaves, field by field ------------------------------------

  lemma SentFields(w: Wire, tick: nat, visible: set<nat>, now: Versions, lacked: set<nat>, tombs: set<nat>)
    ensures var w' := Sent(w, tick, visible, now, lacked, tombs);
      && w'.shown == w.shown[tick := visible] && w'.removed == w.removed[tick := tombs]
      && w'.carried == w.carried[tick := Picked(lacked, now)]
      && w'.received == w.received && w'.acknowledged == w.acknowledged
  {
  }

  lemma AckFields(w: Wire, before: Versions, after: Versions, tick: nat)
    ensures var w' := AckTaken(w, before, after, tick);
      && w'.shown == w.shown && w'.removed == w.removed && w'.carried == w.carried
      && w'.received == w.received && w'.acknowledged == w.acknowledged + {tick}
  {
  }

  /** A snapshot that carries the one entity n adds its record. */
  lemma OneRecorded(pending: map<nat, SentList>, after: map<nat, SentList>, tick: nat, sent: SentList, n: nat,
                    now: Versions)
    requires Records(sent, {n}, now) && Recorded(pending, after, tick, sent) && |pending[tick := sent]| <= MAX_PENDING
    ensures after == pending[tick := sent]
  {
    assert (n, Acked(now, n)) in sent;
  }

  lemma RecordNamesSome(sent: SentList, lacked: set<nat>, now: Versions)
    requires Records(sent, lacked, now)
    ensures sent != [] ==> lacked != {}
  {
    if sent != [] { assert (sent[0].0, sent[0].1) in sent; }
  }

  /** A snapshot that carries nothing adds none. */
  lemma NoneRecorded(pending: map<nat, SentList>, after: map<nat, SentList>, tick: nat, sent: SentList, now: Versions)
    requires Records(sent, {}, now) && Recorded(pending, after, tick, sent)
    ensures after == pending
  {
    RecordNamesSome(sent, {}, now);
  }

  /** An ack folds in the only record, of the one entity n. */
  lemma OneFolded(acked: Versions, after: Versions, t: nat, sent: SentList, n: nat, now: Versions, tick: nat)
    requires Records(sent, {n}, now) && t <= tick && acked.Keys <= {n} && Acked(acked, n) < Acked(now, n)
    requires Raised(acked, after, Carried(map[t := sent], UpTo(map[t := sent], tick)))
    ensures after == map[n := Acked(now, n)]
  {
    var pending: map<nat, SentList> := map[t := sent];
    var p := (n, Acked(now, n));
    assert p in sent && p in pending[t];
    assert p in Carried(pending, UpTo(pending, tick));
    assert forall q :: q in Carried(pending, UpTo(pending, tick)) ==> q in sent;
    forall m | m in after ensures m == n && after[m] == Acked(now, n) {
      if (m, after[m]) in Carried(pending, UpTo(pending, tick)) { assert (m, after[m]) in sent; }
    }
  }

  lemma OnlySeven()
    ensures Elements([7]) == {7} && Elements([]) == {} && Sorted([7]) && Sorted([])
  {
  }

  lemma LackedSeven(now: Versions, acked: Versions)
    requires now.Keys == {7}
    ensures Lacked({}, now, acked) == {}
    ensures Lacked({7}, now, acked) == if now[7] > Acked(acked, 7) then {7} else {}
  {
  }

  /** A universe of the one entity 7, and at most one record pending. */
  ghost predicate Small(s: ClientSession)
    reads s, s.base
  {
    && s.Valid() && s.versions.Keys == {7} && s.base.acked.Keys <= {7} && s.base.tombstones.Keys <= {7}
    && |s.base.pending| <= 1
  }

  /** One snapshot with 7 in view or not. */
  method Show(s: ClientSession, tick: nat, inView: bool) returns (carries: bool, ghost sent: SentList)
    requires Small(s) && s.lastTick < tick < UNSENT
    modifies s, s.base
    ensures s.Valid() && s.lastTick == tick && s.versions == old(s.versions)
    ensures carries == (inView && s.versions[7] > Acked(old(s.base.acked), 7))
    ensures s.base.acked == if inView then old(s.base.acked) else map[]
    ensures carries ==> Records(sent, {7}, s.versions) && s.base.pending == old(s.base.pending)[tick := sent]
    ensures !carries ==> s.base.pending == old(s.base.pending)
    ensures s.base.tombstones.Keys == if inView then {} else old(s.base.tombstones.Keys + s.base.acked.Keys)
    ensures s.w.shown == old(s.w.shown)[tick := if inView then {7} else {}]
    ensures s.w.carried == old(s.w.carried)[tick := if carries then map[7 := s.versions[7]] else map[]]
    ensures s.w.removed == old(s.w.removed)[tick := s.base.tombstones.Keys]
    ensures s.w.received == old(s.w.received) && s.w.acknowledged == old(s.w.acknowledged)
  {
    hide ClientSession.Valid, Sent, Lacked, Records, Recorded, DatesKept, Forgotten, Sorted;
    OnlySeven();
    ghost var w, acked, pending := s.w, s.base.acked, s.base.pending;
    carries := inView && s.versions[7] > (if 7 in s.base.acked then s.base.acked[7] else 0);
    LackedSeven(s.versions, acked);
    var visible := if inView then [7] else [];
    ghost var lacked := if carries then {7} else {};
    var record, removed := s.SendSnapshot(tick, visible);
    sent := record;
    SentFields(w, tick, Elements(visible), s.versions, lacked, Elements(removed));
    assert Picked(lacked, s.versions) == if carries then map[7 := s.versions[7]] else map[];
    if carries {
      OneRecorded(pending, s.base.pending, tick, sent, 7, s.versions);
    } else {
      NoneRecorded(pending, s.base.pending, tick, sent, s.versions);
    }
  }

  /** The ack of `tick` folds in the one pending record, of snapshot t. */
  method FoldOne(s: ClientSession, tick: nat, ghost t: nat, ghost sent: SentList)
    requires Small(s) && tick in s.w.received && t <= tick && Acked(s.base.acked, 7) < s.versions[7]
    requires s.base.pending == map[t := sent] && Records(sent, {7}, s.versions)
    modifies s, s.base
    ensures s.Valid() && s.lastTick == old(s.lastTick) && s.versions == old(s.versions)
    ensures s.base.acked == s.versions && s.base.pending == map[]
    ensures s.base.tombstones.Keys <= old(s.base.tombstones.Keys)
    ensures s.w.shown == old(s.w.shown) && s.w.carried == old(s.w.carried) && s.w.removed == old(s.w.removed)
    ensures s.w.received == old(s.w.received) && s.w.acknowledged == old(s.w.acknowledged) + {tick}
  {
    hide ClientSession.Valid, AckTaken, Records, Carried, UpTo, Raised;
    ghost var w, acked := s.w, s.base.acked;
    s.AckArrives(tick);
    AckFields(w, acked, s.base.acked, tick);
    OneFolded(acked, s.base.acked, t, sent, 7, s.versions, tick);
  }

  method Start() returns (s: ClientSession)
    ensures fresh(s) && fresh(s.base) && Small(s) && s.lastTick == 0 && s.versions == map[7 := 1]
    ensures s.base.acked == map[] && s.base.pending == map[] && s.base.tombstones == map[]
    ensures s.w == Wire(map[], map[], map[], map[], map[], {}, {}, {})
  {
    hide ClientSession.Valid;
    s := new ClientSession();
    s.Publish(map[7 := 1]);
  }

  // ---- Acked, but never received -------------------------------------------------

  /** The baseline claims what the client never received: entity 7 is in snapshot 1, which
      is lost; it leaves, so snapshot 2 carries nothing; the ack of 2 folds snapshot 1 in;
      and when 7 comes back, snapshot 3 leaves it out. */
  method LossFoldedInAfterLeaving() returns (s: ClientSession)
    ensures s.Valid() && s.w.received == {2} && s.w.shown == map[1 := {7}, 2 := {}, 3 := {7}]
    ensures 7 in s.base.acked && s.versions == map[7 := s.base.acked[7]]
    ensures !Got(s.w, 7, s.base.acked[7]) && 3 in s.w.carried && 7 !in s.w.carried[3] && s.w.suspect == {7}
  {
    hide ClientSession.Valid, Records, Got, SuspectsExact, WireOk, PendingOk, TombstonesOk, MemoryOk;
    s := LostThenGone();
    var _, _ := Show(s, 3, true);
    s.Facts();
    NeverReceived(s.w, s.base.acked);
  }

  lemma NeverReceived(w: Wire, acked: Versions)
    requires w.received == w.acknowledged == {2} && 2 in w.carried && w.carried[2] == map[]
    requires SuspectsExact(w, acked) && acked == map[7 := 1]
    ensures !Got(w, 7, 1) && w.suspect == {7}
  {
    assert !CarriedAt(w, 2, 7, 1);
  }

  method LostThenGone() returns (s: ClientSession)
    ensures fresh(s) && fresh(s.base) && Small(s) && s.lastTick == 2 && s.versions == s.base.acked == map[7 := 1]
    ensures s.w.received == s.w.acknowledged == {2} && s.w.shown == map[1 := {7}, 2 := {}]
    ensures 2 in s.w.carried && s.w.carried[2] == map[]
  {
    hide ClientSession.Valid, Records;
    s := Start();
    var _, first := Show(s, 1, true);
    var _, _ := Show(s, 2, false);
    s.Receive(2);
    FoldOne(s, 2, 1, first);
  }

  // ---- Received, but no longer held ----------------------------------------------

  /** The baseline claims what the client was told to remove, although nothing is lost:
      entity 7 is acked at version 1; snapshot 2 carries version 2, and its ack is late; 7
      leaves, and snapshot 3 has the client remove it; the late ack folds snapshot 2 in;
      and when 7 comes back, snapshot 4 leaves it out and sends no tombstone. */
  method RemovedThenFoldedIn() returns (s: ClientSession)
    ensures s.Valid() && s.w.received == {1, 2, 3} && s.w.shown == map[1 := {7}, 2 := {7}, 3 := {}, 4 := {7}]
    ensures s.versions == s.base.acked == map[7 := 2] && s.w.suspect == {}
    ensures 4 in s.w.carried && 7 !in s.w.carried[4] && 4 in s.w.removed && 7 !in s.w.removed[4]
    ensures Got(s.w, 7, 2) && !HeldBy(s.w, s.w.received, 7, 0)
  {
    hide ClientSession.Valid, Records, Got, HeldBy;
    ghost var second;
    s, second := RemovedBeforeAck();
    FoldOne(s, 2, 2, second);
    ShowFourth(s);
  }

  /** Version 2 is acked, so snapshot 4 leaves it out. */
  method ShowFourth(s: ClientSession)
    requires Small(s) && s.lastTick == 3 && s.versions == s.base.acked == map[7 := 2]
    requires s.w.received == {1, 2, 3} && 2 in s.w.acknowledged && s.w.shown == map[1 := {7}, 2 := {7}, 3 := {}]
    requires 2 in s.w.carried && s.w.carried[2] == map[7 := 2] && 3 in s.w.carried && s.w.carried[3] == map[]
    requires 3 in s.w.removed && s.w.removed[3] == {7}
    modifies s, s.base
    ensures s.Valid() && s.w.received == {1, 2, 3} && s.w.shown == map[1 := {7}, 2 := {7}, 3 := {}, 4 := {7}]
    ensures s.versions == s.base.acked == map[7 := 2] && s.w.suspect == {}
    ensures 4 in s.w.carried && 7 !in s.w.carried[4] && 4 in s.w.removed && 7 !in s.w.removed[4]
    ensures Got(s.w, 7, 2) && !HeldBy(s.w, s.w.received, 7, 0)
  {
    hide ClientSession.Valid, Records, Got, HeldBy, SuspectsExact;
    hide WireOk, PendingOk, TombstonesOk, MemoryOk;
    var _, _ := Show(s, 4, true);
    s.Facts();
    RemovedYetAcked(s.w, s.base.acked);
  }

  lemma RemovedYetAcked(w: Wire, acked: Versions)
    requires 2 in w.received && 2 in w.acknowledged && 3 in w.received && forall t :: t in w.received ==> t <= 3
    requires 2 in w.carried && w.carried[2] == map[7 := 2] && 3 in w.carried && w.carried[3] == map[]
    requires 3 in w.removed && w.removed[3] == {7} && SuspectsExact(w, acked) && acked == map[7 := 2]
    ensures Got(w, 7, 2) && !HeldBy(w, w.received, 7, 0) && w.suspect == {}
  {
    assert CarriedAt(w, 2, 7, 2) && RemovedAt(w, 3, 7);
  }

  method RemovedBeforeAck() returns (s: ClientSession, ghost second: SentList)
    ensures fresh(s) && fresh(s.base) && Small(s) && s.lastTick == 3 && s.versions == map[7 := 2]
    ensures s.base.acked == map[] && s.base.pending == map[2 := second] && s.base.tombstones.Keys == {7}
    ensures Records(second, {7}, s.versions) && s.w.received == {1, 2, 3}
    ensures s.w.shown == map[1 := {7}, 2 := {7}, 3 := {}]
    ensures 2 in s.w.carried && s.w.carried[2] == map[7 := 2] && 3 in s.w.carried && s.w.carried[3] == map[]
    ensures 3 in s.w.removed && s.w.removed[3] == {7}
  {
    hide ClientSession.Valid, Records;
    s, second := SecondReceived();
    var _, _ := Show(s, 3, false);
    s.Receive(3);
  }

  method SecondReceived() returns (s: ClientSession, ghost second: SentList)
    ensures fresh(s) && fresh(s.base) && Small(s) && s.lastTick == 2 && s.versions == map[7 := 2]
    ensures s.base.acked == map[7 := 1] && s.base.pending == map[2 := second] && s.base.tombstones == map[]
    ensures Records(second, {7}, s.versions) && s.w.received == {1, 2} && s.w.shown == map[1 := {7}, 2 := {7}]
    ensures 2 in s.w.carried && s.w.carried[2] == map[7 := 2]
  {
    hide ClientSession.Valid, Records;
    s := AckedOnce();
    s.Publish(map[7 := 2]);
    var _, record := Show(s, 2, true);
    second := record;
    s.Receive(2);
  }

  method AckedOnce() returns (s: ClientSession)
    ensures fresh(s) && fresh(s.base) && Small(s) && s.lastTick == 1 && s.versions == s.base.acked == map[7 := 1]
    ensures s.base.pending == map[] && s.base.tombstones == map[]
    ensures s.w.received == {1} && s.w.shown == map[1 := {7}]
  {
    hide ClientSession.Valid, Records;
    s := Start();
    var _, first := Show(s, 1, true);
    s.Receive(1);
    FoldOne(s, 1, 1, first);
  }

  // ---- Held, but forgotten ---------------------------------------------------------

  /** The ticks 1 to k. */
  ghost function Ticks(k: nat): (s: set<nat>)
    ensures forall t: nat :: t in s <==> 1 <= t <= k
    ensures |s| == k
  {
    if k == 0 then {} else Ticks(k - 1) + {k}
  }

  /** The client holds 7 and nothing is left that could have it removed: snapshot 1, with 7,
      arrives but is not acknowledged; 7 leaves before it was ever acked, so no tombstone is
      queued; and 64 more snapshots push its only record out. */
  method RecordPushedOut() returns (s: ClientSession)
    ensures s.Valid() && s.w.received == {1} && HeldBy(s.w, s.w.received, 7, 1)
    ensures s.lastTick == 65 && 65 in s.w.shown && s.w.shown[65] == {8}
    ensures !HasEntry(s.w, s.base.acked, s.base.pending, s.base.tombstones, 7) && 7 in s.forgotten
  {
    hide ClientSession.Valid, HeldBy, HasEntry;
    s := SevenUnacked();
    for k := 1 to 64
      invariant fresh(s) && fresh(s.base) && Unacked(s, k) && s.base.pending.Keys == Ticks(k)
    {
      ShowEight(s, k);
    }
    ShowEight(s, 64);
    SevenForgotten(s.w, s.base.pending);
    s.Memory();
  }

  /** Snapshot 1 carried 7 and was received, and the k - 1 after it carried 8; nothing was
      acknowledged. */
  ghost predicate Unacked(s: ClientSession, k: nat)
    reads s, s.base
  {
    && s.Valid() && s.lastTick == k && s.versions == map[7 := 1, 8 := 1]
    && s.base.acked == map[] && s.base.tombstones == map[]
    && s.base.pending.Keys <= Ticks(k) && s.w.received == {1} && SevenThenEights(s.w.carried, k)
  }

  ghost predicate SevenThenEights(carried: map<nat, Versions>, k: nat) {
    && carried.Keys == Ticks(k)
    && forall t :: t in carried ==> carried[t] == if t == 1 then map[7 := 1] else map[8 := 1]
  }

  lemma AddEight(carried: map<nat, Versions>, k: nat)
    requires SevenThenEights(carried, k) && 1 <= k
    ensures SevenThenEights(carried[k + 1 := map[8 := 1]], k + 1)
  {
    hide Ticks;
    TicksGrow(k);
  }

  method SevenUnacked() returns (s: ClientSession)
    ensures fresh(s) && fresh(s.base) && Unacked(s, 1) && s.base.pending.Keys == Ticks(1)
  {
    hide ClientSession.Valid, Sent, Lacked, Records, Recorded, DatesKept, Forgotten, Sorted, SevenThenEights;
    hide Ticks;
    s := new ClientSession();
    s.Publish(map[7 := 1, 8 := 1]);
    OnlyOne(7);
    LackedOne(7, s.versions);
    ghost var w := s.w;
    var sent, removed := s.SendSnapshot(1, [7]);
    OneRecorded(map[], s.base.pending, 1, sent, 7, s.versions);
    SevenFirst(w, s.versions, Elements(removed));
    s.Receive(1);
    FirstDelivered(w, s.versions, Elements(removed));
  }

  lemma SevenFirst(w: Wire, now: Versions, tombs: set<nat>)
    requires w.carried == map[] && Acked(now, 7) == 1
    ensures 1 in Sent(w, 1, {7}, now, {7}, tombs).carried && Ticks(1) == {1}
  {
  }

  lemma FirstDelivered(w: Wire, now: Versions, tombs: set<nat>)
    requires w.carried == map[] && w.received == {} && Acked(now, 7) == 1
    ensures var w' := Delivered(Sent(w, 1, {7}, now, {7}, tombs), 1);
      SevenThenEights(w'.carried, 1) && w'.received == {1}
  {
    SentFields(w, 1, {7}, now, {7}, tombs);
    assert Ticks(1) == {1};
  }

  lemma OnlyOne(n: nat)
    ensures Elements([n]) == {n} && Sorted([n])
  {
  }

  lemma LackedOne(n: nat, now: Versions)
    requires Acked(now, n) == 1
    ensures Lacked({n}, now, map[]) == {n}
  {
  }

  method ShowEight(s: ClientSession, k: nat)
    requires Unacked(s, k) && 1 <= k <= 64 && s.base.pending.Keys == Ticks(k)
    modifies s, s.base
    ensures Unacked(s, k + 1) && k + 1 in s.w.shown && s.w.shown[k + 1] == {8}
    ensures k < 64 ==> s.base.pending.Keys == Ticks(k + 1)
    ensures k == 64 ==> 1 !in s.base.pending
  {
    hide ClientSession.Valid, Sent, Lacked, Records, Recorded, DatesKept, Forgotten, Sorted;
    hide SevenThenEights, Ticks;
    OnlyOne(8);
    LackedOne(8, s.versions);
    ghost var w, pending := s.w, s.base.pending;
    var sent, removed := s.SendSnapshot(k + 1, [8]);
    EightRecorded(pending, s.base.pending, k, sent, s.versions);
    EightSent(w, k, s.versions, Elements(removed));
  }

  lemma PickedOne(n: nat, now: Versions)
    requires Acked(now, n) == 1
    ensures Picked({n}, now) == map[n := 1]
  {
  }

  lemma EightSent(w: Wire, k: nat, now: Versions, tombs: set<nat>)
    requires SevenThenEights(w.carried, k) && 1 <= k && Acked(now, 8) == 1
    ensures var w' := Sent(w, k + 1, {8}, now, {8}, tombs);
      && SevenThenEights(w'.carried, k + 1) && w'.received == w.received
      && k + 1 in w'.shown && w'.shown[k + 1] == {8}
  {
    SentFields(w, k + 1, {8}, now, {8}, tombs);
    PickedOne(8, now);
    AddEight(w.carried, k);
    hide Sent, Picked, SevenThenEights;
  }

  lemma EightRecorded(pending: map<nat, SentList>, after: map<nat, SentList>, k: nat, sent: SentList, now: Versions)
    requires Records(sent, {8}, now) && Recorded(pending, after, k + 1, sent)
    requires pending.Keys == Ticks(k) && 1 <= k <= 64
    ensures after.Keys <= Ticks(k + 1)
    ensures k < 64 ==> after.Keys == Ticks(k + 1)
    ensures k == 64 ==> 1 !in after
  {
    assert (8, Acked(now, 8)) in sent;
    var all := pending[k + 1 := sent];
    hide Records, Ticks;
    TicksGrow(k);
    assert all.Keys == Ticks(k) + {k + 1};
    assert |all| == |all.Keys|;
    if k == 64 { OldestGone(all, after); }
  }

  lemma TicksGrow(k: nat)
    ensures Ticks(k + 1) == Ticks(k) + {k + 1}
  {
  }

  lemma OldestGone(all: map<nat, SentList>, after: map<nat, SentList>)
    requires |after| < |all| && after.Keys <= all.Keys && forall t :: t in all ==> 1 <= t
    requires forall gone, kept :: gone in all && gone !in after && kept in after ==> gone < kept
    ensures 1 !in after
  {
    assert |after.Keys| == |after| && |all.Keys| == |all|;
    assert all.Keys == after.Keys + (all.Keys - after.Keys);
    var gone :| gone in all.Keys - after.Keys;
  }

  lemma SevenForgotten(w: Wire, pending: map<nat, SentList>)
    requires SevenThenEights(w.carried, 65) && w.received == {1} && 1 !in pending
    ensures HeldBy(w, w.received, 7, 1) && HeldBy(w, w.received, 7, 0)
    ensures !HasEntry(w, map[], pending, map[], 7)
  {
    assert 1 in w.carried && CarriedAt(w, 1, 7, 1) && CarriedAt(w, 1, 7, 0);
    assert !RemovedAfter(w, w.received, 1, 7);
  }
}
