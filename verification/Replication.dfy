/** One client's replication session over a channel that loses, duplicates and reorders
    snapshots and acks: the server's diff, its baseline, and what really arrived. */
module Replication {
  import opened Interest
  import opened Baseline

  type Versions = map<nat, nat>

  /** What went over the wire, kept for the proof. Snapshots are named by their tick. */
  datatype Wire = Wire(
    shown: map<nat, set<nat>>,      // the interest set it was built for
    current: map<nat, Versions>,    // all versions at that moment
    carried: map<nat, Versions>,    // the entity versions in it
    removed: map<nat, set<nat>>,    // the tombstones in it
    doubted: map<nat, set<nat>>,    // the suspect entities at that moment
    received: set<nat>,             // snapshots the client really got
    acknowledged: set<nat>,         // snapshots whose ack reached the server
    suspect: set<nat>)              // entities whose acked version is not backed by an ack

  ghost predicate CarriedAt(w: Wire, t: nat, n: nat, v: nat) {
    t in w.carried && n in w.carried[t] && v <= w.carried[t][n]
  }

  /** Some snapshot among `ticks` carried n at version v or later. */
  ghost predicate GotBy(w: Wire, ticks: set<nat>, n: nat, v: nat) {
    exists t :: t in ticks && CarriedAt(w, t, n, v)
  }

  /** The client received n at version v or later. */
  ghost predicate Got(w: Wire, n: nat, v: nat) {
    GotBy(w, w.received, n, v)
  }

  /** The client acknowledged a snapshot that carried n at version v or later. */
  ghost predicate Confirmed(w: Wire, n: nat, v: nat) {
    GotBy(w, w.acknowledged, n, v)
  }

  ghost predicate WireOk(w: Wire, lastTick: nat) {
    && w.carried.Keys == w.shown.Keys == w.current.Keys == w.removed.Keys == w.doubted.Keys
    && w.acknowledged <= w.received <= w.carried.Keys
    && (forall t :: t in w.carried ==> t <= lastTick)
    && (forall t, n :: t in w.carried && n in w.carried[t] ==> CarriedCurrent(w, t, n))
    && (forall t :: t in w.carried ==> w.removed[t] !! w.shown[t])
  }

  ghost predicate CarriedCurrent(w: Wire, t: nat, n: nat)
    requires t in w.carried && t in w.shown && t in w.current && n in w.carried[t]
  {
    n in w.shown[t] && w.carried[t][n] > 0 && w.carried[t][n] == Acked(w.current[t], n)
  }

  /** What a snapshot left out of its interest set, and did not doubt, was confirmed before. */
  ghost predicate LeftOutOk(w: Wire)
    requires w.carried.Keys == w.shown.Keys == w.current.Keys == w.doubted.Keys
  {
    forall t, n :: t in w.carried && n in w.shown[t] && n !in w.carried[t] && n !in w.doubted[t] ==>
      BackedUp(w, t, n)
  }

  ghost predicate BackedUp(w: Wire, t: nat, n: nat)
    requires t in w.current
  {
    Acked(w.current[t], n) == 0 || Confirmed(w, n, Acked(w.current[t], n))
  }

  ghost predicate PairSent(w: Wire, t: nat, p: (nat, nat)) {
    t in w.carried && p.0 in w.carried[t] && w.carried[t][p.0] == p.1
  }

  ghost predicate PendingOk(w: Wire, pending: map<nat, SentList>) {
    forall t :: t in pending ==> t in w.carried && forall i :: 0 <= i < |pending[t]| ==> PairSent(w, t, pending[t][i])
  }

  /** The suspect entities are exactly those whose acked version no acknowledged snapshot carried. */
  ghost predicate SuspectsExact(w: Wire, acked: Versions) {
    && (forall n :: n in acked ==> acked[n] > 0)
    && (forall n :: n in w.suspect <==> n in acked && !Confirmed(w, n, acked[n]))
  }

  /** A pending tombstone has been in every snapshot since its date. */
  ghost predicate TombstonesOk(w: Wire, tombstones: map<nat, nat>) {
    && (forall n :: n in tombstones ==> tombstones[n] != UNSENT)
    && (forall n, t :: n in tombstones && t in w.removed && tombstones[n] <= t ==> n in w.removed[t])
  }

  ghost predicate SessionOk(w: Wire, lastTick: nat, acked: Versions, pending: map<nat, SentList>,
                            tombstones: map<nat, nat>) {
    && WireOk(w, lastTick) && LeftOutOk(w) && PendingOk(w, pending)
    && SuspectsExact(w, acked) && TombstonesOk(w, tombstones)
  }

  // ---- Steps on the wire ---------------------------------------------------

  ghost function Delivered(w: Wire, t: nat): Wire {
    w.(received := w.received + {t})
  }

  ghost function Picked(lacked: set<nat>, now: Versions): Versions {
    map n | n in lacked :: Acked(now, n)
  }

  /** A new snapshot. A suspect entity outside the interest set is erased from the baseline. */
  ghost function Sent(w: Wire, tick: nat, visible: set<nat>, now: Versions, lacked: set<nat>, tombs: set<nat>): Wire {
    w.(shown := w.shown[tick := visible], current := w.current[tick := now],
       carried := w.carried[tick := Picked(lacked, now)], removed := w.removed[tick := tombs],
       doubted := w.doubted[tick := w.suspect], suspect := w.suspect * visible)
  }

  /** Snapshot t was built with n in its interest set, n's version then was v or later, and if
      it left n out, n was not suspect: all of this the server knows before the ack. */
  ghost predicate Settled(w: Wire, t: nat, n: nat, v: nat) {
    && t in w.carried && t in w.shown && t in w.current && t in w.doubted
    && n in w.shown[t] && v <= Acked(w.current[t], n)
    && (n in w.carried[t] || n !in w.doubted[t])
  }

  /** The entities an ack leaves suspect: raised by it, or suspect before, to a version that
      neither the acknowledged snapshot settles nor an earlier ack confirmed. */
  ghost function Marked(w: Wire, before: Versions, after: Versions, tick: nat): set<nat> {
    set n | n in after && (n in w.suspect || n !in before || before[n] != after[n])
      && !Settled(w, tick, n, after[n]) && !Confirmed(w, n, after[n])
  }

  ghost function AckTaken(w: Wire, before: Versions, after: Versions, tick: nat): Wire {
    w.(acknowledged := w.acknowledged + {tick}, suspect := Marked(w, before, after, tick))
  }

  /** The snapshots of w are still what they were in w'. */
  ghost predicate Extends(w: Wire, w': Wire) {
    forall t :: t in w.carried ==> t in w'.carried && w'.carried[t] == w.carried[t]
  }

  lemma GotMore(w: Wire, w': Wire, ticks: set<nat>, ticks': set<nat>, n: nat, v: nat, v': nat)
    requires GotBy(w, ticks, n, v) && v' <= v && ticks <= ticks' && Extends(w, w')
    ensures GotBy(w', ticks', n, v')
  {
    var t :| t in ticks && CarriedAt(w, t, n, v);
    assert CarriedAt(w', t, n, v');
  }

  /** The exact condition under which the client received a version that is folded in, when
      only acknowledged snapshots arrived: the acknowledged one settles it, or an earlier
      one carried it. */
  lemma FoldedWasReceivedExactly(w: Wire, lastTick: nat, tick: nat, n: nat, v: nat)
    requires WireOk(w, lastTick) && LeftOutOk(w) && tick in w.carried && v > 0
    ensures GotBy(w, w.acknowledged + {tick}, n, v) <==> Settled(w, tick, n, v) || Confirmed(w, n, v)
  {
    var ticks := w.acknowledged + {tick};
    if GotBy(w, ticks, n, v) {
      var t :| t in ticks && CarriedAt(w, t, n, v);
      if t == tick { assert CarriedCurrent(w, tick, n); }
    }
    if Settled(w, tick, n, v) {
      if n in w.carried[tick] {
        assert CarriedCurrent(w, tick, n) && CarriedAt(w, tick, n, v);
      } else {
        assert BackedUp(w, tick, n);
        GotMore(w, w, w.acknowledged, ticks, n, Acked(w.current[tick], n), v);
      }
    }
    if Confirmed(w, n, v) { GotMore(w, w, w.acknowledged, ticks, n, v, v); }
  }

  /** n at version v or later was in what the client got, whatever besides the acknowledged
      snapshots the channel lost. */
  ghost predicate GotWhateverArrived(w: Wire, n: nat, v: nat) {
    forall arrived: set<nat> :: w.acknowledged <= arrived <= w.carried.Keys ==> GotBy(w, arrived, n, v)
  }

  /** An acked version is backed whatever else the channel lost exactly if its entity is not suspect. */
  lemma ReceivedWhateverArrived(w: Wire, lastTick: nat, acked: Versions, n: nat)
    requires WireOk(w, lastTick) && SuspectsExact(w, acked) && n in acked
    ensures n !in w.suspect <==> GotWhateverArrived(w, n, acked[n])
    ensures n !in w.suspect ==> Got(w, n, acked[n])
  {
    if n !in w.suspect {
      forall arrived: set<nat> | w.acknowledged <= arrived <= w.carried.Keys ensures GotBy(w, arrived, n, acked[n]) {
        GotMore(w, w, w.acknowledged, arrived, n, acked[n], acked[n]);
      }
    } else {
      assert !GotBy(w, w.acknowledged, n, acked[n]);
    }
  }

  // ---- What the client holds -----------------------------------------------

  ghost predicate RemovedAfter(w: Wire, ticks: set<nat>, t: nat, n: nat) {
    exists u :: u in ticks && RemovedAt(w, u, n) && t < u
  }

  ghost predicate RemovedAt(w: Wire, u: nat, n: nat) {
    u in w.removed && n in w.removed[u]
  }

  /** A client that got these snapshots holds n at version v or later: the records of an
      entity take effect in the order of their ticks, whenever they arrive. */
  ghost predicate HeldBy(w: Wire, ticks: set<nat>, n: nat, v: nat) {
    exists t :: t in ticks && CarriedAt(w, t, n, v) && !RemovedAfter(w, ticks, t, n)
  }

  ghost predicate HeldWhateverArrived(w: Wire, n: nat, v: nat) {
    forall arrived: set<nat> :: w.acknowledged <= arrived <= w.carried.Keys ==> HeldBy(w, arrived, n, v)
  }

  /** Some acknowledged snapshot carried n at version v or later, and no later snapshot ever
      sent removed it: the server knows this from its own records. */
  ghost predicate NeverRemovedSince(w: Wire, n: nat, v: nat) {
    exists t :: t in w.acknowledged && CarriedAt(w, t, n, v) && !RemovedAfter(w, w.carried.Keys, t, n)
  }

  /** The exact condition under which the client holds a version whatever the channel lost
      besides the acknowledged snapshots. */
  lemma HeldExactly(w: Wire, lastTick: nat, n: nat, v: nat)
    requires WireOk(w, lastTick)
    ensures HeldWhateverArrived(w, n, v) <==> NeverRemovedSince(w, n, v)
  {
    if NeverRemovedSince(w, n, v) {
      var t :| t in w.acknowledged && CarriedAt(w, t, n, v) && !RemovedAfter(w, w.carried.Keys, t, n);
      forall arrived: set<nat> | w.acknowledged <= arrived <= w.carried.Keys ensures HeldBy(w, arrived, n, v) {
        assert t in arrived && !RemovedAfter(w, arrived, t, n);
      }
    }
    if HeldWhateverArrived(w, n, v) {
      var worst := w.acknowledged + set u | u in w.carried && RemovedAt(w, u, n);
      assert HeldBy(w, worst, n, v);
      var t :| t in worst && CarriedAt(w, t, n, v) && !RemovedAfter(w, worst, t, n);
      assert CarriedCurrent(w, t, n);
      assert !RemovedAfter(w, w.carried.Keys, t, n);
    }
  }

  ghost predicate Mentions(w: Wire, t: nat, n: nat) {
    RemovedAt(w, t, n) || CarriedAt(w, t, n, 0)
  }

  /** The last word on n among what the client got is snapshot t. */
  ghost predicate LastWord(w: Wire, ticks: set<nat>, t: nat, n: nat) {
    t in ticks && Mentions(w, t, n) && forall u :: u in ticks && Mentions(w, u, n) ==> u <= t
  }

  /** Last writer wins: the client holds n exactly if the last word on n carried it. */
  lemma HeldIsLastWord(w: Wire, lastTick: nat, ticks: set<nat>, n: nat)
    requires WireOk(w, lastTick) && ticks <= w.carried.Keys
    ensures HeldBy(w, ticks, n, 0) <==> exists t :: LastWord(w, ticks, t, n) && CarriedAt(w, t, n, 0)
  {
    if HeldBy(w, ticks, n, 0) {
      var s :| s in ticks && CarriedAt(w, s, n, 0) && !RemovedAfter(w, ticks, s, n);
      var t := Latest(w, ticks, s, n);
      assert RemovedAt(w, t, n) && t == s ==> CarriedCurrent(w, t, n);
      assert CarriedAt(w, t, n, 0);
    }
    if t :| LastWord(w, ticks, t, n) && CarriedAt(w, t, n, 0) {
      assert forall u :: u in ticks && RemovedAt(w, u, n) ==> Mentions(w, u, n);
      assert !RemovedAfter(w, ticks, t, n);
    }
  }

  lemma {:induction false} Latest(w: Wire, ticks: set<nat>, s: nat, n: nat) returns (t: nat)
    requires s in ticks && Mentions(w, s, n)
    ensures LastWord(w, ticks, t, n) && s <= t
    decreases ticks
  {
    t := s;
    var later := set u | u in ticks && Mentions(w, u, n) && s < u;
    if later != {} {
      var u :| u in later;
      t := Latest(w, later, u, n);
    }
    forall x | x in ticks && Mentions(w, x, n) ensures x <= t {
      assert s < x ==> x in later;
    }
  }

  lemma DeliveryKeeps(w: Wire, lastTick: nat, t: nat, acked: Versions, pending: map<nat, SentList>,
                      tombstones: map<nat, nat>)
    requires SessionOk(w, lastTick, acked, pending, tombstones) && t in w.carried
    ensures SessionOk(Delivered(w, t), lastTick, acked, pending, tombstones)
  {
    SameAcks(w, Delivered(w, t));
    SamePending(w, Delivered(w, t), pending);
  }

  /** Unless an ack arrives, nothing sent before becomes or stops being confirmed. */
  lemma SameAcks(w: Wire, w': Wire)
    requires Extends(w, w') && w'.acknowledged == w.acknowledged <= w.carried.Keys
    ensures forall n, v :: Confirmed(w', n, v) <==> Confirmed(w, n, v)
  {
    forall n, v ensures Confirmed(w', n, v) <==> Confirmed(w, n, v) {
      if Confirmed(w', n, v) {
        var t :| t in w.acknowledged && CarriedAt(w', t, n, v);
        assert CarriedAt(w, t, n, v);
      }
      if Confirmed(w, n, v) { GotMore(w, w', w.acknowledged, w'.acknowledged, n, v, v); }
    }
  }

  lemma SamePending(w: Wire, w': Wire, pending: map<nat, SentList>)
    requires PendingOk(w, pending) && Extends(w, w')
    ensures PendingOk(w', pending)
  {
    forall t, i | t in pending && 0 <= i < |pending[t]| ensures PairSent(w', t, pending[t][i]) {
      assert PairSent(w, t, pending[t][i]);
    }
  }

  // ---- An ack arrives ------------------------------------------------------

  lemma CarriedWasSent(w: Wire, pending: map<nat, SentList>, tick: nat, p: (nat, nat)) returns (t: nat)
    requires PendingOk(w, pending) && p in Carried(pending, UpTo(pending, tick))
    ensures t <= tick && PairSent(w, t, p)
  {
    t :| t in UpTo(pending, tick) && t in pending && p in pending[t];
    var i :| 0 <= i < |pending[t]| && pending[t][i] == p;
    assert PairSent(w, t, pending[t][i]);
  }

  lemma RaisedStaysPositive(w: Wire, lastTick: nat, tick: nat, acked: Versions, pending: map<nat, SentList>,
                            after: Versions)
    requires WireOk(w, lastTick) && PendingOk(w, pending)
    requires Raised(acked, after, Carried(pending, UpTo(pending, tick)))
    requires forall n :: n in acked ==> acked[n] > 0
    ensures forall n :: n in after ==> after[n] > 0
  {
    hide PendingOk, Carried, UpTo;
    forall n | n in after ensures after[n] > 0 {
      if (n, after[n]) in Carried(pending, UpTo(pending, tick)) {
        var t := CarriedWasSent(w, pending, tick, (n, after[n]));
        assert CarriedCurrent(w, t, n);
      }
    }
  }

  /** Folding keeps the suspects exact: they are marked where, and only where, the acked
      version is not one an acknowledged snapshot carried. */
  lemma AckKeepsSuspects(w: Wire, lastTick: nat, tick: nat, acked: Versions, after: Versions)
    requires WireOk(w, lastTick) && LeftOutOk(w) && SuspectsExact(w, acked) && tick in w.received
    requires forall n :: n in acked ==> n in after
    requires forall n :: n in after ==> after[n] > 0
    ensures SuspectsExact(AckTaken(w, acked, after, tick), after)
  {
    var w' := AckTaken(w, acked, after, tick);
    forall n | n in after ensures n in w'.suspect <==> !Confirmed(w', n, after[n]) {
      FoldedWasReceivedExactly(w, lastTick, tick, n, after[n]);
      SameSnapshots(w, w', n, after[n]);
    }
  }

  lemma SameSnapshots(w: Wire, w': Wire, n: nat, v: nat)
    requires w'.carried == w.carried
    ensures Confirmed(w', n, v) <==> GotBy(w, w'.acknowledged, n, v)
  {
    if Confirmed(w', n, v) {
      var t :| t in w'.acknowledged && CarriedAt(w', t, n, v);
      assert CarriedAt(w, t, n, v);
    }
    if GotBy(w, w'.acknowledged, n, v) { GotMore(w, w', w'.acknowledged, w'.acknowledged, n, v, v); }
  }

  lemma AckKeepsLeftOut(w: Wire, lastTick: nat, tick: nat, before: Versions, after: Versions)
    requires WireOk(w, lastTick) && LeftOutOk(w) && tick in w.received
    ensures WireOk(AckTaken(w, before, after, tick), lastTick) && LeftOutOk(AckTaken(w, before, after, tick))
  {
    var w' := AckTaken(w, before, after, tick);
    forall t, n | t in w.carried && n in w.carried[t] ensures CarriedCurrent(w', t, n) {
      assert CarriedCurrent(w, t, n);
    }
    forall t, n | t in w.carried && n in w.shown[t] && n !in w.carried[t] && n !in w.doubted[t]
      ensures BackedUp(w', t, n)
    {
      assert BackedUp(w, t, n);
      if Acked(w.current[t], n) > 0 {
        GotMore(w, w', w.acknowledged, w'.acknowledged, n, Acked(w.current[t], n), Acked(w.current[t], n));
      }
    }
  }

  // ---- A snapshot is sent ---------------------------------------------------

  /** The entities of an interest set that the client still lacks. */
  ghost function Lacked(visible: set<nat>, now: Versions, acked: Versions): set<nat> {
    set n | n in visible && Acked(now, n) > Acked(acked, n)
  }

  lemma SendKeepsWire(w: Wire, w': Wire, lastTick: nat, tick: nat, visible: set<nat>, now: Versions, acked: Versions,
                      tombs: set<nat>)
    requires WireOk(w, lastTick) && lastTick < tick && tombs !! visible
    requires w' == Sent(w, tick, visible, now, Lacked(visible, now, acked), tombs)
    ensures WireOk(w', tick) && Extends(w, w')
  {
    SentExtends(w, w', lastTick, tick, visible, now, acked, tombs);
    SentApart(w, w', lastTick, tick, visible, now, acked, tombs);
    hide CarriedCurrent, Lacked, Extends, Picked, Sent;
    forall t, n | t in w'.carried && n in w'.carried[t] ensures CarriedCurrent(w', t, n) {
      SentIsCurrent(w, w', lastTick, tick, visible, now, acked, tombs, t, n);
    }
  }

  /** The new snapshot joins those before it. */
  lemma SentExtends(w: Wire, w': Wire, lastTick: nat, tick: nat, visible: set<nat>, now: Versions, acked: Versions,
                    tombs: set<nat>)
    requires WireOk(w, lastTick) && lastTick < tick
    requires w' == Sent(w, tick, visible, now, Lacked(visible, now, acked), tombs)
    ensures Extends(w, w') && w'.acknowledged == w.acknowledged && w'.received == w.received
    ensures w'.carried.Keys == w'.shown.Keys == w'.current.Keys == w'.removed.Keys == w'.doubted.Keys
    ensures w'.carried.Keys == w.carried.Keys + {tick}
  {
    hide CarriedCurrent, Lacked, Picked;
  }

  lemma SentApart(w: Wire, w': Wire, lastTick: nat, tick: nat, visible: set<nat>, now: Versions, acked: Versions,
                  tombs: set<nat>)
    requires WireOk(w, lastTick) && tombs !! visible
    requires w' == Sent(w, tick, visible, now, Lacked(visible, now, acked), tombs)
    ensures forall t :: t in w'.carried ==>
      t in w'.removed && t in w'.shown && w'.removed[t] !! w'.shown[t]
  {
    hide CarriedCurrent, Lacked, Picked;
    forall t | t in w'.carried ensures t in w'.removed && t in w'.shown && w'.removed[t] !! w'.shown[t] {
      if t != tick { assert w'.removed[t] == w.removed[t] && w'.shown[t] == w.shown[t]; }
    }
  }

  lemma SentIsCurrent(w: Wire, w': Wire, lastTick: nat, tick: nat, visible: set<nat>, now: Versions, acked: Versions,
                      tombs: set<nat>, t: nat, n: nat)
    requires WireOk(w, lastTick) && lastTick < tick
    requires w' == Sent(w, tick, visible, now, Lacked(visible, now, acked), tombs)
    requires t in w'.carried && n in w'.carried[t]
    ensures CarriedCurrent(w', t, n)
  {
    if t != tick { assert CarriedCurrent(w, t, n); }
  }

  lemma SendKeepsLeftOut(w: Wire, w': Wire, lastTick: nat, tick: nat, visible: set<nat>, now: Versions, acked: Versions,
                         tombs: set<nat>)
    requires WireOk(w, lastTick) && LeftOutOk(w) && SuspectsExact(w, acked) && lastTick < tick
    requires w' == Sent(w, tick, visible, now, Lacked(visible, now, acked), tombs)
    requires WireOk(w', tick) && Extends(w, w')
    ensures LeftOutOk(w')
  {
    hide CarriedCurrent, SuspectsExact, Extends, Confirmed;
    SameAcks(w, w');
    forall t, n | t in w'.carried && n in w'.shown[t] && n !in w'.carried[t] && n !in w'.doubted[t]
      ensures BackedUp(w', t, n)
    {
      if t == tick {
        LeftOutIsBacked(w, visible, now, acked, n);
      } else {
        assert BackedUp(w, t, n);
      }
    }
  }

  /** What the diff leaves out of the interest set, unless it is suspect, the client
      received and acknowledged at some time. It may have been told to remove it since. */
  lemma LeftOutIsBacked(w: Wire, visible: set<nat>, now: Versions, acked: Versions, n: nat)
    requires SuspectsExact(w, acked) && n in visible && n !in Lacked(visible, now, acked) && n !in w.suspect
    ensures Acked(now, n) == 0 || Confirmed(w, n, Acked(now, n))
  {
    if Acked(now, n) > 0 {
      GotMore(w, w, w.acknowledged, w.acknowledged, n, acked[n], Acked(now, n));
    }
  }

  /** The record of a snapshot lists exactly what it carried. */
  ghost predicate Records(sent: SentList, lacked: set<nat>, now: Versions) {
    forall n, v :: (n, v) in sent <==> n in lacked && v == Acked(now, n)
  }

  lemma SendKeepsPending(w: Wire, w': Wire, lastTick: nat, tick: nat, visible: set<nat>, now: Versions,
                         lacked: set<nat>,
                         tombs: set<nat>, pending: map<nat, SentList>, after: map<nat, SentList>, sent: SentList)
    requires WireOk(w, lastTick) && PendingOk(w, pending) && lastTick < tick
    requires w' == Sent(w, tick, visible, now, lacked, tombs) && Records(sent, lacked, now)
    requires Recorded(pending, after, tick, sent)
    ensures PendingOk(w', after)
  {
    assert tick !in pending;
    forall t, i | t in after && 0 <= i < |after[t]| ensures PairSent(w', t, after[t][i]) {
      if t == tick {
        assert (sent[i].0, sent[i].1) in sent;
      } else {
        assert PairSent(w, t, pending[t][i]);
      }
    }
  }

  /** Entries outside the interest set are erased, and their suspicion with them. */
  lemma SendKeepsSuspects(w: Wire, w': Wire, visible: set<nat>, acked: Versions, after: Versions)
    requires SuspectsExact(w, acked) && Extends(w, w')
    requires w'.acknowledged == w.acknowledged <= w.carried.Keys && w'.suspect == w.suspect * visible
    requires after == map n | n in acked && n in visible :: acked[n]
    ensures SuspectsExact(w', after)
  {
    SameAcks(w, w');
  }

  // ---- What is remembered of the client's entities -----------------------------

  /** A pending record covers a snapshot from t on that carried n. */
  ghost predicate PendingFrom(w: Wire, pending: map<nat, SentList>, t: nat, n: nat) {
    exists u :: t <= u && u in pending && CarriedAt(w, u, n, 0)
  }

  /** Of an entity that snapshot t carried, the server knows that the client was told to
      remove it since, or still has an entry for it, or forgot it. */
  ghost predicate Remembered(w: Wire, acked: Versions, pending: map<nat, SentList>, tombstones: map<nat, nat>,
                             forgotten: set<nat>, t: nat, n: nat) {
    || RemovedAfter(w, w.acknowledged, t, n)
    || n in acked || n in tombstones || n in forgotten || PendingFrom(w, pending, t, n)
  }

  ghost predicate MemoryOk(w: Wire, acked: Versions, pending: map<nat, SentList>, tombstones: map<nat, nat>,
                           forgotten: set<nat>) {
    && Listed(w, pending)
    && forall t, n :: CarriedAt(w, t, n, 0) ==> Remembered(w, acked, pending, tombstones, forgotten, t, n)
  }

  /** A pending record lists all that its snapshot carried. */
  ghost predicate Listed(w: Wire, pending: map<nat, SentList>) {
    forall t, n :: t in pending && CarriedAt(w, t, n, 0) ==> (n, w.carried[t][n]) in pending[t]
  }

  /** What a snapshot forgets: the entities of the records that its own record pushes out,
      and tombstones cancelled by the return of an entity that has no version to send. */
  ghost function Forgotten(pending: map<nat, SentList>, after: map<nat, SentList>, tombstones: map<nat, nat>,
                           visible: set<nat>, now: Versions): set<nat> {
    (set t, p | t in pending && t !in after && p in pending[t] :: p.0)
      + set n | n in tombstones && n in visible && Acked(now, n) == 0
  }

  /** The record of the newest snapshot is never the one pushed out. */
  lemma NewestIsKept(pending: map<nat, SentList>, after: map<nat, SentList>, tick: nat, sent: SentList)
    requires Recorded(pending, after, tick, sent) && sent != [] && forall t :: t in pending ==> t < tick
    ensures tick in after && after[tick] == sent
  {
    var all := pending[tick := sent];
    assert tick in all;
    if |all| > MAX_PENDING {
      var kept :| kept in after;
      assert kept <= tick;
    }
  }

  lemma SendKeepsMemory(w: Wire, w': Wire, lastTick: nat, tick: nat, visible: set<nat>, now: Versions, acked: Versions,
                        after: Versions, pending: map<nat, SentList>, pending': map<nat, SentList>, sent: SentList,
                        tombstones: map<nat, nat>, tombstones': map<nat, nat>, forgotten: set<nat>)
    requires WireOk(w, lastTick) && WireOk(w', tick) && Extends(w, w') && lastTick < tick
    requires MemoryOk(w, acked, pending, tombstones, forgotten) && PendingOk(w, pending)
    requires w' == Sent(w, tick, visible, now, Lacked(visible, now, acked), tombstones'.Keys)
    requires Records(sent, Lacked(visible, now, acked), now) && Recorded(pending, pending', tick, sent)
    requires after == map n | n in acked && n in visible :: acked[n]
    requires tombstones'.Keys == (tombstones.Keys + acked.Keys) - visible
    ensures MemoryOk(w', after, pending', tombstones',
                     forgotten + Forgotten(pending, pending', tombstones, visible, now))
  {
    TicksAreOld(w, lastTick, pending);
    if sent != [] { NewestIsKept(pending, pending', tick, sent); }
    SentListed(w, w', tick, visible, now, acked, pending, pending', sent);
    hide Listed, Recorded, PendingOk, Forgotten, Remembered, WireOk, Sent, Lacked, Records, Extends;
    forall t: nat, n: nat | CarriedAt(w', t, n, 0)
      ensures Remembered(w', after, pending', tombstones',
                         forgotten + Forgotten(pending, pending', tombstones, visible, now), t, n)
    {
      MemoryStays(w, w', lastTick, tick, visible, now, acked, after, pending, pending', sent,
                  tombstones, tombstones', forgotten, t, n);
    }
  }

  lemma MemoryStays(w: Wire, w': Wire, lastTick: nat, tick: nat, visible: set<nat>, now: Versions, acked: Versions,
                    after: Versions, pending: map<nat, SentList>, pending': map<nat, SentList>, sent: SentList,
                    tombstones: map<nat, nat>, tombstones': map<nat, nat>, forgotten: set<nat>, t: nat, n: nat)
    requires WireOk(w, lastTick) && Extends(w, w') && lastTick < tick && Listed(w, pending)
    requires MemoryOk(w, acked, pending, tombstones, forgotten)
    requires w' == Sent(w, tick, visible, now, Lacked(visible, now, acked), tombstones'.Keys)
    requires Records(sent, Lacked(visible, now, acked), now) && Recorded(pending, pending', tick, sent)
    requires sent != [] ==> tick in pending'
    requires after == map m | m in acked && m in visible :: acked[m]
    requires tombstones'.Keys == (tombstones.Keys + acked.Keys) - visible
    requires CarriedAt(w', t, n, 0)
    ensures Remembered(w', after, pending', tombstones',
                       forgotten + Forgotten(pending, pending', tombstones, visible, now), t, n)
  {
    var lacked, more := Lacked(visible, now, acked), forgotten + Forgotten(pending, pending', tombstones, visible, now);
    hide Listed, Recorded, Forgotten, Remembered, Lacked, Records, Extends;
    if t == tick {
      NewIsPending(w', tick, lacked, now, after, pending', sent, tombstones', more, n);
    } else {
      assert CarriedAt(w, t, n, 0) && t <= lastTick;
      OldMemoryStays(w, w', lastTick, tick, visible, now, acked, after, pending, pending', sent,
                     tombstones, tombstones', forgotten, t, n);
    }
  }

  lemma TicksAreOld(w: Wire, lastTick: nat, pending: map<nat, SentList>)
    requires WireOk(w, lastTick) && PendingOk(w, pending)
    ensures forall t :: t in w.carried ==> t <= lastTick
    ensures forall t :: t in pending ==> t <= lastTick
  {
  }

  lemma NewIsPending(w: Wire, tick: nat, lacked: set<nat>, now: Versions, acked: Versions, pending: map<nat, SentList>,
                     sent: SentList, tombstones: map<nat, nat>, forgotten: set<nat>, n: nat)
    requires Records(sent, lacked, now) && n in lacked && CarriedAt(w, tick, n, 0)
    requires sent != [] ==> tick in pending
    ensures Remembered(w, acked, pending, tombstones, forgotten, tick, n)
  {
    assert (n, Acked(now, n)) in sent;
    assert PendingFrom(w, pending, tick, n);
  }

  lemma SentListed(w: Wire, w': Wire, tick: nat, visible: set<nat>, now: Versions, acked: Versions,
                   pending: map<nat, SentList>, pending': map<nat, SentList>, sent: SentList)
    requires w'.carried == w.carried[tick := Picked(Lacked(visible, now, acked), now)]
    requires Records(sent, Lacked(visible, now, acked), now)
    requires Recorded(pending, pending', tick, sent) && tick !in pending
    requires Listed(w, pending)
    ensures Listed(w', pending')
  {
    forall t, n | t in pending' && CarriedAt(w', t, n, 0) ensures (n, w'.carried[t][n]) in pending'[t] {
      if t != tick { assert CarriedAt(w, t, n, 0); }
    }
  }

  lemma OldMemoryStays(w: Wire, w': Wire, lastTick: nat, tick: nat, visible: set<nat>, now: Versions, acked: Versions,
                       after: Versions, pending: map<nat, SentList>, pending': map<nat, SentList>, sent: SentList,
                       tombstones: map<nat, nat>, tombstones': map<nat, nat>, forgotten: set<nat>, t: nat, n: nat)
    requires WireOk(w, lastTick) && Extends(w, w') && lastTick < tick && t <= lastTick
    requires Remembered(w, acked, pending, tombstones, forgotten, t, n)
    requires Listed(w, pending)
    requires w' == Sent(w, tick, visible, now, Lacked(visible, now, acked), tombstones'.Keys)
    requires Records(sent, Lacked(visible, now, acked), now) && Recorded(pending, pending', tick, sent)
    requires sent != [] ==> tick in pending'
    requires after == map m | m in acked && m in visible :: acked[m]
    requires tombstones'.Keys == (tombstones.Keys + acked.Keys) - visible
    ensures Remembered(w', after, pending', tombstones',
                       forgotten + Forgotten(pending, pending', tombstones, visible, now), t, n)
  {
    hide Listed, RemovedAfter, PendingFrom, WireOk, Extends, CarriedAt;
    if RemovedAfter(w, w.acknowledged, t, n) {
      RemovalStays(w, w', lastTick, tick, t, n);
    } else if n in tombstones && n in visible && n !in acked && Acked(now, n) > 0 {
      ReturnIsPending(w, w', lastTick, tick, visible, now, acked, pending', sent, t, n);
    } else if n !in acked && n !in tombstones && PendingFrom(w, pending, t, n) {
      RecordStays(w, w', tick, pending, pending', sent, t, n);
    }
  }

  lemma RemovalStays(w: Wire, w': Wire, lastTick: nat, tick: nat, t: nat, n: nat)
    requires WireOk(w, lastTick) && lastTick < tick && w'.acknowledged == w.acknowledged
    requires forall u :: u in w.removed && u != tick ==> u in w'.removed && w'.removed[u] == w.removed[u]
    requires RemovedAfter(w, w.acknowledged, t, n)
    ensures RemovedAfter(w', w'.acknowledged, t, n)
  {
    var u :| u in w.acknowledged && RemovedAt(w, u, n) && t < u;
    assert RemovedAt(w', u, n);
  }

  /** The snapshot that sees a removed entity return carries it again. */
  lemma ReturnIsPending(w: Wire, w': Wire, lastTick: nat, tick: nat, visible: set<nat>, now: Versions, acked: Versions,
                        pending': map<nat, SentList>, sent: SentList, t: nat, n: nat)
    requires w'.carried == w.carried[tick := Picked(Lacked(visible, now, acked), now)]
    requires Records(sent, Lacked(visible, now, acked), now) && (sent != [] ==> tick in pending')
    requires n in visible && n !in acked && Acked(now, n) > 0 && t <= lastTick < tick
    ensures PendingFrom(w', pending', t, n)
  {
    assert n in Lacked(visible, now, acked);
    assert (n, Acked(now, n)) in sent && CarriedAt(w', tick, n, 0);
  }

  lemma RecordStays(w: Wire, w': Wire, tick: nat, pending: map<nat, SentList>, pending': map<nat, SentList>,
                    sent: SentList, t: nat, n: nat)
    requires Extends(w, w') && Recorded(pending, pending', tick, sent) && PendingFrom(w, pending, t, n)
    requires Listed(w, pending)
    ensures PendingFrom(w', pending', t, n)
      || exists u, p :: u in pending && u !in pending' && p in pending[u] && p.0 == n
  {
    var u :| t <= u && u in pending && CarriedAt(w, u, n, 0);
    assert (n, w.carried[u][n]) in pending[u];
    if u in pending' { assert CarriedAt(w', u, n, 0); }
  }

  lemma AckKeepsMemory(w: Wire, lastTick: nat, tick: nat, acked: Versions, after: Versions, pending: map<nat, SentList>,
                       tombstones: map<nat, nat>, forgotten: set<nat>)
    requires WireOk(w, lastTick) && tick in w.received && TombstonesOk(w, tombstones)
    requires MemoryOk(w, acked, pending, tombstones, forgotten)
    requires Raised(acked, after, Carried(pending, UpTo(pending, tick)))
    ensures MemoryOk(AckTaken(w, acked, after, tick), after, Later(pending, tick), Unconfirmed(tombstones, tick),
                     forgotten)
  {
    var w' := AckTaken(w, acked, after, tick);
    assert w'.acknowledged == w.acknowledged + {tick} && w'.carried == w.carried && w'.removed == w.removed;
    hide Listed, AckTaken, Carried, UpTo, Later, Unconfirmed, Raised, Remembered, TombstonesOk;
    forall t: nat, n: nat | CarriedAt(w', t, n, 0)
      ensures Remembered(w', after, Later(pending, tick), Unconfirmed(tombstones, tick), forgotten, t, n)
    {
      assert CarriedAt(w, t, n, 0) && Remembered(w, acked, pending, tombstones, forgotten, t, n);
      AckedMemoryStays(w, w', lastTick, tick, acked, after, pending, tombstones, forgotten, t, n);
    }
    LaterListed(w, w', tick, pending);
  }

  lemma LaterListed(w: Wire, w': Wire, tick: nat, pending: map<nat, SentList>)
    requires w'.carried == w.carried
    requires Listed(w, pending)
    ensures Listed(w', Later(pending, tick))
  {
    forall t, n | t in Later(pending, tick) && CarriedAt(w', t, n, 0)
      ensures (n, w'.carried[t][n]) in Later(pending, tick)[t]
    {
      assert CarriedAt(w, t, n, 0);
    }
  }

  lemma AckedMemoryStays(w: Wire, w': Wire, lastTick: nat, tick: nat, acked: Versions, after: Versions,
                         pending: map<nat, SentList>, tombstones: map<nat, nat>, forgotten: set<nat>, t: nat, n: nat)
    requires WireOk(w, lastTick) && tick in w.received && TombstonesOk(w, tombstones)
    requires Listed(w, pending)
    requires Raised(acked, after, Carried(pending, UpTo(pending, tick)))
    requires w'.acknowledged == w.acknowledged + {tick} && w'.carried == w.carried && w'.removed == w.removed
    requires CarriedAt(w, t, n, 0) && Remembered(w, acked, pending, tombstones, forgotten, t, n)
    ensures Remembered(w', after, Later(pending, tick), Unconfirmed(tombstones, tick), forgotten, t, n)
  {
    hide Carried, UpTo;
    if RemovedAfter(w, w.acknowledged, t, n) {
      var u :| u in w.acknowledged && RemovedAt(w, u, n) && t < u;
      assert RemovedAt(w', u, n);
    } else if n in tombstones && n !in Unconfirmed(tombstones, tick) {
      assert CarriedCurrent(w, t, n);
      assert RemovedAt(w', tick, n) && t < tick;
    } else if n !in acked && PendingFrom(w, pending, t, n) {
      FoldedOrLater(w, w', tick, pending, t, n);
    }
  }

  lemma FoldedOrLater(w: Wire, w': Wire, tick: nat, pending: map<nat, SentList>, t: nat, n: nat)
    requires PendingFrom(w, pending, t, n) && w'.carried == w.carried
    requires Listed(w, pending)
    ensures PendingFrom(w', Later(pending, tick), t, n) || exists v :: (n, v) in Carried(pending, UpTo(pending, tick))
  {
    var u :| t <= u && u in pending && CarriedAt(w, u, n, 0);
    if u <= tick {
      assert (n, w.carried[u][n]) in Carried(pending, UpTo(pending, tick));
    } else {
      assert CarriedAt(w', u, n, 0);
    }
  }

  lemma DeliveryKeepsMemory(w: Wire, t: nat, acked: Versions, pending: map<nat, SentList>, tombstones: map<nat, nat>,
                            forgotten: set<nat>)
    requires MemoryOk(w, acked, pending, tombstones, forgotten)
    ensures MemoryOk(Delivered(w, t), acked, pending, tombstones, forgotten)
  {
    var w' := Delivered(w, t);
    forall u: nat, n: nat | CarriedAt(w', u, n, 0) ensures Remembered(w', acked, pending, tombstones, forgotten, u, n) {
      assert CarriedAt(w, u, n, 0) && Remembered(w, acked, pending, tombstones, forgotten, u, n);
      if PendingFrom(w, pending, u, n) {
        var x :| u <= x && x in pending && CarriedAt(w, x, n, 0);
        assert CarriedAt(w', x, n, 0);
      }
      if RemovedAfter(w, w.acknowledged, u, n) {
        var x :| x in w.acknowledged && RemovedAt(w, x, n) && u < x;
        assert RemovedAt(w', x, n);
      }
    }
    forall u, n | u in pending && CarriedAt(w', u, n, 0) ensures (n, w'.carried[u][n]) in pending[u] {
      assert CarriedAt(w, u, n, 0);
    }
  }

  /** The server has an entry of some kind for n: it is acked, to be removed, or in a
      pending record. */
  ghost predicate HasEntry(w: Wire, acked: Versions, pending: map<nat, SentList>, tombstones: map<nat, nat>, n: nat) {
    n in acked || n in tombstones || PendingFrom(w, pending, 0, n)
  }

  /** What the client holds and is not forgotten, the server has an entry for. */
  lemma HeldIsRemembered(w: Wire, acked: Versions, pending: map<nat, SentList>, tombstones: map<nat, nat>,
                         forgotten: set<nat>, n: nat)
    requires MemoryOk(w, acked, pending, tombstones, forgotten) && w.acknowledged <= w.received
    requires HeldBy(w, w.received, n, 0) && n !in forgotten
    ensures HasEntry(w, acked, pending, tombstones, n)
  {
    var t :| t in w.received && CarriedAt(w, t, n, 0) && !RemovedAfter(w, w.received, t, n);
    assert Remembered(w, acked, pending, tombstones, forgotten, t, n);
    assert !RemovedAfter(w, w.acknowledged, t, n);
  }

  /** A tombstone that was pending keeps its date; a new one gets this tick. */
  ghost predicate DatesKept(before: map<nat, nat>, after: map<nat, nat>, tick: nat) {
    forall n :: n in after ==> after[n] == if n in before then before[n] else tick
  }

  /** A tombstone queued before keeps its date. */
  function DateOf(tombstones: map<nat, nat>, n: nat): nat {
    if n in tombstones then tombstones[n] else UNSENT
  }

  /** The merge of two sorted lists: what is in the first and not in the second. */
  method Departures(acked: seq<nat>, visible: seq<nat>) returns (gone: seq<nat>)
    requires Sorted(acked) && Sorted(visible)
    ensures Elements(gone) == Elements(acked) - Elements(visible)
  {
    gone := [];
    var vi := 0;
    for i := 0 to |acked|
      invariant 0 <= vi <= |visible|
      invariant forall k :: 0 <= k < vi && i < |acked| ==> visible[k] < acked[i]
      invariant forall n :: n in gone <==> n in acked[..i] && n !in visible
    {
      var n := acked[i];
      while vi < |visible| && visible[vi] < n
        invariant 0 <= vi <= |visible|
        invariant forall k :: 0 <= k < vi ==> visible[k] < n
      {
        vi := vi + 1;
      }
      assert n in visible <==> vi < |visible| && visible[vi] == n;
      if vi >= |visible| || visible[vi] != n { gone := gone + [n]; }
      assert acked[..i + 1] == acked[..i] + [n];
    }
    assert acked[..|acked|] == acked;
  }

  // ---- The session ---------------------------------------------------------

  class ClientSession {
    const base: ClientBaseline
    var versions: Versions   // the server's current version of every entity
    var lastTick: nat
    ghost var w: Wire
    ghost var forgotten: set<nat>  // entities the server may have lost track of

    ghost predicate Valid()
      reads this, base
    {
      && SessionOk(w, lastTick, base.acked, base.pending, base.tombstones)
      && MemoryOk(w, base.acked, base.pending, base.tombstones, forgotten)
    }

    constructor ()
      ensures Valid() && fresh(base) && lastTick == 0 && versions == map[]
      ensures w == Wire(map[], map[], map[], map[], map[], {}, {}, {})
      ensures base.acked == map[] && base.pending == map[] && base.tombstones == map[] && forgotten == {}
    {
      base := new ClientBaseline();
      forgotten := {};
      versions, lastTick, w := map[], 0, Wire(map[], map[], map[], map[], map[], {}, {}, {});
    }

    lemma Facts()
      requires Valid()
      ensures WireOk(w, lastTick) && PendingOk(w, base.pending)
      ensures SuspectsExact(w, base.acked) && TombstonesOk(w, base.tombstones)
      ensures MemoryOk(w, base.acked, base.pending, base.tombstones, forgotten)
    {
      hide MemoryOk;
    }

    /** No pending tombstone waits for its first snapshot between two calls. */
    lemma Dated()
      requires Valid()
      ensures forall n :: n in base.tombstones ==> base.tombstones[n] != UNSENT
    {
      hide MemoryOk, WireOk, LeftOutOk, PendingOk, SuspectsExact;
    }

    lemma Memory()
      requires Valid()
      ensures forall n :: HeldBy(w, w.received, n, 0) && n !in forgotten ==>
        HasEntry(w, base.acked, base.pending, base.tombstones, n)
    {
      hide HasEntry, HeldBy;
      forall n | HeldBy(w, w.received, n, 0) && n !in forgotten
        ensures HasEntry(w, base.acked, base.pending, base.tombstones, n)
      {
        HeldIsRemembered(w, base.acked, base.pending, base.tombstones, forgotten, n);
      }
    }

    lemma ReceivedAndHeld()
      requires Valid()
      ensures forall n :: n in base.acked ==> (n !in w.suspect <==> GotWhateverArrived(w, n, base.acked[n]))
      ensures forall n :: n in base.acked && n !in w.suspect ==> Got(w, n, base.acked[n])
      ensures forall n, v :: HeldWhateverArrived(w, n, v) <==> NeverRemovedSince(w, n, v)
    {
      hide GotWhateverArrived, Got, HeldWhateverArrived, NeverRemovedSince;
      forall n | n in base.acked
        ensures n !in w.suspect <==> GotWhateverArrived(w, n, base.acked[n])
        ensures n !in w.suspect ==> Got(w, n, base.acked[n])
      {
        ReceivedWhateverArrived(w, lastTick, base.acked, n);
      }
      forall n, v ensures HeldWhateverArrived(w, n, v) <==> NeverRemovedSince(w, n, v) {
        HeldExactly(w, lastTick, n, v);
      }
    }

    /** New versions after a simulation step. */
    method Publish(now: Versions)
      requires Valid()
      modifies this`versions
      ensures Valid() && versions == now
    {
      versions := now;
    }

    /** The interest set's entities whose version is past the baseline, in order. */
    method ChangedFor(visible: seq<nat>) returns (changed: seq<nat>)
      requires Sorted(visible)
      ensures Sorted(changed) && Elements(changed) == Lacked(Elements(visible), versions, base.acked)
    {
      changed := [];
      for i := 0 to |visible|
        invariant Sorted(changed) && forall j :: 0 <= j < |changed| ==> i < |visible| ==> changed[j] < visible[i]
        invariant forall n :: n in changed <==> n in visible[..i] && Acked(versions, n) > Acked(base.acked, n)
      {
        if base.Needs(visible[i], Acked(versions, visible[i])) { changed := changed + [visible[i]]; }
        assert visible[..i + 1] == visible[..i] + [visible[i]];
      }
      assert visible[..|visible|] == visible;
    }

    /** Reconciles the pending removals with the live interest set: acknowledged entities
        that left it are queued, queued ones that came back are cancelled. */
    method TombstonesFor(visible: seq<nat>) returns (out: seq<nat>)
      requires Sorted(visible)
      modifies base`acked, base`tombstones
      ensures Sorted(out) && Elements(out) == base.tombstones.Keys
      ensures base.acked == map n | n in old(base.acked) && n in visible :: old(base.acked)[n]
      ensures base.tombstones.Keys == (old(base.tombstones).Keys + old(base.acked).Keys) - Elements(visible)
      ensures forall n :: n in base.tombstones ==>
        base.tombstones[n] == DateOf(old(base.tombstones), n)
    {
      var acked := base.CollectAcked();
      QueueDepartures(acked, visible);
      CancelReturned(visible);
      out := base.CollectTombstones();
    }

    /** Queues a removal for every acknowledged entity that is not visible. */
    method QueueDepartures(acked: seq<nat>, visible: seq<nat>)
      requires Sorted(acked) && Sorted(visible) && Elements(acked) == base.acked.Keys
      modifies base`acked, base`tombstones
      ensures base.acked == map n | n in old(base.acked) && n in visible :: old(base.acked)[n]
      ensures base.tombstones.Keys == old(base.tombstones).Keys + (old(base.acked).Keys - Elements(visible))
      ensures forall n :: n in base.tombstones ==>
        base.tombstones[n] == DateOf(old(base.tombstones), n)
    {
      var gone := Departures(acked, visible);
      for i := 0 to |gone|
        invariant base.acked == old(base.acked) - Elements(gone[..i])
        invariant base.tombstones.Keys == old(base.tombstones).Keys + Elements(gone[..i])
        invariant forall n :: n in base.tombstones ==> base.tombstones[n] == DateOf(old(base.tombstones), n)
      {
        assert Elements(gone[..i + 1]) == Elements(gone[..i]) + {gone[i]};
        base.Tombstone(gone[i]);
      }
      assert gone[..|gone|] == gone;
      assert forall n :: n in old(base.acked) ==> n in Elements(acked);
    }

    method CancelReturned(visible: seq<nat>)
      modifies base`tombstones
      ensures base.tombstones == old(base.tombstones) - Elements(visible)
    {
      for i := 0 to |visible|
        invariant base.tombstones == old(base.tombstones) - Elements(visible[..i])
      {
        base.Untombstone(visible[i]);
        assert Elements(visible[..i + 1]) == Elements(visible[..i]) + {visible[i]};
      }
      assert visible[..|visible|] == visible;
    }

    /** The record of the snapshot: the given entities at their current versions. */
    method SentRecord(netIds: seq<nat>) returns (sent: SentList)
      ensures |sent| == |netIds|
      ensures forall i :: 0 <= i < |sent| ==> sent[i] == (netIds[i], Acked(versions, netIds[i]))
    {
      sent := [];
      for i := 0 to |netIds|
        invariant |sent| == i && forall j :: 0 <= j < i ==> sent[j] == (netIds[j], Acked(versions, netIds[j]))
      {
        sent := sent + [(netIds[i], Acked(versions, netIds[i]))];
      }
    }

    /** The server's side of one complete snapshot. */
    method BuildAndRecord(tick: nat, visible: seq<nat>) returns (sent: SentList, removed: seq<nat>)
      requires Valid() && Sorted(visible)
      modifies base
      ensures Records(sent, Lacked(Elements(visible), versions, old(base.acked)), versions)
      ensures Sorted(removed) && Elements(removed) == base.tombstones.Keys
      ensures base.acked == map n | n in old(base.acked) && n in visible :: old(base.acked)[n]
      ensures Recorded(old(base.pending), base.pending, tick, sent)
      ensures base.tombstones.Keys == (old(base.tombstones).Keys + old(base.acked).Keys) - Elements(visible)
      ensures DatesKept(old(base.tombstones), base.tombstones, tick)
    {
      Dated();
      hide Sorted, Recorded, Lacked, Records, SessionOk, MemoryOk;
      var lacked := ChangedFor(visible);
      removed := TombstonesFor(visible);
      sent := SentRecord(lacked);
      RecordIsExact(sent, lacked);
      base.RecordSent(tick, sent);
      base.RecordTombstonesSent(tick, removed);
      assert forall n :: n in base.tombstones ==> n in Elements(removed);
    }

    /** Builds, records and sends one complete snapshot: all that changed, all pending removals. */
    method SendSnapshot(tick: nat, visible: seq<nat>) returns (sent: SentList, removed: seq<nat>)
      requires Valid() && Sorted(visible) && lastTick < tick < UNSENT
      modifies this`lastTick, this`w, this`forgotten, base
      ensures Valid() && lastTick == tick
      ensures forgotten == old(forgotten)
        + Forgotten(old(base.pending), base.pending, old(base.tombstones), Elements(visible), versions)
      ensures Records(sent, Lacked(Elements(visible), versions, old(base.acked)), versions)
      ensures Sorted(removed) && Elements(removed) == base.tombstones.Keys
      ensures w == Sent(old(w), tick, Elements(visible), versions,
                        Lacked(Elements(visible), versions, old(base.acked)), Elements(removed))
      ensures base.acked == map n | n in old(base.acked) && n in visible :: old(base.acked)[n]
      ensures Recorded(old(base.pending), base.pending, tick, sent)
      ensures base.tombstones.Keys == (old(base.tombstones).Keys + old(base.acked).Keys) - Elements(visible)
      ensures DatesKept(old(base.tombstones), base.tombstones, tick)
    {
      hide Sorted, SessionOk, MemoryOk, Forgotten, Recorded, Sent, Lacked, Records, DatesKept;
      sent, removed := BuildAndRecord(tick, visible);
      ghost var acked, pending, tombstones := old(base.acked), old(base.pending), old(base.tombstones);
      SendKeepsSession(w, lastTick, tick, Elements(visible), versions, acked, base.acked, pending, base.pending, sent,
                       tombstones, base.tombstones, forgotten);
      forgotten := forgotten
        + Forgotten(old(base.pending), base.pending, old(base.tombstones), Elements(visible), versions);
      w := Sent(w, tick, Elements(visible), versions, Lacked(Elements(visible), versions, old(base.acked)),
                Elements(removed));
      lastTick := tick;
    }

    lemma SendKeepsSession(w: Wire, lastTick: nat, tick: nat, visible: set<nat>, now: Versions, acked: Versions,
                           after: Versions,
                           pending: map<nat, SentList>, pending': map<nat, SentList>, sent: SentList,
                           tombstones: map<nat, nat>, tombstones': map<nat, nat>, forgotten: set<nat>)
      requires SessionOk(w, lastTick, acked, pending, tombstones) && lastTick < tick < UNSENT
      requires MemoryOk(w, acked, pending, tombstones, forgotten)
      requires tombstones'.Keys == (tombstones.Keys + acked.Keys) - visible
      requires Records(sent, Lacked(visible, now, acked), now) && Recorded(pending, pending', tick, sent)
      requires after == map n | n in acked && n in visible :: acked[n]
      requires DatesKept(tombstones, tombstones', tick)
      ensures SessionOk(Sent(w, tick, visible, now, Lacked(visible, now, acked), tombstones'.Keys), tick, after,
                        pending', tombstones')
      ensures MemoryOk(Sent(w, tick, visible, now, Lacked(visible, now, acked), tombstones'.Keys), after, pending',
                       tombstones', forgotten + Forgotten(pending, pending', tombstones, visible, now))
    {
      var w' := Sent(w, tick, visible, now, Lacked(visible, now, acked), tombstones'.Keys);
      AcksWereSent(w, lastTick);
      assert w'.removed == w.removed[tick := tombstones'.Keys];
      assert w'.acknowledged == w.acknowledged && w'.suspect == w.suspect * visible;
      hide WireOk, LeftOutOk, PendingOk, SuspectsExact, TombstonesOk, MemoryOk, Recorded, Records, Lacked, Sent;
      hide Forgotten, Extends, DatesKept;
      SendKeepsWire(w, w', lastTick, tick, visible, now, acked, tombstones'.Keys);
      SendKeepsLeftOut(w, w', lastTick, tick, visible, now, acked, tombstones'.Keys);
      SendKeepsPending(w, w', lastTick, tick, visible, now, Lacked(visible, now, acked), tombstones'.Keys,
                       pending, pending', sent);
      SendKeepsSuspects(w, w', visible, acked, after);
      SendKeepsTombstones(w, w', lastTick, tick, tombstones, tombstones');
      SendKeepsMemory(w, w', lastTick, tick, visible, now, acked, after, pending, pending', sent,
                      tombstones, tombstones', forgotten);
    }

    lemma AcksWereSent(w: Wire, lastTick: nat)
      requires WireOk(w, lastTick)
      ensures w.acknowledged <= w.carried.Keys
    {
    }

    lemma RecordIsExact(sent: SentList, lacked: seq<nat>)
      requires |sent| == |lacked| && forall i :: 0 <= i < |sent| ==> sent[i] == (lacked[i], Acked(versions, lacked[i]))
      ensures Records(sent, Elements(lacked), versions)
    {
      forall n | n in lacked ensures (n, Acked(versions, n)) in sent {
        var i :| 0 <= i < |lacked| && lacked[i] == n;
        assert sent[i] == (n, Acked(versions, n));
      }
    }

    lemma SendKeepsTombstones(w: Wire, w': Wire, lastTick: nat, tick: nat, before: map<nat, nat>, after: map<nat, nat>)
      requires WireOk(w, lastTick) && TombstonesOk(w, before) && lastTick < tick < UNSENT
      requires w'.removed == w.removed[tick := after.Keys]
      requires DatesKept(before, after, tick)
      ensures TombstonesOk(w', after)
    {
    }

    /** The channel delivers a snapshot it was given, perhaps not for the first time. */
    ghost method Receive(t: nat)
      requires Valid() && t in w.carried
      modifies this`w
      ensures Valid() && w == Delivered(old(w), t)
    {
      hide SessionOk, MemoryOk;
      DeliveryKeeps(w, lastTick, t, base.acked, base.pending, base.tombstones);
      DeliveryKeepsMemory(w, t, base.acked, base.pending, base.tombstones, forgotten);
      w := Delivered(w, t);
    }

    /** An ack of a received snapshot arrives, perhaps late or again. A tombstone it
        clears was in that snapshot. */
    method AckArrives(tick: nat)
      requires Valid() && tick in w.received
      modifies this`w, base
      ensures Valid()
      ensures Raised(old(base.acked), base.acked, Carried(old(base.pending), UpTo(old(base.pending), tick)))
      ensures base.pending == Later(old(base.pending), tick)
      ensures base.tombstones == Unconfirmed(old(base.tombstones), tick)
      ensures w == AckTaken(old(w), old(base.acked), base.acked, tick)
      ensures forall n :: n in old(base.tombstones) && n !in base.tombstones ==>
        tick in w.removed && n in w.removed[tick]
    {
      hide LeftOutOk, SuspectsExact, PendingOk, MemoryOk, Carried, UpTo, Raised, Marked;
      base.Ack(tick);
      ghost var before, after := old(base.acked), base.acked;
      AckKeepsSession(w, lastTick, tick, before, after, old(base.pending), old(base.tombstones));
      AckKeepsMemory(w, lastTick, tick, before, after, old(base.pending), old(base.tombstones), forgotten);
      FewerPending(w, AckTaken(w, before, after, tick), old(base.pending), base.pending);
      w := AckTaken(w, before, after, tick);
    }

    lemma AckKeepsSession(w: Wire, lastTick: nat, tick: nat, acked: Versions, after: Versions,
                          pending: map<nat, SentList>, tombstones: map<nat, nat>)
      requires SessionOk(w, lastTick, acked, pending, tombstones) && tick in w.received
      requires Raised(acked, after, Carried(pending, UpTo(pending, tick)))
      ensures var w' := AckTaken(w, acked, after, tick);
        WireOk(w', lastTick) && LeftOutOk(w') && SuspectsExact(w', after)
    {
      hide LeftOutOk, PendingOk, Carried, UpTo, Marked;
      RaisedStaysPositive(w, lastTick, tick, acked, pending, after);
      AckKeepsLeftOut(w, lastTick, tick, acked, after);
      AckKeepsSuspects(w, lastTick, tick, acked, after);
    }

    lemma FewerPending(w: Wire, w': Wire, pending: map<nat, SentList>, after: map<nat, SentList>)
      requires PendingOk(w, pending) && forall t :: t in after ==> t in pending && after[t] == pending[t]
      requires w'.carried == w.carried
      ensures PendingOk(w', after)
    {
      forall t, i | t in after && 0 <= i < |after[t]| ensures PairSent(w', t, after[t][i]) {
        assert PairSent(w, t, pending[t][i]);
      }
    }
  }

  // ---- Whole runs ----------------------------------------------------------

  datatype Event =
    | NewVersions(now: Versions)
    | Snapshot(tick: nat, visible: set<nat>)
    | Arrives(tick: nat)     // a sent snapshot reaches the client
    | AckArrives(tick: nat)  // an ack of a received snapshot reaches the server

  ghost function VersionsAfter(events: seq<Event>): Versions {
    if events == [] then map[]
    else match events[|events| - 1]
      case NewVersions(now) => now
      case _ => VersionsAfter(events[..|events| - 1])
  }

  /** The tick of the last snapshot taken: each must be newer than those before it. */
  ghost function LastTick(events: seq<Event>): nat {
    if events == [] then 0
    else
      var last := LastTick(events[..|events| - 1]);
      match events[|events| - 1]
      case Snapshot(tick, _) => if last < tick < UNSENT then tick else last
      case _ => last
  }

  ghost function SentTicks(events: seq<Event>): set<nat> {
    if events == [] then {}
    else
      var past := events[..|events| - 1];
      match events[|events| - 1]
      case Snapshot(tick, _) => if LastTick(past) < tick < UNSENT then SentTicks(past) + {tick} else SentTicks(past)
      case _ => SentTicks(past)
  }

  /** The snapshots that reached the client: only what was sent can. */
  ghost function ArrivedTicks(events: seq<Event>): set<nat> {
    if events == [] then {}
    else
      var past := events[..|events| - 1];
      match events[|events| - 1]
      case Arrives(tick) => if tick in SentTicks(past) then ArrivedTicks(past) + {tick} else ArrivedTicks(past)
      case _ => ArrivedTicks(past)
  }

  /** How the pending tombstones change in the last event of a run. */
  ghost predicate TombstoneStep(events: seq<Event>, before: map<nat, nat>, after: map<nat, nat>)
    requires events != []
  {
    var past := events[..|events| - 1];
    match events[|events| - 1]
    case Snapshot(tick, visible) =>
      if LastTick(past) < tick < UNSENT
      then after.Keys !! visible && before.Keys - visible <= after.Keys && DatesKept(before, after, tick)
      else after == before
    case AckArrives(tick) =>
      if tick in ArrivedTicks(past)
      then after.Keys <= before.Keys && forall n :: n in before ==>
        (n in after <==> tick < before[n]) && (n in after ==> after[n] == before[n])
      else after == before
    case _ => after == before
  }

  /** Every snapshot is built for the same interest set, and versions never fall. */
  ghost predicate Steady(events: seq<Event>, home: set<nat>) {
    events == [] || (
      && Steady(events[..|events| - 1], home)
      && match events[|events| - 1]
         case Snapshot(_, visible) => visible == home
         case NewVersions(now) => NeverFall(VersionsAfter(events[..|events| - 1]), now)
         case _ => true)
  }

  ghost predicate NeverFall(before: Versions, now: Versions) {
    forall n :: Acked(before, n) <= Acked(now, n)
  }

  /** What a steady run keeps: nothing is ever suspect. */
  ghost predicate SteadyOk(w: Wire, now: Versions, home: set<nat>) {
    && w.suspect == {}
    && (forall t :: t in w.carried ==> t in w.shown && w.shown[t] == home && t in w.doubted && w.doubted[t] == {})
    && (forall t :: t in w.carried ==> t in w.current && NeverFall(w.current[t], now))
    && (forall t, u :: t in w.carried && u in w.carried && t <= u ==> NeverFall(w.current[t], w.current[u]))
  }

  lemma SteadySend(w: Wire, lastTick: nat, tick: nat, now: Versions, home: set<nat>, lacked: set<nat>, tombs: set<nat>)
    requires WireOk(w, lastTick) && SteadyOk(w, now, home) && lastTick < tick
    ensures SteadyOk(Sent(w, tick, home, now, lacked, tombs), now, home)
  {
    hide NeverFall;
    assert NeverFall(now, now) by { SameVersions(now); }
  }

  lemma SameVersions(now: Versions)
    ensures NeverFall(now, now)
  {
  }

  lemma SteadyPublish(w: Wire, before: Versions, now: Versions, home: set<nat>)
    requires SteadyOk(w, before, home) && NeverFall(before, now)
    ensures SteadyOk(w, now, home)
  {
    forall t | t in w.carried ensures NeverFall(w.current[t], now) {
      assert NeverFall(w.current[t], before);
    }
  }

  /** With one interest set and growing versions every acknowledged snapshot settles all it folds in. */
  lemma SteadyAck(w: Wire, lastTick: nat, tick: nat, now: Versions, home: set<nat>, acked: Versions, after: Versions,
                  pending: map<nat, SentList>)
    requires WireOk(w, lastTick) && PendingOk(w, pending) && SteadyOk(w, now, home) && tick in w.received
    requires Raised(acked, after, Carried(pending, UpTo(pending, tick)))
    ensures SteadyOk(AckTaken(w, acked, after, tick), now, home)
  {
    hide PendingOk, Carried, UpTo;
    forall n | n in after && (n !in acked || acked[n] != after[n]) ensures Settled(w, tick, n, after[n]) {
      var t := CarriedWasSent(w, pending, tick, (n, after[n]));
      assert CarriedCurrent(w, t, n) && NeverFall(w.current[t], w.current[tick]);
    }
    assert Marked(w, acked, after, tick) == {};
  }

  /** Main result, for any run of the session over a lossy, duplicating, reordering
      channel (events the channel or the clock cannot produce are skipped). Whatever the
      channel lost besides the acknowledged snapshots, the client received an acked version
      if and only if its entity is not suspect, and holds it if and only if no snapshot sent
      since an acknowledged one that carried it removed it. In a run with a fixed interest
      set and growing versions it holds all of them. What the client holds is acked, to be
      removed or in a pending record, unless its entity was forgotten. */
  method Replicate(events: seq<Event>, ghost home: set<nat>) returns (s: ClientSession)
    ensures s.Valid()
    ensures forall n :: n in s.base.acked ==> (n !in s.w.suspect <==> GotWhateverArrived(s.w, n, s.base.acked[n]))
    ensures forall n :: n in s.base.acked && n !in s.w.suspect ==> Got(s.w, n, s.base.acked[n])
    ensures forall n :: n in s.base.acked ==>
      (HeldWhateverArrived(s.w, n, s.base.acked[n]) <==> NeverRemovedSince(s.w, n, s.base.acked[n]))
    ensures Steady(events, home) ==> s.w.suspect == {}
    ensures Steady(events, home) ==> forall n :: n in s.base.acked ==> HeldWhateverArrived(s.w, n, s.base.acked[n])
    ensures TombstonesOk(s.w, s.base.tombstones)
    ensures forall n :: HeldBy(s.w, s.w.received, n, 0) && n !in s.forgotten ==>
      HasEntry(s.w, s.base.acked, s.base.pending, s.base.tombstones, n)
  {
    hide HeldBy, HasEntry;
    hide ClientSession.Valid, SteadyOk, GotWhateverArrived, Got, HeldWhateverArrived, NeverRemovedSince;
    s := new ClientSession();
    NothingSent(s.w, home);
    var sent, arrived: set<nat> := {}, {};
    assert events[..0] == [];
    for i := 0 to |events|
      invariant fresh(s) && fresh(s.base)
      invariant s.Valid() && sent == s.w.carried.Keys && arrived == s.w.received
      invariant s.versions == VersionsAfter(events[..i]) && s.lastTick == LastTick(events[..i])
      invariant sent == SentTicks(events[..i]) && arrived == ArrivedTicks(events[..i])
      invariant Steady(events[..i], home) ==> SteadyOk(s.w, s.versions, home)
    {
      assert events[..i + 1][..i] == events[..i];
      sent, arrived := Handle(s, events[i], sent, arrived, events[..i + 1], home);
    }
    assert events[..|events|] == events;
    s.Facts();
    s.ReceivedAndHeld();
    s.Memory();
    if Steady(events, home) { SteadyHoldsAll(s.w, s.lastTick, s.versions, home, s.base.acked); }
  }

  lemma LastEvent(events: seq<Event>)
    requires events != []
    ensures var past, e := events[..|events| - 1], events[|events| - 1];
      && VersionsAfter(events) == (if e.NewVersions? then e.now else VersionsAfter(past))
      && var taken := e.Snapshot? && LastTick(past) < e.tick < UNSENT;
         && LastTick(events) == (if taken then e.tick else LastTick(past))
         && SentTicks(events) == (if taken then SentTicks(past) + {e.tick} else SentTicks(past))
         && ArrivedTicks(events) ==
              if e.Arrives? && e.tick in SentTicks(past) then ArrivedTicks(past) + {e.tick} else ArrivedTicks(past)
  {
  }

  /** One event of the run `past` ends with. */
  method Handle(s: ClientSession, e: Event, sent0: set<nat>, arrived0: set<nat>, ghost past: seq<Event>,
                ghost home: set<nat>)
    returns (sent: set<nat>, arrived: set<nat>)
    requires s.Valid() && sent0 == s.w.carried.Keys && arrived0 == s.w.received
    requires past != [] && past[|past| - 1] == e && s.versions == VersionsAfter(past[..|past| - 1])
    requires s.lastTick == LastTick(past[..|past| - 1])
    requires sent0 == SentTicks(past[..|past| - 1]) && arrived0 == ArrivedTicks(past[..|past| - 1])
    requires Steady(past[..|past| - 1], home) ==> SteadyOk(s.w, s.versions, home)
    modifies s, s.base
    ensures s.Valid() && sent == s.w.carried.Keys && arrived == s.w.received
    ensures s.versions == VersionsAfter(past)
    ensures Steady(past, home) ==> SteadyOk(s.w, s.versions, home)
    ensures s.lastTick == LastTick(past) && sent == SentTicks(past) && arrived == ArrivedTicks(past)
    ensures TombstoneStep(past, old(s.base.tombstones), s.base.tombstones)
  {
    hide ClientSession.Valid, SteadyOk, Marked, Sent, Lacked, Records, Recorded, Raised, DateOf;
    s.Facts();
    LastEvent(past);
    hide VersionsAfter, LastTick, SentTicks, ArrivedTicks;
    ghost var w, lastTick, acked, pending := s.w, s.lastTick, s.base.acked, s.base.pending;
    sent, arrived := sent0, arrived0;
    match e
    case NewVersions(now) =>
      if Steady(past, home) { SteadyPublish(w, s.versions, now, home); }
      s.Publish(now);
    case Snapshot(tick, visible) =>
      if s.lastTick < tick < UNSENT {
        var order := SortedKeys(visible);
        var _, removed := s.SendSnapshot(tick, order);
        ghost var lacked := Lacked(visible, s.versions, acked);
        SentFrame(w, tick, visible, s.versions, lacked, Elements(removed));
        if Steady(past, home) { SteadySend(w, lastTick, tick, s.versions, home, lacked, Elements(removed)); }
        sent := sent + {tick};
      }
    case Arrives(tick) =>
      if tick in sent {
        if Steady(past, home) { SteadyDelivery(w, tick, s.versions, home); }
        s.Receive(tick);
        arrived := arrived + {tick};
      }
    case AckArrives(tick) =>
      if tick in arrived {
        s.AckArrives(tick);
        if Steady(past, home) { SteadyAck(w, lastTick, tick, s.versions, home, acked, s.base.acked, pending); }
      }
  }

  /** n is to be removed from the snapshot of event `at` until after event i - 1. */
  ghost predicate PendingSince(trail: seq<map<nat, nat>>, n: nat, at: nat, i: nat)
    requires at < i < |trail|
  {
    n !in trail[at] && forall k :: at < k <= i ==> n in trail[k]
  }

  ghost predicate IsTrail(events: seq<Event>, trail: seq<map<nat, nat>>) {
    && |trail| == |events| + 1 && trail[0] == map[]
    && forall i :: 0 <= i < |events| ==> TombstoneStep(events[..i + 1], trail[i], trail[i + 1])
  }

  /** Over every run, with the pending tombstones after each event written down: a tombstone
      has the tick of the snapshot it was queued for, as long as it stays pending, and the
      ack of that snapshot or of any later one ends it. */
  method AckEndsTombstone(events: seq<Event>) returns (s: ClientSession, trail: seq<map<nat, nat>>)
    ensures s.Valid() && IsTrail(events, trail) && s.base.tombstones == trail[|events|]
    ensures forall n, at: nat, i: nat :: at < i <= |events| && PendingSince(trail, n, at, i) ==>
      events[at].Snapshot? && trail[i][n] == events[at].tick
    ensures forall n, at: nat, i: nat :: at < i < |events| && PendingSince(trail, n, at, i) ==>
      EndedByAck(events, trail, n, at, i)
  {
    hide ClientSession.Valid, SteadyOk;
    s := new ClientSession();
    NothingSent(s.w, {});
    var sent, arrived: set<nat> := {}, {};
    trail := [s.base.tombstones];
    assert events[..0] == [];
    for i := 0 to |events|
      invariant fresh(s) && fresh(s.base)
      invariant s.Valid() && sent == s.w.carried.Keys && arrived == s.w.received
      invariant s.versions == VersionsAfter(events[..i]) && s.lastTick == LastTick(events[..i])
      invariant sent == SentTicks(events[..i]) && arrived == ArrivedTicks(events[..i])
      invariant Steady(events[..i], {}) ==> SteadyOk(s.w, s.versions, {})
      invariant |trail| == i + 1 && trail[0] == map[] && trail[i] == s.base.tombstones
      invariant forall k :: 0 <= k < i ==> TombstoneStep(events[..k + 1], trail[k], trail[k + 1])
    {
      hide TombstoneStep, VersionsAfter, LastTick, SentTicks, ArrivedTicks, Steady;
      assert events[..i + 1][..i] == events[..i];
      sent, arrived := Handle(s, events[i], sent, arrived, events[..i + 1], {});
      trail := trail + [s.base.tombstones];
    }
    assert events[..|events|] == events;
    hide TombstoneStep;
    forall n, at: nat, i: nat | at < i <= |events| && PendingSince(trail, n, at, i)
      ensures events[at].Snapshot? && trail[i][n] == events[at].tick
      ensures i < |events| ==> EndedByAck(events, trail, n, at, i)
    {
      KeepsFirstCarrier(events, trail, n, at, i);
    }
  }

  /** If event i is the ack of the snapshot of event `at` or of a later one, it ends the tombstone. */
  ghost predicate EndedByAck(events: seq<Event>, trail: seq<map<nat, nat>>, n: nat, at: nat, i: nat)
    requires at < i < |events| < |trail| && events[at].Snapshot?
  {
    events[i].AckArrives? && events[i].tick in ArrivedTicks(events[..i]) && events[at].tick <= events[i].tick ==>
      n !in trail[i + 1]
  }

  lemma {:induction false} KeepsFirstCarrier(events: seq<Event>, trail: seq<map<nat, nat>>, n: nat, at: nat, i: nat)
    requires IsTrail(events, trail) && at < i <= |events| && PendingSince(trail, n, at, i)
    ensures events[at].Snapshot? && trail[i][n] == events[at].tick
    ensures i < |events| ==> EndedByAck(events, trail, n, at, i)
  {
    hide LastTick, ArrivedTicks, SentTicks;
    if i - 1 > at { KeepsFirstCarrier(events, trail, n, at, i - 1); }
    assert events[..i][..i - 1] == events[..i - 1] && events[..i][i - 1] == events[i - 1];
    if i < |events| { assert events[..i + 1][..i] == events[..i] && events[..i + 1][i] == events[i]; }
    assert TombstoneStep(events[..i - 1 + 1], trail[i - 1], trail[i]);
  }

  // ---- Nothing is sent twice, and nothing lost is given up ----------------------------

  /** What an acknowledged snapshot carried is not sent again while nothing changes: the
      next diff for the same interest set is empty. */
  method AckedIsNotResent(s: ClientSession, tick: nat, visible: seq<nat>) returns (changed: seq<nat>)
    requires s.Valid() && Sorted(visible) && s.lastTick < tick < UNSENT
    modifies s, s.base
    ensures s.Valid() && changed == [] && Lacked(Elements(visible), s.versions, s.base.acked) == {}
    ensures s.versions == old(s.versions) && tick in s.w.acknowledged
  {
    hide ClientSession.Valid, Sent, Records, Recorded, Raised, DateOf, Unconfirmed, Marked, Sorted, Lacked;
    s.Facts();
    ghost var acked, pending, w, lastTick := s.base.acked, s.base.pending, s.w, s.lastTick;
    var sent, removed := s.SendSnapshot(tick, visible);
    ghost var kept, after := s.base.acked, s.base.pending;
    SentFrame(w, tick, Elements(visible), s.versions, Lacked(Elements(visible), s.versions, acked), Elements(removed));
    s.Receive(tick);
    s.AckArrives(tick);
    AckedCovers(lastTick, tick, Elements(visible), s.versions, acked, kept, s.base.acked, w, pending, after, sent);
    changed := s.ChangedFor(visible);
    if changed != [] { FirstIsElement(changed); }
  }

  lemma AckedCovers(lastTick: nat, tick: nat, visible: set<nat>, now: Versions, acked: Versions, kept: Versions,
                    after: Versions, w: Wire, pending: map<nat, SentList>, pending': map<nat, SentList>, sent: SentList)
    requires WireOk(w, lastTick) && PendingOk(w, pending) && lastTick < tick
    requires Records(sent, Lacked(visible, now, acked), now) && Recorded(pending, pending', tick, sent)
    requires kept == map n | n in acked && n in visible :: acked[n]
    requires Raised(kept, after, Carried(pending', UpTo(pending', tick)))
    ensures Lacked(visible, now, after) == {}
  {
    if sent != [] { NewestIsKept(pending, pending', tick, sent); }
    forall n | n in visible ensures Acked(now, n) <= Acked(after, n) {
      if n in Lacked(visible, now, acked) {
        assert (n, Acked(now, n)) in sent;
        assert (n, Acked(now, n)) in Carried(pending', UpTo(pending', tick));
      }
    }
  }

  /** Without an ack, the next snapshot for the same interest set carries all of it again. */
  method UnackedIsResent(s: ClientSession, first: nat, second: nat, visible: seq<nat>)
    requires s.Valid() && Sorted(visible) && s.lastTick < first < second < UNSENT
    modifies s, s.base
    ensures s.Valid() && first in s.w.carried && second in s.w.carried && s.w.carried[second] == s.w.carried[first]
    ensures forall n :: n in visible && Acked(s.versions, n) > Acked(old(s.base.acked), n) ==> n in s.w.carried[first]
  {
    hide ClientSession.Valid, Records, Recorded, DateOf, Sorted, Forgotten;
    ghost var acked := s.base.acked;
    var _, _ := s.SendSnapshot(first, visible);
    SameLacked(Elements(visible), s.versions, acked, s.base.acked);
    var _, _ := s.SendSnapshot(second, visible);
  }

  lemma SameLacked(visible: set<nat>, now: Versions, acked: Versions, kept: Versions)
    requires kept == map n | n in acked && n in visible :: acked[n]
    ensures Lacked(visible, now, kept) == Lacked(visible, now, acked)
  {
  }

  lemma SentFrame(w: Wire, tick: nat, visible: set<nat>, now: Versions, lacked: set<nat>, tombs: set<nat>)
    ensures var w' := Sent(w, tick, visible, now, lacked, tombs);
      w'.carried.Keys == w.carried.Keys + {tick} && w'.received == w.received
  {
  }

  lemma NothingSent(w: Wire, home: set<nat>)
    requires w.carried == map[] && w.suspect == {}
    ensures SteadyOk(w, map[], home)
  {
  }

  lemma SteadyDelivery(w: Wire, t: nat, now: Versions, home: set<nat>)
    requires SteadyOk(w, now, home)
    ensures SteadyOk(Delivered(w, t), now, home)
  {
  }

  lemma SteadyHoldsAll(w: Wire, lastTick: nat, now: Versions, home: set<nat>, acked: Versions)
    requires WireOk(w, lastTick) && SteadyOk(w, now, home) && SuspectsExact(w, acked)
    ensures w.suspect == {}
    ensures forall n :: n in acked ==> NeverRemovedSince(w, n, acked[n])
  {
    forall n | n in acked ensures NeverRemovedSince(w, n, acked[n]) {
      var t :| t in w.acknowledged && CarriedAt(w, t, n, acked[n]);
      assert CarriedCurrent(w, t, n);
      assert !RemovedAfter(w, w.carried.Keys, t, n);
    }
  }
}
