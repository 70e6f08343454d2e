/** Per-entity versions and the per-client baseline: what a client has acknowledged,
    what is still in flight to it, and the removals it has not confirmed. */
module Baseline {
  import opened Interest

  const MAX_PENDING: nat := 64
  const UNSENT: nat := 0xFFFF_FFFF  // a queued tombstone no snapshot carried yet

  // ---- Versions ------------------------------------------------------------

  datatype Stamped<F> = Stamped(version: nat, last: F)

  class ReplicationStamps<F(==)> {
    var entries: map<nat, Stamped<F>>

    constructor ()
      ensures entries == map[]
    {
      entries := map[];
    }

    function Version(netId: nat): nat
      reads this
    {
      if netId in entries then entries[netId].version else 0
    }

    /** The version advances by one exactly when the fields differ from the last stamp. */
    method Stamp(netId: nat, cur: F) returns (version: nat)
      modifies this
      ensures entries == old(entries)[netId := Stamped(version, cur)]
      ensures version == old(Version(netId)) +
        (if netId in old(entries) && old(entries)[netId].last == cur then 0 else 1)
    {
      if netId !in entries {
        entries := entries[netId := Stamped(1, cur)];
        return 1;
      }
      if entries[netId].last != cur {
        entries := entries[netId := Stamped(entries[netId].version + 1, cur)];
      }
      assert entries == old(entries)[netId := Stamped(entries[netId].version, cur)];
      return entries[netId].version;
    }

    method Remove(netId: nat)
      modifies this
      ensures entries == old(entries) - {netId}
    {
      entries := entries - {netId};
    }
  }

  // ---- Baseline ------------------------------------------------------------

  type SentList = seq<(nat, nat)>  // (netId, version)

  function Acked(acked: map<nat, nat>, netId: nat): nat {
    if netId in acked then acked[netId] else 0
  }

  /** Everything the pending snapshots of these ticks carried. */
  ghost function Carried(pending: map<nat, SentList>, ticks: set<nat>): set<(nat, nat)> {
    set t, p | t in ticks && t in pending && p in pending[t] :: p
  }

  ghost function UpTo(pending: map<nat, SentList>, tick: nat): set<nat> {
    set t | t in pending.Keys && t <= tick
  }

  /** `after` is `before` raised, entity by entity, to the highest of these versions. */
  ghost predicate Raised(before: map<nat, nat>, after: map<nat, nat>, carried: set<(nat, nat)>) {
    && (forall n :: n in before ==> n in after && before[n] <= after[n])
    && (forall n :: n in after ==> (n in before && after[n] == before[n]) || (n, after[n]) in carried)
    && (forall p :: p in carried ==> p.0 in after && p.1 <= after[p.0])
  }

  /** `after` is `before` with the record added, unless it is empty, and without the
      oldest records beyond 64. */
  ghost predicate Recorded(before: map<nat, SentList>, after: map<nat, SentList>, tick: nat, sent: SentList) {
    if sent == [] then after == before
    else
      var all := before[tick := sent];
      && after.Keys <= all.Keys && (forall t :: t in after ==> after[t] == all[t])
      && |after| <= MAX_PENDING
      && (|all| <= MAX_PENDING ==> after == all)
      && (|all| > MAX_PENDING ==> |after| == MAX_PENDING)
      && (forall gone, kept :: gone in all && gone !in after && kept in after ==> gone < kept)
  }

  /** Tombstones that were never sent or dated after the tick. */
  ghost function Unconfirmed(tombstones: map<nat, nat>, tick: nat): map<nat, nat> {
    map n | n in tombstones && (tombstones[n] == UNSENT || tombstones[n] > tick) :: tombstones[n]
  }

  /** The pending records of later snapshots. */
  ghost function Later(pending: map<nat, SentList>, tick: nat): map<nat, SentList> {
    map t | t in pending && t > tick :: pending[t]
  }

  class ClientBaseline {
    var acked: map<nat, nat>
    var pending: map<nat, SentList>
    var tombstones: map<nat, nat>

    constructor ()
      ensures acked == map[] && pending == map[] && tombstones == map[]
    {
      acked, pending, tombstones := map[], map[], map[];
    }

    predicate Needs(netId: nat, currentVersion: nat)
      reads this
    {
      currentVersion > Acked(acked, netId)
    }

    /** Keeps the record, unless it is empty, and forgets the oldest ones beyond 64. */
    method RecordSent(tick: nat, sent: SentList)
      modifies this`pending
      ensures Recorded(old(pending), pending, tick, sent)
    {
      if sent != [] {
        pending := pending[tick := sent];
        ghost var all := pending;
        while |pending| > MAX_PENDING
          invariant pending.Keys <= all.Keys && forall t :: t in pending ==> pending[t] == all[t]
          invariant |all| <= MAX_PENDING ==> pending == all
          invariant |all| > MAX_PENDING ==> |pending| >= MAX_PENDING
          invariant forall gone, kept :: gone in all && gone !in pending && kept in pending ==> gone < kept
          decreases |pending|
        {
          var oldest := Least(pending.Keys);
          assert (pending - {oldest}).Keys == pending.Keys - {oldest};
          pending := pending - {oldest};
        }
      }
    }

    /** Folds every pending snapshot up to the tick into the baseline, and clears the
        tombstones some snapshot up to the tick was the first to carry. */
    method Ack(tick: nat)
      modifies this
      ensures Raised(old(acked), acked, Carried(old(pending), UpTo(old(pending), tick)))
      ensures pending == Later(old(pending), tick)
      ensures tombstones == Unconfirmed(old(tombstones), tick)
    {
      FoldPending(tick);
      ClearTombstones(tick);
    }

    method FoldPending(tick: nat)
      modifies this`acked, this`pending
      ensures Raised(old(acked), acked, Carried(old(pending), UpTo(old(pending), tick)))
      ensures pending == Later(old(pending), tick)
    {
      ghost var all := pending;
      var todo := set t | t in pending.Keys && t <= tick;
      assert todo == UpTo(all, tick) && UpTo(all, tick) <= all.Keys;
      ghost var done: set<nat> := {};
      assert Raised(acked, acked, Carried(all, done));
      AllButUpTo(all, tick);
      hide Raised, Carried, UpTo;
      while todo != {}
        invariant forall t :: t in todo ==> t in all && t !in done
        invariant forall t :: t in UpTo(all, tick) <==> t in todo || t in done
        invariant pending == all - done
        invariant Raised(old(acked), acked, Carried(all, done))
        decreases |todo|
      {
        var t := Least(todo);
        ghost var before := acked;
        assert t in pending && pending[t] == all[t];
        FoldOne(pending[t]);
        RaisedTwice(old(acked), before, acked, all, done, t);
        DropMore(all, done, t);
        pending := pending - {t};
        todo, done := todo - {t}, done + {t};
      }
      assert done == UpTo(all, tick);
    }

    method FoldOne(sent: SentList)
      modifies this`acked
      ensures Raised(old(acked), acked, Pairs(sent))
    {
      for i := 0 to |sent|
        invariant Raised(old(acked), acked, Pairs(sent[..i]))
      {
        var (n, v) := sent[i];
        if v > Acked(acked, n) || n !in acked { acked := acked[n := v]; }
        assert Pairs(sent[..i + 1]) == Pairs(sent[..i]) + {sent[i]};
      }
      assert sent[..|sent|] == sent;
    }

    method ClearTombstones(tick: nat)
      modifies this`tombstones
      ensures tombstones == Unconfirmed(old(tombstones), tick)
    {
      var todo := tombstones.Keys;
      while todo != {}
        invariant todo <= tombstones.Keys
        invariant tombstones == map n | n in old(tombstones) &&
          (n in todo || old(tombstones)[n] == UNSENT || old(tombstones)[n] > tick) :: old(tombstones)[n]
        decreases |todo|
      {
        var n :| n in todo;
        todo := todo - {n};
        if tombstones[n] != UNSENT && tombstones[n] <= tick { tombstones := tombstones - {n}; }
      }
    }

    /** The acknowledged entities in ascending order. */
    method CollectAcked() returns (out: seq<nat>)
      ensures Sorted(out) && Elements(out) == acked.Keys
    {
      out := SortedKeys(acked.Keys);
    }

    method Tombstone(netId: nat)
      modifies this`acked, this`tombstones
      ensures acked == old(acked) - {netId}
      ensures tombstones == if netId in old(tombstones) then old(tombstones) else old(tombstones)[netId := UNSENT]
    {
      acked := acked - {netId};
      if netId !in tombstones { tombstones := tombstones[netId := UNSENT]; }
    }

    method Untombstone(netId: nat)
      modifies this`tombstones
      ensures tombstones == old(tombstones) - {netId}
    {
      tombstones := tombstones - {netId};
    }

    method CollectTombstones() returns (out: seq<nat>)
      ensures Sorted(out) && Elements(out) == tombstones.Keys
    {
      out := SortedKeys(tombstones.Keys);
    }

    /** A pending tombstone remembers the first snapshot that carried it. */
    method RecordTombstonesSent(tick: nat, netIds: seq<nat>)
      modifies this`tombstones
      ensures tombstones.Keys == old(tombstones).Keys
      ensures forall n :: n in tombstones && (old(tombstones)[n] != UNSENT || n !in netIds) ==>
        tombstones[n] == old(tombstones)[n]
      ensures forall n :: n in tombstones && old(tombstones)[n] == UNSENT && n in netIds ==> tombstones[n] == tick
    {
      for i := 0 to |netIds|
        invariant tombstones.Keys == old(tombstones).Keys
        invariant forall n :: n in tombstones && (old(tombstones)[n] != UNSENT || n !in netIds[..i]) ==>
          tombstones[n] == old(tombstones)[n]
        invariant forall n :: n in tombstones && old(tombstones)[n] == UNSENT && n in netIds[..i] ==>
          tombstones[n] == tick
      {
        var n := netIds[i];
        if n in tombstones && tombstones[n] == UNSENT { tombstones := tombstones[n := tick]; }
        assert netIds[..i + 1] == netIds[..i] + [n];
      }
      assert netIds[..|netIds|] == netIds;
    }
  }

  /** However many snapshots carry a queued tombstone, the ack of the first one clears it. */
  method FirstCarrierClears(b: ClientBaseline, n: nat, ticks: seq<nat>, ack: nat)
    requires n in b.tombstones && b.tombstones[n] == UNSENT
    requires ticks != [] && (forall i :: 0 <= i < |ticks| ==> ticks[i] < UNSENT) && ticks[0] <= ack
    modifies b
    ensures n !in b.tombstones
  {
    for i := 0 to |ticks|
      invariant n in b.tombstones && b.tombstones[n] == if i == 0 then UNSENT else ticks[0]
    {
      b.RecordTombstonesSent(ticks[i], [n]);
    }
    b.Ack(ack);
  }

  /** An ack before the first carrier clears nothing. */
  method EarlierAckClearsNothing(b: ClientBaseline, n: nat, tick: nat, ack: nat)
    requires n in b.tombstones && b.tombstones[n] == UNSENT && ack < tick < UNSENT
    modifies b
    ensures n in b.tombstones
  {
    b.RecordTombstonesSent(tick, [n]);
    b.Ack(ack);
  }

  lemma AllButUpTo(pending: map<nat, SentList>, tick: nat)
    ensures pending - UpTo(pending, tick) == Later(pending, tick)
  {
  }

  lemma DropMore(all: map<nat, SentList>, done: set<nat>, t: nat)
    ensures (all - done) - {t} == all - (done + {t})
  {
  }

  ghost function Pairs(sent: SentList): set<(nat, nat)> {
    set p | p in sent
  }

  lemma RaisedTwice(a: map<nat, nat>, b: map<nat, nat>, c: map<nat, nat>, pending: map<nat, SentList>, done: set<nat>,
                    t: nat)
    requires t in pending
    requires Raised(a, b, Carried(pending, done)) && Raised(b, c, Pairs(pending[t]))
    ensures Raised(a, c, Carried(pending, done + {t}))
  {
    assert Carried(pending, done + {t}) == Carried(pending, done) + Pairs(pending[t]);
  }

  method Least(s: set<nat>) returns (x: nat)
    requires s != {}
    ensures x in s && forall y :: y in s ==> x <= y
  {
    x :| x in s;
    var todo := s - {x};
    while todo != {}
      invariant x in s && todo <= s && forall y: nat :: y in s && y !in todo ==> x <= y
      decreases |todo|
    {
      var y :| y in todo;
      todo := todo - {y};
      if y < x { x := y; }
    }
  }

  method SortedKeys(s: set<nat>) returns (out: seq<nat>)
    ensures Sorted(out) && Elements(out) == s
  {
    out := [];
    var todo := s;
    while todo != {}
      invariant todo <= s && Sorted(out) && Elements(out) == s - todo
      decreases |todo|
    {
      var x := Least(todo);
      todo := todo - {x};
      out := SortedInsert(out, x);
    }
  }
}
