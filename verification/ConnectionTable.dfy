/** Token-indexed connection slots with generation-tagged handles. */
module ConnectionTables {
  import opened Wrappers

  const GENERATIONS: nat := 0x1_0000_0000  // a 32-bit generation counter

  datatype ConnHandle = ConnHandle(index: nat, generation: nat, valid: bool)
  datatype Slot = Slot(token: nat, generation: nat, active: bool)

  /** Active slots and the token map are inverse to each other, and the free list
      holds exactly the inactive slots, once each. */
  ghost predicate TableOk(slots: seq<Slot>, free: seq<nat>, byToken: map<nat, nat>, closes: seq<nat>) {
    && |closes| == |slots|
    && (forall i :: 0 <= i < |slots| ==> slots[i].generation == closes[i] % GENERATIONS)
    && (forall t :: t in byToken ==> byToken[t] < |slots| && slots[byToken[t]].active && slots[byToken[t]].token == t)
    && (forall i :: 0 <= i < |slots| && slots[i].active ==> slots[i].token in byToken && byToken[slots[i].token] == i)
    && (forall i: nat :: i in free <==> i < |slots| && !slots[i].active)
    && (forall j, k :: 0 <= j < k < |free| ==> free[j] != free[k])
  }

  class ConnectionTable {
    var slots: seq<Slot>
    var free: seq<nat>
    var byToken: map<nat, nat>
    ghost var closes: seq<nat>  // how often each slot was closed

    ghost predicate Valid()
      reads this
    {
      TableOk(slots, free, byToken, closes)
    }

    constructor ()
      ensures Valid() && byToken == map[] && slots == []
    {
      slots, free, byToken, closes := [], [], map[], [];
    }

    function HandleFor(idx: nat): ConnHandle
      requires idx < |slots|
      reads this
    {
      ConnHandle(idx, slots[idx].generation, true)
    }

    predicate Validate(h: ConnHandle)
      reads this
    {
      h.valid && h.index < |slots| && slots[h.index].active && slots[h.index].generation == h.generation
    }

    /** Reopening a known token changes nothing; a new token takes a slot no live token has. */
    method Open(token: nat) returns (h: ConnHandle)
      requires Valid()
      modifies this
      ensures Valid() && Validate(h) && slots[h.index].token == token
      ensures byToken == old(byToken)[token := h.index]
      ensures token in old(byToken) ==> slots == old(slots) && free == old(free) && closes == old(closes)
      ensures token !in old(byToken) ==> h.index >= |old(slots)| || !old(slots)[h.index].active
      ensures |old(slots)| <= |slots|
      ensures forall i :: 0 <= i < |old(slots)| && i != h.index ==> slots[i] == old(slots)[i]
      ensures forall i :: 0 <= i < |old(slots)| ==>
        closes[i] == old(closes)[i] && slots[i].generation == old(slots)[i].generation
    {
      if token in byToken {
        assert byToken[token := byToken[token]] == byToken;
        return HandleFor(byToken[token]);
      }
      var idx;
      if free != [] {
        idx := free[|free| - 1];
        ReuseKeepsTable(slots, free, byToken, closes, token);
        free := free[..|free| - 1];
      } else {
        idx := |slots|;
        GrowKeepsTable(slots, byToken, closes, token);
        slots := slots + [Slot(0, 0, false)];
        closes := closes + [0];
      }
      slots := slots[idx := slots[idx].(token := token, active := true)];
      byToken := byToken[token := idx];
      h := HandleFor(idx);
    }

    function Find(token: nat): (h: Option<ConnHandle>)
      requires Valid()
      reads this
      ensures h.Some? <==> token in byToken
      ensures h.Some? ==> Validate(h.value) && slots[h.value.index].token == token
    {
      if token !in byToken then None else Some(HandleFor(byToken[token]))
    }

    /** Closing bumps the slot's generation, so every handle to it goes stale. */
    method Close(token: nat)
      requires Valid()
      modifies this
      ensures Valid() && byToken == old(byToken) - {token}
      ensures |slots| == |old(slots)|
      ensures forall i :: 0 <= i < |slots| && !(token in old(byToken) && i == old(byToken)[token]) ==>
        slots[i] == old(slots)[i] && closes[i] == old(closes)[i]
      ensures token in old(byToken) ==>
        var idx := old(byToken)[token]; !slots[idx].active && closes[idx] == old(closes)[idx] + 1
    {
      if token !in byToken {
        assert byToken - {token} == byToken;
        return;
      }
      var idx := byToken[token];
      CloseKeepsTable(slots, free, byToken, closes, token);
      slots := slots[idx := Slot(0, (slots[idx].generation + 1) % GENERATIONS, false)];
      closes := closes[idx := closes[idx] + 1];
      byToken := byToken - {token};
      free := free + [idx];
    }

    /** A handle issued when its slot had seen k closes validates again only when the
        slot is active and a multiple of 2^32 further closes have passed. */
    lemma HandleLiveness(idx: nat, k: nat)
      requires Valid() && idx < |slots| && k <= closes[idx]
      ensures Validate(ConnHandle(idx, k % GENERATIONS, true))
        <==> slots[idx].active && (closes[idx] - k) % GENERATIONS == 0
      ensures k < closes[idx] < k + GENERATIONS ==> !Validate(ConnHandle(idx, k % GENERATIONS, true))
    {
      SameResidue(closes[idx], k);
    }
  }

  lemma SameResidue(m: nat, k: nat)
    requires k <= m
    ensures m % GENERATIONS == k % GENERATIONS <==> (m - k) % GENERATIONS == 0
  {
  }

  lemma ReuseKeepsTable(slots: seq<Slot>, free: seq<nat>, byToken: map<nat, nat>, closes: seq<nat>, token: nat)
    requires TableOk(slots, free, byToken, closes) && free != [] && token !in byToken
    ensures var idx := free[|free| - 1];
      && idx < |slots| && !slots[idx].active
      && TableOk(slots[idx := slots[idx].(token := token, active := true)], free[..|free| - 1],
                 byToken[token := idx], closes)
  {
    var rest, idx := free[..|free| - 1], free[|free| - 1];
    assert idx in free && free == rest + [idx];
    forall i: nat ensures i in rest <==> i in free && i != idx {
      if i in rest {
        var j :| 0 <= j < |rest| && rest[j] == i;
        assert free[j] == i;
      }
    }
  }

  lemma GrowKeepsTable(slots: seq<Slot>, byToken: map<nat, nat>, closes: seq<nat>, token: nat)
    requires TableOk(slots, [], byToken, closes) && token !in byToken
    ensures TableOk(slots + [Slot(token, 0, true)], [], byToken[token := |slots|], closes + [0])
  {
  }

  lemma CloseKeepsTable(slots: seq<Slot>, free: seq<nat>, byToken: map<nat, nat>, closes: seq<nat>, token: nat)
    requires TableOk(slots, free, byToken, closes) && token in byToken
    ensures var idx := byToken[token];
      TableOk(slots[idx := Slot(0, (slots[idx].generation + 1) % GENERATIONS, false)], free + [idx],
              byToken - {token}, closes[idx := closes[idx] + 1])
  {
    NextGeneration(closes[byToken[token]]);
  }

  lemma NextGeneration(k: nat)
    ensures (k % GENERATIONS + 1) % GENERATIONS == (k + 1) % GENERATIONS
  {
  }
}
