/** The entity-component world: generation-tagged handles, a free list, and one
    sparse set per component type, each proved to be a map from entity index to value. */
module Ecs {
  import opened Bits
  import opened Wrappers
  import opened Counting

  const ABSENT: nat := 0xFFFF_FFFF       // UINT32_MAX
  const MAX_INDEX: nat := 0xF_FFFF       // 20 index bits
  const GENERATIONS: nat := 4096         // 12 generation bits
  const MAX_COMPONENT_TYPES: nat := 64

  // ---- Handles -------------------------------------------------------------

  type Handle = nat

  function MakeHandle(index: nat, generation: nat): Handle {
    Or(Shl(32, generation, 20), index)
  }

  function IndexOf(e: Handle): nat {
    And(e, Pow2(20) - 1)
  }

  function GenerationOf(e: Handle): nat {
    Shr(e, 20)
  }

  /** A handle gives back the index and generation it was packed from. */
  lemma HandleRoundTrip(index: nat, generation: nat)
    requires index <= MAX_INDEX && generation < GENERATIONS
    ensures MakeHandle(index, generation) < Pow2(32)
    ensures MakeHandle(index, generation) == generation * (MAX_INDEX + 1) + index
    ensures IndexOf(MakeHandle(index, generation)) == index
    ensures GenerationOf(MakeHandle(index, generation)) == generation
  {
    var e := MakeHandle(index, generation);
    HandleSizes();
    ShlBound(32, generation, 20);
    Pow2Monotone(20, 32);
    HandleValue(index, generation);
    OrBound(Shl(32, generation, 20), index, 32);
    AndBound(e, Pow2(20) - 1);
    forall j: nat | j < 20 ensures Bit(IndexOf(e), j) == Bit(index, j) {
      BitAnd(e, Pow2(20) - 1, j);
      BitLowMask(20, j);
      BitOr(Shl(32, generation, 20), index, j);
      BitShl(32, generation, 20, j);
    }
    SameBits(IndexOf(e), index, 20);
    ShrBound(e, 20);
    Pow2Monotone(12, 32);
    forall j: nat | j < 32 ensures Bit(GenerationOf(e), j) == Bit(generation, j) {
      BitShr(e, 20, j);
      BitOr(Shl(32, generation, 20), index, 20 + j);
      BitShl(32, generation, 20, 20 + j);
      BitAboveWidth(index, 20, 20 + j);
      if j >= 12 { BitAboveWidth(generation, 12, j); }
    }
    SameBits(GenerationOf(e), generation, 32);
  }

  lemma HandleValue(index: nat, generation: nat)
    requires index <= MAX_INDEX && generation < GENERATIONS
    ensures MakeHandle(index, generation) == generation * (MAX_INDEX + 1) + index
  {
    HandleSizes();
    WordSizes();
    ShlIsMul(32, generation, 20, generation * Pow2(20));
    OrDisjoint(index, generation, 20);
    OrCommutes(index, generation * Pow2(20));
  }

  lemma {:induction false} OrCommutes(w: nat, v: nat)
    ensures Or(w, v) == Or(v, w)
  {
    if w == 0 {
      OrZero(v);
    } else if v == 0 {
      OrZero(w);
    } else {
      OrCommutes(w / 2, v / 2);
    }
  }

  lemma {:induction false} OrZero(w: nat)
    ensures Or(w, 0) == w
  {
    if w > 0 { OrZero(w / 2); }
  }

  /** The null handle names slot 0, and no handle to another slot is null. */
  lemma NullHandle(index: nat, generation: nat)
    requires 0 < index <= MAX_INDEX && generation < GENERATIONS
    ensures MakeHandle(index, generation) != 0 && IndexOf(0) == 0
  {
    HandleValue(index, generation);
  }

  lemma HandleSizes()
    ensures Pow2(20) == MAX_INDEX + 1 && Pow2(12) == GENERATIONS
  {
    WordSizes();
    Pow2Sum(16, 4);
    Pow2Sum(8, 4);
    assert Pow2(4) == 16;
  }

  // ---- One component type --------------------------------------------------

  /** Every dense slot is pointed at by its own entity, and by no other. */
  ghost predicate Linked(sparse: seq<nat>, denseToEntity: seq<nat>) {
    && |sparse| <= MAX_INDEX + 1
    && (forall d :: 0 <= d < |denseToEntity| ==> denseToEntity[d] < |sparse| && sparse[denseToEntity[d]] == d)
    && (forall i :: 0 <= i < |sparse| && sparse[i] != ABSENT ==>
          sparse[i] < |denseToEntity| && denseToEntity[sparse[i]] == i)
  }

  ghost function Table<T>(sparse: seq<nat>, dense: seq<T>, denseToEntity: seq<nat>): map<nat, T>
    requires Linked(sparse, denseToEntity) && |dense| == |denseToEntity|
  {
    map i: nat | i < |sparse| && sparse[i] != ABSENT :: dense[sparse[i]]
  }

  /** The sparse and owner arrays after a swap-remove. */
  ghost function SparseAfter(sparse: seq<nat>, owner: seq<nat>, idx: nat): seq<nat>
    requires Linked(sparse, owner) && idx < |sparse| && sparse[idx] != ABSENT
  {
    var di, n := sparse[idx], |owner| - 1;
    (if di != n then sparse[owner[n] := di] else sparse)[idx := ABSENT]
  }

  ghost function FilledFromEnd<A>(s: seq<A>, hole: nat): seq<A>
    requires hole < |s|
  {
    var n := |s| - 1;
    (if hole != n then s[hole := s[n]] else s)[..n]
  }

  lemma SwapLinked(sparse: seq<nat>, owner: seq<nat>, idx: nat)
    requires Linked(sparse, owner) && idx < |sparse| && sparse[idx] != ABSENT
    ensures Linked(SparseAfter(sparse, owner, idx), FilledFromEnd(owner, sparse[idx]))
    ensures |owner| <= MAX_INDEX + 1
  {
    Distinct(owner, |sparse|);
  }

  /** What Remove leaves behind: the last element fills the hole, and every other
      entity keeps its value. */
  lemma SwapRemoved<T>(sparse: seq<nat>, dense: seq<T>, owner: seq<nat>, idx: nat)
    requires Linked(sparse, owner) && |dense| == |owner| && idx in Table(sparse, dense, owner)
    ensures idx < |sparse| && sparse[idx] < |dense| && owner[|owner| - 1] < |sparse|
    ensures var sparse', owner' := SparseAfter(sparse, owner, idx), FilledFromEnd(owner, sparse[idx]);
      && Linked(sparse', owner')
      && Table(sparse', FilledFromEnd(dense, sparse[idx]), owner') == Table(sparse, dense, owner) - {idx}
      && (sparse[idx] != |owner| - 1 <==> owner[|owner| - 1] != idx)
  {
    SwapLinked(sparse, owner, idx);
    var sparse', owner', dense' :=
      SparseAfter(sparse, owner, idx), FilledFromEnd(owner, sparse[idx]), FilledFromEnd(dense, sparse[idx]);
    var was, now := Table(sparse, dense, owner), Table(sparse', dense', owner');
    forall i: nat | i < |sparse|
      ensures i in now <==> i in was && i != idx
      ensures i in now ==> now[i] == was[i]
    {
    }
    assert now == was - {idx};
  }

  class ComponentStorage<T> {
    const blank: T            // a default-constructed component
    var sparse: seq<nat>      // entity index -> dense index, or ABSENT
    var dense: seq<T>
    var denseToEntity: seq<nat>

    ghost predicate Valid()
      reads this
    {
      |dense| == |denseToEntity| && Linked(sparse, denseToEntity)
    }

    ghost function Contents(): map<nat, T>
      requires Valid()
      reads this
    {
      Table(sparse, dense, denseToEntity)
    }

    constructor (blank: T)
      ensures Valid() && Contents() == map[] && this.blank == blank
    {
      this.blank, sparse, dense, denseToEntity := blank, [], [], [];
    }

    method EnsureSparse(entityIdx: nat)
      requires Valid() && entityIdx <= MAX_INDEX
      modifies this
      ensures Valid() && entityIdx < |sparse| && Contents() == old(Contents()) && dense == old(dense)
    {
      if entityIdx >= |sparse| {
        sparse := sparse + seq(entityIdx + 1 - |sparse|, _ => ABSENT);
      }
    }

    method Insert(entityIdx: nat)
      requires Valid() && entityIdx <= MAX_INDEX && entityIdx !in Contents()
      modifies this
      ensures Valid() && Contents() == old(Contents())[entityIdx := blank]
    {
      EnsureSparse(entityIdx);
      Distinct(denseToEntity, |sparse|);
      assert entityIdx !in Contents();
      assert sparse[entityIdx] == ABSENT;
      sparse := sparse[entityIdx := |dense|];
      dense := dense + [blank];
      denseToEntity := denseToEntity + [entityIdx];
    }

    /** Swap-remove: the last element moves into the hole, and every other entity
        keeps its value. Returns the entity that moved. */
    method Remove(entityIdx: nat) returns (moved: nat)
      requires Valid() && entityIdx in Contents()
      modifies this
      ensures Valid() && Contents() == old(Contents()) - {entityIdx}
      ensures var last := old(denseToEntity)[|old(denseToEntity)| - 1];
        moved == if last == entityIdx then ABSENT else last
    {
      hide Linked, Table;
      SwapRemoved(sparse, dense, denseToEntity, entityIdx);
      var di, lastDi := sparse[entityIdx], |dense| - 1;
      moved := ABSENT;
      if di != lastDi {
        dense := dense[di := dense[lastDi]];
        moved := denseToEntity[lastDi];
        denseToEntity := denseToEntity[di := moved];
        sparse := sparse[moved := di];
      }
      dense := dense[..lastDi];
      denseToEntity := denseToEntity[..lastDi];
      sparse := sparse[entityIdx := ABSENT];
    }

    function Get(entityIdx: nat): (v: Option<T>)
      requires Valid()
      reads this
      ensures v == if entityIdx in Contents() then Some(Contents()[entityIdx]) else None
    {
      if entityIdx >= |sparse| || sparse[entityIdx] == ABSENT then None
      else Some(dense[sparse[entityIdx]])
    }

    /** A write through the reference that GetRef hands out. */
    method Set(entityIdx: nat, value: T)
      requires Valid() && entityIdx in Contents()
      modifies this
      ensures Valid() && Contents() == old(Contents())[entityIdx := value]
    {
      dense := dense[sparse[entityIdx] := value];
    }
  }

  /** Different numbers below n are at most n many, so a dense index is never ABSENT. */
  lemma Distinct(s: seq<nat>, n: nat)
    requires forall i :: 0 <= i < |s| ==> s[i] < n
    requires forall i, j :: 0 <= i < j < |s| ==> s[i] != s[j]
    ensures |s| <= n
  {
    DistinctCount(s);
    assert Members(s) <= Below(n);
    SubsetCount(Members(s), Below(n));
  }

  function Members(s: seq<nat>): set<nat> {
    set x | x in s
  }

  function Below(n: nat): (s: set<nat>)
    ensures forall k: nat :: k in s <==> k < n
    ensures |s| == n
  {
    if n == 0 then {} else Below(n - 1) + {n - 1}
  }

  lemma {:induction false} DistinctCount(s: seq<nat>)
    requires forall i, j :: 0 <= i < j < |s| ==> s[i] != s[j]
    ensures |Members(s)| == |s|
  {
    if s != [] {
      var m := |s| - 1;
      DistinctCount(s[..m]);
      assert Members(s) == Members(s[..m]) + {s[m]};
    }
  }

  /** The entities that own a component in this storage. */
  ghost function OwnersOf<T>(s: ComponentStorage?<T>): set<nat>
    requires s != null ==> s.Valid()
    reads s
  {
    if s == null then {} else s.Contents().Keys
  }

  // ---- The world -----------------------------------------------------------

  datatype EntityRecord = EntityRecord(generation: nat, componentMask: nat, alive: bool)

  /** The free list is exactly the dead slots, once each; dead slots own nothing, and a
      slot's generation counts its deaths modulo 4096. */
  ghost predicate SlotsOk(records: seq<EntityRecord>, freeList: seq<nat>, kills: seq<nat>) {
    && 1 <= |records| <= MAX_INDEX + 1 && |kills| == |records|
    && !records[0].alive
    && (forall i :: 0 <= i < |records| ==> records[i].generation == kills[i] % GENERATIONS)
    && (forall i :: 0 <= i < |records| ==> records[i].componentMask < Pow2(64))
    && (forall i :: 0 <= i < |records| && !records[i].alive ==> records[i].componentMask == 0)
    && (forall i: nat :: i in freeList <==> 0 < i < |records| && !records[i].alive)
    && (forall j, k :: 0 <= j < k < |freeList| ==> freeList[j] != freeList[k])
  }

  lemma ReuseKeepsSlots(records: seq<EntityRecord>, freeList: seq<nat>, kills: seq<nat>, idx: nat)
    requires SlotsOk(records, freeList, kills) && freeList != [] && idx == freeList[|freeList| - 1]
    ensures 0 < idx < |records| && !records[idx].alive
    ensures SlotsOk(records[idx := records[idx].(alive := true, componentMask := 0)], freeList[..|freeList| - 1], kills)
  {
    hide Pow2;
    var rest := freeList[..|freeList| - 1];
    assert idx in freeList && freeList == rest + [idx];
    forall i: nat ensures i in rest <==> i in freeList && i != idx {
      if i in rest {
        var j :| 0 <= j < |rest| && rest[j] == i;
        assert freeList[j] == i;
      }
    }
  }

  lemma RemaskKeepsSlots(records: seq<EntityRecord>, freeList: seq<nat>, kills: seq<nat>, idx: nat, mask: nat)
    requires SlotsOk(records, freeList, kills) && idx < |records| && records[idx].alive && mask < Pow2(64)
    ensures SlotsOk(records[idx := records[idx].(componentMask := mask)], freeList, kills)
  {
    hide Pow2;
  }

  lemma SlotFacts(records: seq<EntityRecord>, freeList: seq<nat>, kills: seq<nat>)
    requires SlotsOk(records, freeList, kills)
    ensures |kills| == |records| <= MAX_INDEX + 1
    ensures forall i :: 0 <= i < |records| ==> records[i].componentMask < Pow2(64)
  {
  }

  lemma GrowKeepsSlots(records: seq<EntityRecord>, kills: seq<nat>)
    requires SlotsOk(records, [], kills) && |records| <= MAX_INDEX
    ensures SlotsOk(records + [EntityRecord(0, 0, true)], [], kills + [0])
  {
    hide Pow2;
  }

  lemma RetireKeepsSlots(records: seq<EntityRecord>, freeList: seq<nat>, kills: seq<nat>, idx: nat)
    requires SlotsOk(records, freeList, kills) && 0 < idx < |records| && records[idx].alive
    ensures SlotsOk(records[idx := EntityRecord((records[idx].generation + 1) % GENERATIONS, 0, false)],
                    freeList + [idx], kills[idx := kills[idx] + 1])
  {
    hide Pow2;
    NextGeneration(kills[idx]);
  }

  ghost function Alive(records: seq<EntityRecord>): set<nat> {
    set i: nat | i < |records| && records[i].alive
  }

  /** Every slot but the null one is either alive or on the free list. */
  lemma SlotCount(records: seq<EntityRecord>, freeList: seq<nat>, kills: seq<nat>)
    requires SlotsOk(records, freeList, kills)
    ensures |Alive(records)| == |records| - 1 - |freeList|
  {
    hide Pow2;
    DistinctCount(freeList);
    var dead := Members(freeList);
    assert Alive(records) + dead == Below(|records|) - {0};
    assert Alive(records) !! dead;
  }

  lemma NextGeneration(k: nat)
    ensures (k % GENERATIONS + 1) % GENERATIONS == (k + 1) % GENERATIONS
    ensures k % GENERATIONS != (k + 1) % GENERATIONS
  {
  }

  lemma NoBits()
    ensures forall c: nat :: !Bit(0, c)
  {
    forall c: nat ensures !Bit(0, c) { BitOfZero(c); }
  }

  class World<T> {
    var records: seq<EntityRecord>
    var freeList: seq<nat>
    var storages: seq<ComponentStorage?<T>>
    ghost var kills: seq<nat>  // how often each slot's entity was destroyed

    ghost predicate StoragesOk()
      reads this, storages
    {
      && |storages| == MAX_COMPONENT_TYPES
      && (forall c, d :: 0 <= c < d < |storages| && storages[c] != null ==> storages[c] != storages[d])
      && (forall c :: 0 <= c < |storages| && storages[c] != null ==> storages[c].Valid())
    }

    /** Bit c of a slot's mask is set exactly when the slot owns a component of type c. */
    ghost predicate MasksOk()
      requires StoragesOk()
      reads this, storages
    {
      && (forall c, i :: 0 <= c < MAX_COMPONENT_TYPES && i in OwnersOf(storages[c]) ==> i < |records|)
      && (forall c, i :: 0 <= c < MAX_COMPONENT_TYPES && 0 <= i < |records| ==>
            (Bit(records[i].componentMask, c) <==> i in OwnersOf(storages[c])))
    }

    ghost predicate Valid()
      reads this, storages
    {
      StoragesOk() && SlotsOk(records, freeList, kills) && MasksOk()
    }

    constructor ()
      ensures Valid() && |records| == 1
      ensures forall c :: 0 <= c < MAX_COMPONENT_TYPES ==> storages[c] == null
    {
      records := [EntityRecord(0, 0, false)];
      freeList, kills := [], [0];
      storages := seq(MAX_COMPONENT_TYPES, _ => null);
      new;
      forall c: nat | c < MAX_COMPONENT_TYPES ensures !Bit(0, c) { BitOfZero(c); }
    }

    method RegisterComponent(c: nat, blank: T)
      requires Valid() && c < MAX_COMPONENT_TYPES && storages[c] == null
      modifies this`storages
      ensures Valid() && storages[c] != null && fresh(storages[c])
      ensures storages == old(storages)[c := storages[c]]
      ensures storages[c].Contents() == map[] && storages[c].blank == blank
    {
      var s := new ComponentStorage<T>(blank);
      storages := storages[c := s];
    }

    predicate IsAlive(e: Handle)
      reads this
    {
      var i := IndexOf(e);
      i != 0 && i < |records| && records[i].alive && records[i].generation == GenerationOf(e)
    }

    /** A created entity's slot owns nothing, whatever it held in an earlier life. */
    method CreateEntity() returns (e: Handle)
      requires Valid() && (freeList != [] || |records| <= MAX_INDEX)
      modifies this`records, this`freeList, this`kills
      ensures Valid() && IsAlive(e)
      ensures forall c :: 0 <= c < MAX_COMPONENT_TYPES ==> IndexOf(e) !in OwnersOf(storages[c])
      ensures IndexOf(e) == if old(freeList) != [] then old(freeList)[|old(freeList)| - 1] else |old(records)|
      ensures IndexOf(e) < |old(records)| ==> !old(records)[IndexOf(e)].alive
      ensures |old(records)| <= |records| && forall i :: 0 <= i < |old(records)| && i != IndexOf(e) ==>
        records[i] == old(records)[i]
      ensures |old(kills)| <= |kills| && forall i :: 0 <= i < |old(kills)| ==> kills[i] == old(kills)[i]
    {
      hide Bit, Pow2, IndexOf, GenerationOf, MakeHandle;
      var idx;
      NoBits();
      if freeList != [] {
        idx := freeList[|freeList| - 1];
        ReuseKeepsSlots(records, freeList, kills, idx);
        freeList := freeList[..|freeList| - 1];
      } else {
        idx := |records|;
        GrowKeepsSlots(records, kills);
        records := records + [EntityRecord(0, 0, false)];
        kills := kills + [0];
      }
      records := records[idx := records[idx].(alive := true, componentMask := 0)];
      assert SlotsOk(records, freeList, kills);
      hide SlotsOk;
      HandleRoundTrip(idx, records[idx].generation);
      e := MakeHandle(idx, records[idx].generation);
    }

    method DestroyEntity(e: Handle)
      requires Valid()
      modifies this`records, this`freeList, this`kills, storages
      ensures Valid() && !IsAlive(e) && storages == old(storages)
      ensures !old(IsAlive(e)) ==> records == old(records) && freeList == old(freeList) && kills == old(kills)
      ensures forall c :: 0 <= c < |storages| && storages[c] != null ==>
        storages[c].Contents() == old(storages[c].Contents()) - (if old(IsAlive(e)) then {IndexOf(e)} else {})
      ensures old(IsAlive(e)) ==> kills == old(kills)[IndexOf(e) := old(kills)[IndexOf(e)] + 1]
      ensures |records| == |old(records)| && forall i :: 0 <= i < |records| && i != IndexOf(e) ==>
        records[i] == old(records)[i]
    {
      hide Bit, Pow2, IndexOf, GenerationOf, Shr, SlotsOk, ComponentStorage.Valid, ComponentStorage.Contents;
      if !IsAlive(e) { return; }
      var idx := IndexOf(e);
      SlotFacts(records, freeList, kills);
      RemoveAll(idx);
      NoBits();
      RetireKeepsSlots(records, freeList, kills, idx);
      records := records[idx := EntityRecord((records[idx].generation + 1) % GENERATIONS, 0, false)];
      kills := kills[idx := kills[idx] + 1];
      freeList := freeList + [idx];
    }

    /** The component loop of DestroyEntity: empties the slot in every storage its mask names. */
    method RemoveAll(idx: nat)
      requires StoragesOk() && MasksOk() && idx < |records|
      modifies storages
      ensures StoragesOk()
      ensures forall c :: 0 <= c < |storages| && storages[c] != null ==>
        storages[c].Contents() == old(storages[c].Contents()) - {idx}
    {
      hide Bit, Shr, ComponentStorage.Valid, ComponentStorage.Contents;
      for c := 0 to MAX_COMPONENT_TYPES
        invariant StoragesOk()
        invariant forall d :: 0 <= d < c && storages[d] != null ==>
          storages[d].Contents() == old(storages[d].Contents()) - {idx}
        invariant forall d :: c <= d < |storages| && storages[d] != null ==>
          storages[d].Contents() == old(storages[d].Contents())
      {
        TestBit(records[idx].componentMask, c);
        assert Bit(records[idx].componentMask, c) <==> idx in old(OwnersOf(storages[c]));
        if Shr(records[idx].componentMask, c) % 2 == 1 {
          if storages[c] != null {
            var _ := storages[c].Remove(idx);
          }
        }
      }
    }

    lemma TestBit(mask: nat, c: nat)
      ensures Shr(mask, c) % 2 == 1 <==> Bit(mask, c)
    {
      BitShr(mask, c, 0);
    }

    method AddComponent(e: Handle, c: nat)
      requires Valid() && IsAlive(e) && c < MAX_COMPONENT_TYPES && storages[c] != null
      requires !Bit(records[IndexOf(e)].componentMask, c)
      modifies this`records, storages[c]
      ensures Valid() && IsAlive(e) && storages == old(storages)
      ensures storages[c].Contents() == old(storages[c].Contents())[IndexOf(e) := storages[c].blank]
      ensures forall d :: 0 <= d < |storages| && d != c && storages[d] != null ==>
        storages[d].Contents() == old(storages[d].Contents())
      ensures |records| == |old(records)| && forall i :: 0 <= i < |records| && i != IndexOf(e) ==>
        records[i] == old(records)[i]
    {
      hide Bit, Pow2, IndexOf, GenerationOf, Shl, Or, SlotsOk, ComponentStorage.Valid, ComponentStorage.Contents;
      var idx := IndexOf(e);
      SlotFacts(records, freeList, kills);
      storages[c].Insert(idx);
      MaskSet(records[idx].componentMask, c);
      RemaskKeepsSlots(records, freeList, kills, idx, Or(records[idx].componentMask, Shl(64, 1, c)));
      records := records[idx := records[idx].(componentMask := Or(records[idx].componentMask, Shl(64, 1, c)))];
    }

    lemma MaskSet(mask: nat, c: nat)
      requires mask < Pow2(64) && c < MAX_COMPONENT_TYPES
      ensures Or(mask, Shl(64, 1, c)) < Pow2(64)
      ensures forall d: nat :: Bit(Or(mask, Shl(64, 1, c)), d) <==> d == c || Bit(mask, d)
    {
      ShlBound(64, 1, c);
      OrBound(mask, Shl(64, 1, c), 64);
      forall d: nat ensures Bit(Or(mask, Shl(64, 1, c)), d) <==> d == c || Bit(mask, d) {
        BitOr(mask, Shl(64, 1, c), d);
        SingleBit(c, d);
      }
    }

    lemma SingleBit(c: nat, d: nat)
      requires c < MAX_COMPONENT_TYPES
      ensures Bit(Shl(64, 1, c), d) <==> d == c
    {
      BitShl(64, 1, c, d);
      if c < d { BitOfZero(d - c - 1); }
    }

    method RemoveComponent(e: Handle, c: nat)
      requires Valid() && IsAlive(e) && c < MAX_COMPONENT_TYPES
      requires Bit(records[IndexOf(e)].componentMask, c)
      modifies this`records, storages
      ensures Valid() && IsAlive(e) && storages == old(storages) && storages[c] != null
      ensures storages[c].Contents() == old(storages[c].Contents()) - {IndexOf(e)}
      ensures forall d :: 0 <= d < |storages| && d != c && storages[d] != null ==>
        storages[d].Contents() == old(storages[d].Contents())
      ensures |records| == |old(records)| && forall i :: 0 <= i < |records| && i != IndexOf(e) ==>
        records[i] == old(records)[i]
    {
      hide Bit, Pow2, IndexOf, GenerationOf, Shl, AndNot, SlotsOk, ComponentStorage.Valid, ComponentStorage.Contents;
      var idx := IndexOf(e);
      SlotFacts(records, freeList, kills);
      assert idx in OwnersOf(storages[c]);
      var _ := storages[c].Remove(idx);
      MaskClear(records[idx].componentMask, c);
      RemaskKeepsSlots(records, freeList, kills, idx, AndNot(records[idx].componentMask, Shl(64, 1, c)));
      records := records[idx := records[idx].(componentMask := AndNot(records[idx].componentMask, Shl(64, 1, c)))];
    }

    lemma MaskClear(mask: nat, c: nat)
      requires mask < Pow2(64) && c < MAX_COMPONENT_TYPES
      ensures AndNot(mask, Shl(64, 1, c)) < Pow2(64)
      ensures forall d: nat :: Bit(AndNot(mask, Shl(64, 1, c)), d) <==> d != c && Bit(mask, d)
    {
      AndNotBound(mask, Shl(64, 1, c));
      forall d: nat ensures Bit(AndNot(mask, Shl(64, 1, c)), d) <==> d != c && Bit(mask, d) {
        BitAndNot(mask, Shl(64, 1, c), d);
        SingleBit(c, d);
      }
    }

    function GetComponent(e: Handle, c: nat): (v: Option<T>)
      requires Valid() && c < MAX_COMPONENT_TYPES
      reads this, storages
      ensures v.Some? <==> IsAlive(e) && IndexOf(e) in OwnersOf(storages[c])
      ensures v.Some? ==> v.value == storages[c].Contents()[IndexOf(e)]
    {
      if !IsAlive(e) || storages[c] == null then None else storages[c].Get(IndexOf(e))
    }

    /** The mask test answers the same as looking into the storage. */
    predicate HasComponent(e: Handle, c: nat)
      requires Valid() && c < MAX_COMPONENT_TYPES
      reads this, storages
      ensures HasComponent(e, c) <==> GetComponent(e, c).Some?
    {
      TestBit(if IsAlive(e) then records[IndexOf(e)].componentMask else 0, c);
      IsAlive(e) && Shr(records[IndexOf(e)].componentMask, c) % 2 == 1
    }

    /** Counted from the free list, without looking at the slots. */
    function EntityCount(): (n: nat)
      requires Valid()
      reads this, storages
      ensures n == |Alive(records)|
    {
      SlotCount(records, freeList, kills);
      |records| - 1 - |freeList|
    }

    /** A handle made when its slot had seen k deaths is alive again only when the
        slot is alive and a multiple of 4096 further deaths have passed. */
    lemma HandleLiveness(index: nat, k: nat)
      requires Valid() && 0 < index < |records| && k <= kills[index]
      ensures IsAlive(MakeHandle(index, k % GENERATIONS))
        <==> records[index].alive && (kills[index] - k) % GENERATIONS == 0
      ensures k < kills[index] < k + GENERATIONS ==> !IsAlive(MakeHandle(index, k % GENERATIONS))
    {
      hide IndexOf, GenerationOf, MakeHandle, Bit, Pow2;
      HandleRoundTrip(index, k % GENERATIONS);
      SameResidue(kills[index], k);
    }

    lemma SameResidue(m: nat, k: nat)
      requires k <= m
      ensures m % GENERATIONS == k % GENERATIONS <==> (m - k) % GENERATIONS == 0
    {
    }
  }
}
