/** The cell publish/subscribe grid: per-cell sorted lists of residents and subscribers
    that always agree with the entity and player maps they speed up. */
module Interest {
  import opened Wrappers

  datatype SectorId = SectorId(x: int, y: int, z: int)
  datatype Cell = Cell(residents: seq<nat>, subscribers: seq<nat>)

  // ---- Sorted lists --------------------------------------------------------

  ghost predicate Sorted(v: seq<nat>) {
    forall i, j :: 0 <= i < j < |v| ==> v[i] < v[j]
  }

  ghost function Elements(v: seq<nat>): set<nat> {
    set x | x in v
  }

  lemma FirstIsElement(v: seq<nat>)
    requires v != []
    ensures v[0] in Elements(v)
  {
  }

  /** The one sorted list of a set of numbers. */
  lemma {:induction false} SortedUnique(v: seq<nat>, w: seq<nat>)
    requires Sorted(v) && Sorted(w) && Elements(v) == Elements(w)
    ensures v == w
  {
    if v == [] {
      if w != [] { FirstIsElement(w); }
    } else {
      assert v[|v| - 1] in Elements(v);
      assert |w| > 0 by { assert v[|v| - 1] in Elements(w); }
      var m, n := |v| - 1, |w| - 1;
      assert w[n] in Elements(w);
      assert v[m] == w[n];
      assert forall x :: x in Elements(v[..m]) <==> x in Elements(v) && x != v[m];
      assert forall x :: x in Elements(w[..n]) <==> x in Elements(w) && x != w[n];
      SortedUnique(v[..m], w[..n]);
      assert v == v[..m] + [v[m]] && w == w[..n] + [w[n]];
    }
  }

  /** The first position whose element is not below x, by binary search. */
  method LowerBound(v: seq<nat>, x: nat) returns (at: nat)
    requires Sorted(v)
    ensures at <= |v|
    ensures forall i :: 0 <= i < at ==> v[i] < x
    ensures forall i :: at <= i < |v| ==> x <= v[i]
  {
    var lo, hi := 0, |v|;
    while lo < hi
      invariant 0 <= lo <= hi <= |v|
      invariant forall i :: 0 <= i < lo ==> v[i] < x
      invariant forall i :: hi <= i < |v| ==> x <= v[i]
    {
      var mid := (lo + hi) / 2;
      if v[mid] < x { lo := mid + 1; } else { hi := mid; }
    }
    at := lo;
  }

  method SortedInsert(v: seq<nat>, x: nat) returns (r: seq<nat>)
    requires Sorted(v)
    ensures Sorted(r) && Elements(r) == Elements(v) + {x}
  {
    var at := LowerBound(v, x);
    if at == |v| || v[at] != x {
      r := v[..at] + [x] + v[at..];
      assert v == v[..at] + v[at..];
    } else {
      r := v;
    }
  }

  method SortedErase(v: seq<nat>, x: nat) returns (r: seq<nat>)
    requires Sorted(v)
    ensures Sorted(r) && Elements(r) == Elements(v) - {x}
  {
    var at := LowerBound(v, x);
    if at < |v| && v[at] == x {
      r := v[..at] + v[at + 1..];
      assert v == v[..at] + [v[at]] + v[at + 1..];
    } else {
      r := v;
    }
  }

  // ---- Neighbourhoods ------------------------------------------------------

  ghost predicate InCube(c: SectorId, center: SectorId, r: int) {
    -r <= c.x - center.x <= r && -r <= c.y - center.y <= r && -r <= c.z - center.z <= r
  }

  /** Appends the cube of half-width `radiusCells` (at least 0) around the centre. */
  method CollectNeighbourhood(center: SectorId, radiusCells: int, out: seq<SectorId>) returns (cells: seq<SectorId>)
    ensures out <= cells
    ensures forall c :: c in cells[|out|..] <==> InCube(c, center, if radiusCells < 0 then 0 else radiusCells)
  {
    var r := if radiusCells < 0 then 0 else radiusCells;
    cells := out;
    for dx := -r to r + 1
      invariant out <= cells
      invariant forall c :: c in cells[|out|..] <==> InCube(c, center, r) && c.x - center.x < dx
    {
      for dy := -r to r + 1
        invariant out <= cells
        invariant forall c :: c in cells[|out|..] <==>
          InCube(c, center, r) && (c.x - center.x < dx || (c.x - center.x == dx && c.y - center.y < dy))
      {
        for dz := -r to r + 1
          invariant out <= cells
          invariant forall c :: c in cells[|out|..] <==>
            InCube(c, center, r) && (c.x - center.x < dx || (c.x - center.x == dx &&
              (c.y - center.y < dy || (c.y - center.y == dy && c.z - center.z < dz))))
        {
          var cell := SectorId(center.x + dx, center.y + dy, center.z + dz);
          assert (cells + [cell])[|out|..] == cells[|out|..] + [cell];
          cells := cells + [cell];
        }
      }
    }
  }

  // ---- Agreement -----------------------------------------------------------

  ghost function ResidentsOf(sectors: map<nat, SectorId>, s: SectorId): set<nat> {
    set e | e in sectors && sectors[e] == s
  }

  ghost function SubscribersOf(subs: map<nat, set<SectorId>>, s: SectorId): set<nat> {
    set p | p in subs && s in subs[p]
  }

  lemma UnwatchedSubscribers(subs: map<nat, set<SectorId>>, player: nat, s: SectorId, r: SectorId)
    requires player in subs
    ensures SubscribersOf(subs[player := subs[player] - {s}], r)
      == SubscribersOf(subs, r) - (if r == s then {player} else {})
  {
    var after := subs[player := subs[player] - {s}];
    assert forall p :: p in after && r in after[p] <==> p in subs && r in subs[p] && !(p == player && r == s);
  }

  /** The list holds exactly the cells of the set, once each. */
  ghost predicate Lists(v: seq<SectorId>, s: set<SectorId>) {
    (forall c :: c in v <==> c in s) && |v| == |s|
  }

  lemma ListsOneMore(v: seq<SectorId>, s: set<SectorId>, c: SectorId)
    requires Lists(v, s) && c !in s
    ensures Lists(v + [c], s + {c})
  {
  }

  /** The cell of sector s is what the two maps imply: sorted, complete, and present
      only if somebody lives in it or watches it. */
  ghost predicate CellAgrees(cells: map<SectorId, Cell>, s: SectorId, residents: set<nat>, subscribers: set<nat>) {
    if s in cells then
      && Sorted(cells[s].residents) && Elements(cells[s].residents) == residents
      && Sorted(cells[s].subscribers) && Elements(cells[s].subscribers) == subscribers
      && (cells[s].residents != [] || cells[s].subscribers != [])
    else residents == {} && subscribers == {}
  }

  ghost predicate Agrees(cells: map<SectorId, Cell>, sectors: map<nat, SectorId>, subs: map<nat, set<SectorId>>) {
    forall s :: CellAgrees(cells, s, ResidentsOf(sectors, s), SubscribersOf(subs, s))
  }

  datatype CrossEvent = CrossEvent(changed: bool, previous: Option<SectorId>, to: SectorId)

  class InterestGrid {
    var cells: map<SectorId, Cell>
    var entitySector: map<nat, SectorId>
    var playerSubs: map<nat, set<SectorId>>
    var playerPin: map<nat, set<SectorId>>

    ghost predicate Valid()
      reads this
    {
      Agrees(cells, entitySector, playerSubs)
    }

    constructor ()
      ensures Valid() && entitySector == map[] && playerSubs == map[] && playerPin == map[]
    {
      cells, entitySector, playerSubs, playerPin := map[], map[], map[], map[];
    }

    // -- one cell

    /** Every cell but s keeps its lists. */
    twostate predicate OnlyCell(s: SectorId)
      reads this
    {
      forall r :: r != s ==> (r in cells <==> r in old(cells)) && (r in cells ==> cells[r] == old(cells[r]))
    }

    method AddResident(s: SectorId, e: nat, ghost res: set<nat>, ghost sub: set<nat>)
      requires CellAgrees(cells, s, res, sub)
      modifies this`cells
      ensures CellAgrees(cells, s, res + {e}, sub) && OnlyCell(s)
    {
      var cell := if s in cells then cells[s] else Cell([], []);
      var v := SortedInsert(cell.residents, e);
      assert e in Elements(v);
      cells := cells[s := cell.(residents := v)];
    }

    method RemoveResident(s: SectorId, e: nat, ghost res: set<nat>, ghost sub: set<nat>)
      requires CellAgrees(cells, s, res, sub)
      modifies this`cells
      ensures CellAgrees(cells, s, res - {e}, sub) && OnlyCell(s)
    {
      if s !in cells { return; }
      var v := SortedErase(cells[s].residents, e);
      cells := cells[s := cells[s].(residents := v)];
      PruneCell(s, res - {e}, sub);
    }

    method AddSubscriber(s: SectorId, p: nat, ghost res: set<nat>, ghost sub: set<nat>)
      requires CellAgrees(cells, s, res, sub)
      modifies this`cells
      ensures CellAgrees(cells, s, res, sub + {p}) && OnlyCell(s)
    {
      var cell := if s in cells then cells[s] else Cell([], []);
      var v := SortedInsert(cell.subscribers, p);
      assert p in Elements(v);
      cells := cells[s := cell.(subscribers := v)];
    }

    method RemoveSubscriber(s: SectorId, p: nat, ghost res: set<nat>, ghost sub: set<nat>)
      requires CellAgrees(cells, s, res, sub)
      modifies this`cells
      ensures CellAgrees(cells, s, res, sub - {p}) && OnlyCell(s)
    {
      if s !in cells { return; }
      var v := SortedErase(cells[s].subscribers, p);
      cells := cells[s := cells[s].(subscribers := v)];
      PruneCell(s, res, sub - {p});
    }

    method PruneCell(s: SectorId, ghost res: set<nat>, ghost sub: set<nat>)
      requires s in cells && Sorted(cells[s].residents) && Sorted(cells[s].subscribers)
      requires Elements(cells[s].residents) == res && Elements(cells[s].subscribers) == sub
      modifies this`cells
      ensures CellAgrees(cells, s, res, sub) && OnlyCell(s)
    {
      if cells[s].residents == [] && cells[s].subscribers == [] {
        assert Elements([]) == {};
        cells := cells - {s};
      }
    }

    // -- residency

    /** Re-homes an entity: one leave and one enter on a crossing, nothing otherwise. */
    method UpdateResidency(netId: nat, sector: SectorId) returns (ev: CrossEvent)
      requires Valid()
      modifies this`cells, this`entitySector
      ensures Valid() && entitySector == old(entitySector)[netId := sector]
      ensures ev.to == sector
      ensures ev.previous == if netId in old(entitySector) then Some(old(entitySector)[netId]) else None
      ensures ev.changed <==> ev.previous != Some(sector)
    {
      if netId !in entitySector {
        entitySector := entitySector[netId := sector];
        Settle(netId, sector);
        return CrossEvent(true, None, sector);
      }
      var from := entitySector[netId];
      if from == sector {
        assert entitySector[netId := sector] == entitySector;
        return CrossEvent(false, Some(from), sector);
      }
      Leave(netId);
      entitySector := entitySector[netId := sector];
      Settle(netId, sector);
      return CrossEvent(true, Some(from), sector);
    }

    /** Puts a newly mapped entity on its cell's list. */
    method Settle(netId: nat, sector: SectorId)
      requires netId in entitySector && entitySector[netId] == sector
      requires Agrees(cells, entitySector - {netId}, playerSubs)
      modifies this`cells
      ensures Valid()
    {
      ghost var before := entitySector - {netId};
      assert CellAgrees(cells, sector, ResidentsOf(before, sector), SubscribersOf(playerSubs, sector));
      AddResident(sector, netId, ResidentsOf(before, sector), SubscribersOf(playerSubs, sector));
      forall s ensures CellAgrees(cells, s, ResidentsOf(entitySector, s), SubscribersOf(playerSubs, s)) {
        assert CellAgrees(old(cells), s, ResidentsOf(before, s), SubscribersOf(playerSubs, s));
        assert ResidentsOf(entitySector, s) == ResidentsOf(before, s) + (if s == sector then {netId} else {});
      }
    }

    /** Takes an entity off its cell's list. */
    method Leave(netId: nat)
      requires Valid() && netId in entitySector
      modifies this`cells
      ensures Agrees(cells, entitySector - {netId}, playerSubs)
    {
      var sector := entitySector[netId];
      ghost var after := entitySector - {netId};
      assert CellAgrees(cells, sector, ResidentsOf(entitySector, sector), SubscribersOf(playerSubs, sector));
      RemoveResident(sector, netId, ResidentsOf(entitySector, sector), SubscribersOf(playerSubs, sector));
      forall s ensures CellAgrees(cells, s, ResidentsOf(after, s), SubscribersOf(playerSubs, s)) {
        assert CellAgrees(old(cells), s, ResidentsOf(entitySector, s), SubscribersOf(playerSubs, s));
        assert ResidentsOf(after, s) == ResidentsOf(entitySector, s) - (if s == sector then {netId} else {});
      }
    }

    method Remove(netId: nat)
      requires Valid()
      modifies this`cells, this`entitySector
      ensures Valid() && entitySector == old(entitySector) - {netId}
    {
      if netId !in entitySector {
        assert entitySector - {netId} == entitySector;
        return;
      }
      Leave(netId);
      entitySector := entitySector - {netId};
    }

    // -- subscriptions

    function Subscriptions(player: nat): (s: set<SectorId>)
      reads this
    {
      if player in playerSubs then playerSubs[player] else {}
    }

    method Subscribe(player: nat, s: SectorId) returns (changed: bool)
      requires Valid()
      modifies this`cells, this`playerSubs
      ensures Valid() && playerSubs == old(playerSubs)[player := old(Subscriptions(player)) + {s}]
      ensures changed <==> s !in old(Subscriptions(player))
    {
      var cur := if player in playerSubs then playerSubs[player] else {};
      ghost var before := playerSubs;
      playerSubs := playerSubs[player := cur];
      SameSubscribers(before, playerSubs);
      if s in cur {
        assert cur + {s} == cur;
        return false;
      }
      Watch(player, s);
      return true;
    }

    method Unsubscribe(player: nat, s: SectorId) returns (changed: bool)
      requires Valid()
      modifies this`cells, this`playerSubs
      ensures Valid() && changed == (s in old(Subscriptions(player)))
      ensures playerSubs ==
        if changed then old(playerSubs)[player := old(Subscriptions(player)) - {s}] else old(playerSubs)
    {
      if player !in playerSubs || s !in playerSubs[player] { return false; }
      Unwatch(player, s);
      return true;
    }

    /** Adds one cell to a player's set and the player to the cell's list. */
    method Watch(player: nat, s: SectorId)
      requires Valid() && player in playerSubs && s !in playerSubs[player]
      modifies this`cells, this`playerSubs
      ensures Valid() && playerSubs == old(playerSubs)[player := old(playerSubs)[player] + {s}]
    {
      ghost var before := playerSubs;
      assert CellAgrees(cells, s, ResidentsOf(entitySector, s), SubscribersOf(before, s));
      AddSubscriber(s, player, ResidentsOf(entitySector, s), SubscribersOf(playerSubs, s));
      playerSubs := playerSubs[player := playerSubs[player] + {s}];
      forall r ensures CellAgrees(cells, r, ResidentsOf(entitySector, r), SubscribersOf(playerSubs, r)) {
        assert CellAgrees(old(cells), r, ResidentsOf(entitySector, r), SubscribersOf(before, r));
        assert SubscribersOf(playerSubs, r) == SubscribersOf(before, r) + (if r == s then {player} else {});
      }
    }

    method Unwatch(player: nat, s: SectorId)
      requires Valid() && player in playerSubs && s in playerSubs[player]
      modifies this`cells, this`playerSubs
      ensures Valid() && playerSubs == old(playerSubs)[player := old(playerSubs)[player] - {s}]
    {
      ghost var before := playerSubs;
      assert CellAgrees(cells, s, ResidentsOf(entitySector, s), SubscribersOf(before, s));
      RemoveSubscriber(s, player, ResidentsOf(entitySector, s), SubscribersOf(playerSubs, s));
      playerSubs := playerSubs[player := playerSubs[player] - {s}];
      forall r ensures CellAgrees(cells, r, ResidentsOf(entitySector, r), SubscribersOf(playerSubs, r)) {
        assert CellAgrees(old(cells), r, ResidentsOf(entitySector, r), SubscribersOf(before, r));
        UnwatchedSubscribers(before, player, s, r);
      }
    }

    /** Players with the same sets are the same subscribers; an absent set is an empty one. */
    lemma SameSubscribers(before: map<nat, set<SectorId>>, after: map<nat, set<SectorId>>)
      requires forall p, s :: (p in before && s in before[p]) <==> (p in after && s in after[p])
      requires Agrees(cells, entitySector, before)
      ensures Agrees(cells, entitySector, after)
    {
      forall s ensures CellAgrees(cells, s, ResidentsOf(entitySector, s), SubscribersOf(after, s)) {
        assert CellAgrees(cells, s, ResidentsOf(entitySector, s), SubscribersOf(before, s));
        assert SubscribersOf(after, s) == SubscribersOf(before, s);
      }
    }

    ghost function Pins(player: nat): set<SectorId>
      reads this
    {
      if player in playerPin then playerPin[player] else {}
    }

    /** Prefetch: pins the destination neighbourhood and subscribes to it at once. */
    method PreSubscribe(player: nat, center: SectorId, radiusCells: int)
      requires Valid()
      modifies this
      ensures Valid() && entitySector == old(entitySector)
      ensures forall c :: c in Pins(player) <==>
        c in old(Pins(player)) || InCube(c, center, if radiusCells < 0 then 0 else radiusCells)
      ensures forall c :: c in Subscriptions(player) <==>
        c in old(Subscriptions(player)) || InCube(c, center, if radiusCells < 0 then 0 else radiusCells)
      ensures forall p :: p != player ==> Subscriptions(p) == old(Subscriptions(p)) && Pins(p) == old(Pins(p))
    {
      var around := CollectNeighbourhood(center, radiusCells, []);
      assert around[0..] == around;
      if player !in playerPin { playerPin := playerPin[player := {}]; }
      for i := 0 to |around|
        invariant Valid() && entitySector == old(entitySector) && player in playerPin
        invariant forall c :: c in Pins(player) <==> c in old(Pins(player)) || c in around[..i]
        invariant forall c :: c in Subscriptions(player) <==> c in old(Subscriptions(player)) || c in around[..i]
        invariant forall p :: p != player ==> Subscriptions(p) == old(Subscriptions(p)) && Pins(p) == old(Pins(p))
      {
        playerPin := playerPin[player := playerPin[player] + {around[i]}];
        var _ := Subscribe(player, around[i]);
        assert around[..i + 1] == around[..i] + [around[i]];
      }
      assert around[..|around|] == around;
    }

    /** Replaces a player's subscription with exactly the given cells and the pins they
        do not cover; covered pins are released. The delta lists each change once. */
    method SetSubscription(player: nat, target: set<SectorId>) returns (entered: seq<SectorId>, left: seq<SectorId>)
      requires Valid()
      modifies this
      ensures Valid() && entitySector == old(entitySector)
      ensures Pins(player) == old(Pins(player)) - target
      ensures playerSubs == old(playerSubs)[player := target + old(Pins(player))]
      ensures Lists(entered, target + old(Pins(player)) - old(Subscriptions(player)))
      ensures Lists(left, old(Subscriptions(player)) - target - old(Pins(player)))
      ensures forall p :: p != player ==> Pins(p) == old(Pins(p))
    {
      var wanted := ReleaseCoveredPins(player, target);
      entered, left := ApplyTarget(player, wanted);
      ghost var before, pins := old(Subscriptions(player)), old(Pins(player));
      assert before - (target + pins) == before - target - pins;
    }

    method ReleaseCoveredPins(player: nat, target: set<SectorId>) returns (wanted: set<SectorId>)
      modifies this`playerPin
      ensures wanted == target + old(Pins(player)) && Pins(player) == old(Pins(player)) - target
      ensures forall p :: p != player ==> Pins(p) == old(Pins(p))
    {
      wanted := target;
      if player in playerPin {
        var kept;
        kept, wanted := SplitPins(playerPin[player], target);
        playerPin := if kept == {} then playerPin - {player} else playerPin[player := kept];
      }
    }

    /** A covered pin has been reached and is erased; any other stays wanted. */
    method SplitPins(pins: set<SectorId>, target: set<SectorId>) returns (kept: set<SectorId>, wanted: set<SectorId>)
      ensures kept == pins - target && wanted == target + pins
    {
      kept, wanted := pins, target;
      var todo := pins;
      while todo != {}
        invariant todo <= pins
        invariant forall c :: c in kept <==> c in pins && (c in todo || c !in target)
        invariant forall c :: c in wanted <==> c in target || (c in pins && c !in todo)
        decreases |todo|
      {
        var pin :| pin in todo;
        todo := todo - {pin};
        if pin in target { kept := kept - {pin}; } else { wanted := wanted + {pin}; }
      }
    }

    /** Moves a player's set to exactly `wanted`, one cell at a time. */
    method ApplyTarget(player: nat, wanted: set<SectorId>) returns (entered: seq<SectorId>, left: seq<SectorId>)
      requires Valid()
      modifies this`cells, this`playerSubs
      ensures Valid() && playerSubs == old(playerSubs)[player := wanted]
      ensures Lists(entered, wanted - old(Subscriptions(player)))
      ensures Lists(left, old(Subscriptions(player)) - wanted)
    {
      var cur := if player in playerSubs then playerSubs[player] else {};
      ghost var before := playerSubs;
      playerSubs := playerSubs[player := cur];
      SameSubscribers(before, playerSubs);
      left := LeaveCells(player, wanted);
      entered := EnterCells(player, wanted);
      assert wanted - (cur * wanted) == wanted - cur;
    }

    method LeaveCells(player: nat, wanted: set<SectorId>) returns (left: seq<SectorId>)
      requires Valid() && player in playerSubs
      modifies this`cells, this`playerSubs
      ensures Valid() && playerSubs == old(playerSubs)[player := old(playerSubs)[player] * wanted]
      ensures Lists(left, old(playerSubs)[player] - wanted)
    {
      assert Lists([], {});
      hide Agrees, Lists;
      left := [];
      ghost var gone := {};
      var cur := playerSubs[player];
      var todo := cur;
      while todo != {}
        invariant Valid() && todo <= cur
        invariant forall c :: c in gone <==> c in cur && c !in todo && c !in wanted
        invariant player in playerSubs && playerSubs[player] == cur - gone
        invariant playerSubs == old(playerSubs)[player := playerSubs[player]]
        invariant Lists(left, gone)
        decreases |todo|
      {
        var s :| s in todo;
        todo := todo - {s};
        if s !in wanted {
          Unwatch(player, s);
          ListsOneMore(left, gone, s);
          left := left + [s];
          gone := gone + {s};
        }
      }
      assert gone == cur - wanted && cur - gone == cur * wanted;
    }

    method EnterCells(player: nat, wanted: set<SectorId>) returns (entered: seq<SectorId>)
      requires Valid() && player in playerSubs && playerSubs[player] <= wanted
      modifies this`cells, this`playerSubs
      ensures Valid() && playerSubs == old(playerSubs)[player := wanted]
      ensures Lists(entered, wanted - old(playerSubs)[player])
    {
      assert Lists([], {});
      hide Valid, Agrees, Lists;
      entered := [];
      var cur := playerSubs[player];
      ghost var done := {};
      var todo := wanted;
      while todo != {}
        invariant Valid() && todo + done == wanted && todo !! done && player in playerSubs
        invariant playerSubs[player] == cur + done && playerSubs == old(playerSubs)[player := playerSubs[player]]
        invariant Lists(entered, done - cur)
        decreases |todo|
      {
        var s :| s in todo;
        entered := EnterCell(player, s, entered, cur, done);
        todo, done := todo - {s}, done + {s};
      }
      assert cur + wanted == wanted;
    }

    method EnterCell(player: nat, s: SectorId, entered: seq<SectorId>, ghost cur: set<SectorId>,
                     ghost done: set<SectorId>)
      returns (r: seq<SectorId>)
      requires Valid() && player in playerSubs && playerSubs[player] == cur + done && s !in done
      requires Lists(entered, done - cur)
      modifies this`cells, this`playerSubs
      ensures Valid() && playerSubs == old(playerSubs)[player := cur + (done + {s})]
      ensures Lists(r, (done + {s}) - cur)
    {
      hide Agrees, Lists;
      assert cur + done + {s} == cur + (done + {s});
      if s in playerSubs[player] {
        assert (done + {s}) - cur == done - cur && cur + done + {s} == cur + done;
        r := entered;
      } else {
        Watch(player, s);
        assert (done + {s}) - cur == (done - cur) + {s};
        ListsOneMore(entered, done - cur, s);
        r := entered + [s];
      }
    }

    method RemovePlayer(player: nat)
      requires Valid()
      modifies this
      ensures Valid() && entitySector == old(entitySector)
      ensures playerSubs == old(playerSubs) - {player} && playerPin == old(playerPin) - {player}
    {
      if player in playerSubs {
        ghost var others := playerSubs - {player};
        var todo := playerSubs[player];
        while todo != {}
          invariant Valid() && entitySector == old(entitySector) && playerPin == old(playerPin)
          invariant player in playerSubs && playerSubs[player] == todo && playerSubs - {player} == others
          decreases |todo|
        {
          var s :| s in todo;
          todo := todo - {s};
          Unwatch(player, s);
        }
        SameSubscribers(playerSubs, playerSubs - {player});
        playerSubs := playerSubs - {player};
      }
      playerPin := playerPin - {player};
    }

    // -- visibility

    /** What brute force over all entities would show a player. */
    ghost function Interesting(player: nat): set<nat>
      reads this
    {
      set e | e in entitySector && entitySector[e] in Subscriptions(player)
    }

    function Residents(s: SectorId): (v: seq<nat>)
      requires Valid()
      reads this
      ensures Sorted(v) && Elements(v) == ResidentsOf(entitySector, s)
    {
      assert CellAgrees(cells, s, ResidentsOf(entitySector, s), SubscribersOf(playerSubs, s));
      if s in cells then cells[s].residents else []
    }

    function Subscribers(s: SectorId): (v: seq<nat>)
      requires Valid()
      reads this
      ensures Sorted(v) && Elements(v) == SubscribersOf(playerSubs, s)
    {
      assert CellAgrees(cells, s, ResidentsOf(entitySector, s), SubscribersOf(playerSubs, s));
      if s in cells then cells[s].subscribers else []
    }

    ghost function ResidentsIn(sectors: set<SectorId>): set<nat>
      reads this
    {
      set e | e in entitySector && entitySector[e] in sectors
    }

    /** The union over subscribed cells, sorted and without repeats, is the brute-force answer. */
    method VisibleTo(player: nat) returns (out: seq<nat>)
      requires Valid()
      ensures Sorted(out) && Elements(out) == Interesting(player)
    {
      hide Agrees;
      out := [];
      var all := Subscriptions(player);
      var todo := all;
      while todo != {}
        invariant todo <= all && Sorted(out) && Elements(out) == ResidentsIn(all - todo)
        decreases |todo|
      {
        var s :| s in todo;
        out := InsertAll(out, Residents(s));
        assert ResidentsIn(all - (todo - {s})) == ResidentsIn(all - todo) + ResidentsOf(entitySector, s);
        todo := todo - {s};
      }
      assert ResidentsIn(all - {}) == Interesting(player);
    }

    method InsertAll(v: seq<nat>, more: seq<nat>) returns (r: seq<nat>)
      requires Sorted(v)
      ensures Sorted(r) && Elements(r) == Elements(v) + Elements(more)
    {
      r := v;
      for i := 0 to |more|
        invariant Sorted(r) && Elements(r) == Elements(v) + Elements(more[..i])
      {
        r := SortedInsert(r, more[i]);
        assert Elements(more[..i + 1]) == Elements(more[..i]) + {more[i]};
      }
      assert more[..|more|] == more;
    }

    /** A cell is stored exactly if somebody lives in it or watches it. */
    lemma CellExists(s: SectorId)
      requires Valid()
      ensures s in cells <==> ResidentsOf(entitySector, s) != {} || SubscribersOf(playerSubs, s) != {}
    {
      assert CellAgrees(cells, s, ResidentsOf(entitySector, s), SubscribersOf(playerSubs, s));
      if s in cells {
        if cells[s].residents != [] { assert cells[s].residents[0] in Elements(cells[s].residents); }
        if cells[s].subscribers != [] { assert cells[s].subscribers[0] in Elements(cells[s].subscribers); }
      }
    }
  }
}
