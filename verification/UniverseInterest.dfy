/** The per-tick refresh of the interest grid, and why its cell neighbourhoods never
    miss anything the metric sensor scan would find. */
module UniverseInterest {
  import opened Interest

  const SECTOR_SIZE: int := 16384

  datatype Pos = Pos(x: int, y: int, z: int)
  datatype Located = Located(netId: nat, pos: Pos)
  datatype Sensor = Sensor(player: nat, range: real, pos: Pos)

  /** The arithmetic right shift by 14: floor division, for negative coordinates too. */
  function SectorOf(p: Pos): SectorId {
    SectorId(p.x / SECTOR_SIZE, p.y / SECTOR_SIZE, p.z / SECTOR_SIZE)
  }

  function Ceiling(x: real): int {
    -((-x).Floor)
  }

  function SectorRadiusForRange(metres: real): (r: int)
    ensures r >= 0
  {
    if metres <= 0.0 then 0 else Ceiling(metres / SECTOR_SIZE as real)
  }

  /** A position lies in its cell. */
  lemma CellHoldsPosition(p: Pos)
    ensures var c := SectorOf(p);
      && c.x * SECTOR_SIZE <= p.x < (c.x + 1) * SECTOR_SIZE
      && c.y * SECTOR_SIZE <= p.y < (c.y + 1) * SECTOR_SIZE
      && c.z * SECTOR_SIZE <= p.z < (c.z + 1) * SECTOR_SIZE
  {
  }

  /** The radius is the least number of whole cells that spans the range. */
  lemma RadiusIsLeast(r: real)
    ensures r <= 0.0 ==> SectorRadiusForRange(r) == 0
    ensures r > 0.0 ==>
      ((SectorRadiusForRange(r) - 1) * SECTOR_SIZE) as real < r <= (SectorRadiusForRange(r) * SECTOR_SIZE) as real
  {
    if r > 0.0 {
      var q := r / SECTOR_SIZE as real;
      assert q * (SECTOR_SIZE as real) == r;
      CeilingIsLeast(q);
      var k := Ceiling(q);
      assert (k * SECTOR_SIZE) as real == k as real * (SECTOR_SIZE as real);
      assert ((k - 1) * SECTOR_SIZE) as real == (k - 1) as real * (SECTOR_SIZE as real);
    }
  }

  lemma CeilingIsLeast(q: real)
    ensures (Ceiling(q) - 1) as real < q <= Ceiling(q) as real
  {
  }

  /** On every axis, less than the range and two cells away. */
  ghost predicate WithinReach(s: Sensor, p: Pos) {
    var reach := (if s.range < 0.0 then 0.0 else s.range) + (2 * SECTOR_SIZE) as real;
    && -reach < (p.x - s.pos.x) as real < reach
    && -reach < (p.y - s.pos.y) as real < reach
    && -reach < (p.z - s.pos.z) as real < reach
  }

  lemma AxisReach(a: int, b: int, r: real)
    requires -SectorRadiusForRange(r) <= a / SECTOR_SIZE - b / SECTOR_SIZE <= SectorRadiusForRange(r)
    ensures var reach := (if r < 0.0 then 0.0 else r) + (2 * SECTOR_SIZE) as real; -reach < (a - b) as real < reach
  {
    RadiusIsLeast(r);
    var k := SectorRadiusForRange(r);
    assert -(k + 1) * SECTOR_SIZE < a - b < (k + 1) * SECTOR_SIZE;
    assert ((k + 1) * SECTOR_SIZE) as real == ((k - 1) * SECTOR_SIZE) as real + (2 * SECTOR_SIZE) as real;
  }

  /** What lies in a cell that a sensor covers is within its reach. */
  lemma CoveredIsWithinReach(s: Sensor, player: nat, p: Pos)
    requires Covers(s, player, SectorOf(p))
    ensures WithinReach(s, p)
  {
    AxisReach(p.x, s.pos.x, s.range);
    AxisReach(p.y, s.pos.y, s.range);
    AxisReach(p.z, s.pos.z, s.range);
  }

  ghost function SquaredDistance(a: Pos, b: Pos): int {
    (a.x - b.x) * (a.x - b.x) + (a.y - b.y) * (a.y - b.y) + (a.z - b.z) * (a.z - b.z)
  }

  /** The distance is at most the range: compared by squares, so a negative range detects nothing. */
  ghost predicate SensorDetect(observer: Pos, target: Pos, range: real) {
    range >= 0.0 && SquaredDistance(observer, target) as real <= range * range
  }

  lemma SquareBound(d: int, r: real)
    requires r >= 0.0 && (d * d) as real <= r * r
    ensures -r <= d as real <= r
  {
    var x := d as real;
    assert (d * d) as real == x * x == (-x) * (-x);
    if x > r { SquareAbove(x, r); }
    if -x > r { SquareAbove(-x, r); }
  }

  lemma SquareAbove(x: real, r: real)
    requires 0.0 <= r < x
    ensures x * x > r * r
  {
    assert x * (x - r) > 0.0;
    assert r * (x - r) >= 0.0;
  }

  /** An axis gap of at most r crosses at most ceil(r / S) floor-divided cells. */
  lemma AxisCells(a: int, b: int, r: real)
    requires r >= 0.0 && -r <= (a - b) as real <= r
    ensures -SectorRadiusForRange(r) <= a / SECTOR_SIZE - b / SECTOR_SIZE <= SectorRadiusForRange(r)
  {
    var k := SectorRadiusForRange(r);
    var s := SECTOR_SIZE as real;
    assert k as real * s >= r by { CeilingAbove(r); }
    assert (k * SECTOR_SIZE) as real == k as real * s;
    assert -(k * SECTOR_SIZE) <= a - b <= k * SECTOR_SIZE;
  }

  lemma CeilingAbove(r: real)
    requires r >= 0.0
    ensures SectorRadiusForRange(r) as real * (SECTOR_SIZE as real) >= r
  {
    var q := r / SECTOR_SIZE as real;
    assert (-q).Floor as real <= -q;
    assert Ceiling(q) as real >= q;
    assert q * (SECTOR_SIZE as real) == r;
  }

  /** Whatever a sensor detects lies in its cell neighbourhood. */
  lemma DetectedIsNear(observer: Pos, target: Pos, range: real)
    requires SensorDetect(observer, target, range)
    ensures InCube(SectorOf(target), SectorOf(observer), SectorRadiusForRange(range))
  {
    var dx, dy, dz := observer.x - target.x, observer.y - target.y, observer.z - target.z;
    GapsAreInRange(dx, dy, dz, range);
    hide SectorRadiusForRange;
    AxisCells(target.x, observer.x, range);
    AxisCells(target.y, observer.y, range);
    AxisCells(target.z, observer.z, range);
  }

  lemma GapsAreInRange(dx: int, dy: int, dz: int, r: real)
    requires r >= 0.0 && (dx * dx + dy * dy + dz * dz) as real <= r * r
    ensures -r <= dx as real <= r && -r <= dy as real <= r && -r <= dz as real <= r
  {
    SquaresAreMonotone(dx, dy, dz);
    SquareBound(dx, r);
    SquareBound(dy, r);
    SquareBound(dz, r);
  }

  lemma SquaresAreMonotone(dx: int, dy: int, dz: int)
    ensures var d := dx * dx + dy * dy + dz * dz; dx * dx <= d && dy * dy <= d && dz * dz <= d
  {
  }

  /** Some sensor of the player covers the cell. */
  ghost predicate Covered(sensors: seq<Sensor>, player: nat, c: SectorId) {
    exists i :: 0 <= i < |sensors| && Covers(sensors[i], player, c)
  }

  ghost predicate Covers(s: Sensor, player: nat, c: SectorId) {
    s.player == player && player != 0 && InCube(c, SectorOf(s.pos), SectorRadiusForRange(s.range))
  }

  ghost predicate Detects(s: Sensor, e: Located) {
    s.player != 0 && SensorDetect(s.pos, e.pos, s.range)
  }

  ghost predicate Unlisted(entities: seq<Located>, e: nat) {
    forall i :: 0 <= i < |entities| ==> entities[i].netId != e
  }

  ghost predicate SameHome(before: map<nat, SectorId>, after: map<nat, SectorId>, e: nat) {
    (e in after <==> e in before) && (e in after ==> after[e] == before[e])
  }

  ghost predicate HasSensor(sensors: seq<Sensor>, player: nat) {
    player != 0 && exists i :: 0 <= i < |sensors| && sensors[i].player == player
  }

  ghost predicate NearSomeSensor(sensors: seq<Sensor>, player: nat, p: Pos) {
    exists j :: 0 <= j < |sensors| && sensors[j].player == player && WithinReach(sensors[j], p)
  }

  lemma CoveredIsNearSome(sensors: seq<Sensor>, player: nat, p: Pos)
    requires Covered(sensors, player, SectorOf(p))
    ensures NearSomeSensor(sensors, player, p)
  {
    var j :| 0 <= j < |sensors| && Covers(sensors[j], player, SectorOf(p));
    CoveredIsWithinReach(sensors[j], player, p);
  }

  method Rehome(grid: InterestGrid, entities: seq<Located>)
    requires grid.Valid() && forall i, j :: 0 <= i < j < |entities| ==> entities[i].netId != entities[j].netId
    modifies grid`cells, grid`entitySector
    ensures grid.Valid()
    ensures forall i :: 0 <= i < |entities| ==>
      entities[i].netId in grid.entitySector && grid.entitySector[entities[i].netId] == SectorOf(entities[i].pos)
    ensures forall e :: Unlisted(entities, e) ==> SameHome(old(grid.entitySector), grid.entitySector, e)
  {
    hide InterestGrid.Valid;
    for n := 0 to |entities|
      invariant grid.Valid()
      invariant forall i :: 0 <= i < n ==>
        entities[i].netId in grid.entitySector && grid.entitySector[entities[i].netId] == SectorOf(entities[i].pos)
      invariant forall e :: Unlisted(entities, e) ==> SameHome(old(grid.entitySector), grid.entitySector, e)
    {
      var _ := grid.UpdateResidency(entities[n].netId, SectorOf(entities[n].pos));
    }
  }

  /** The cells each player's sensors reach; players without a sensor, and player 0, have no entry. */
  method CollectPerPlayer(sensors: seq<Sensor>) returns (perPlayer: map<nat, seq<SectorId>>)
    ensures forall p, c :: (p in perPlayer && c in perPlayer[p]) <==> Covered(sensors, p, c)
    ensures forall p :: p in perPlayer <==> HasSensor(sensors, p)
  {
    hide SectorRadiusForRange, SectorOf;
    perPlayer := map[];
    for n := 0 to |sensors|
      invariant forall p, c :: (p in perPlayer && c in perPlayer[p]) <==> Covered(sensors[..n], p, c)
      invariant forall p :: p in perPlayer <==> p != 0 && exists i :: 0 <= i < n && sensors[i].player == p
    {
      var s := sensors[n];
      assert forall p, c :: p != s.player || p == 0 ==> !Covers(s, p, c);
      OneMoreSensor(sensors, n);
      if s.player != 0 {
        var before := if s.player in perPlayer then perPlayer[s.player] else [];
        var cells := CollectNeighbourhood(SectorOf(s.pos), SectorRadiusForRange(s.range), before);
        assert forall c :: c in cells <==> c in before || c in cells[|before|..];
        assert forall c :: Covers(s, s.player, c) <==> c in cells[|before|..];
        perPlayer := perPlayer[s.player := cells];
      }
    }
    assert sensors[..|sensors|] == sensors;
  }

  lemma OneMoreSensor(sensors: seq<Sensor>, n: nat)
    requires n < |sensors|
    ensures forall p, c :: Covered(sensors[..n + 1], p, c) <==> Covered(sensors[..n], p, c) || Covers(sensors[n], p, c)
  {
    forall p, c ensures Covered(sensors[..n + 1], p, c) <==> Covered(sensors[..n], p, c) || Covers(sensors[n], p, c) {
      if Covered(sensors[..n], p, c) {
        var i :| 0 <= i < n && Covers(sensors[..n][i], p, c);
        assert sensors[..n + 1][i] == sensors[i];
      }
      if Covers(sensors[n], p, c) { assert sensors[..n + 1][n] == sensors[n]; }
      if Covered(sensors[..n + 1], p, c) && !Covers(sensors[n], p, c) {
        var i :| 0 <= i < n + 1 && Covers(sensors[..n + 1][i], p, c);
        assert sensors[..n][i] == sensors[i];
      }
    }
  }

  /** Main result: after the refresh every player with a sensor is subscribed to exactly
      the cells its sensors cover and its pins, sees every entity that any of its sensors
      detects, and outside its pins nothing that is not near one of them. A player without
      one keeps the cells it had, and goes on seeing exactly the entities that live there,
      although nothing of it detects them. */
  method UpdateInterest(grid: InterestGrid, entities: seq<Located>, sensors: seq<Sensor>)
    requires grid.Valid() && forall i, j :: 0 <= i < j < |entities| ==> entities[i].netId != entities[j].netId
    modifies grid
    ensures grid.Valid()
    ensures forall j, c :: 0 <= j < |sensors| && sensors[j].player != 0 ==>
      (c in grid.Subscriptions(sensors[j].player) <==>
        Covered(sensors, sensors[j].player, c) || c in old(grid.Pins(sensors[j].player)))
    ensures forall i, j :: 0 <= i < |entities| && 0 <= j < |sensors| && Detects(sensors[j], entities[i]) ==>
      entities[i].netId in grid.Interesting(sensors[j].player)
    ensures forall i, p :: 0 <= i < |entities| && HasSensor(sensors, p) && entities[i].netId in grid.Interesting(p) ==>
      SectorOf(entities[i].pos) in old(grid.Pins(p)) || NearSomeSensor(sensors, p, entities[i].pos)
    ensures forall p :: !HasSensor(sensors, p) ==> grid.Subscriptions(p) == old(grid.Subscriptions(p))
    ensures forall p, i :: 0 <= i < |entities| && !HasSensor(sensors, p) ==>
      (entities[i].netId in grid.Interesting(p) <==> SectorOf(entities[i].pos) in old(grid.Subscriptions(p)))
    ensures forall e :: Unlisted(entities, e) ==> SameHome(old(grid.entitySector), grid.entitySector, e)
  {
    hide InterestGrid.Valid, SensorDetect, NearSomeSensor;
    Rehome(grid, entities);
    var perPlayer := CollectPerPlayer(sensors);
    SubscribeAll(grid, perPlayer);
    forall i, p | 0 <= i < |entities| && HasSensor(sensors, p) && entities[i].netId in grid.Interesting(p)
      ensures SectorOf(entities[i].pos) in old(grid.Pins(p)) || NearSomeSensor(sensors, p, entities[i].pos)
    {
      if Covered(sensors, p, SectorOf(entities[i].pos)) { CoveredIsNearSome(sensors, p, entities[i].pos); }
    }
    forall i, j | 0 <= i < |entities| && 0 <= j < |sensors| && Detects(sensors[j], entities[i])
      ensures entities[i].netId in grid.Interesting(sensors[j].player)
    {
      DetectedIsNear(sensors[j].pos, entities[i].pos, sensors[j].range);
      assert Covers(sensors[j], sensors[j].player, SectorOf(entities[i].pos));
      assert Covered(sensors, sensors[j].player, SectorOf(entities[i].pos));
    }
  }

  method SubscribeAll(grid: InterestGrid, perPlayer: map<nat, seq<SectorId>>)
    requires grid.Valid()
    modifies grid
    ensures grid.Valid() && grid.entitySector == old(grid.entitySector)
    ensures forall p, c :: p in perPlayer ==>
      (c in grid.Subscriptions(p) <==> c in perPlayer[p] || c in old(grid.Pins(p)))
    ensures forall p :: p !in perPlayer ==>
      grid.Subscriptions(p) == old(grid.Subscriptions(p)) && grid.Pins(p) == old(grid.Pins(p))
  {
    hide InterestGrid.Valid, InterestGrid.Subscriptions, InterestGrid.Pins;
    var todo := perPlayer.Keys;
    while todo != {}
      invariant grid.Valid() && grid.entitySector == old(grid.entitySector) && todo <= perPlayer.Keys
      invariant forall p :: p in todo || p !in perPlayer ==> grid.Pins(p) == old(grid.Pins(p))
      invariant forall p :: p !in perPlayer ==> grid.Subscriptions(p) == old(grid.Subscriptions(p))
      invariant forall p, c :: p in perPlayer && p !in todo ==>
        (c in grid.Subscriptions(p) <==> c in perPlayer[p] || c in old(grid.Pins(p)))
      decreases |todo|
    {
      var p :| p in todo;
      todo := todo - {p};
      SubscribeOne(grid, p, perPlayer[p]);
    }
  }

  method SubscribeOne(grid: InterestGrid, player: nat, cells: seq<SectorId>)
    requires grid.Valid()
    modifies grid
    ensures grid.Valid() && grid.entitySector == old(grid.entitySector)
    ensures forall c :: c in grid.Subscriptions(player) <==> c in cells || c in old(grid.Pins(player))
    ensures forall p :: p != player ==>
      grid.Subscriptions(p) == old(grid.Subscriptions(p)) && grid.Pins(p) == old(grid.Pins(p))
  {
    hide InterestGrid.Valid;
    var target := set c | c in cells;
    var _, _ := grid.SetSubscription(player, target);
  }
}
