/** Typed damage against three layers of hit points, outermost first: which layers a blow
    breaks, what is left of each, and how much of the blow rounding can lose. */
module Combat {

  datatype DamageOutcome = Absorbed | ShieldDown | ArmorDown | Killed

  /** Shield, armour, hull. */
  const LayerCount: nat := 3

  function BrokenLayer(i: nat): DamageOutcome
    requires i < LayerCount
  {
    [ShieldDown, ArmorDown, Killed][i]
  }

  /** The nearest integer, halves away from zero. */
  function Round(x: real): int {
    if x >= 0.0 then (x + 0.5).Floor else -((-x + 0.5).Floor)
  }

  /** Raw damage becomes `raw * Mult` hit points of layer i. */
  function Mult(resist: seq<real>, i: nat): real
    requires i < |resist|
  {
    1.0 - resist[i]
  }

  /** The raw damage that takes n hit points at this multiplier. */
  function RawFor(n: int, mult: real): real
    requires mult > 0.0
  {
    n as real / mult
  }

  lemma RawForSign(n: int, mult: real)
    requires mult > 0.0 && n >= 0
    ensures n == 0 ==> RawFor(n, mult) == 0.0
    ensures n > 0 ==> RawFor(n, mult) > 0.0
  {
  }

  /** Hit points left after a raw blow that does not break the layer. */
  function Chipped(cur: int, raw: real, mult: real): int {
    var left := cur - Round(raw * mult);
    if left < 0 then 0 else left
  }

  lemma ChippedByEffective(cur: int, raw: real, mult: real, effective: real)
    requires effective == raw * mult
    ensures Chipped(cur, raw, mult) == if cur < Round(effective) then 0 else cur - Round(effective)
  {
  }

  // ---- What a blow does, by thresholds --------------------------------------

  /** The raw damage that breaks the first n layers. */
  ghost function Need(hp: seq<int>, resist: seq<real>, n: nat): real
    requires n <= |hp| == |resist|
  {
    if n == 0 then 0.0
    else
      var m := Mult(resist, n - 1);
      Need(hp, resist, n - 1) + (if hp[n - 1] > 0 && m > 0.0 then RawFor(hp[n - 1], m) else 0.0)
  }

  /** No layer before the nth stops every blow. */
  ghost predicate Passable(hp: seq<int>, resist: seq<real>, n: nat)
    requires n <= |hp| == |resist|
  {
    forall j :: 0 <= j < n && hp[j] > 0 ==> Mult(resist, j) > 0.0
  }

  ghost predicate Reached(hp: seq<int>, resist: seq<real>, damage: real, i: nat)
    requires i < |hp| == |resist|
  {
    hp[i] > 0 && damage > 0.0 && Passable(hp, resist, i) && damage > Need(hp, resist, i)
  }

  ghost predicate Broken(hp: seq<int>, resist: seq<real>, damage: real, i: nat)
    requires i < |hp| == |resist|
  {
    hp[i] > 0 && damage > 0.0 && Passable(hp, resist, i + 1) && damage >= Need(hp, resist, i + 1)
  }

  /** What is left of layer i. */
  ghost function Left(hp: seq<int>, resist: seq<real>, damage: real, i: nat): int
    requires i < |hp| == |resist|
  {
    if Broken(hp, resist, damage, i) then 0
    else if Reached(hp, resist, damage, i) then Chipped(hp[i], damage - Need(hp, resist, i), Mult(resist, i))
    else hp[i]
  }

  /** The innermost layer broken, or none. */
  ghost predicate OutcomeIs(hp: seq<int>, resist: seq<real>, damage: real, n: nat, outcome: DamageOutcome)
    requires n <= |hp| == |resist| == LayerCount
  {
    if outcome == Absorbed then forall i :: 0 <= i < n ==> !Broken(hp, resist, damage, i)
    else exists k :: 0 <= k < n && InnermostBroken(hp, resist, damage, n, k) && outcome == BrokenLayer(k)
  }

  ghost predicate InnermostBroken(hp: seq<int>, resist: seq<real>, damage: real, n: nat, k: nat)
    requires k < n <= |hp| == |resist|
  {
    Broken(hp, resist, damage, k) && forall i :: k < i < n ==> !Broken(hp, resist, damage, i)
  }

  /** What is left of the blow when it comes to layer i. */
  ghost predicate Carried(hp: seq<int>, resist: seq<real>, damage: real, i: nat, raw: real)
    requires i <= |hp| == |resist|
  {
    && raw >= 0.0
    && (raw > 0.0 ==> Passable(hp, resist, i) && raw == damage - Need(hp, resist, i))
    && (raw == 0.0 ==> !Passable(hp, resist, i) || damage <= Need(hp, resist, i))
  }

  /** Main result: the loop that carries the overflow inwards leaves each layer exactly
      what the thresholds say, and reports the innermost layer that broke. */
  method ApplyTypedDamage(layers: array<int>, resist: seq<real>, effectiveBase: real) returns (outcome: DamageOutcome)
    requires layers.Length == |resist| == LayerCount
    modifies layers
    ensures forall i :: 0 <= i < LayerCount ==> layers[i] == Left(old(layers[..]), resist, effectiveBase, i)
    ensures OutcomeIs(old(layers[..]), resist, effectiveBase, LayerCount, outcome)
  {
    hide Broken, Reached, OutcomeIs, Need, Carried, Left, Passable, Mult, Chipped, Round;
    ghost var hp := layers[..];
    var raw := effectiveBase;
    outcome := Absorbed;
    NothingStruck(hp, resist, effectiveBase);
    if raw > 0.0 {
      for i := 0 to LayerCount
        invariant forall j :: 0 <= j < i ==> layers[j] == Left(hp, resist, effectiveBase, j)
        invariant forall j :: i <= j < LayerCount ==> layers[j] == hp[j]
        invariant Carried(hp, resist, effectiveBase, i, raw)
        invariant OutcomeIs(hp, resist, effectiveBase, i, outcome)
      {
        LayerStep(hp, resist, effectiveBase, i, raw);
        OutcomeStep(hp, resist, effectiveBase, i, outcome);
        if raw > 0.0 && layers[i] > 0 {
          var mult := Mult(resist, i);
          var effective := raw * mult;
          if effective < layers[i] as real {
            ChippedByEffective(hp[i], raw, mult, effective);
            layers[i] := layers[i] - Round(effective);
            if layers[i] < 0 { layers[i] := 0; }
            raw := 0.0;
          } else {
            var rawToBreak := if mult > 0.0 then layers[i] as real / mult else raw;
            layers[i] := 0;
            raw := if rawToBreak < raw then raw - rawToBreak else 0.0;
            outcome := BrokenLayer(i);
          }
        }
      }
    }
  }

  lemma NothingStruck(hp: seq<int>, resist: seq<real>, damage: real)
    requires |hp| == |resist| == LayerCount
    ensures damage > 0.0 ==> Carried(hp, resist, damage, 0, damage) && OutcomeIs(hp, resist, damage, 0, Absorbed)
    ensures damage <= 0.0 ==> OutcomeIs(hp, resist, damage, LayerCount, Absorbed)
    ensures damage <= 0.0 ==> forall i :: 0 <= i < LayerCount ==> Left(hp, resist, damage, i) == hp[i]
  {
  }

  /** One layer of the loop, in terms of the thresholds. */
  lemma LayerStep(hp: seq<int>, resist: seq<real>, damage: real, i: nat, raw: real)
    requires i < |hp| == |resist| && damage > 0.0 && Carried(hp, resist, damage, i, raw)
    ensures var mult := Mult(resist, i);
      if raw <= 0.0 || hp[i] <= 0 then
        && Left(hp, resist, damage, i) == hp[i]
        && Carried(hp, resist, damage, i + 1, raw) && !Broken(hp, resist, damage, i)
      else if raw * mult < hp[i] as real then
        && Left(hp, resist, damage, i) == Chipped(hp[i], raw, mult)
        && Carried(hp, resist, damage, i + 1, 0.0) && !Broken(hp, resist, damage, i)
      else
        && mult > 0.0 && Left(hp, resist, damage, i) == 0 && Broken(hp, resist, damage, i)
        && RawFor(hp[i], mult) <= raw && Carried(hp, resist, damage, i + 1, raw - RawFor(hp[i], mult))
  {
    hide Chipped, RawFor;
    NeedGrows(hp, resist, i);
    assert Passable(hp, resist, i + 1) <==> Passable(hp, resist, i) && (hp[i] > 0 ==> Mult(resist, i) > 0.0);
    if hp[i] > 0 && Mult(resist, i) > 0.0 { RawForSign(hp[i], Mult(resist, i)); }
    if raw > 0.0 && hp[i] > 0 {
      BreaksByThreshold(raw, Mult(resist, i), hp[i]);
    }
  }

  /** "Effective damage covers the layer" is "raw damage covers the threshold". */
  lemma BreaksByThreshold(raw: real, mult: real, cur: int)
    requires raw > 0.0 && cur > 0
    ensures raw * mult < cur as real <==> mult <= 0.0 || raw < RawFor(cur, mult)
  {
    if mult > 0.0 {
      var t := cur as real / mult;
      assert t * mult == cur as real;
      assert raw < t <==> raw * mult < t * mult;
    } else {
      assert raw * mult <= 0.0;
    }
  }

  lemma {:induction false} NeedGrows(hp: seq<int>, resist: seq<real>, n: nat)
    requires n < |hp| == |resist|
    ensures 0.0 <= Need(hp, resist, n) <= Need(hp, resist, n + 1)
  {
    if n > 0 { NeedGrows(hp, resist, n - 1); }
    if hp[n] > 0 && Mult(resist, n) > 0.0 { assert RawFor(hp[n], Mult(resist, n)) >= 0.0; }
  }

  lemma OutcomeStep(hp: seq<int>, resist: seq<real>, damage: real, i: nat, was: DamageOutcome)
    requires i < |hp| == |resist| == LayerCount
    requires OutcomeIs(hp, resist, damage, i, was)
    ensures OutcomeIs(hp, resist, damage, i + 1, if Broken(hp, resist, damage, i) then BrokenLayer(i) else was)
  {
    hide Broken;
    if Broken(hp, resist, damage, i) {
      assert InnermostBroken(hp, resist, damage, i + 1, i);
    } else if was != Absorbed {
      var k :| 0 <= k < i && InnermostBroken(hp, resist, damage, i, k) && was == BrokenLayer(k);
      assert InnermostBroken(hp, resist, damage, i + 1, k);
    }
  }

  /** The outcome names the outermost broken layer exactly if no second layer breaks; when
      one does, the outcome is a layer further in. */
  lemma OutcomeIsInnermost(hp: seq<int>, resist: seq<real>, damage: real, outermost: nat, outcome: DamageOutcome)
    requires |hp| == |resist| == LayerCount && outermost < LayerCount
    requires Broken(hp, resist, damage, outermost)
    requires forall i: nat :: i < outermost ==> !Broken(hp, resist, damage, i)
    requires OutcomeIs(hp, resist, damage, LayerCount, outcome)
    ensures outcome == BrokenLayer(outermost) <==>
      forall i: nat :: outermost < i < LayerCount ==> !Broken(hp, resist, damage, i)
    ensures exists k :: outermost <= k < LayerCount && Broken(hp, resist, damage, k) && outcome == BrokenLayer(k)
  {
    hide Broken;
    var k: nat :| k < LayerCount && InnermostBroken(hp, resist, damage, LayerCount, k) && outcome == BrokenLayer(k);
    assert outermost <= k;
  }

  /** A blow that breaks shield and armour is reported as armour alone. */
  lemma TwoLayersBreak(outcome: DamageOutcome)
    requires OutcomeIs([10, 10, 10], [0.0, 0.0, 0.0], 25.0, LayerCount, outcome)
    ensures outcome == ArmorDown
  {
    var hp, resist := [10, 10, 10], [0.0, 0.0, 0.0];
    assert Need(hp, resist, 1) == 10.0;
    assert Need(hp, resist, 2) == 20.0;
    assert Need(hp, resist, 3) == 30.0;
    assert Broken(hp, resist, 25.0, 0) && Broken(hp, resist, 25.0, 1) && !Broken(hp, resist, 25.0, 2);
  }

  // ---- What the thresholds mean ---------------------------------------------

  /** No resistance reaches 1, so damage hurts every layer. */
  ghost predicate Vulnerable(resist: seq<real>) {
    forall k :: 0 <= k < |resist| ==> resist[k] < 1.0
  }

  lemma {:induction false} NeedMonotone(hp: seq<int>, resist: seq<real>, m: nat, n: nat)
    requires m <= n <= |hp| == |resist|
    ensures Need(hp, resist, m) <= Need(hp, resist, n)
  {
    if m < n {
      NeedMonotone(hp, resist, m, n - 1);
      NeedGrows(hp, resist, n - 1);
    }
  }

  /** A blow takes nothing from an inner layer while a layer outside it still stands. */
  lemma OutsideIn(hp: seq<int>, resist: seq<real>, damage: real, i: nat, j: nat)
    requires i < j < |hp| == |resist|
    ensures Left(hp, resist, damage, j) != hp[j] ==> Left(hp, resist, damage, i) <= 0
  {
    NeedMonotone(hp, resist, i + 1, j);
    NeedMonotone(hp, resist, j, j + 1);
  }

  /** No layer rises as long as no resistance is above 1, and standing layers stop at 0. */
  lemma NoLayerRises(hp: seq<int>, resist: seq<real>, damage: real, i: nat)
    requires i < |hp| == |resist| && resist[i] <= 1.0
    ensures Left(hp, resist, damage, i) <= hp[i]
    ensures hp[i] >= 0 ==> Left(hp, resist, damage, i) >= 0
  {
    if Reached(hp, resist, damage, i) {
      assert (damage - Need(hp, resist, i)) * Mult(resist, i) >= 0.0;
    }
  }

  /** Exactly when a standing layer rises: the blow reaches it and its resistance turns
      what is left of the blow into half a hit point or more of repair. */
  lemma LayerRisesExactly(hp: seq<int>, resist: seq<real>, damage: real, i: nat)
    requires i < |hp| == |resist| && hp[i] > 0
    ensures Left(hp, resist, damage, i) > hp[i] <==>
      Reached(hp, resist, damage, i) && (damage - Need(hp, resist, i)) * Mult(resist, i) <= -0.5
  {
    hide Chipped, Need;
    var raw, mult := damage - Need(hp, resist, i), Mult(resist, i);
    ChippedRises(hp[i], raw, mult);
    if Reached(hp, resist, damage, i) && mult > 0.0 { PositiveProduct(raw, mult); }
  }

  lemma PositiveProduct(x: real, y: real)
    requires x > 0.0 && y > 0.0
    ensures x * y > 0.0
  {
  }

  lemma ChippedRises(cur: int, raw: real, mult: real)
    requires cur > 0
    ensures Chipped(cur, raw, mult) > cur <==> raw * mult <= -0.5
  {
    var effective := raw * mult;
  }

  /** A kill leaves no layer standing. */
  lemma KilledMeansAllDown(hp: seq<int>, resist: seq<real>, damage: real, i: nat)
    requires |hp| == |resist| == LayerCount && i < LayerCount
    requires OutcomeIs(hp, resist, damage, LayerCount, Killed)
    ensures Left(hp, resist, damage, i) <= 0
  {
    var k :| 0 <= k < LayerCount && InnermostBroken(hp, resist, damage, LayerCount, k) && Killed == BrokenLayer(k);
    assert k == LayerCount - 1;
    NeedMonotone(hp, resist, i + 1, LayerCount);
  }

  /** The converse fails: rounding can empty a standing hull without a kill, exactly when
      the blow ends at most half a hit point short of the hull's threshold. */
  lemma HullEmptyWithoutKill(hp: seq<int>, resist: seq<real>, damage: real)
    requires |hp| == |resist| == LayerCount && Vulnerable(resist)
    requires hp[2] > 0 && damage > 0.0
    ensures var short := (Need(hp, resist, 3) - damage) * Mult(resist, 2);
      (Left(hp, resist, damage, 2) == 0 && !Broken(hp, resist, damage, 2)) <==> 0.0 < short <= 0.5
  {
    hide Chipped, RawFor, Need, Round;
    var mult := Mult(resist, 2);
    var before, all := Need(hp, resist, 2), Need(hp, resist, 3);
    HullNeed(hp, resist);
    ShortOf(before, all, damage, mult, hp[2]);
    ChippedToNothing(hp[2], damage - before, mult);
    assert Passable(hp, resist, 2) && Passable(hp, resist, 3);
    assert Broken(hp, resist, damage, 2) <==> damage >= all;
    assert Reached(hp, resist, damage, 2) <==> damage > before;
  }

  lemma HullNeed(hp: seq<int>, resist: seq<real>)
    requires |hp| == |resist| == LayerCount && Vulnerable(resist) && hp[2] > 0
    ensures Need(hp, resist, 3) == Need(hp, resist, 2) + RawFor(hp[2], Mult(resist, 2))
  {
  }

  lemma ChippedToNothing(cur: int, raw: real, mult: real)
    requires cur > 0
    ensures Chipped(cur, raw, mult) == 0 <==> raw * mult >= cur as real - 0.5
  {
    var x := raw * mult;
  }

  lemma ShortOf(before: real, all: real, damage: real, mult: real, cur: int)
    requires mult > 0.0 && cur > 0 && all == before + RawFor(cur, mult)
    ensures (all - damage) * mult == cur as real - (damage - before) * mult
    ensures damage > before <==> (damage - before) * mult > 0.0
    ensures all > damage <==> (all - damage) * mult > 0.0
  {
    var t := cur as real / mult;
    assert t * mult == cur as real;
    assert (all - damage) * mult == (t - (damage - before)) * mult == t * mult - (damage - before) * mult;
  }

  // ---- Resistance and rounding -----------------------------------------------

  /** The nearest integer; a tie goes away from zero. */
  lemma RoundIsNearest(x: real)
    ensures -0.5 <= Round(x) as real - x <= 0.5
    ensures x >= 0.0 ==> Round(x) as real - x > -0.5
    ensures x <= 0.0 ==> Round(x) as real - x < 0.5
    ensures Round(-x) == -Round(x)
  {
  }

  /** A resistance of r lets the share 1 - r of a blow through: that many hit points, rounded,
      leave the outermost standing layer. */
  lemma ResistanceReduces(hp: seq<int>, resist: seq<real>, damage: real, share: real)
    requires |hp| == |resist| == LayerCount && hp[0] > 0 && damage > 0.0
    requires share == 1.0 - resist[0] && damage * share < hp[0] as real
    ensures Left(hp, resist, damage, 0) == hp[0] - Round(damage * share)
  {
    hide Round, Chipped;
    BreaksByThreshold(damage, share, hp[0]);
    assert Mult(resist, 0) == share && Need(hp, resist, 0) == 0.0;
    assert share > 0.0 ==> Need(hp, resist, 1) == RawFor(hp[0], share);
    assert Passable(hp, resist, 0);
    assert !Broken(hp, resist, damage, 0) && Reached(hp, resist, damage, 0);
    ChippedWhole(hp[0], damage, share);
  }

  lemma ChippedWhole(cur: int, raw: real, mult: real)
    requires raw * mult < cur as real && cur > 0
    ensures Chipped(cur, raw, mult) == cur - Round(raw * mult)
  {
  }

  // ---- Conservation -----------------------------------------------------------

  /** The raw damage that the first n layers' losses account for. */
  ghost function Taken(hp: seq<int>, resist: seq<real>, damage: real, n: nat): real
    requires n <= |hp| == |resist| && Vulnerable(resist)
  {
    if n == 0 then 0.0
    else Taken(hp, resist, damage, n - 1) + RawFor(hp[n - 1] - Left(hp, resist, damage, n - 1), Mult(resist, n - 1))
  }

  /** Layer `last` is the innermost one the blow reaches, and rounding there is all that
      the losses do not account for. */
  ghost predicate AccountedFor(hp: seq<int>, resist: seq<real>, damage: real, n: nat, last: nat)
    requires last < n <= |hp| == |resist| && Vulnerable(resist)
  {
    && Reached(hp, resist, damage, last)
    && (forall i :: last < i < n ==> Left(hp, resist, damage, i) == hp[i])
    && WithinHalf(Taken(hp, resist, damage, n) - damage, Mult(resist, last))
  }

  ghost predicate WithinHalf(error: real, mult: real)
    requires mult > 0.0
  {
    -0.5 / mult <= error <= 0.5 / mult
  }

  /** Main result: a blow on a standing hull that does not kill is conserved up to half a
      hit point of the innermost layer it reaches. */
  lemma DamageConserved(hp: seq<int>, resist: seq<real>, damage: real, outcome: DamageOutcome)
    requires |hp| == |resist| == LayerCount && Vulnerable(resist)
    requires OutcomeIs(hp, resist, damage, LayerCount, outcome) && outcome != Killed
    requires hp[2] > 0 && damage > 0.0
    ensures exists last :: 0 <= last < LayerCount && AccountedFor(hp, resist, damage, LayerCount, last)
  {
    assert Passable(hp, resist, LayerCount);
    assert !Broken(hp, resist, damage, 2);
    ConservedUpTo(hp, resist, damage, LayerCount);
  }

  /** A blow either takes every hit point of the first n layers or is spent in them. */
  lemma {:induction false} ConservedUpTo(hp: seq<int>, resist: seq<real>, damage: real, n: nat)
    requires n <= |hp| == |resist| && Vulnerable(resist) && damage > 0.0
    ensures damage > Need(hp, resist, n) ==> Taken(hp, resist, damage, n) == Need(hp, resist, n)
    ensures damage <= Need(hp, resist, n) ==> exists last :: 0 <= last < n && AccountedFor(hp, resist, damage, n, last)
  {
    if n > 0 {
      hide Chipped, WithinHalf, RawFor;
      hide Broken, Reached;
      ConservedUpTo(hp, resist, damage, n - 1);
      BlowAt(hp, resist, damage, n - 1);
      ghost var m, here := Mult(resist, n - 1), Need(hp, resist, n - 1);
      RawForSign(0, m);
      hide Left;
      if damage <= here {
        var last :| 0 <= last < n - 1 && AccountedFor(hp, resist, damage, n - 1, last);
        AccountedFurther(hp, resist, damage, n, last);
      } else if damage <= Need(hp, resist, n) {
        LastLayer(hp[n - 1], damage - here, m);
        assert AccountedFor(hp, resist, damage, n, n - 1);
      }
    }
  }

  /** A layer that loses nothing changes no account. */
  lemma AccountedFurther(hp: seq<int>, resist: seq<real>, damage: real, n: nat, last: nat)
    requires last + 1 < n <= |hp| == |resist| && Vulnerable(resist)
    requires AccountedFor(hp, resist, damage, n - 1, last) && Left(hp, resist, damage, n - 1) == hp[n - 1]
    ensures AccountedFor(hp, resist, damage, n, last)
  {
    hide WithinHalf, RawFor, Left, Reached;
    RawForSign(0, Mult(resist, n - 1));
    assert Taken(hp, resist, damage, n) == Taken(hp, resist, damage, n - 1);
  }

  lemma BlowAt(hp: seq<int>, resist: seq<real>, damage: real, i: nat)
    requires i < |hp| == |resist| && Vulnerable(resist) && damage > 0.0
    ensures Need(hp, resist, i) <= Need(hp, resist, i + 1)
    ensures damage <= Need(hp, resist, i) ==> Left(hp, resist, damage, i) == hp[i]
    ensures Need(hp, resist, i) < damage <= Need(hp, resist, i + 1) ==>
      && hp[i] > 0 && Reached(hp, resist, damage, i)
      && Left(hp, resist, damage, i) ==
           if damage == Need(hp, resist, i + 1) then 0
           else Chipped(hp[i], damage - Need(hp, resist, i), Mult(resist, i))
    ensures damage > Need(hp, resist, i + 1) ==> Left(hp, resist, damage, i) == if hp[i] > 0 then 0 else hp[i]
  {
    hide Chipped, RawFor;
    if hp[i] > 0 { RawForSign(hp[i], Mult(resist, i)); }
    NeedGrows(hp, resist, i);
    assert Passable(hp, resist, i + 1);
  }

  /** Rounding the hit points taken from the last layer is off by at most one half. */
  lemma LastLayer(cur: int, raw: real, mult: real)
    requires cur > 0 && mult > 0.0 && 0.0 < raw <= RawFor(cur, mult)
    ensures WithinHalf(RawFor(cur - Chipped(cur, raw, mult), mult) - raw, mult)
    ensures WithinHalf(0.0, mult)
  {
    EffectiveBounds(cur, raw, mult);
    var lost := cur - Chipped(cur, raw, mult);
    DivideBounds(lost as real - raw * mult, mult);
    DivideBounds(0.0, mult);
    assert (lost as real - raw * mult) / mult == RawFor(lost, mult) - raw;
  }

  lemma EffectiveBounds(cur: int, raw: real, mult: real)
    requires mult > 0.0 && 0.0 < raw <= RawFor(cur, mult)
    ensures 0.0 < raw * mult <= cur as real
  {
    assert raw * mult <= RawFor(cur, mult) * mult == cur as real;
  }

  lemma DivideBounds(x: real, mult: real)
    requires mult > 0.0 && -0.5 <= x <= 0.5
    ensures WithinHalf(x / mult, mult)
  {
  }
}
