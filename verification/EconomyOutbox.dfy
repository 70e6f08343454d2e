/** Idempotency keys for combat-economy events and connection tokens. Both come from
    a 64-bit mixer that is injective, so they collide exactly where its inputs do. */
module EconomyOutbox {
  import opened Bits

  // ---- The mixer -----------------------------------------------------------

  const GOLDEN: nat := 0x9E37_79B9_7F4A_7C15
  const MIX1: nat := 0xBF58_476D_1CE4_E5B9
  const MIX2: nat := 0x94D0_49BB_1331_11EB

  function Xorshift(x: nat, k: nat): nat {
    Xor(x, Shr(x, k))
  }

  function Mul64(x: nat, m: nat): Word64 {
    (x * m) % U64
  }

  lemma XorshiftFits(x: Word64, k: nat)
    ensures Xorshift(x, k) < U64
  {
    WordSizes();
    ShrBound(x, k);
    XorBound(x, Shr(x, k), 64);
  }

  /** A right xorshift loses nothing: the bits come back from the top down. */
  lemma XorshiftInjective(x: Word64, y: Word64, k: nat)
    requires k > 0 && Xorshift(x, k) == Xorshift(y, k)
    ensures x == y
  {
    WordSizes();
    forall j: nat | j < 64 ensures Bit(x, j) == Bit(y, j) {
      XorshiftBit(x, y, k, j);
    }
    SameBits(x, y, 64);
  }

  lemma {:induction false} XorshiftBit(x: Word64, y: Word64, k: nat, j: nat)
    requires k > 0 && Xorshift(x, k) == Xorshift(y, k)
    ensures Bit(x, j) == Bit(y, j)
    decreases 64 - j
  {
    WordSizes();
    if j >= 64 {
      BitAboveWidth(x, 64, j);
      BitAboveWidth(y, 64, j);
    } else {
      BitXor(x, Shr(x, k), j);
      BitXor(y, Shr(y, k), j);
      BitShr(x, k, j);
      BitShr(y, k, j);
      XorshiftBit(x, y, k, k + j);
    }
  }

  /** Multiplying by an odd constant is undone by its inverse modulo 2^64. */
  lemma Mul64Undone(x: Word64, m: nat, inverse: nat)
    requires (m * inverse) % U64 == 1
    ensures (Mul64(x, m) * inverse) % U64 == x
  {
    var q, c := x * m / U64, m * inverse / U64;
    assert x * m == U64 * q + Mul64(x, m);
    assert m * inverse == U64 * c + 1;
    calc {
      Mul64(x, m) * inverse;
      (x * m - U64 * q) * inverse;
      { assert (x * m) * inverse == x * (m * inverse); }
      x * (U64 * c + 1) - U64 * q * inverse;
      U64 * (x * c - q * inverse) + x;
    }
    RemainderOf(x, x * c - q * inverse);
  }

  lemma RemainderOf(x: Word64, k: int)
    ensures (U64 * k + x) % U64 == x
  {
  }

  lemma Mul64Injective(x: Word64, y: Word64, m: nat)
    requires m in {GOLDEN, MIX1, MIX2} && Mul64(x, m) == Mul64(y, m)
    ensures x == y
  {
    var inverse :=
      if m == GOLDEN then 0xF1DE_83E1_9937_733D else if m == MIX1 then 0x96DE_1B17_3F11_9089 else 0x3196_42B2_D24D_8EC3;
    Mul64Undone(x, m, inverse);
    Mul64Undone(y, m, inverse);
  }

  // ---- Idempotency keys ----------------------------------------------------

  function KeySeed(domain: nat, netId: Word32, tick: Word32): nat {
    Xor(Xor(Mul64(domain, GOLDEN), Shl(64, netId, 21)), tick)
  }

  function OutboxIdemKey(domain: nat, netId: Word32, tick: Word32): nat {
    var z := KeySeed(domain, netId, tick);
    var z1 := Mul64(Xorshift(z, 30), MIX1);
    var z2 := Mul64(Xorshift(z1, 27), MIX2);
    Xorshift(z2, 31)
  }

  /** The part of a key that depends on the event inside its family. */
  function EventBits(netId: Word32, tick: Word32): nat {
    Xor(Shl(64, netId, 21), tick)
  }

  lemma SeedFits(domain: nat, netId: Word32, tick: Word32)
    ensures KeySeed(domain, netId, tick) < U64 && EventBits(netId, tick) < Pow2(53)
    ensures Shl(64, netId, 21) == netId * Pow2(21)
  {
    hide Xor, Shl, Mul64, Pow2;
    WordSizes();
    Pow2Sum(32, 21);
    Pow2Monotone(53, 64);
    TimesBelow(netId, 0x1_0000_0000, Pow2(21));
    ShlIsMul(64, netId, 21, netId * Pow2(21));
    Pow2Monotone(32, 53);
    XorBound(Shl(64, netId, 21), tick, 53);
    XorBound(Mul64(domain, GOLDEN), Shl(64, netId, 21), 64);
    XorBound(Xor(Mul64(domain, GOLDEN), Shl(64, netId, 21)), tick, 64);
  }

  lemma TimesBelow(a: nat, b: nat, p: nat)
    requires a < b && p > 0
    ensures a * p < b * p
  {
  }

  /** The key determines its seed. */
  lemma KeyDeterminesSeed(d: nat, n: Word32, t: Word32, d': nat, n': Word32, t': Word32)
    requires OutboxIdemKey(d, n, t) == OutboxIdemKey(d', n', t')
    ensures KeySeed(d, n, t) == KeySeed(d', n', t')
  {
    SeedFits(d, n, t);
    SeedFits(d', n', t');
    hide KeySeed, Xorshift, Mul64;
    var z, y := KeySeed(d, n, t), KeySeed(d', n', t');
    var z1, y1 := Mul64(Xorshift(z, 30), MIX1), Mul64(Xorshift(y, 30), MIX1);
    XorshiftFits(z, 30);
    XorshiftFits(y, 30);
    XorshiftFits(z1, 27);
    XorshiftFits(y1, 27);
    XorshiftInjective(Mul64(Xorshift(z1, 27), MIX2), Mul64(Xorshift(y1, 27), MIX2), 31);
    Mul64Injective(Xorshift(z1, 27), Xorshift(y1, 27), MIX2);
    XorshiftInjective(z1, y1, 27);
    Mul64Injective(Xorshift(z, 30), Xorshift(y, 30), MIX1);
    XorshiftInjective(z, y, 30);
  }

  /** The top 11 bits of domain * GOLDEN. */
  function DomainTop(domain: nat): nat {
    if domain == 1 then 1265 else if domain == 2 then 483 else if domain == 3 then 1749 else 966
  }

  /** Event bits stay below bit 53, so the top 11 bits of a seed tell the domain. */
  lemma SeedTop(domain: nat, netId: Word32, tick: Word32)
    requires 1 <= domain <= 4
    ensures Shr(KeySeed(domain, netId, tick), 53)
      == DomainTop(domain)
  {
    var g := Mul64(domain, GOLDEN);
    SeedFits(domain, netId, tick);
    WordSizes();
    Pow2Monotone(32, 53);
    var ns := Shl(64, netId, 21);
    Pow2Sum(32, 21);
    TimesBelow(netId, 0x1_0000_0000, Pow2(21));
    ShrOfSmall(ns, 53);
    ShrOfSmall(tick, 53);
    ShrXor(Xor(g, ns), tick, 53);
    ShrXor(g, ns, 53);
    XorZero(Shr(g, 53));
    TopOfGolden(domain);
  }

  lemma {:induction false} ShrOfSmall(w: nat, n: nat)
    requires w < Pow2(n)
    ensures Shr(w, n) == 0
  {
    if n > 0 { ShrOfSmall(w / 2, n - 1); }
  }

  lemma TopOfGolden(domain: nat)
    requires 1 <= domain <= 4
    ensures Shr(Mul64(domain, GOLDEN), 53)
      == DomainTop(domain)
  {
    ShrIsDiv(Mul64(domain, GOLDEN), 53);
    BitFiftyThree();
    hide Pow2, Shr;
    match domain
    case 1 =>
    case 2 =>
    case 3 =>
    case _ =>
  }

  lemma BitFiftyThree()
    ensures Pow2(53) == 0x20_0000_0000_0000
  {
    WordSizes();
    Pow2Sum(32, 21);
    Pow2Sum(16, 5);
    assert Pow2(5) == 32;
  }

  /** Exact collision bound: for the four event families, two keys are equal exactly
      when the families are and the shifted net id xor the tick is. */
  lemma KeyCollision(d: nat, n: Word32, t: Word32, d': nat, n': Word32, t': Word32)
    requires 1 <= d <= 4 && 1 <= d' <= 4
    ensures OutboxIdemKey(d, n, t) == OutboxIdemKey(d', n', t')
      <==> d == d' && EventBits(n, t) == EventBits(n', t')
  {
    if OutboxIdemKey(d, n, t) == OutboxIdemKey(d', n', t') {
      KeyDeterminesSeed(d, n, t, d', n', t');
      SeedTop(d, n, t);
      SeedTop(d', n', t');
    }
    if d == d' {
      SeedsOfOneDomain(d, n, t, n', t');
    }
  }

  lemma SeedsOfOneDomain(d: nat, n: Word32, t: Word32, n': Word32, t': Word32)
    ensures KeySeed(d, n, t) == KeySeed(d, n', t') <==> EventBits(n, t) == EventBits(n', t')
  {
    SeedFits(d, n, t);
    SeedFits(d, n', t');
    WordSizes();
    hide KeySeed, EventBits, Mul64, Bit, Pow2, Xor, Shl;
    forall j: nat
      ensures Bit(KeySeed(d, n, t), j) == (Bit(Mul64(d, GOLDEN), j) != Bit(EventBits(n, t), j))
      ensures Bit(KeySeed(d, n', t'), j) == (Bit(Mul64(d, GOLDEN), j) != Bit(EventBits(n', t'), j))
    {
      SeedBit(d, n, t, j);
      SeedBit(d, n', t', j);
    }
    if KeySeed(d, n, t) == KeySeed(d, n', t') {
      SameBits(EventBits(n, t), EventBits(n', t'), 53);
    }
    if EventBits(n, t) == EventBits(n', t') {
      SameBits(KeySeed(d, n, t), KeySeed(d, n', t'), 64);
    }
  }

  lemma SeedBit(d: nat, n: Word32, t: Word32, j: nat)
    ensures Bit(KeySeed(d, n, t), j) == (Bit(Mul64(d, GOLDEN), j) != Bit(EventBits(n, t), j))
  {
    var g, ns := Mul64(d, GOLDEN), Shl(64, n, 21);
    BitXor(Xor(g, ns), t, j);
    BitXor(g, ns, j);
    BitXor(ns, t, j);
  }

  /** While ticks stay below 2^21 every event has its own key. */
  lemma KeysUniqueBelowTickBound(d: nat, n: Word32, t: Word32, d': nat, n': Word32, t': Word32)
    requires 1 <= d <= 4 && 1 <= d' <= 4 && t < 0x20_0000 && t' < 0x20_0000
    ensures OutboxIdemKey(d, n, t) == OutboxIdemKey(d', n', t') <==> d == d' && n == n' && t == t'
  {
    hide OutboxIdemKey, EventBits;
    KeyCollision(d, n, t, d', n', t');
    EventBitsBelowTickBound(n, t);
    EventBitsBelowTickBound(n', t');
  }

  /** The tick bound is tight: at tick 2^21 an event meets its neighbour's key. */
  lemma TickBoundIsTight(d: nat, n: Word32)
    requires 1 <= d <= 4 && n % 2 == 0 && n + 1 < 0x1_0000_0000
    ensures OutboxIdemKey(d, n, 0x20_0000) == OutboxIdemKey(d, n + 1, 0)
  {
    hide OutboxIdemKey, EventBits;
    KeyCollision(d, n, 0x20_0000, d, n + 1, 0);
    EventBitsBelowTickBound(n + 1, 0);
    EventBitsAtTickBound(n);
  }

  lemma EventBitsAtTickBound(n: Word32)
    requires n % 2 == 0
    ensures EventBits(n, 0x20_0000) == (n + 1) * 0x20_0000
  {
    Pow2Sum(16, 5);
    WordSizes();
    assert Pow2(5) == 32;
    SeedFits(0, n, 0);
    XorShifted(n, 21);
  }

  lemma {:induction false} XorShifted(w: nat, k: nat)
    requires w % 2 == 0
    ensures Xor(w * Pow2(k), Pow2(k)) == (w + 1) * Pow2(k)
  {
    if k == 0 {
      if w > 0 { XorZero(w / 2); }
    } else {
      XorShifted(w, k - 1);
      DoubleProduct(w, Pow2(k - 1));
      DoubleProduct(w + 1, Pow2(k - 1));
      XorDoubled(w * Pow2(k - 1), Pow2(k - 1));
    }
  }

  lemma DoubleProduct(w: nat, p: nat)
    ensures w * (2 * p) == 2 * (w * p)
  {
  }

  lemma XorDoubled(w: nat, v: nat)
    ensures Xor(2 * w, 2 * v) == 2 * Xor(w, v)
  {
  }

  lemma EventBitsBelowTickBound(n: Word32, t: Word32)
    requires t < 0x20_0000
    ensures EventBits(n, t) == n * 0x20_0000 + t
  {
    Pow2Sum(16, 5);
    WordSizes();
    assert Pow2(5) == 32;
    SeedFits(0, n, t);
    XorDisjoint(t, n, 21);
  }

  // ---- The outbox record of an event ---------------------------------------

  datatype EventCode = LootDrop | LootClaim | Killmail | CargoLost | Unknown

  /** The ledger refuses a second entry of one key; (refType, refId) says what it is about. */
  datatype Record = Record(idemKey: nat, kind: nat, amount: int, refId: nat, reason: string, refType: string)

  function Domain(code: EventCode): nat {
    match code case LootDrop => 1 case LootClaim => 2 case Killmail => 3 case CargoLost => 4 case Unknown => 0
  }

  /** An unknown code leaves the record empty. */
  function MapEconEvent(code: EventCode, aNetId: Word32, value: int, tick: Word32): Record {
    match code
    case LootDrop => Record(OutboxIdemKey(1, aNetId, tick), 6, 0, aNetId, "loot_drop", "Loot")
    case LootClaim => Record(OutboxIdemKey(2, aNetId, tick), 3, value, aNetId, "loot_claimed", "Loot")
    case Killmail => Record(OutboxIdemKey(3, aNetId, tick), 4, value, aNetId, "bounty", "Kill")
    case CargoLost => Record(OutboxIdemKey(4, aNetId, tick), 5, -value, aNetId, "cargo_lost", "Cargo")
    case Unknown => Record(0, 0, 0, 0, "", "")
  }

  /** Money: a drop moves none; a claim and a bounty pay the value out, and losing the same
      cargo takes exactly that back; an unknown code moves nothing. */
  lemma MoneyMoved(a: Word32, value: int, t: Word32)
    ensures MapEconEvent(LootDrop, a, value, t).amount == 0 == MapEconEvent(Unknown, a, value, t).amount
    ensures MapEconEvent(LootClaim, a, value, t).amount == MapEconEvent(Killmail, a, value, t).amount == value
    ensures MapEconEvent(CargoLost, a, value, t).amount + value == 0
  {
  }

  /** What an entry is about: the entity, under a kind and a reason that tell the four events
      apart; a drop and its claim are about the same loot. */
  lemma EntriesAreToldApart(c: EventCode, c': EventCode, a: Word32, v: int, t: Word32)
    requires !c.Unknown? && !c'.Unknown?
    ensures MapEconEvent(c, a, v, t).refId == a
    ensures MapEconEvent(c, a, v, t).kind == MapEconEvent(c', a, v, t).kind <==> c == c'
    ensures MapEconEvent(c, a, v, t).reason == MapEconEvent(c', a, v, t).reason <==> c == c'
    ensures MapEconEvent(LootDrop, a, v, t).refType == MapEconEvent(LootClaim, a, v, t).refType
    ensures MapEconEvent(c, a, v, t).refType == MapEconEvent(c', a, v, t).refType
      <==> c == c' || (c in {LootDrop, LootClaim} && c' in {LootDrop, LootClaim})
  {
    hide OutboxIdemKey;
    assert |"loot_drop"| == 9 && |"loot_claimed"| == 12 && |"bounty"| == 6 && |"cargo_lost"| == 10;
    assert |"Loot"| == 4 && |"Kill"| == 4 && |"Cargo"| == 5 && "Loot"[0] != "Kill"[0];
  }

  /** Two known events share a key only if they are of one kind and one event: the
      ledger's dedupe never drops a different event within the tick bound. */
  lemma RecordsDedupeExactly(c: EventCode, a: Word32, v: int, t: Word32, c': EventCode, a': Word32, v': int, t': Word32)
    requires !c.Unknown? && !c'.Unknown? && t < 0x20_0000 && t' < 0x20_0000
    ensures MapEconEvent(c, a, v, t).idemKey == MapEconEvent(c', a', v', t').idemKey <==> c == c' && a == a' && t == t'
  {
    hide OutboxIdemKey;
    KeysUniqueBelowTickBound(Domain(c), a, t, Domain(c'), a', t');
  }

  // ---- Connection tokens ---------------------------------------------------

  /** The token for one value of the 64-bit call counter. */
  function TokenOf(counter: Word64): Word64 {
    var x := (Mul64(counter, GOLDEN) + 0xABCDEF) % U64;
    var x1 := Mul64(Xorshift(x, 30), MIX1);
    XorshiftFits(x1, 31);
    Xorshift(x1, 31)
  }

  lemma TokenInjective(c: Word64, c': Word64)
    requires TokenOf(c) == TokenOf(c')
    ensures c == c'
  {
    hide Xorshift;
    var g, g' := Mul64(c, GOLDEN), Mul64(c', GOLDEN);
    var x, x' := (g + 0xABCDEF) % U64, (g' + 0xABCDEF) % U64;
    XorshiftFits(x, 30);
    XorshiftFits(x', 30);
    XorshiftInjective(Mul64(Xorshift(x, 30), MIX1), Mul64(Xorshift(x', 30), MIX1), 31);
    Mul64Injective(Xorshift(x, 30), Xorshift(x', 30), MIX1);
    XorshiftInjective(x, x', 30);
    assert g == g';
    Mul64Injective(c, c', GOLDEN);
  }

  /** Calls fewer than 2^64 apart never get the same token. */
  lemma TokensDoNotRepeat(i: nat, j: nat)
    requires i < j < i + U64
    ensures TokenOf(i % U64) != TokenOf(j % U64)
  {
    hide TokenOf;
    DistinctResidues(i, j);
    if TokenOf(i % U64) == TokenOf(j % U64) { TokenInjective(i % U64, j % U64); }
  }

  lemma DistinctResidues(i: nat, j: nat)
    requires i < j < i + U64
    ensures i % U64 != j % U64
  {
    assert j - i == U64 * (j / U64 - i / U64) + (j % U64 - i % U64);
  }
}
