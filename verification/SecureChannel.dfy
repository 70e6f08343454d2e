/** The encrypted channel: sealing numbers every datagram, opening checks the replay
    window first. The cipher is any pair of functions where decryption inverts encryption. */
module SecureChannels {
  import opened Bits
  import opened Wrappers
  import opened PacketCodec
  import opened ReplayWindows

  datatype Direction = ClientToServer | ServerToClient

  type Key = seq<Byte>

  /** Authenticated encryption: key, direction, packet number, header, text. */
  datatype Aead = Aead(
    encrypt: (Key, Direction, nat, seq<Byte>, seq<Byte>) -> Option<seq<Byte>>,
    decrypt: (Key, Direction, nat, seq<Byte>, seq<Byte>) -> Option<seq<Byte>>)

  ghost predicate Inverts(a: Aead) {
    forall k, d, n, h, p :: a.encrypt(k, d, n, h, p).Some? ==>
      a.decrypt(k, d, n, h, a.encrypt(k, d, n, h, p).value) == Some(p)
  }

  datatype OpenResult = Ok | BadHeader | WrongToken | Replay | AuthFailure | NoKeys

  function Opposite(d: Direction): Direction {
    if d == ClientToServer then ServerToClient else ClientToServer
  }

  // ---- Value-level behaviour -----------------------------------------------

  datatype Channel = Channel(
    sendDir: Direction, token: nat, sendKey: Key, recvKey: Key, epoch: nat, hasKeys: bool, sendCounter: nat,
    accepted: set<nat>)

  ghost function HeaderFor(c: Channel): seq<Byte> {
    HeaderBytes(PacketHeader(PROTOCOL_ID, c.token, c.sendCounter))
  }

  ghost function Sealed(a: Aead, c: Channel, payload: seq<Byte>): (Channel, Option<seq<Byte>>) {
    if !c.hasKeys then (c, None)
    else
      match a.encrypt(c.sendKey, c.sendDir, c.sendCounter, HeaderFor(c), payload)
      case None => (c, None)
      case Some(ct) => (c.(sendCounter := (c.sendCounter + 1) % U64), Some(HeaderFor(c) + ct))
  }

  ghost function Opened(a: Aead, c: Channel, dg: seq<Byte>): (Channel, OpenResult, seq<Byte>) {
    if !c.hasKeys then (c, NoKeys, [])
    else
      match HeaderOf(dg)
      case None => (c, BadHeader, [])
      case Some(h) =>
        if h.connectionToken != c.token then (c, WrongToken, [])
        else if !Fresh(c.accepted, h.packetNumber) then (c, Replay, [])
        else
          var c' := c.(accepted := Accept(c.accepted, h.packetNumber));
          match a.decrypt(c.recvKey, Opposite(c.sendDir), h.packetNumber, dg[..HEADER_SIZE], dg[HEADER_SIZE..])
          case None => (c', AuthFailure, [])
          case Some(p) => (c', Ok, p)
  }

  class SecureChannel {
    const aead: Aead
    const sendDir: Direction
    const recvDir: Direction
    const token: Word64
    const replay: ReplayWindow
    var sendKey: Key
    var recvKey: Key
    var epoch: nat
    var hasKeys: bool
    var sendCounter: Word64

    ghost predicate Valid()
      reads this, replay, replay.bits
    {
      replay.Valid() && recvDir == Opposite(sendDir)
    }

    ghost function State(): Channel
      reads this, replay
    {
      Channel(sendDir, token, sendKey, recvKey, epoch, hasKeys, sendCounter, replay.accepted)
    }

    constructor (aead: Aead, sendDir: Direction, token: Word64)
      ensures Valid() && fresh(replay) && fresh(replay.bits) && this.aead == aead
      ensures State() == Channel(sendDir, token, [], [], 0, false, 0, {})
    {
      var r := new ReplayWindow();
      this.aead, this.sendDir, this.recvDir, this.token, replay :=
        aead, sendDir, (if sendDir == ClientToServer then ServerToClient else ClientToServer), token, r;
      sendKey, recvKey, epoch, hasKeys, sendCounter := [], [], 0, false, 0;
    }

    /** New keys for an epoch; the counter and the replay window go on. */
    method SetKeys(sendKey: Key, recvKey: Key, epoch: nat)
      requires Valid()
      modifies this
      ensures Valid()
      ensures State() == old(State()).(sendKey := sendKey, recvKey := recvKey, epoch := epoch, hasKeys := true)
    {
      this.sendKey, this.recvKey, this.epoch, hasKeys := sendKey, recvKey, epoch, true;
    }

    method Seal(payload: seq<Byte>) returns (dg: Option<seq<Byte>>)
      requires Valid()
      modifies this`sendCounter
      ensures Valid() && (State(), dg) == Sealed(aead, old(State()), payload)
    {
      if !hasKeys { return None; }
      var header := WritePacketHeader([], PacketHeader(PROTOCOL_ID, token, sendCounter));
      assert header == HeaderFor(State());
      var ct := aead.encrypt(sendKey, sendDir, sendCounter, header, payload);
      if ct.None? { return None; }
      sendCounter := if sendCounter == U64 - 1 then 0 else sendCounter + 1;
      dg := Some(header + ct.value);
    }

    method Open(dg: seq<Byte>) returns (result: OpenResult, payload: seq<Byte>)
      requires Valid()
      modifies replay, replay.bits
      ensures Valid() && (State(), result, payload) == Opened(aead, old(State()), dg)
    {
      payload := [];
      if !hasKeys { return NoKeys, []; }
      var h := ReadPacketHeader(dg);
      if h.None? { return BadHeader, []; }
      if h.value.connectionToken != token { return WrongToken, []; }
      HeaderNumberFits(dg);
      var isFresh := replay.CheckAndUpdate(h.value.packetNumber);
      if !isFresh { return Replay, []; }
      var plain := aead.decrypt(recvKey, recvDir, h.value.packetNumber, dg[..HEADER_SIZE], dg[HEADER_SIZE..]);
      if plain.None? { return AuthFailure, []; }
      return Ok, plain.value;
    }
  }

  lemma HeaderNumberFits(dg: seq<Byte>)
    requires |dg| >= HEADER_SIZE
    ensures HeaderOf(dg).value.packetNumber < U64
  {
    NumberBound(dg[12..20]);
    WordSizes();
  }

  // ---- Two channels and a network ------------------------------------------

  /** One direction of a session. `wire[i]` and `payloads[i]` belong to the i-th
      sealed datagram; the network may present any of them, or any other bytes, any
      number of times. */
  datatype System = System(
    sender: Channel, receiver: Channel,
    wire: seq<seq<Byte>>, payloads: seq<seq<Byte>>,
    delivered: seq<(nat, seq<Byte>)>,  // the packet numbers opened, and what came out
    spent: set<nat>)                   // packet numbers the window took from what did not decrypt

  datatype Event = Seal(payload: seq<Byte>) | Present(dg: seq<Byte>)

  ghost predicate Mirrored(s: Channel, r: Channel) {
    s.hasKeys && r.hasKeys && s.token == r.token < U64 && s.sendKey == r.recvKey && s.sendDir == Opposite(r.sendDir)
  }

  ghost predicate Start(s: System) {
    && Mirrored(s.sender, s.receiver)
    && s.sender.sendCounter == 0 && s.receiver.accepted == {}
    && s.wire == [] && s.payloads == [] && s.delivered == [] && s.spent == {}
  }

  /** Only what was sealed decrypts. */
  ghost predicate Unforged(a: Aead, s: System, dg: seq<Byte>) {
    HeaderOf(dg).Some? &&
      a.decrypt(s.receiver.recvKey, Opposite(s.receiver.sendDir), HeaderOf(dg).value.packetNumber,
                dg[..HEADER_SIZE], dg[HEADER_SIZE..]).Some?
    ==> dg in s.wire
  }

  /** Fewer than 2^64 datagrams are sealed under one key, and nobody forges one. */
  ghost predicate Enabled(a: Aead, s: System, e: Event) {
    match e
    case Seal(_) => |s.wire| < U64 - 1
    case Present(dg) => Unforged(a, s, dg)
  }

  ghost function NumberOf(dg: seq<Byte>): nat {
    if HeaderOf(dg).Some? then HeaderOf(dg).value.packetNumber else 0
  }

  ghost function Step(a: Aead, s: System, e: Event): System {
    match e
    case Seal(p) =>
      var (c, dg) := Sealed(a, s.sender, p);
      if dg.None? then s.(sender := c)
      else s.(sender := c, wire := s.wire + [dg.value], payloads := s.payloads + [p])
    case Present(dg) =>
      var (c, result, p) := Opened(a, s.receiver, dg);
      s.(receiver := c,
         delivered := if result == Ok then s.delivered + [(NumberOf(dg), p)] else s.delivered,
         spent := if result == AuthFailure then s.spent + {NumberOf(dg)} else s.spent)
  }

  ghost function Run(a: Aead, s0: System, es: seq<Event>): System {
    if es == [] then s0 else Step(a, Run(a, s0, es[..|es| - 1]), es[|es| - 1])
  }

  ghost predicate Legal(a: Aead, s0: System, es: seq<Event>) {
    es == [] || (Legal(a, s0, es[..|es| - 1]) && Enabled(a, Run(a, s0, es[..|es| - 1]), es[|es| - 1]))
  }

  ghost function HeaderAt(s: System, i: nat): PacketHeader {
    PacketHeader(PROTOCOL_ID, s.sender.token, i)
  }

  /** Datagram i is packet number i, sealed from payload i. */
  ghost predicate WireInv(a: Aead, s: System) {
    && s.sender.sendCounter == |s.wire| == |s.payloads| < U64
    && forall i :: 0 <= i < |s.wire| ==>
         && |s.wire[i]| >= HEADER_SIZE && s.wire[i][..HEADER_SIZE] == HeaderBytes(HeaderAt(s, i))
         && a.encrypt(s.sender.sendKey, s.sender.sendDir, i, s.wire[i][..HEADER_SIZE], s.payloads[i])
              == Some(s.wire[i][HEADER_SIZE..])
  }

  ghost predicate WasDelivered(s: System, n: nat) {
    exists k :: 0 <= k < |s.delivered| && s.delivered[k].0 == n
  }

  ghost predicate DeliveredInv(s: System) {
    && (forall n :: n in s.receiver.accepted <==> n in s.spent || WasDelivered(s, n))
    && (forall k :: 0 <= k < |s.delivered| ==>
          s.delivered[k].0 < |s.payloads| && s.delivered[k].1 == s.payloads[s.delivered[k].0])
    && (forall j, k :: 0 <= j < k < |s.delivered| ==> s.delivered[j].0 != s.delivered[k].0)
  }

  ghost predicate Inv(a: Aead, s: System) {
    Mirrored(s.sender, s.receiver) && WireInv(a, s) && DeliveredInv(s)
  }

  /** Opening datagram i: the payload comes out unchanged exactly when its number is fresh. */
  lemma DeliverOutcome(a: Aead, s: System, i: nat)
    requires Inverts(a) && Mirrored(s.sender, s.receiver) && WireInv(a, s) && i < |s.wire|
    ensures Opened(a, s.receiver, s.wire[i]) ==
      if Fresh(s.receiver.accepted, i)
      then (s.receiver.(accepted := s.receiver.accepted + {i}), Ok, s.payloads[i])
      else (s.receiver, Replay, [])
  {
    hide LittleEndian, Number, HeaderBytes, HeaderOf;
    var dg := s.wire[i];
    HeaderRoundTrip(HeaderAt(s, i), dg[HEADER_SIZE..]);
    assert dg == dg[..HEADER_SIZE] + dg[HEADER_SIZE..];
    assert Opposite(s.receiver.sendDir) == s.sender.sendDir;
  }

  lemma StepKeepsInv(a: Aead, s: System, e: Event)
    requires Inverts(a) && Inv(a, s) && Enabled(a, s, e)
    ensures Inv(a, Step(a, s, e))
  {
    hide LittleEndian, Number, HeaderBytes, HeaderOf, Inverts, Unforged, Opened, Sealed, WireInv, DeliveredInv;
    match e
    case Seal(p) =>
      SealKeepsWire(a, s, p);
      SealLeavesReceiver(a, s, p);
    case Present(dg) =>
      PresentKeepsWire(a, s, dg);
      PresentKeepsDelivered(a, s, dg);
  }

  lemma SealLeavesReceiver(a: Aead, s: System, p: seq<Byte>)
    requires Mirrored(s.sender, s.receiver) && DeliveredInv(s)
    ensures var t := Step(a, s, Seal(p)); Mirrored(t.sender, t.receiver) && DeliveredInv(t)
  {
    hide HeaderBytes;
  }

  lemma PresentKeepsWire(a: Aead, s: System, dg: seq<Byte>)
    requires Mirrored(s.sender, s.receiver) && WireInv(a, s)
    ensures var t := Step(a, s, Present(dg)); Mirrored(t.sender, t.receiver) && WireInv(a, t)
  {
    hide HeaderBytes, HeaderOf, NumberOf;
    assert forall i :: HeaderAt(Step(a, s, Present(dg)), i) == HeaderAt(s, i);
  }

  lemma PresentKeepsDelivered(a: Aead, s: System, dg: seq<Byte>)
    requires Inverts(a) && Inv(a, s) && Unforged(a, s, dg)
    ensures DeliveredInv(Step(a, s, Present(dg)))
  {
    hide LittleEndian, Number, HeaderBytes, HeaderOf, Inverts;
    var t := Step(a, s, Present(dg));
    if dg in s.wire {
      var i :| 0 <= i < |s.wire| && s.wire[i] == dg;
      DeliverOutcome(a, s, i);
      WireHeader(a, s, i);
      hide Opened, WireInv;
      if Fresh(s.receiver.accepted, i) { DeliveredGrows(s, t, i); }
    } else {
      hide WireInv;
      SpentGrows(a, s, dg);
    }
  }

  /** What was not sealed is not delivered; at most its number is spent. */
  lemma SpentGrows(a: Aead, s: System, dg: seq<Byte>)
    requires DeliveredInv(s) && Unforged(a, s, dg) && dg !in s.wire
    ensures var t := Step(a, s, Present(dg));
      t.delivered == s.delivered && t.payloads == s.payloads && DeliveredInv(t)
  {
    hide DeliveredInv, Number;
    var t, result := Step(a, s, Present(dg)), Opened(a, s.receiver, dg).1;
    assert result != Ok;
    if result == AuthFailure {
      assert t.receiver.accepted == s.receiver.accepted + {NumberOf(dg)} && t.spent == s.spent + {NumberOf(dg)};
    } else {
      assert t == s;
    }
    SpentKeepsDelivered(s, t, NumberOf(dg));
  }

  lemma SpentKeepsDelivered(s: System, t: System, n: nat)
    requires DeliveredInv(s) && t.delivered == s.delivered && t.payloads == s.payloads
    requires (t.receiver.accepted == s.receiver.accepted && t.spent == s.spent)
      || (t.receiver.accepted == s.receiver.accepted + {n} && t.spent == s.spent + {n})
    ensures DeliveredInv(t)
  {
  }

  lemma SealKeepsWire(a: Aead, s: System, p: seq<Byte>)
    requires Mirrored(s.sender, s.receiver) && WireInv(a, s) && Enabled(a, s, Seal(p))
    ensures WireInv(a, Step(a, s, Seal(p)))
  {
    hide LittleEndian, Number, HeaderBytes, HeaderOf;
    var t, n := Step(a, s, Seal(p)), |s.wire|;
    if |t.wire| > n {
      assert t.wire[n][..HEADER_SIZE] == HeaderBytes(HeaderAt(s, n));
      assert Some(t.wire[n][HEADER_SIZE..]) == a.encrypt(s.sender.sendKey, s.sender.sendDir, n, HeaderFor(s.sender), p);
      assert forall i :: 0 <= i < n ==> t.wire[i] == s.wire[i] && HeaderAt(t, i) == HeaderAt(s, i);
    }
  }

  lemma DeliveredGrows(s: System, t: System, i: nat)
    requires DeliveredInv(s) && i < |s.payloads| && i !in s.receiver.accepted && t.spent == s.spent
    requires t.delivered == s.delivered + [(i, s.payloads[i])] && t.payloads == s.payloads
    requires t.receiver.accepted == s.receiver.accepted + {i}
    ensures DeliveredInv(t)
  {
    forall n
      ensures n in t.receiver.accepted <==> n in t.spent || WasDelivered(t, n)
    {
      if n == i { assert t.delivered[|s.delivered|].0 == i; }
      if n in s.receiver.accepted && n !in s.spent {
        var k :| 0 <= k < |s.delivered| && s.delivered[k].0 == n;
        assert t.delivered[k].0 == n;
      }
      if k :| 0 <= k < |t.delivered| && t.delivered[k].0 == n && n != i {
        assert s.delivered[k].0 == n;
      }
    }
  }

  lemma {:induction false} RunKeepsInv(a: Aead, s0: System, es: seq<Event>)
    requires Inverts(a) && Start(s0) && Legal(a, s0, es)
    ensures Inv(a, Run(a, s0, es))
  {
    if es != [] {
      var n := |es| - 1;
      RunKeepsInv(a, s0, es[..n]);
      StepKeepsInv(a, Run(a, s0, es[..n]), es[n]);
    }
  }

  /** Main result, for any dropping, duplicating, reordering and forging network: what is
      delivered is an unrepeated selection of the sealed payloads, unchanged; every sealed
      datagram carries its own packet number; and presenting a sealed datagram delivers it
      exactly if its number was not taken and is less than 1024 behind every number taken,
      by whatever was opened or only presented with the token. */
  lemma SecureDelivery(a: Aead, s0: System, es: seq<Event>, s: System)
    requires Inverts(a) && Start(s0) && Legal(a, s0, es) && s == Run(a, s0, es)
    ensures forall k :: 0 <= k < |s.delivered| ==> DeliveredFaithfully(s, k)
    ensures forall j, k :: 0 <= j < k < |s.delivered| ==> s.delivered[j].0 != s.delivered[k].0
    ensures forall i: nat :: i < |s.wire| ==> HeaderOf(s.wire[i]) == Some(HeaderAt(s, i))
    ensures forall i: nat :: i < |s.wire| ==> DeliversExactly(a, s, i)
  {
    RunKeepsInv(a, s0, es);
    hide Run, Legal, Inverts, Step;
    forall i: nat | i < |s.wire|
      ensures HeaderOf(s.wire[i]) == Some(HeaderAt(s, i))
      ensures DeliversExactly(a, s, i)
    {
      WireHeader(a, s, i);
      PresentedExactly(a, s, i);
    }
  }

  ghost predicate DeliveredFaithfully(s: System, k: nat)
    requires k < |s.delivered|
  {
    s.delivered[k].0 < |s.payloads| && s.delivered[k].1 == s.payloads[s.delivered[k].0]
  }

  /** Number i was not taken, and is less than 1024 behind every number taken. */
  ghost predicate InWindow(s: System, i: nat) {
    && (forall k :: 0 <= k < |s.delivered| ==> s.delivered[k].0 != i && s.delivered[k].0 < i + WINDOW_BITS)
    && (forall n :: n in s.spent ==> n != i && n < i + WINDOW_BITS)
  }

  /** Presenting sealed datagram i delivers its payload if its number is in the window, and
      nothing otherwise. */
  ghost predicate DeliversExactly(a: Aead, s: System, i: nat)
    requires i < |s.wire|
  {
    && i < |s.payloads|
    && Step(a, s, Present(s.wire[i])).delivered == s.delivered + (if InWindow(s, i) then [(i, s.payloads[i])] else [])
  }

  lemma WireHeader(a: Aead, s: System, i: nat)
    requires WireInv(a, s) && s.sender.token < U64 && i < |s.wire|
    ensures HeaderOf(s.wire[i]) == Some(HeaderAt(s, i))
  {
    hide LittleEndian, Number, HeaderBytes, HeaderOf;
    HeaderRoundTrip(HeaderAt(s, i), s.wire[i][HEADER_SIZE..]);
    assert s.wire[i] == s.wire[i][..HEADER_SIZE] + s.wire[i][HEADER_SIZE..];
  }

  lemma PresentedExactly(a: Aead, s: System, i: nat)
    requires Inverts(a) && Inv(a, s) && i < |s.wire|
    ensures DeliversExactly(a, s, i)
  {
    hide Opened, HeaderOf;
    DeliverOutcome(a, s, i);
    WireHeader(a, s, i);
    TakenNumbers(s, i);
  }

  lemma TakenNumbers(s: System, i: nat)
    requires DeliveredInv(s)
    ensures Fresh(s.receiver.accepted, i) <==> InWindow(s, i)
  {
    if Fresh(s.receiver.accepted, i) {
      forall k | 0 <= k < |s.delivered| ensures s.delivered[k].0 != i && s.delivered[k].0 < i + WINDOW_BITS {
        assert s.delivered[k].0 in s.receiver.accepted;
      }
    }
    if InWindow(s, i) {
      forall m | m in s.receiver.accepted ensures m != i && m < i + WINDOW_BITS {
        if m !in s.spent { var k :| 0 <= k < |s.delivered| && s.delivered[k].0 == m; }
      }
    }
  }

  // ---- Refusals ----------------------------------------------------------------

  /** A datagram of another token leaves sender, receiver and window as they were. */
  lemma WrongTokenChangesNothing(a: Aead, s: System, dg: seq<Byte>)
    requires HeaderOf(dg).Some? && HeaderOf(dg).value.connectionToken != s.receiver.token
    ensures Step(a, s, Present(dg)) == s
    ensures s.receiver.hasKeys ==> Opened(a, s.receiver, dg) == (s.receiver, WrongToken, [])
  {
    hide HeaderOf;
  }

  /** So does one too short for a header. */
  lemma RuntChangesNothing(a: Aead, s: System, dg: seq<Byte>)
    requires |dg| < HEADER_SIZE
    ensures Step(a, s, Present(dg)) == s
    ensures s.receiver.hasKeys ==> Opened(a, s.receiver, dg) == (s.receiver, BadHeader, [])
  {
  }

  /** Without keys nothing is sealed and nothing opened. */
  lemma NothingWithoutKeys(a: Aead, c: Channel, bytes: seq<Byte>)
    requires !c.hasKeys
    ensures Sealed(a, c, bytes) == (c, None)
    ensures Opened(a, c, bytes) == (c, NoKeys, [])
  {
  }

  /** What opens came under the channel's token, with a fresh number, and is what the cipher
      makes of it; what fails to decrypt uses its number up all the same. */
  lemma OpenedUnderToken(a: Aead, c: Channel, dg: seq<Byte>)
    requires Opened(a, c, dg).1 in {Ok, AuthFailure}
    ensures c.hasKeys && HeaderOf(dg).Some? && HeaderOf(dg).value.connectionToken == c.token
    ensures var n := HeaderOf(dg).value.packetNumber;
      Fresh(c.accepted, n) && Opened(a, c, dg).0 == c.(accepted := c.accepted + {n})
  {
    hide HeaderOf;
  }

  /** A number taken before, or too far behind, is refused before the cipher is asked. */
  lemma ReplayChangesNothing(a: Aead, s: System, dg: seq<Byte>)
    requires HeaderOf(dg).Some? && s.receiver.hasKeys && HeaderOf(dg).value.connectionToken == s.receiver.token
    requires !Fresh(s.receiver.accepted, HeaderOf(dg).value.packetNumber)
    ensures Opened(a, s.receiver, dg).1 == Replay && Step(a, s, Present(dg)) == s
  {
    hide HeaderOf;
  }

  lemma {:induction false} TokenStays(a: Aead, s0: System, es: seq<Event>)
    ensures Run(a, s0, es).receiver.token == s0.receiver.token
  {
    hide HeaderOf;
    if es != [] { TokenStays(a, s0, es[..|es| - 1]); }
  }

  ghost predicate PresentedUnder(e: Event, token: nat, n: nat) {
    e.Present? && HeaderOf(e.dg).Some? && HeaderOf(e.dg).value.connectionToken == token
      && HeaderOf(e.dg).value.packetNumber == n
  }

  /** Over every run, a number is used up without being opened only if some datagram
      presented it under the channel's token. */
  lemma {:induction false} SpentWasPresented(a: Aead, s0: System, es: seq<Event>, n: nat)
    requires Start(s0) && n in Run(a, s0, es).spent
    ensures exists i :: 0 <= i < |es| && PresentedUnder(es[i], s0.receiver.token, n)
  {
    if es != [] {
      var m := |es| - 1;
      var s := Run(a, s0, es[..m]);
      if n in s.spent {
        SpentWasPresented(a, s0, es[..m], n);
        var i :| 0 <= i < m && PresentedUnder(es[..m][i], s0.receiver.token, n);
        assert PresentedUnder(es[i], s0.receiver.token, n);
      } else {
        TokenStays(a, s0, es[..m]);
        assert Step(a, s, es[m]).spent != s.spent;
        SpentByPresenting(a, s, es[m], n);
      }
    }
  }

  lemma SpentByPresenting(a: Aead, s: System, e: Event, n: nat)
    requires n in Step(a, s, e).spent && n !in s.spent
    ensures PresentedUnder(e, s.receiver.token, n)
  {
    hide HeaderOf;
    OpenedUnderToken(a, s.receiver, e.dg);
  }

  /** The router reads the channel's token off every datagram it seals. */
  lemma RoutedByToken(a: Aead, c: Channel, payload: seq<Byte>)
    requires c.token < U64 && c.sendCounter < U64
    ensures Sealed(a, c, payload).1.Some? ==>
      PeekedToken([KIND_ENCRYPTED] + Sealed(a, c, payload).1.value) == Some(c.token)
  {
    hide LittleEndian, Number, HeaderBytes, PeekedToken;
    var ct := a.encrypt(c.sendKey, c.sendDir, c.sendCounter, HeaderFor(c), payload);
    if ct.Some? { PeekSealed(PacketHeader(PROTOCOL_ID, c.token, c.sendCounter), ct.value); }
  }
}
