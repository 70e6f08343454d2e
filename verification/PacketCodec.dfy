/** Little-endian fields, the clear packet header and message framing. */
module PacketCodec {
  import opened Bits
  import opened Wrappers

  // ---- Little-endian numbers -----------------------------------------------

  /** The low n bytes of v, least significant first. */
  function LittleEndian(v: nat, n: nat): (s: seq<Byte>)
    ensures |s| == n
  {
    if n == 0 then [] else LittleEndian(v, n - 1) + [Shr(v, 8 * (n - 1)) % 256]
  }

  /** The number n little-endian bytes spell. */
  function Number(s: seq<Byte>): nat {
    if s == [] then 0 else Number(s[..|s| - 1]) + s[|s| - 1] * Pow2(8 * (|s| - 1))
  }

  lemma {:induction false} NumberBound(s: seq<Byte>)
    ensures Number(s) < Pow2(8 * |s|)
  {
    if s != [] {
      var m := |s| - 1;
      NumberBound(s[..m]);
      assert Pow2(8) == 256;
      Pow2Sum(8, 8 * m);
      TimesByte(s[m], Pow2(8 * m));
    }
  }

  lemma TimesByte(b: Byte, p: nat)
    ensures b * p <= 255 * p
  {
  }

  lemma {:induction false} NumberLittleEndian(v: nat, n: nat)
    ensures Number(LittleEndian(v, n)) == v % Pow2(8 * n)
  {
    if n > 0 {
      NumberLittleEndian(v, n - 1);
      var k := 8 * (n - 1);
      ShrIsDiv(v, k);
      Pow2Sum(k, 8);
      assert Pow2(8) == 256;
      SplitMod(v, Pow2(k));
      assert LittleEndian(v, n)[..n - 1] == LittleEndian(v, n - 1);
    }
  }

  lemma NumberSnoc(s: seq<Byte>, b: Byte)
    ensures Number(s + [b]) == Number(s) + b * Pow2(8 * |s|)
  {
    assert (s + [b])[..|s|] == s;
  }

  lemma NumberParts(s: seq<Byte>)
    requires s != []
    ensures var m := |s| - 1;
      Number(s) / Pow2(8 * m) == s[m] && Number(s) % Pow2(8 * m) == Number(s[..m])
  {
    var m := |s| - 1;
    hide Number, Pow2;
    NumberBound(s[..m]);
    NumberSnoc(s[..m], s[m]);
    assert s == s[..m] + [s[m]];
    PartsOf(Number(s), Pow2(8 * m), s[m], Number(s[..m]));
  }

  lemma PartsOf(w: nat, p: int, q: nat, r: nat)
    requires r < p && w == r + q * p
    ensures w / p == q && w % p == r
  {
    ModUnique(w, p, q, r);
  }

  lemma {:induction false} NumberInjective(s: seq<Byte>, t: seq<Byte>)
    requires |s| == |t| && Number(s) == Number(t)
    ensures s == t
  {
    hide Number, Pow2;
    if s != [] {
      var m := |s| - 1;
      NumberParts(s);
      NumberParts(t);
      NumberInjective(s[..m], t[..m]);
      assert s == s[..m] + [s[m]] && t == t[..m] + [t[m]];
    }
  }

  lemma LittleEndianNumber(s: seq<Byte>)
    ensures LittleEndian(Number(s), |s|) == s
  {
    hide LittleEndian, Number, Pow2, Shr;
    NumberBound(s);
    NumberLittleEndian(Number(s), |s|);
    NumberInjective(LittleEndian(Number(s), |s|), s);
  }

  lemma SplitMod(v: nat, p: int)
    requires p > 0
    ensures v % (p * 256) == v % p + ((v / p) % 256) * p
  {
    var q := v / p;
    assert v == p * q + v % p;
    var r := v % p + (q % 256) * p;
    assert q == 256 * (q / 256) + q % 256;
    assert (p * 256) * (q / 256) + r == v;
    assert (q % 256) * p <= 255 * p;
    ModUnique(v, p * 256, q / 256, r);
  }

  /** Byte i is the i-th least significant one. */
  lemma {:induction false} ByteOfNumber(v: nat, n: nat, i: nat)
    requires i < n
    ensures LittleEndian(v, n)[i] == v / Pow2(8 * i) % 256
  {
    if i < n - 1 { ByteOfNumber(v, n - 1, i); } else { ShrIsDiv(v, 8 * i); }
  }

  /** PutU16, PutU32 and PutU64, at n = 2, 4 and 8. */
  method Put(b: seq<Byte>, v: nat, n: nat) returns (r: seq<Byte>)
    ensures r == b + LittleEndian(v, n)
  {
    r := b;
    for i := 0 to n
      invariant r == b + LittleEndian(v, i)
    {
      r := r + [Shr(v, 8 * i) % 256];
    }
  }

  /** GetU16, GetU32 and GetU64, at n = 2, 4 and 8. */
  method Get(b: seq<Byte>, off: nat, n: nat) returns (v: nat)
    requires off + n <= |b| && n <= 8
    ensures v == Number(b[off..off + n]) && v < Pow2(8 * n)
  {
    v := 0;
    assert b[off..off] == [];
    for i := 0 to n
      invariant v == Number(b[off..off + i])
    {
      OrInByte(b[off..off + i], b[off + i]);
      assert b[off..off + i + 1] == b[off..off + i] + [b[off + i]];
      v := Or(v, Shl(64, b[off + i], 8 * i));
    }
    NumberBound(b[off..off + n]);
  }

  lemma OrInByte(s: seq<Byte>, b: Byte)
    requires |s| < 8
    ensures Or(Number(s), Shl(64, b, 8 * |s|)) == Number(s + [b])
  {
    hide Number, Pow2, Or, Shl;
    var k := 8 * |s|;
    NumberSnoc(s, b);
    NumberBound(s);
    NumberBound(s + [b]);
    Pow2Monotone(k + 8, 64);
    OrTop(Number(s), k, b * Pow2(k), b);
  }

  lemma OrTop(low: nat, k: nat, high: nat, b: Byte)
    requires low < Pow2(k) && high == b * Pow2(k) && high < Pow2(64)
    ensures Or(low, Shl(64, b, k)) == low + high
  {
    hide Or, Shl, Pow2;
    ShlIsMul(64, b, k, high);
    OrDisjoint(low, b, k);
  }

  // ---- Packet header -------------------------------------------------------

  const PROTOCOL_ID: nat := 0x4552_0001
  const HEADER_SIZE: nat := 20

  datatype PacketHeader = PacketHeader(protocolId: nat, connectionToken: nat, packetNumber: nat)

  ghost predicate HeaderFits(h: PacketHeader) {
    h.protocolId < 0x1_0000_0000 && h.connectionToken < U64 && h.packetNumber < U64
  }

  ghost function HeaderBytes(h: PacketHeader): (s: seq<Byte>)
    ensures |s| == HEADER_SIZE
  {
    LittleEndian(h.protocolId, 4) + LittleEndian(h.connectionToken, 8) + LittleEndian(h.packetNumber, 8)
  }

  method WritePacketHeader(out: seq<Byte>, h: PacketHeader) returns (r: seq<Byte>)
    ensures r == out + HeaderBytes(h)
  {
    r := Put(out, h.protocolId, 4);
    r := Put(r, h.connectionToken, 8);
    r := Put(r, h.packetNumber, 8);
  }

  method ReadPacketHeader(input: seq<Byte>) returns (h: Option<PacketHeader>)
    ensures h == HeaderOf(input)
  {
    if |input| < HEADER_SIZE { return None; }
    var id := Get(input, 0, 4);
    var token := Get(input, 4, 8);
    var number := Get(input, 12, 8);
    h := Some(PacketHeader(id, token, number));
  }

  ghost function HeaderOf(input: seq<Byte>): Option<PacketHeader> {
    if |input| < HEADER_SIZE then None
    else Some(PacketHeader(Number(input[0..4]), Number(input[4..12]), Number(input[12..20])))
  }

  /** Any datagram that starts with a written header reads that header back. */
  lemma HeaderRoundTrip(h: PacketHeader, rest: seq<Byte>)
    requires HeaderFits(h)
    ensures HeaderOf(HeaderBytes(h) + rest) == Some(h)
  {
    hide LittleEndian, Number, Pow2;
    WordSizes();
    NumberLittleEndian(h.protocolId, 4);
    NumberLittleEndian(h.connectionToken, 8);
    NumberLittleEndian(h.packetNumber, 8);
    var dg := HeaderBytes(h) + rest;
    assert dg[0..4] == LittleEndian(h.protocolId, 4);
    assert dg[4..12] == LittleEndian(h.connectionToken, 8);
    assert dg[12..20] == LittleEndian(h.packetNumber, 8);
  }

  /** Where each header byte lies. */
  lemma HeaderLayout(h: PacketHeader, i: nat)
    ensures i < 4 ==> HeaderBytes(h)[i] == h.protocolId / Pow2(8 * i) % 256
    ensures i < 8 ==> HeaderBytes(h)[4 + i] == h.connectionToken / Pow2(8 * i) % 256
    ensures i < 8 ==> HeaderBytes(h)[12 + i] == h.packetNumber / Pow2(8 * i) % 256
  {
    hide LittleEndian, Pow2;
    if i < 4 { ByteOfNumber(h.protocolId, 4, i); }
    if i < 8 {
      ByteOfNumber(h.connectionToken, 8, i);
      ByteOfNumber(h.packetNumber, 8, i);
    }
  }

  // ---- Routing peek --------------------------------------------------------

  const KIND_ENCRYPTED: Byte := 1
  const TOKEN_OFFSET: nat := 5

  method PeekConnectionToken(dg: seq<Byte>) returns (token: Option<nat>)
    ensures token == PeekedToken(dg)
  {
    if |dg| == 0 || dg[0] != KIND_ENCRYPTED { return None; }
    if |dg| < TOKEN_OFFSET + 8 { return None; }
    var v := Get(dg, TOKEN_OFFSET, 8);
    token := Some(v);
  }

  ghost function PeekedToken(dg: seq<Byte>): Option<nat> {
    if |dg| < TOKEN_OFFSET + 8 || dg[0] != KIND_ENCRYPTED then None
    else Some(Number(dg[TOKEN_OFFSET..TOKEN_OFFSET + 8]))
  }

  /** The router sees the token that the channel wrote. */
  lemma PeekSealed(h: PacketHeader, ciphertext: seq<Byte>)
    requires HeaderFits(h)
    ensures PeekedToken([KIND_ENCRYPTED] + (HeaderBytes(h) + ciphertext)) == Some(h.connectionToken)
  {
    HeaderRoundTrip(h, ciphertext);
    var sealed := HeaderBytes(h) + ciphertext;
    assert ([KIND_ENCRYPTED] + sealed)[5..13] == sealed[4..12];
  }

  /** A token is seen in every encrypted datagram that is long enough, and in no other; it is
      the number that the eight bytes after the protocol id spell. */
  lemma PeekedExactly(dg: seq<Byte>, token: nat)
    ensures PeekedToken(dg) == Some(token) <==>
      |dg| >= 13 && dg[0] == KIND_ENCRYPTED && token < U64 && dg[5..13] == LittleEndian(token, 8)
  {
    if |dg| >= 13 {
      LittleEndianNumber(dg[5..13]);
      NumberLittleEndian(token, 8);
      WordSizes();
    }
  }

  // ---- Message framing -----------------------------------------------------

  datatype Message = Message(channel: Byte, msgType: Byte, body: seq<Byte>)

  ghost function Frame(m: Message): seq<Byte> {
    [m.channel, m.msgType] + LittleEndian(|m.body|, 2) + m.body
  }

  /** Where each part of a frame lies. */
  lemma FrameLayout(m: Message)
    requires |m.body| < 0x1_0000
    ensures var f := Frame(m);
      && |f| == 4 + |m.body| && f[0] == m.channel && f[1] == m.msgType && f[4..] == m.body
      && f[2] == |m.body| % 256 && f[3] == |m.body| / 256
  {
    hide LittleEndian;
    assert Pow2(8) == 256;
    ByteOfNumber(|m.body|, 2, 0);
    ByteOfNumber(|m.body|, 2, 1);
  }

  ghost function Frames(ms: seq<Message>): seq<Byte> {
    if ms == [] then [] else Frame(ms[0]) + Frames(ms[1..])
  }

  /** The payload is the concatenation of these messages' frames. */
  ghost predicate Framed(ms: seq<Message>, payload: seq<Byte>) {
    (forall i :: 0 <= i < |ms| ==> |ms[i].body| < 0x1_0000) && Frames(ms) == payload
  }

  method WriteMessage(out: seq<Byte>, m: Message) returns (r: seq<Byte>)
    ensures r == out + Frame(m)
  {
    r := out + [m.channel] + [m.msgType];
    r := Put(r, |m.body|, 2);
    r := r + m.body;
  }

  /** The first frame of a payload, when it is all there. */
  ghost function FirstFrame(p: seq<Byte>): Option<Message> {
    if |p| < 4 then None
    else
      var len := Number(p[2..4]);
      if 4 + len > |p| then None else Some(Message(p[0], p[1], p[4..4 + len]))
  }

  lemma FirstFrameIs(p: seq<Byte>, m: Message)
    ensures FirstFrame(p) == Some(m) <==> |m.body| < 0x1_0000 && Frame(m) <= p
  {
    hide Number, LittleEndian, Pow2;
    WordSizes();
    if |m.body| < 0x1_0000 && Frame(m) <= p {
      NumberLittleEndian(|m.body|, 2);
      assert p[..|Frame(m)|] == Frame(m);
      assert p[2..4] == Frame(m)[2..4] == LittleEndian(|m.body|, 2);
      assert p[4..4 + |m.body|] == Frame(m)[4..];
    }
    if FirstFrame(p) == Some(m) {
      NumberBound(p[2..4]);
      LittleEndianNumber(p[2..4]);
      assert p[..4 + |m.body|] == Frame(m);
    }
  }

  ghost function Parsed(p: seq<Byte>): Option<seq<Message>>
    decreases |p|
  {
    if p == [] then Some([])
    else match FirstFrame(p)
      case None => None
      case Some(m) => Prepend([m], Parsed(p[4 + |m.body|..]))
  }

  ghost function Prepend(ms: seq<Message>, rest: Option<seq<Message>>): Option<seq<Message>> {
    match rest case None => None case Some(ns) => Some(ms + ns)
  }

  lemma PrependNothing(rest: Option<seq<Message>>)
    ensures Prepend([], rest) == rest
  {
    if rest.Some? { assert [] + rest.value == rest.value; }
  }

  lemma PrependOne(ms: seq<Message>, m: Message, rest: Option<seq<Message>>)
    ensures Prepend(ms, Prepend([m], rest)) == Prepend(ms + [m], rest)
  {
    if rest.Some? { assert ms + ([m] + rest.value) == ms + [m] + rest.value; }
  }

  /** Parsing accepts exactly the concatenations of frames, and recovers the messages. */
  lemma {:induction false} ParsedIffFramed(p: seq<Byte>, ms: seq<Message>)
    ensures Parsed(p) == Some(ms) <==> Framed(ms, p)
    decreases |p|
  {
    hide Frame, FirstFrame;
    if p == [] {
      if ms != [] { FrameSize(ms[0]); }
    } else if ms != [] {
      FrameSize(ms[0]);
      FirstFrameIs(p, ms[0]);
      var n := |Frame(ms[0])|;
      assert Frames(ms)[..n] == Frame(ms[0]) && Frames(ms)[n..] == Frames(ms[1..]);
      assert ms == [ms[0]] + ms[1..];
      if Frame(ms[0]) <= p {
        ParsedIffFramed(p[n..], ms[1..]);
        assert p == Frame(ms[0]) + p[n..];
        assert Framed(ms, p) <==> |ms[0].body| < 0x1_0000 && Framed(ms[1..], p[n..]);
      }
    }
  }

  lemma FrameSize(m: Message)
    ensures |Frame(m)| == 4 + |m.body|
  {
  }

  /** The method's loop: accepts exactly the payloads made of whole frames, and
      returns the messages whose frames make up the payload. */
  method ReadMessages(payload: seq<Byte>) returns (ok: bool, out: seq<Message>)
    ensures ok <==> exists ms :: Framed(ms, payload)
    ensures ok ==> Framed(out, payload)
  {
    hide Number, FirstFrame, Frame, Frames;
    var off := 0;
    out := [];
    assert payload[off..] == payload;
    PrependNothing(Parsed(payload));
    while off < |payload|
      invariant off <= |payload|
      invariant Parsed(payload) == Prepend(out, Parsed(payload[off..]))
    {
      LoopFrame(payload, off);
      if off + 4 > |payload| {
        NoParse(payload);
        return false, out;
      }
      var channel, msgType := payload[off], payload[off + 1];
      var len := Get(payload, off + 2, 2);
      if off + 4 + len > |payload| {
        NoParse(payload);
        return false, out;
      }
      var m := Message(channel, msgType, payload[off + 4..off + 4 + len]);
      PrependOne(out, m, Parsed(payload[off + 4 + len..]));
      out := out + [m];
      off := off + 4 + len;
    }
    assert Parsed(payload[off..]) == Some([]) && out + [] == out;
    ParsedIffFramed(payload, out);
    ok := true;
  }

  /** One turn of the loop, seen from the whole payload. */
  lemma LoopFrame(payload: seq<Byte>, off: nat)
    requires off < |payload|
    ensures off + 4 > |payload| ==> Parsed(payload[off..]) == None
    ensures off + 4 <= |payload| ==>
      var len := Number(payload[off + 2..off + 4]);
      Parsed(payload[off..]) ==
        if off + 4 + len > |payload| then None
        else Prepend([Message(payload[off], payload[off + 1], payload[off + 4..off + 4 + len])],
                     Parsed(payload[off + 4 + len..]))
  {
    hide Number;
    var p := payload[off..];
    if off + 4 <= |payload| {
      assert p[2..4] == payload[off + 2..off + 4];
      var len := Number(p[2..4]);
      if off + 4 + len <= |payload| {
        assert p[4..4 + len] == payload[off + 4..off + 4 + len];
        assert p[4 + len..] == payload[off + 4 + len..];
      }
    }
  }

  lemma NoParse(p: seq<Byte>)
    requires Parsed(p) == None
    ensures !exists ms :: Framed(ms, p)
  {
    forall ms ensures !Framed(ms, p) { ParsedIffFramed(p, ms); }
  }

  /** A payload has one reading only. */
  lemma FramingIsUnique(p: seq<Byte>, ms: seq<Message>, ns: seq<Message>)
    requires Framed(ms, p) && Framed(ns, p)
    ensures ms == ns
  {
    ParsedIffFramed(p, ms);
    ParsedIffFramed(p, ns);
  }
}
