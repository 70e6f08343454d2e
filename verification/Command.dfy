/** Fleet commands on the wire: encoding and decoding undo each other, and no
    truncated encoding is accepted. */
module Command {
  import opened Bits
  import opened Wrappers
  import opened BitStream
  import opened Serde

  const FLEET_COMMAND_VERSION: nat := 1

  /** `range` is the bit pattern of the float; the wire copies it unchanged. */
  datatype FleetCommand = FleetCommand(
    clientTick: Word32, intent: Byte, queue: bool, units: seq<Word32>, targetNetId: Word32,
    x: Int64, y: Int64, z: Int64, range: Word32, beacon: seq<Byte>)

  // ---- Encoding ------------------------------------------------------------

  /** The flag is written as 0 or 1; any byte but 0 is read as set. */
  function QueueByte(c: FleetCommand): Byte {
    if c.queue then 1 else 0
  }

  ghost predicate Spells(q: Byte, c: FleetCommand) {
    q != 0 <==> c.queue
  }

  function HeadFields(c: FleetCommand, q: Byte): seq<Op> {
    [Field(c.clientTick, 32), Field(c.intent, 8), Field(q, 8), Field(|c.units| % 0x1_0000, 16)]
  }

  function UnitFields(units: seq<Word32>): seq<Op> {
    seq(|units|, i requires 0 <= i < |units| => Field(units[i], 32))
  }

  function TailFields(c: FleetCommand): seq<Op> {
    [Field(c.targetNetId, 32), Field(ToUnsigned(c.x), 64), Field(ToUnsigned(c.y), 64), Field(ToUnsigned(c.z), 64),
     Field(c.range, 32), Field(|c.beacon| % 0x1_0000, 16)]
  }

  const Versions: seq<Op> := [Field(PROTOCOL_VERSION, 32), Field(FLEET_COMMAND_VERSION, 8)]

  /** The part of the script before the beacon name. */
  ghost function FixedOps(c: FleetCommand, q: Byte): seq<Op> {
    Versions + HeadFields(c, q) + UnitFields(c.units) + TailFields(c)
  }

  ghost function BeaconOps(beacon: seq<Byte>): seq<Op> {
    if beacon == [] then [] else [Boundary] + ByteOps(beacon)
  }

  ghost function CommandOps(c: FleetCommand, q: Byte): seq<Op> {
    FixedOps(c, q) + BeaconOps(c.beacon)
  }

  ghost predicate Representable(c: FleetCommand) {
    |c.units| < 0x1_0000 && |c.beacon| < 0x1_0000
  }

  method EncodeFleetCommand(c: FleetCommand) returns (bytes: seq<Byte>)
    ensures BitsOf(bytes) == PadToByte(Encoded(CommandOps(c, QueueByte(c))))
    ensures bytes == WireBytes(c, QueueByte(c))
  {
    hide Encoded, PadToByte, BitsOf, WireBytes;
    var q := QueueByte(c);
    var wb := new WriteBuffer();
    wb.WriteBits(FLEET_COMMAND_VERSION, 8);
    assert wb.ops == Versions;
    wb.WriteRecord(HeadFields(c, q));
    wb.WriteRecord(UnitFields(c.units));
    wb.WriteRecord(TailFields(c));
    if c.beacon != [] { wb.WriteBytes(c.beacon); }
    assert wb.ops == CommandOps(c, q);
    bytes := wb.Finalise();
    EncodingIsWireBytes(c, q, bytes);
  }

  // ---- The bytes on the wire ----------------------------------------------------

  ghost predicate Bytewise(ops: seq<Op>) {
    forall i :: 0 <= i < |ops| && ops[i].Field? ==> ops[i].width in {8, 16, 32, 64}
  }

  ghost function BytesOf(ops: seq<Op>): seq<Byte> {
    if ops == [] then []
    else
      BytesOf(ops[..|ops| - 1]) +
      match ops[|ops| - 1]
      case Field(v, n) => BigEndian(v, n / 8)
      case Boundary => []
  }

  lemma {:induction false} BytewiseIsBytes(ops: seq<Op>)
    requires Bytewise(ops)
    ensures Encoded(ops) == BitsOf(BytesOf(ops))
  {
    hide ToBits, BigEndian, BitsOf;
    if ops == [] {
      assert BitsOf([]) == [];
    } else {
      var m := |ops| - 1;
      BytewiseIsBytes(ops[..m]);
      match ops[m]
      case Field(v, n) =>
        assert n == 8 * (n / 8);
        FieldIsBigEndian(v, n / 8);
        BitsOfConcat(BytesOf(ops[..m]), BigEndian(v, n / 8));
      case Boundary =>
        PadWholeBytes(Encoded(ops[..m]));
        assert BytesOf(ops) == BytesOf(ops[..m]);
    }
  }

  lemma {:induction false} BytesOfConcat(a: seq<Op>, b: seq<Op>)
    ensures BytesOf(a + b) == BytesOf(a) + BytesOf(b)
  {
    hide BigEndian;
    if b == [] {
      assert a + b == a;
    } else {
      assert (a + b)[..|a + b| - 1] == a + b[..|b| - 1];
      BytesOfConcat(a, b[..|b| - 1]);
    }
  }

  ghost function UnitBytes(units: seq<Word32>): seq<Byte> {
    if units == [] then [] else UnitBytes(units[..|units| - 1]) + BigEndian(units[|units| - 1], 4)
  }

  /** The command as another program would read it: every number most significant byte
      first, coordinates in two's complement, the beacon name last. */
  ghost function WireBytes(c: FleetCommand, q: Byte): seq<Byte> {
    BigEndian(1, 4) + BigEndian(1, 1)
      + BigEndian(c.clientTick, 4) + BigEndian(c.intent, 1) + BigEndian(q, 1)
      + BigEndian(|c.units| % 0x1_0000, 2) + UnitBytes(c.units)
      + (BigEndian(c.targetNetId, 4) + BigEndian(c.x % U64, 8) + BigEndian(c.y % U64, 8) + BigEndian(c.z % U64, 8)
         + BigEndian(c.range, 4) + BigEndian(|c.beacon| % 0x1_0000, 2))
      + c.beacon
  }

  lemma {:induction false} UnitFieldBytes(units: seq<Word32>)
    ensures BytesOf(UnitFields(units)) == UnitBytes(units)
  {
    hide BigEndian;
    if units != [] {
      var m := |units| - 1;
      UnitFieldBytes(units[..m]);
      assert UnitFields(units)[..m] == UnitFields(units[..m]);
    }
  }

  lemma {:induction false} ByteFieldBytes(data: seq<Byte>)
    ensures BytesOf(ByteOps(data)) == data
  {
    if data != [] {
      var m := |data| - 1;
      OneByte(data[m]);
      ByteFieldBytes(data[..m]);
      ByteOpsSnoc(data);
      hide BigEndian, ByteOps, BytesOf;
      BytesOfSnoc(ByteOps(data[..m]), data[m], 8);
      assert data == data[..m] + [data[m]];
    }
  }

  lemma ByteOpsSnoc(data: seq<Byte>)
    requires data != []
    ensures ByteOps(data) == ByteOps(data[..|data| - 1]) + [Field(data[|data| - 1], 8)]
  {
  }

  lemma BytesOfSnoc(ops: seq<Op>, v: Word64, n: nat)
    ensures BytesOf(ops + [Field(v, n)]) == BytesOf(ops) + BigEndian(v, n / 8)
  {
    hide BigEndian;
    assert (ops + [Field(v, n)])[..|ops|] == ops;
  }

  lemma OneByte(b: Byte)
    ensures BigEndian(b, 1) == [b]
  {
    var s := BigEndian(b, 1);
    assert s[0] == Shr(b, 8 * (1 - 1 - 0)) % 256 == Shr(b, 0) % 256 == b;
  }

  lemma FourBytesOf(a: Op, b: Op, c: Op, d: Op)
    requires a.Field? && b.Field? && c.Field? && d.Field?
    ensures BytesOf([a, b, c, d]) == BigEndian(a.value, a.width / 8) + BigEndian(b.value, b.width / 8)
      + BigEndian(c.value, c.width / 8) + BigEndian(d.value, d.width / 8)
  {
    hide BigEndian;
    TwoBytesOf(a, b);
    assert [a, b, c, d][..3] == [a, b, c] && [a, b, c][..2] == [a, b];
    assert BytesOf([a, b, c]) == BytesOf([a, b]) + BigEndian(c.value, c.width / 8);
  }

  lemma TwoBytesOf(a: Op, b: Op)
    requires a.Field? && b.Field?
    ensures BytesOf([a, b]) == BigEndian(a.value, a.width / 8) + BigEndian(b.value, b.width / 8)
  {
    hide BigEndian;
    assert [a, b][..1] == [a] && [a][..0] == [];
    assert BytesOf([a]) == [] + BigEndian(a.value, a.width / 8);
  }

  lemma TailBytes(c: FleetCommand)
    ensures BytesOf(TailFields(c)) ==
      BigEndian(c.targetNetId, 4) + BigEndian(c.x % U64, 8) + BigEndian(c.y % U64, 8) + BigEndian(c.z % U64, 8)
      + BigEndian(c.range, 4) + BigEndian(|c.beacon| % 0x1_0000, 2)
  {
    hide BigEndian;
    var t := TailFields(c);
    SignedPattern(c.x);
    SignedPattern(c.y);
    SignedPattern(c.z);
    FourBytesOf(t[0], t[1], t[2], t[3]);
    TwoBytesOf(t[4], t[5]);
    assert t == [t[0], t[1], t[2], t[3]] + [t[4], t[5]];
    BytesOfConcat([t[0], t[1], t[2], t[3]], [t[4], t[5]]);
  }

  lemma BeaconBytes(beacon: seq<Byte>)
    ensures BytesOf(BeaconOps(beacon)) == beacon
  {
    ByteFieldBytes(beacon);
    if beacon != [] {
      BytesOfConcat([Boundary], ByteOps(beacon));
      assert [Boundary][..0] == [];
    }
  }

  lemma CommandBytes(c: FleetCommand, q: Byte)
    ensures BytesOf(CommandOps(c, q)) == WireBytes(c, q)
  {
    hide BigEndian, BytesOf, UnitBytes, TailFields, UnitFields, BeaconOps;
    var h := HeadFields(c, q);
    TwoBytesOf(Versions[0], Versions[1]);
    FourBytesOf(h[0], h[1], h[2], h[3]);
    UnitFieldBytes(c.units);
    TailBytes(c);
    BeaconBytes(c.beacon);
    BytesOfConcat(Versions, h);
    BytesOfConcat(Versions + h, UnitFields(c.units));
    BytesOfConcat(Versions + h + UnitFields(c.units), TailFields(c));
    BytesOfConcat(FixedOps(c, q), BeaconOps(c.beacon));
  }

  /** The encoding is these bytes and no others. */
  lemma EncodingIsWireBytes(c: FleetCommand, q: Byte, bytes: seq<Byte>)
    requires BitsOf(bytes) == PadToByte(Encoded(CommandOps(c, q)))
    ensures bytes == WireBytes(c, q)
  {
    CommandIsBytewise(c, q);
    CommandIsWholeBytes(c, q);
    hide Encoded, BytesOf, WireBytes, BitsOf, PadToByte, CommandOps;
    BytewiseIsBytes(CommandOps(c, q));
    BitsOfInjective(bytes, BytesOf(CommandOps(c, q)));
    CommandBytes(c, q);
  }

  // ---- Decoding ------------------------------------------------------------

  const HeadWidths: seq<nat> := [32, 8, 8, 16]
  const TailWidths: seq<nat> := [32, 64, 64, 64, 32, 16]

  /** The raw fields after the versions. */
  datatype Raw = Raw(head: seq<nat>, units: seq<nat>, tail: seq<nat>, beacon: seq<nat>) {
    ghost predicate InRange() {
      && |head| == 4 && head[0] < 0x1_0000_0000 && head[1] < 256
      && (forall i :: 0 <= i < |units| ==> units[i] < 0x1_0000_0000)
      && |tail| == 6 && tail[0] < 0x1_0000_0000 && tail[1] < U64 && tail[2] < U64 && tail[3] < U64
      && tail[4] < 0x1_0000_0000
      && (forall i :: 0 <= i < |beacon| ==> beacon[i] < 256)
    }

    function Assemble(): FleetCommand
      requires InRange()
    {
      FleetCommand(head[0], head[1], head[2] != 0, units, tail[0],
                   ToSigned(tail[1]), ToSigned(tail[2]), ToSigned(tail[3]), tail[4], beacon)
    }
  }

  ghost function ReadBody(s: seq<bool>, c: Cursor): (r: (Raw, Cursor))
    ensures r.0.InRange()
  {
    BodyFits(s, c);
    var (head, c1) := ReadAll(s, c, HeadWidths);
    var (units, c2) := ReadAll(s, c1, Repeat(32, head[3]));
    var (tail, c3) := ReadAll(s, c2, TailWidths);
    var (beacon, c4) := if tail[5] == 0 then ([], c3) else ReadAll(s, Align(c3), Repeat(8, tail[5]));
    (Raw(head, units, tail, beacon), c4)
  }

  lemma BodyFits(s: seq<bool>, c: Cursor)
    ensures var (head, c1) := ReadAll(s, c, HeadWidths);
      && |head| == 4
      && var (units, c2) := ReadAll(s, c1, Repeat(32, head[3]));
      var (tail, c3) := ReadAll(s, c2, TailWidths);
      && |tail| == 6
      && Raw(head, units, tail, if tail[5] == 0 then [] else ReadAll(s, Align(c3), Repeat(8, tail[5])).0).InRange()
  {
    hide ReadAll, Pow2;
    WordSizes();
    ReadAllFits(s, c, HeadWidths);
    var (head, c1) := ReadAll(s, c, HeadWidths);
    assert head[0] < Pow2(HeadWidths[0]) && head[1] < Pow2(HeadWidths[1]);
    ReadAllFits(s, c1, Repeat(32, head[3]));
    var c2 := ReadAll(s, c1, Repeat(32, head[3])).1;
    ReadAllFits(s, c2, TailWidths);
    var (tail, c3) := ReadAll(s, c2, TailWidths);
    assert forall i :: 0 <= i < 6 ==> tail[i] < Pow2(TailWidths[i]);
    ReadAllFits(s, Align(c3), Repeat(8, tail[5]));
  }

  /** What decoding a bit string yields: the command and how many bits it took. */
  ghost function Decoded(s: seq<bool>): Option<(FleetCommand, nat)> {
    var (version, c1) := ReadField(s, At(0), 32);
    var (format, c2) := ReadField(s, c1, 8);
    if c1.Failed? || version != PROTOCOL_VERSION || format != FLEET_COMMAND_VERSION then None
    else
      var (raw, end) := ReadBody(s, c2);
      if end.Failed? then None else Some((raw.Assemble(), end.pos))
  }

  method DecodeFleetCommand(body: seq<Byte>) returns (out: Option<FleetCommand>)
    ensures out == match Decoded(BitsOf(body)) { case None => None case Some((c, _)) => Some(c) }
  {
    hide BitsOf, ReadField, ReadAll;
    ghost var s := BitsOf(body);
    var rb := new ReadBuffer(body);
    if !rb.IsGood() { return None; }
    var format := rb.ReadBits(8);
    if format != FLEET_COMMAND_VERSION { return None; }
    ghost var start := rb.Cursor();
    var head := rb.ReadRecord(HeadWidths);
    var units := rb.ReadRecord(Repeat(32, head[3]));
    var tail := rb.ReadRecord(TailWidths);
    var beacon := [];
    if tail[5] != 0 { beacon := rb.ReadBytes(tail[5]); }
    assert (Raw(head, units, tail, beacon), rb.Cursor()) == ReadBody(s, start);
    if !rb.IsGood() { return None; }
    out := Some(Raw(head, units, tail, beacon).Assemble());
  }

  // ---- Round trip and truncation -------------------------------------------

  lemma {:induction false} WholeBytes(ops: seq<Op>)
    requires Bytewise(ops)
    ensures |Encoded(ops)| % 8 == 0
  {
    hide ToBits, Pow2;
    if ops != [] {
      var m := |ops| - 1;
      WholeBytes(ops[..m]);
      if ops[m].Field? {
        assert Encoded(ops) == Encoded(ops[..m]) + ToBits(ops[m].value, ops[m].width);
        AddWholeBytes(|Encoded(ops[..m])|, ops[m].width);
      }
    }
  }

  lemma AddWholeBytes(n: nat, width: nat)
    requires n % 8 == 0 && width in {8, 16, 32, 64}
    ensures (n + width) % 8 == 0
  {
  }

  lemma CommandIsBytewise(c: FleetCommand, q: Byte)
    ensures Bytewise(CommandOps(c, q))
  {
    assert Bytewise(HeadFields(c, q)) && Bytewise(UnitFields(c.units)) && Bytewise(TailFields(c));
    assert Bytewise(Versions) && Bytewise(BeaconOps(c.beacon));
    hide HeadFields, UnitFields, TailFields, BeaconOps;
    assert Bytewise(CommandOps(c, q));
  }

  lemma CommandIsWholeBytes(c: FleetCommand, q: Byte)
    ensures PadToByte(Encoded(CommandOps(c, q))) == Encoded(CommandOps(c, q))
  {
    CommandIsBytewise(c, q);
    hide Encoded, CommandOps, Pow2;
    WholeBytes(CommandOps(c, q));
    PadWholeBytes(Encoded(CommandOps(c, q)));
  }

  lemma PadWholeBytes(s: seq<bool>)
    requires |s| % 8 == 0
    ensures PadToByte(s) == s
  {
  }

  lemma CommandFieldsFit(c: FleetCommand, q: Byte)
    ensures Fitting(HeadFields(c, q)) && Fitting(UnitFields(c.units))
    ensures Fitting(TailFields(c)) && Fitting(ByteOps(c.beacon))
    ensures Widths(HeadFields(c, q)) == HeadWidths && Widths(TailFields(c)) == TailWidths
    ensures Widths(UnitFields(c.units)) == Repeat(32, |c.units|) && Widths(ByteOps(c.beacon)) == Repeat(8, |c.beacon|)
    ensures Contents(UnitFields(c.units)) == c.units && Contents(ByteOps(c.beacon)) == c.beacon
  {
    hide Pow2;
    WordSizes();
  }

  lemma ReadVersions(after: seq<Op>, stream: seq<bool>)
    requires Encoded(Versions + after) <= stream
    ensures ReadField(stream, At(0), 32).0 == PROTOCOL_VERSION && ReadField(stream, At(0), 32).1.At?
    ensures ReadField(stream, ReadField(stream, At(0), 32).1, 8) == (FLEET_COMMAND_VERSION, At(|Encoded(Versions)|))
  {
    assert Encoded([]) == [];
    hide Encoded, ReadField, Pow2;
    WordSizes();
    var first, second := Versions[0], Versions[1];
    assert Versions + after == [] + [first] + ([second] + after) == [first] + [second] + after;
    assert [] + [first] == [first] && [first] + [second] == Versions;
    ReadOp([], first, [second] + after, stream);
    ReadOp([first], second, after, stream);
  }

  lemma ReadBeacon(c: FleetCommand, q: Byte, stream: seq<bool>)
    requires c.beacon != [] && Encoded(CommandOps(c, q)) <= stream
    ensures ReadAll(stream, Align(At(|Encoded(FixedOps(c, q))|)), Repeat(8, |c.beacon|))
      == (c.beacon, At(|Encoded(CommandOps(c, q))|))
  {
    hide Encoded, ReadAll, FixedOps, Fitting;
    CommandFieldsFit(c, q);
    var before := FixedOps(c, q) + [Boundary];
    EncodedSnoc(FixedOps(c, q), Boundary);
    assert before + ByteOps(c.beacon) == CommandOps(c, q);
    assert before + ByteOps(c.beacon) + [] == CommandOps(c, q);
    ReadSegment(before, ByteOps(c.beacon), [], stream);
  }

  lemma ReadFixed(c: FleetCommand, q: Byte, after: seq<Op>, stream: seq<bool>)
    requires Encoded(FixedOps(c, q) + after) <= stream
    ensures var c2 := At(|Encoded(Versions)|);
      var (head, c3) := ReadAll(stream, c2, HeadWidths);
      var (units, c4) := ReadAll(stream, c3, Repeat(32, |c.units|));
      && head == Contents(HeadFields(c, q)) && units == c.units
      && ReadAll(stream, c4, TailWidths) == (Contents(TailFields(c)), At(|Encoded(FixedOps(c, q))|))
  {
    hide Encoded, ReadAll, Fitting;
    CommandFieldsFit(c, q);
    var v, h, u, t := Versions, HeadFields(c, q), UnitFields(c.units), TailFields(c);
    assert FixedOps(c, q) + after == v + h + (u + t + after) == (v + h) + u + (t + after) == (v + h + u) + t + after;
    ReadSegment(v, h, u + t + after, stream);
    ReadSegment(v + h, u, t + after, stream);
    ReadSegment(v + h + u, t, after, stream);
  }

  lemma SignedRoundTrip(x: Int64)
    ensures ToSigned(ToUnsigned(x)) == x
  {
  }

  lemma RawOfCommand(c: FleetCommand, q: Byte)
    requires Representable(c) && Spells(q, c)
    ensures var raw := Raw(Contents(HeadFields(c, q)), c.units, Contents(TailFields(c)), c.beacon);
      raw.InRange() && raw.Assemble() == c && raw.head[3] == |c.units| && raw.tail[5] == |c.beacon|
  {
    SignedRoundTrip(c.x);
    SignedRoundTrip(c.y);
    SignedRoundTrip(c.z);
  }

  /** Decoding an encoding, whatever follows it, gives back the command and stops at its end. */
  lemma DecodeEncoded(c: FleetCommand, q: Byte, stream: seq<bool>)
    requires Representable(c) && Spells(q, c) && Encoded(CommandOps(c, q)) <= stream
    ensures Decoded(stream) == Some((c, |Encoded(CommandOps(c, q))|))
  {
    hide Encoded, ReadField, ReadAll, Align, FixedOps, Contents;
    CommandStartsWithVersions(c, q);
    ReadVersions(HeadFields(c, q) + UnitFields(c.units) + TailFields(c) + BeaconOps(c.beacon), stream);
    ReadFixed(c, q, BeaconOps(c.beacon), stream);
    if c.beacon == [] {
      assert CommandOps(c, q) == FixedOps(c, q);
    } else {
      ReadBeacon(c, q, stream);
    }
    RawOfCommand(c, q);
  }

  lemma CommandStartsWithVersions(c: FleetCommand, q: Byte)
    ensures var body := HeadFields(c, q) + UnitFields(c.units) + TailFields(c) + BeaconOps(c.beacon);
      CommandOps(c, q) == Versions + body
  {
  }

  lemma BodyOfPrefix(s: seq<bool>, k: nat, c: Cursor)
    requires k <= |s| && ReadBody(s[..k], c).1.At?
    ensures ReadBody(s[..k], c) == ReadBody(s, c) && ReadBody(s, c).1.pos <= k
  {
    hide ReadAll;
    var p := s[..k];
    BodyFits(p, c);
    var (head, c1) := ReadAll(p, c, HeadWidths);
    var (units, c2) := ReadAll(p, c1, Repeat(32, head[3]));
    var (tail, c3) := ReadAll(p, c2, TailWidths);
    if tail[5] > 0 { ReadAllOfPrefix(s, k, Align(c3), Repeat(8, tail[5])); }
    ReadAllOfPrefix(s, k, c2, TailWidths);
    ReadAllOfPrefix(s, k, c1, Repeat(32, head[3]));
    ReadAllOfPrefix(s, k, c, HeadWidths);
  }

  /** What decodes from a prefix decodes the same from the whole, within that prefix. */
  lemma DecodedOfPrefix(s: seq<bool>, k: nat)
    requires k <= |s| && Decoded(s[..k]).Some?
    ensures Decoded(s) == Decoded(s[..k]) && Decoded(s).value.1 <= k
  {
    hide ReadAll, ReadBody;
    var c1 := ReadField(s[..k], At(0), 32).1;
    var c2 := ReadField(s[..k], c1, 8).1;
    BodyOfPrefix(s, k, c2);
    assert s[..k][0..32] == s[0..32] && s[..k][32..40] == s[32..40];
  }

  /** Cutting any encoding short, at any bit, makes it undecodable. */
  lemma TruncatedRejected(c: FleetCommand, q: Byte, k: nat)
    requires Representable(c) && Spells(q, c) && k < |Encoded(CommandOps(c, q))|
    ensures Decoded(Encoded(CommandOps(c, q))[..k]) == None
  {
    var s := Encoded(CommandOps(c, q));
    DecodeEncoded(c, q, s);
    hide Encoded, Decoded;
    if Decoded(s[..k]).Some? { DecodedOfPrefix(s, k); }
  }

  /** How many bytes a command takes on the wire. */
  ghost function CommandSize(c: FleetCommand): nat {
    |Encoded(CommandOps(c, QueueByte(c)))| / 8
  }

  /** Main result: a command that fits its two 16-bit counts decodes to itself from
      its encoding, and from no strict byte prefix of it. */
  method FleetCommandRoundTrip(c: FleetCommand, cut: nat)
    returns (whole: Option<FleetCommand>, part: Option<FleetCommand>)
    requires Representable(c) && cut < CommandSize(c)
    ensures whole == Some(c) && part == None
  {
    hide Encoded, Decoded, PadToByte;
    var bytes := EncodeFleetCommand(c);
    ghost var q := QueueByte(c);
    CommandIsWholeBytes(c, q);
    DecodeEncoded(c, q, BitsOf(bytes));
    whole := DecodeFleetCommand(bytes);
    part := DecodeFleetCommand(bytes[..cut]);
    assert BitsOf(bytes[..cut]) == BitsOf(bytes)[..8 * cut];
    TruncatedRejected(c, q, 8 * cut);
  }

  // ---- What decodes is what was encoded ------------------------------------------

  ghost predicate WholeFields(fields: seq<Op>) {
    Bytewise(fields) && forall i :: 0 <= i < |fields| ==> fields[i].Field?
  }

  lemma ReadFieldIsBytes(bytes: seq<Byte>, p: nat, n: nat, v: Word64, end: nat)
    requires ReadField(BitsOf(bytes), At(8 * p), 8 * n) == (v, At(end))
    ensures end == 8 * (p + n) && p + n <= |bytes| && bytes[p..p + n] == BigEndian(v, n)
  {
    SliceOfBits(bytes, p, p + n);
    BytesSpellNumber(bytes[p..p + n]);
  }

  /** Fields that were read from whole bytes are written as those bytes. */
  lemma {:induction false} ReadAllIsBytes(bytes: seq<Byte>, p: nat, fields: seq<Op>, end: nat)
    requires WholeFields(fields) && p <= |bytes|
    requires ReadAll(BitsOf(bytes), At(8 * p), Widths(fields)) == (Contents(fields), At(end))
    ensures end % 8 == 0 && p <= end / 8 <= |bytes| && bytes[p..end / 8] == BytesOf(fields)
  {
    hide BitsOf, BigEndian, ReadField, ReadAll, Widths, Contents;
    if fields == [] {
      NoRead(BitsOf(bytes), At(8 * p), end);
    } else {
      var m := |fields| - 1;
      var pos := LastRead(BitsOf(bytes), At(8 * p), fields, end);
      ReadAllIsBytes(bytes, p, fields[..m], pos);
      ReadFieldIsBytes(bytes, pos / 8, fields[m].width / 8, fields[m].value, end);
      assert bytes[p..end / 8] == bytes[p..pos / 8] + bytes[pos / 8..end / 8];
    }
  }

  lemma NoRead(s: seq<bool>, c: Cursor, end: nat)
    requires ReadAll(s, c, Widths([])).1 == At(end)
    ensures c == At(end)
  {
  }

  lemma LastRead(s: seq<bool>, c: Cursor, fields: seq<Op>, end: nat) returns (pos: nat)
    requires fields != [] && forall i :: 0 <= i < |fields| ==> fields[i].Field?
    requires ReadAll(s, c, Widths(fields)) == (Contents(fields), At(end))
    ensures var m := |fields| - 1;
      && ReadAll(s, c, Widths(fields[..m])) == (Contents(fields[..m]), At(pos))
      && ReadField(s, At(pos), fields[m].width) == (fields[m].value, At(end))
  {
    hide ReadField, Pow2;
    var m := |fields| - 1;
    assert Widths(fields)[..m] == Widths(fields[..m]);
    var (vs, c1) := ReadAll(s, c, Widths(fields[..m]));
    var (v, c2) := ReadField(s, c1, fields[m].width);
    ReadAllFits(s, c, Widths(fields[..m]));
    assert vs + [v] == Contents(fields);
    assert vs == (vs + [v])[..m] == Contents(fields[..m]) && v == (vs + [v])[m];
    FailedStays(s, c1, fields[m].width);
    pos := c1.pos;
  }

  lemma FailedStays(s: seq<bool>, c: Cursor, n: nat)
    ensures c.Failed? ==> ReadField(s, c, n).1.Failed?
  {
  }

  /** Main result: bytes decode to a command exactly if it fits its counts and they start with
      its encoding, in which any byte but 0 may stand for a set flag. */
  lemma DecodesExactly(bytes: seq<Byte>, c: FleetCommand)
    ensures (exists end :: Decoded(BitsOf(bytes)) == Some((c, end)))
      <==> Representable(c) && exists q :: Spells(q, c) && WireBytes(c, q) <= bytes
  {
    hide Decoded, WireBytes, BitsOf;
    if end :| Decoded(BitsOf(bytes)) == Some((c, end)) {
      var q := DecodedWasWire(bytes, c, end);
    }
    if q :| Representable(c) && Spells(q, c) && WireBytes(c, q) <= bytes {
      WireDecodes(bytes, c, q);
    }
  }

  lemma WireDecodes(bytes: seq<Byte>, c: FleetCommand, q: Byte)
    requires Representable(c) && Spells(q, c) && WireBytes(c, q) <= bytes
    ensures Decoded(BitsOf(bytes)) == Some((c, 8 * |WireBytes(c, q)|))
  {
    hide Decoded, Encoded, BytesOf, WireBytes, BitsOf, CommandOps;
    CommandIsBytewise(c, q);
    BytewiseIsBytes(CommandOps(c, q));
    CommandBytes(c, q);
    var n := |WireBytes(c, q)|;
    assert bytes == WireBytes(c, q) + bytes[n..];
    BitsOfConcat(WireBytes(c, q), bytes[n..]);
    DecodeEncoded(c, q, BitsOf(bytes));
  }

  /** What was taken in as c is an encoding of c, to the last byte. */
  lemma DecodedWasWire(bytes: seq<Byte>, c: FleetCommand, end: nat) returns (q: Byte)
    requires Decoded(BitsOf(bytes)) == Some((c, end))
    ensures Representable(c) && Spells(q, c)
    ensures end % 8 == 0 && end / 8 <= |bytes| && bytes[..end / 8] == WireBytes(c, q)
  {
    hide BitsOf, ReadAll, BigEndian, BytesOf, WireBytes, CommandOps, ReadField, Pow2, Fitting;
    hide HeadFields, TailFields, UnitFields, ByteOps, WholeFields;
    var s := BitsOf(bytes);
    VersionsWereRead(bytes);
    BodyFits(s, At(40));
    var (head, c1) := ReadAll(s, At(40), HeadWidths);
    var (units, c2) := ReadAll(s, c1, Repeat(32, head[3]));
    var (tail, c3) := ReadAll(s, c2, TailWidths);
    var (beacon, c4) := if tail[5] == 0 then ([], c3) else ReadAll(s, Align(c3), Repeat(8, tail[5]));
    if tail[5] != 0 { CameFromGood(s, Align(c3), Repeat(8, tail[5])); }
    CameFromGood(s, c2, TailWidths);
    CameFromGood(s, c1, Repeat(32, head[3]));
    ReadAllFits(s, At(40), HeadWidths);
    ReadAllFits(s, c1, Repeat(32, head[3]));
    ReadAllFits(s, c2, TailWidths);
    ReadAllFits(s, Align(c3), Repeat(8, tail[5]));
    RawIsFields(head, units, tail, beacon);
    q := head[2];
    CommandFieldsFit(c, q);
    FieldsAreWhole(c, q);
    ReadAllIsBytes(bytes, 5, HeadFields(c, q), c1.pos);
    ReadAllIsBytes(bytes, c1.pos / 8, UnitFields(c.units), c2.pos);
    ReadAllIsBytes(bytes, c2.pos / 8, TailFields(c), c3.pos);
    if tail[5] != 0 { ReadAllIsBytes(bytes, c3.pos / 8, ByteOps(c.beacon), end); }
    SectionsAreWire(bytes, c, q, c1.pos / 8, c2.pos / 8, c3.pos / 8, end / 8);
  }

  lemma SectionsAreWire(bytes: seq<Byte>, c: FleetCommand, q: Byte, i: nat, j: nat, k: nat, end: nat)
    requires 5 <= i <= j <= k <= end <= |bytes|
    requires bytes[..5] == BytesOf(Versions) && bytes[5..i] == BytesOf(HeadFields(c, q))
    requires bytes[i..j] == BytesOf(UnitFields(c.units)) && bytes[j..k] == BytesOf(TailFields(c))
    requires if c.beacon == [] then k == end else bytes[k..end] == BytesOf(ByteOps(c.beacon))
    ensures bytes[..end] == WireBytes(c, q)
  {
    hide BytesOf, WireBytes, HeadFields, UnitFields, TailFields, BeaconOps;
    CommandBytes(c, q);
    BytesOfConcat(Versions, HeadFields(c, q));
    BytesOfConcat(Versions + HeadFields(c, q), UnitFields(c.units));
    BytesOfConcat(Versions + HeadFields(c, q) + UnitFields(c.units), TailFields(c));
    BytesOfConcat(FixedOps(c, q), BeaconOps(c.beacon));
    BeaconBytes(c.beacon);
    ByteFieldBytes(c.beacon);
    assert bytes[..end] == bytes[..5] + bytes[5..i] + bytes[i..j] + bytes[j..k] + bytes[k..end];
  }

  lemma FieldsAreWhole(c: FleetCommand, q: Byte)
    ensures WholeFields(HeadFields(c, q)) && WholeFields(UnitFields(c.units))
    ensures WholeFields(TailFields(c)) && WholeFields(ByteOps(c.beacon))
  {
  }

  /** The raw fields, as those of the command they assemble to. */
  lemma RawIsFields(head: seq<nat>, units: seq<nat>, tail: seq<nat>, beacon: seq<nat>)
    requires Raw(head, units, tail, beacon).InRange() && head[3] == |units| && tail[5] == |beacon|
    requires (forall i :: 0 <= i < 4 ==> head[i] < Pow2(HeadWidths[i]))
    requires (forall i :: 0 <= i < 6 ==> tail[i] < Pow2(TailWidths[i]))
    ensures head[2] < 256
    ensures var c := Raw(head, units, tail, beacon).Assemble();
      Representable(c) && Contents(HeadFields(c, head[2])) == head && Contents(TailFields(c)) == tail
  {
    hide Pow2;
    WordSizes();
    assert head[2] < Pow2(HeadWidths[2]) && head[3] < Pow2(HeadWidths[3]) && tail[5] < Pow2(TailWidths[5]);
    PatternSigned(tail[1]);
    PatternSigned(tail[2]);
    PatternSigned(tail[3]);
  }

  lemma {:induction false} CameFromGood(s: seq<bool>, c: Cursor, widths: seq<nat>)
    requires ReadAll(s, c, widths).1.At?
    ensures c.At?
  {
    if widths != [] { CameFromGood(s, c, widths[..|widths| - 1]); }
  }

  lemma VersionsWereRead(bytes: seq<Byte>)
    requires Decoded(BitsOf(bytes)).Some?
    ensures |bytes| >= 5 && bytes[..5] == BytesOf(Versions)
    ensures var c1 := ReadField(BitsOf(bytes), At(0), 32).1;
      ReadField(BitsOf(bytes), c1, 8).1 == At(40)
  {
    hide BitsOf, FromBits, BigEndian, BytesOf, ReadBody;
    var s := BitsOf(bytes);
    ReadFieldIsBytes(bytes, 0, 4, PROTOCOL_VERSION, 32);
    ReadFieldIsBytes(bytes, 4, 1, FLEET_COMMAND_VERSION, 40);
    TwoBytesOf(Versions[0], Versions[1]);
    assert bytes[..5] == bytes[0..4] + bytes[4..5];
  }
}
