/** Bit packing: fields of 1 to 64 bits appended to a byte buffer, most significant
    bit first. Both ends are proved against one string of bits. */
module BitStream {
  import opened Bits

  // ---- Bit strings ---------------------------------------------------------

  /** The low n bits of v, most significant first. */
  function ToBits(v: nat, n: nat): (s: seq<bool>)
    ensures |s| == n
  {
    seq(n, i requires 0 <= i < n => Bit(v, n - 1 - i))
  }

  /** The number a bit string spells. */
  function FromBits(s: seq<bool>): nat {
    if s == [] then 0 else 2 * FromBits(s[..|s| - 1]) + (if s[|s| - 1] then 1 else 0)
  }

  /** The bits of a buffer, each byte most significant bit first. */
  function BitsOf(buf: seq<Byte>): (s: seq<bool>)
    ensures |s| == 8 * |buf|
  {
    seq(8 * |buf|, i requires 0 <= i < 8 * |buf| => Bit(buf[i / 8], 7 - i % 8))
  }

  lemma {:induction false} BitOfFromBits(s: seq<bool>, j: nat)
    ensures Bit(FromBits(s), j) <==> j < |s| && s[|s| - 1 - j]
  {
    if s == [] {
      BitOfZero(j);
    } else if j > 0 {
      BitOfFromBits(s[..|s| - 1], j - 1);
    }
  }

  lemma {:induction false} FromBitsBound(s: seq<bool>)
    ensures FromBits(s) < Pow2(|s|)
  {
    if s != [] { FromBitsBound(s[..|s| - 1]); }
  }

  /** Reading back the low n bits of v gives v masked to n bits. */
  lemma FromToBits(v: nat, n: nat)
    ensures FromBits(ToBits(v, n)) == v % Pow2(n)
  {
    FromBitsBound(ToBits(v, n));
    forall j: nat | j < n ensures Bit(FromBits(ToBits(v, n)), j) == Bit(v % Pow2(n), j) {
      BitOfFromBits(ToBits(v, n), j);
      BitTruncate(v, n, j);
    }
    SameBits(FromBits(ToBits(v, n)), v % Pow2(n), n);
  }

  /** The low n bytes of v, most significant first. */
  function BigEndian(v: nat, n: nat): (s: seq<Byte>)
    ensures |s| == n
  {
    seq(n, i requires 0 <= i < n => Shr(v, 8 * (n - 1 - i)) % 256)
  }

  /** A field of whole bytes is those bytes, most significant first. */
  lemma FieldIsBigEndian(v: nat, n: nat)
    ensures ToBits(v, 8 * n) == BitsOf(BigEndian(v, n))
  {
    forall k | 0 <= k < 8 * n ensures ToBits(v, 8 * n)[k] == BitsOf(BigEndian(v, n))[k] {
      var w := 8 * (n - 1 - k / 8);
      assert Pow2(8) == 256;
      BitTruncate(Shr(v, w), 8, 7 - k % 8);
      BitShr(v, w, 7 - k % 8);
      assert w + (7 - k % 8) == 8 * n - 1 - k;
    }
  }

  lemma BitsOfConcat(a: seq<Byte>, b: seq<Byte>)
    ensures BitsOf(a + b) == BitsOf(a) + BitsOf(b)
  {
    forall i | 0 <= i < 8 * |a + b| ensures BitsOf(a + b)[i] == (BitsOf(a) + BitsOf(b))[i] {
      if i >= 8 * |a| { assert (i - 8 * |a|) / 8 == i / 8 - |a| && (i - 8 * |a|) % 8 == i % 8; }
    }
  }

  /** Different bytes have different bits. */
  lemma BitsOfInjective(a: seq<Byte>, b: seq<Byte>)
    requires BitsOf(a) == BitsOf(b)
    ensures a == b
  {
    assert |BitsOf(a)| == |BitsOf(b)|;
    forall k | 0 <= k < |a| ensures a[k] == b[k] {
      assert Pow2(8) == 256;
      forall j: nat | j < 8 ensures Bit(a[k], j) == Bit(b[k], j) {
        assert BitsOf(a)[8 * k + 7 - j] == BitsOf(b)[8 * k + 7 - j];
      }
      SameBits(a[k], b[k], 8);
    }
  }

  lemma SliceOfBits(a: seq<Byte>, i: nat, k: nat)
    requires i <= k <= |a|
    ensures BitsOf(a)[8 * i..8 * k] == BitsOf(a[i..k])
  {
    forall j | 0 <= j < 8 * (k - i) ensures BitsOf(a)[8 * i..8 * k][j] == BitsOf(a[i..k])[j] {
      assert (8 * i + j) / 8 == i + j / 8 && (8 * i + j) % 8 == j % 8;
    }
  }

  /** The number that whole bytes spell is written as those bytes. */
  lemma BytesSpellNumber(a: seq<Byte>)
    ensures BigEndian(FromBits(BitsOf(a)), |a|) == a
  {
    var s := BitsOf(a);
    forall i | 0 <= i < |s| ensures ToBits(FromBits(s), |s|)[i] == s[i] {
      BitOfFromBits(s, |s| - 1 - i);
    }
    FieldIsBigEndian(FromBits(s), |a|);
    assert ToBits(FromBits(s), |s|) == s;
    BitsOfInjective(BigEndian(FromBits(s), |a|), a);
  }

  // ---- Writer --------------------------------------------------------------

  function Min(a: int, b: int): int {
    if b < a then b else a
  }

  function Zeros(n: nat): (s: seq<bool>)
    ensures |s| == n
  {
    seq(n, _ => false)
  }

  class BitWriter {
    var buf: seq<Byte>
    var bitsFree: nat

    /** The unused low bits of the last byte are zero. */
    ghost predicate Valid()
      reads this
    {
      && bitsFree <= 7
      && (buf == [] ==> bitsFree == 0)
      && BitsOf(buf)[8 * |buf| - bitsFree..] == Zeros(bitsFree)
    }

    /** The bits written so far, padding excluded. */
    ghost function Contents(): seq<bool>
      reads this
      requires Valid()
    {
      BitsOf(buf)[..8 * |buf| - bitsFree]
    }

    constructor ()
      ensures Valid() && Contents() == []
    {
      buf, bitsFree := [], 0;
    }

    method Write(value: Word64, bits: nat)
      requires Valid() && 1 <= bits <= 64
      modifies this
      ensures Valid() && Contents() == old(Contents()) + ToBits(value, bits)
    {
      hide BitsOf, ToBits, Bit, And, Or, Shl, Shr, Pow2;
      ghost var was, field := Contents(), ToBits(value, bits);
      var v: nat := value;
      if bits < 64 { v := And(v, Pow2(bits) - 1); }
      MaskKeepsLowBits(value, bits);
      var bitsLeft := bits;
      assert BitsOf(buf) == was + field[..0] + Zeros(bitsFree);
      while bitsLeft > 0
        invariant 0 <= bitsLeft <= bits && bitsFree <= 7 && (buf == [] ==> bitsFree == 0)
        invariant bitsLeft == bits || bitsLeft == 0 || bitsFree == 0
        invariant 8 * |buf| - bitsFree == |was| + bits - bitsLeft
        invariant BitsOf(buf) == was + field[..bits - bitsLeft] + Zeros(bitsFree)
      {
        if bitsFree == 0 {
          NewByte(buf);
          buf := buf + [0];
          bitsFree := 8;
        }
        assert BitsOf(buf) == was + field[..bits - bitsLeft] + Zeros(bitsFree);
        var chunk := Min(bitsLeft, bitsFree);
        var shift := bitsFree - chunk;
        ChunkWritten(buf, was, value, v, bits, bitsLeft, bitsFree, chunk);
        buf := buf[|buf| - 1 := Or(buf[|buf| - 1], Shl(8, Shr(v, bitsLeft - chunk), shift))];
        bitsLeft := bitsLeft - chunk;
        bitsFree := bitsFree - chunk;
      }
      assert field[..bits] == field;
    }

    /** Pads the last byte with zeros. */
    method Flush()
      requires Valid()
      modifies this
      ensures Valid() && buf == old(buf) && Contents() == PadToByte(old(Contents()))
    {
      assert BitsOf(buf) == PadToByte(Contents());
      bitsFree := 0;
    }
  }

  ghost function PadToByte(s: seq<bool>): (r: seq<bool>)
    ensures |r| % 8 == 0 && s <= r && |r| < |s| + 8
  {
    s + Zeros((8 - |s| % 8) % 8)
  }

  /** v has the low `bits` bits of value and no others. */
  ghost predicate Masked(v: nat, value: nat, bits: nat) {
    forall j: nat :: Bit(v, j) == (j < bits && Bit(value, j))
  }

  lemma MaskKeepsLowBits(value: Word64, bits: nat)
    requires bits <= 64
    ensures Masked(if bits < 64 then And(value, Pow2(bits) - 1) else value, value, bits)
  {
    WordSizes();
    forall j: nat
      ensures Bit(if bits < 64 then And(value, Pow2(bits) - 1) else value, j) == (j < bits && Bit(value, j))
    {
      if bits < 64 {
        BitAnd(value, Pow2(bits) - 1, j);
        BitLowMask(bits, j);
      } else if 64 <= j {
        BitAboveWidth(value, 64, j);
      }
    }
  }

  lemma NewByte(buf: seq<Byte>)
    ensures BitsOf(buf + [0]) == BitsOf(buf) + Zeros(8)
  {
    forall i | 0 <= i < 8 * |buf| + 8
      ensures BitsOf(buf + [0])[i] == (BitsOf(buf) + Zeros(8))[i]
    {
      if i >= 8 * |buf| { BitOfZero(7 - i % 8); }
    }
  }

  /** Bit j of the last byte after one chunk was or-ed in. */
  lemma ChunkBit(last: Byte, v: nat, bitsLeft: nat, chunk: nat, shift: nat, j: nat)
    requires chunk <= bitsLeft && j < 8
    ensures Or(last, Shl(8, Shr(v, bitsLeft - chunk), shift)) < 256
    ensures Bit(Or(last, Shl(8, Shr(v, bitsLeft - chunk), shift)), j)
      == (Bit(last, j) || (shift <= j && Bit(v, bitsLeft - chunk + j - shift)))
  {
    var piece := Shl(8, Shr(v, bitsLeft - chunk), shift);
    ShlBound(8, Shr(v, bitsLeft - chunk), shift);
    WordSizes();
    OrBound(last, piece, 8);
    BitOr(last, piece, j);
    BitShl(8, Shr(v, bitsLeft - chunk), shift, j);
    if shift <= j { BitShr(v, bitsLeft - chunk, j - shift); }
  }

  /** One chunk appends `chunk` bits of the field. Value bits above the chunk either do
      not exist (first chunk) or fall off the fresh byte (later chunks), so the bits
      already in the byte stay as they were. */
  lemma ChunkWritten(buf: seq<Byte>, was: seq<bool>, value: nat, v: nat,
                     bits: nat, bitsLeft: nat, bitsFree: nat, chunk: nat)
    requires 1 <= bitsLeft <= bits <= 64 && 1 <= bitsFree <= 8 && chunk == Min(bitsLeft, bitsFree)
    requires bitsLeft == bits || bitsFree == 8
    requires Masked(v, value, bits)
    requires |was| + bits - bitsLeft == 8 * |buf| - bitsFree && buf != []
    requires BitsOf(buf) == was + ToBits(value, bits)[..bits - bitsLeft] + Zeros(bitsFree)
    ensures var last := Or(buf[|buf| - 1], Shl(8, Shr(v, bitsLeft - chunk), bitsFree - chunk));
      last < 256 && BitsOf(buf[|buf| - 1 := last])
        == was + ToBits(value, bits)[..bits - bitsLeft + chunk] + Zeros(bitsFree - chunk)
  {
    hide Or, Shl, Shr, Bit, Pow2;
    var shift, n := bitsFree - chunk, |buf| - 1;
    var last := Or(buf[n], Shl(8, Shr(v, bitsLeft - chunk), shift));
    ChunkBit(buf[n], v, bitsLeft, chunk, shift, 0);
    var left, right := BitsOf(buf[n := last]),
      was + ToBits(value, bits)[..bits - bitsLeft + chunk] + Zeros(shift);
    forall i | 0 <= i < 8 * |buf| ensures left[i] == right[i] {
      if i < 8 * n {
        assert left[i] == BitsOf(buf)[i];
      } else {
        LastByteBit(buf, was, value, v, bits, bitsLeft, bitsFree, chunk, i);
      }
    }
  }

  lemma LastByteBit(buf: seq<Byte>, was: seq<bool>, value: nat, v: nat,
                    bits: nat, bitsLeft: nat, bitsFree: nat, chunk: nat, i: nat)
    requires 1 <= bitsLeft <= bits <= 64 && 1 <= bitsFree <= 8 && chunk == Min(bitsLeft, bitsFree)
    requires bitsLeft == bits || bitsFree == 8
    requires Masked(v, value, bits)
    requires |was| + bits - bitsLeft == 8 * |buf| - bitsFree && 8 * |buf| - 8 <= i < 8 * |buf|
    requires BitsOf(buf) == was + ToBits(value, bits)[..bits - bitsLeft] + Zeros(bitsFree)
    ensures var last := Or(buf[|buf| - 1], Shl(8, Shr(v, bitsLeft - chunk), bitsFree - chunk));
      Bit(last, 8 * |buf| - 1 - i)
        == (was + ToBits(value, bits)[..bits - bitsLeft + chunk] + Zeros(bitsFree - chunk))[i]
  {
    hide Or, Shl, Shr, Bit, Pow2;
    var shift, j := bitsFree - chunk, 8 * |buf| - 1 - i;
    assert BitsOf(buf)[i] == Bit(buf[|buf| - 1], j);
    ChunkBit(buf[|buf| - 1], v, bitsLeft, chunk, shift, j);
    if shift <= j {
      assert Bit(v, bitsLeft - chunk + j - shift)
        == (bitsLeft - chunk + j - shift < bits && Bit(value, bitsLeft - chunk + j - shift));
    }
  }

  // ---- Reader --------------------------------------------------------------

  /** (result << chunk) | ((current >> shift) & ((1 << chunk) - 1)) */
  function Appended(result: nat, current: nat, shift: nat, chunk: nat): nat {
    Or(Shl(64, result, chunk), And(Shr(current, shift), Pow2(chunk) - 1))
  }

  class BitReader {
    var data: seq<Byte>
    var bytePos: nat
    var current: Byte
    var bitAvail: nat
    var error: bool

    ghost predicate Valid()
      reads this
    {
      && bytePos <= |data| && bitAvail <= 7
      && (bitAvail > 0 ==> bytePos > 0 && current == data[bytePos - 1])
    }

    /** How many bits of the data were consumed. */
    ghost function Position(): nat
      reads this
      requires Valid()
    {
      8 * bytePos - bitAvail
    }

    constructor (data: seq<Byte>)
      ensures Valid() && this.data == data && Position() == 0 && !error
    {
      this.data, bytePos, current, bitAvail, error := data, 0, 0, 0, false;
    }

    /** Reads the next `bits` bits, or sets the sticky error flag and returns 0. */
    method Read(bits: nat) returns (result: nat)
      requires Valid() && 1 <= bits <= 64
      modifies this
      ensures Valid() && data == old(data)
      ensures error <==> old(error) || old(Position()) + bits > 8 * |data|
      ensures !error ==> Position() == old(Position()) + bits
      ensures !error ==> result == FromBits(BitsOf(data)[old(Position())..Position()])
      ensures error ==> result == 0
    {
      assert FromBits([]) == 0;
      hide BitsOf, FromBits;
      if error { return 0; }
      ghost var start := Position();
      assert BitsOf(data)[start..start] == [];
      result := 0;
      var bitsLeft := bits;
      while bitsLeft > 0
        invariant 0 <= bitsLeft <= bits && Valid() && data == old(data) && !error
        invariant Position() == start + bits - bitsLeft <= 8 * |data|
        invariant result == FromBits(BitsOf(data)[start..Position()])
      {
        var chunk;
        result, chunk := ReadChunk(result, bitsLeft, start);
        if error { return 0; }
        bitsLeft := bitsLeft - chunk;
      }
    }

    /** The loop body of Read: takes what the current byte still has, up to bitsLeft. */
    method ReadChunk(result: nat, bitsLeft: nat, ghost start: nat) returns (next: nat, chunk: nat)
      requires Valid() && !error && 1 <= bitsLeft
      requires start <= Position() && Position() + bitsLeft <= start + 64
      requires result == FromBits(BitsOf(data)[start..Position()])
      modifies this
      ensures Valid() && data == old(data)
      ensures error <==> old(Position()) == 8 * |data|
      ensures !error ==> 1 <= chunk <= bitsLeft && Position() == old(Position()) + chunk
      ensures !error ==> next == FromBits(BitsOf(data)[start..Position()])
    {
      hide BitsOf, FromBits, Appended;
      next, chunk := result, 0;
      if bitAvail == 0 {
        if bytePos >= |data| {
          error := true;
          return;
        }
        current := data[bytePos];
        bytePos := bytePos + 1;
        bitAvail := 8;
      }
      chunk := Min(bitsLeft, bitAvail);
      var shift := bitAvail - chunk;
      ChunkRead(data, start, bytePos, bitAvail, chunk);
      next := Appended(result, current, shift, chunk);
      bitAvail := bitAvail - chunk;
    }

    method AlignToByte()
      requires Valid()
      modifies this
      ensures Valid() && data == old(data) && error == old(error)
      ensures Position() == RoundUp(old(Position()))
    {
      if bitAvail > 0 { bitAvail := 0; }
    }
  }

  /** The first byte boundary at or after bit p. */
  ghost function RoundUp(p: nat): nat {
    (p + 7) / 8 * 8
  }

  lemma AppendedBit(result: nat, current: nat, shift: nat, chunk: nat, j: nat)
    requires chunk <= 8
    ensures Appended(result, current, shift, chunk) < Pow2(64)
    ensures Bit(Appended(result, current, shift, chunk), j)
      == if j < chunk then Bit(current, shift + j) else j < 64 && Bit(result, j - chunk)
  {
    var high, low := Shl(64, result, chunk), And(Shr(current, shift), Pow2(chunk) - 1);
    ShlBound(64, result, chunk);
    AndBound(Shr(current, shift), Pow2(chunk) - 1);
    Pow2Monotone(chunk, 64);
    OrBound(high, low, 64);
    BitOr(high, low, j);
    BitShl(64, result, chunk, j);
    BitAnd(Shr(current, shift), Pow2(chunk) - 1, j);
    BitShr(current, shift, j);
    BitLowMask(chunk, j);
  }

  /** Shifting a chunk into the result spells the longer bit string. */
  lemma ChunkRead(data: seq<Byte>, start: nat, bytePos: nat, bitAvail: nat, chunk: nat)
    requires 0 < bytePos <= |data| && 1 <= chunk <= bitAvail <= 8
    requires start <= 8 * bytePos - bitAvail && 8 * bytePos - bitAvail + chunk <= start + 64
    ensures var p := 8 * bytePos - bitAvail;
      Appended(FromBits(BitsOf(data)[start..p]), data[bytePos - 1], bitAvail - chunk, chunk)
      == FromBits(BitsOf(data)[start..p + chunk])
  {
    hide Shl, Shr, Or, And, Pow2, Bit, FromBits, Appended;
    var p, shift := 8 * bytePos - bitAvail, bitAvail - chunk;
    var stream := BitsOf(data);
    var before, whole := stream[start..p], stream[start..p + chunk];
    assert |whole| == |before| + chunk && forall i :: 0 <= i < |before| ==> whole[i] == before[i];
    var after := Appended(FromBits(before), data[bytePos - 1], shift, chunk);
    FromBitsBound(whole);
    Pow2Monotone(|whole|, 64);
    forall j: nat | j < 64 ensures Bit(after, j) == Bit(FromBits(whole), j) {
      AppendedBit(FromBits(before), data[bytePos - 1], shift, chunk, j);
      BitOfFromBits(whole, j);
      if j < chunk {
        LastBits(data, bytePos, shift + j);
        assert whole[|whole| - 1 - j] == stream[p + chunk - 1 - j];
      } else {
        BitOfFromBits(before, j - chunk);
        var i := |whole| - 1 - j;
        assert i == |before| - 1 - (j - chunk);
        if 0 <= i { assert whole[i] == before[i]; }
      }
    }
    AppendedBit(FromBits(before), data[bytePos - 1], shift, chunk, 0);
    SameBits(after, FromBits(whole), 64);
  }

  lemma LastBits(data: seq<Byte>, bytePos: nat, j: nat)
    requires 0 < bytePos <= |data| && j < 8
    ensures BitsOf(data)[8 * bytePos - 1 - j] == Bit(data[bytePos - 1], j)
  {
  }

  // ---- Round trip ----------------------------------------------------------

  /** One step of a script: a field of some width, or a flush matched by an align. */
  datatype Op = Field(value: Word64, width: nat) | Boundary

  ghost predicate WellFormed(ops: seq<Op>) {
    forall o :: o in ops && o.Field? ==> 1 <= o.width <= 64
  }

  ghost function Encoded(ops: seq<Op>): seq<bool> {
    if ops == [] then []
    else
      var s := Encoded(ops[..|ops| - 1]);
      match ops[|ops| - 1]
      case Field(v, n) => s + ToBits(v, n)
      case Boundary => PadToByte(s)
  }

  /** The values of the fields, masked to their widths. */
  ghost function Values(ops: seq<Op>): seq<nat> {
    if ops == [] then []
    else
      Values(ops[..|ops| - 1]) +
      match ops[|ops| - 1]
      case Field(v, n) => [v % Pow2(n)]
      case Boundary => []
  }

  lemma {:induction false} EncodedPrefix(ops: seq<Op>, k: nat)
    requires k <= |ops|
    ensures Encoded(ops[..k]) <= Encoded(ops)
  {
    if k == |ops| {
      assert ops[..k] == ops;
    } else {
      EncodedPrefix(ops[..|ops| - 1], k);
      assert ops[..|ops| - 1][..k] == ops[..k];
    }
  }

  lemma SliceOfPrefix(stream: seq<bool>, before: seq<bool>, field: seq<bool>)
    requires before + field <= stream
    ensures stream[|before|..|before| + |field|] == field
  {
    assert (before + field)[|before|..] == field;
  }

  lemma ScriptStep(ops: seq<Op>, i: nat)
    requires i < |ops|
    ensures Encoded(ops[..i + 1]) ==
      match ops[i] {
        case Field(v, n) => Encoded(ops[..i]) + ToBits(v, n)
        case Boundary => PadToByte(Encoded(ops[..i]))
      }
    ensures Values(ops[..i + 1]) ==
      Values(ops[..i]) + match ops[i] { case Field(v, n) => [v % Pow2(n)] case Boundary => [] }
  {
    hide FromBits, Pow2, ToBits;
    assert ops[..i + 1][..i] == ops[..i];
  }

  /** What op i put into a stream that begins with the whole script's encoding. */
  lemma OpInStream(ops: seq<Op>, i: nat, stream: seq<bool>)
    requires i < |ops| && Encoded(ops) <= stream
    ensures |Encoded(ops[..i + 1])| <= |stream|
    ensures match ops[i]
      case Field(v, n) =>
        var p := |Encoded(ops[..i])|;
        && |Encoded(ops[..i + 1])| == p + n
        && FromBits(stream[p..p + n]) == v % Pow2(n)
        && Values(ops[..i + 1]) == Values(ops[..i]) + [v % Pow2(n)]
      case Boundary =>
        && |Encoded(ops[..i + 1])| == RoundUp(|Encoded(ops[..i])|)
        && Values(ops[..i + 1]) == Values(ops[..i])
  {
    hide FromBits, Pow2, Encoded, Values;
    EncodedPrefix(ops, i + 1);
    ScriptStep(ops, i);
    match ops[i]
    case Field(v, n) =>
      FromToBits(v, n);
      SliceOfPrefix(stream, Encoded(ops[..i]), ToBits(v, n));
    case Boundary =>
  }

  lemma StartOfScript(ops: seq<Op>)
    ensures Encoded(ops[..0]) == [] && Values(ops[..0]) == []
  {
  }

  method WriteAll(ops: seq<Op>) returns (w: BitWriter)
    requires WellFormed(ops)
    ensures fresh(w) && w.Valid() && w.Contents() == Encoded(ops)
  {
    w := new BitWriter();
    for i := 0 to |ops|
      invariant fresh(w) && w.Valid() && w.Contents() == Encoded(ops[..i])
    {
      assert ops[..i + 1][..i] == ops[..i];
      match ops[i]
      case Field(v, n) => w.Write(v, n);
      case Boundary => w.Flush();
    }
    assert ops[..|ops|] == ops;
  }

  /** Main result: any list of fields, mixed with flush/align pairs, reads back as
      the written values masked to their widths, with no error. */
  method RoundTrip(ops: seq<Op>) returns (values: seq<nat>, error: bool)
    requires WellFormed(ops)
    ensures values == Values(ops) && !error
  {
    hide BitsOf, FromBits, Pow2, ToBits, Encoded, Values;
    var w := WriteAll(ops);
    w.Flush();
    var data := w.buf;
    ghost var stream := BitsOf(data);
    assert stream == PadToByte(Encoded(ops));
    var r := new BitReader(data);
    values := [];
    StartOfScript(ops);
    for i := 0 to |ops|
      invariant r.Valid() && fresh(r) && r.data == data && !r.error
      invariant r.Position() == |Encoded(ops[..i])| && values == Values(ops[..i])
    {
      OpInStream(ops, i, stream);
      match ops[i]
      case Field(v, n) =>
        var x := r.Read(n);
        values := values + [x];
      case Boundary => r.AlignToByte();
    }
    assert ops[..|ops|] == ops;
    error := r.error;
  }
}
