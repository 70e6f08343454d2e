/** Versioned buffers over the bit stream: a writer that records the script of
    what was written, and a reader proved against a pure cursor on the bits. */
module Serde {
  import opened Bits
  import opened BitStream

  const PROTOCOL_VERSION: nat := 1

  // ---- Signed 64-bit values ------------------------------------------------

  type Int64 = x: int | -0x8000_0000_0000_0000 <= x < 0x8000_0000_0000_0000

  function ToUnsigned(x: Int64): Word64 {
    if x < 0 then x + U64 else x
  }

  function ToSigned(w: Word64): Int64 {
    if w < 0x8000_0000_0000_0000 then w else w - U64
  }

  lemma PatternSigned(w: Word64)
    ensures ToUnsigned(ToSigned(w)) == w
  {
  }

  /** Two's complement: the pattern is the number modulo 2^64, and is read back as the number. */
  lemma SignedPattern(x: Int64)
    ensures ToUnsigned(x) == x % U64 && ToSigned(ToUnsigned(x)) == x
  {
  }

  // ---- Writing -------------------------------------------------------------

  ghost function ByteOps(data: seq<Byte>): seq<Op> {
    seq(|data|, i requires 0 <= i < |data| => Field(data[i], 8))
  }

  lemma EncodedSnoc(ops: seq<Op>, o: Op)
    ensures Encoded(ops + [o]) ==
      match o { case Field(v, n) => Encoded(ops) + ToBits(v, n) case Boundary => PadToByte(Encoded(ops)) }
  {
    assert (ops + [o])[..|ops|] == ops;
  }

  class WriteBuffer {
    const writer: BitWriter
    ghost var ops: seq<Op>

    ghost predicate Valid()
      reads this, writer
    {
      writer.Valid() && WellFormed(ops) && writer.Contents() == Encoded(ops)
    }

    constructor ()
      ensures Valid() && fresh(writer) && ops == [Field(PROTOCOL_VERSION, 32)]
    {
      hide ToBits, BitsOf;
      var w := new BitWriter();
      w.Write(PROTOCOL_VERSION, 32);
      writer := w;
      ops := [] + [Field(PROTOCOL_VERSION, 32)];
      EncodedSnoc([], Field(PROTOCOL_VERSION, 32));
    }

    method WriteBits(value: Word64, bits: nat)
      requires Valid() && 1 <= bits <= 64
      modifies this, writer
      ensures Valid() && ops == old(ops) + [Field(value, bits)]
    {
      hide ToBits, Encoded;
      EncodedSnoc(ops, Field(value, bits));
      writer.Write(value, bits);
      ops := ops + [Field(value, bits)];
    }

    /** Typed writes one after the other, each at its own width. */
    method WriteRecord(fields: seq<Op>)
      requires Valid() && WellFormed(fields) && forall o :: o in fields ==> o.Field?
      modifies this, writer
      ensures Valid() && ops == old(ops) + fields
    {
      for i := 0 to |fields|
        invariant Valid() && ops == old(ops) + fields[..i]
      {
        assert fields[i] in fields;
        WriteBits(fields[i].value, fields[i].width);
      }
      assert fields[..|fields|] == fields;
    }

    method WriteBytes(data: seq<Byte>)
      requires Valid()
      modifies this, writer
      ensures Valid() && ops == old(ops) + [Boundary] + ByteOps(data)
    {
      hide Encoded, Pow2, ToBits, BitsOf;
      EncodedSnoc(ops, Boundary);
      writer.Flush();
      ops := ops + [Boundary];
      for i := 0 to |data|
        invariant Valid() && ops == old(ops) + [Boundary] + ByteOps(data[..i])
      {
        WriteBits(data[i], 8);
        assert ByteOps(data[..i + 1]) == ByteOps(data[..i]) + [Field(data[i], 8)];
      }
      assert data[..|data|] == data;
    }

    method Finalise() returns (bytes: seq<Byte>)
      requires Valid()
      modifies writer
      ensures BitsOf(bytes) == PadToByte(Encoded(ops))
    {
      writer.Flush();
      bytes := writer.buf;
    }
  }

  // ---- Reading -------------------------------------------------------------

  /** Where a reader stands in its bits; a failed reader never recovers. */
  datatype Cursor = At(pos: nat) | Failed

  /** The next n bits, or 0 and failure when they are not there. */
  ghost function ReadField(stream: seq<bool>, c: Cursor, n: nat): (nat, Cursor) {
    if c.At? && c.pos + n <= |stream| then (FromBits(stream[c.pos..c.pos + n]), At(c.pos + n))
    else (0, Failed)
  }

  /** Fields of the given widths, one after the other. */
  ghost function ReadAll(stream: seq<bool>, c: Cursor, widths: seq<nat>): (seq<nat>, Cursor) {
    if widths == [] then ([], c)
    else
      var (vs, c1) := ReadAll(stream, c, widths[..|widths| - 1]);
      var (v, c2) := ReadField(stream, c1, widths[|widths| - 1]);
      (vs + [v], c2)
  }

  function Repeat(n: nat, count: nat): (s: seq<nat>)
    ensures |s| == count
  {
    seq(count, _ => n)
  }

  ghost function Align(c: Cursor): Cursor {
    if c.At? then At(RoundUp(c.pos)) else c
  }

  lemma ReadFieldFits(stream: seq<bool>, c: Cursor, n: nat)
    ensures ReadField(stream, c, n).0 < Pow2(n)
  {
    if c.At? && c.pos + n <= |stream| { FromBitsBound(stream[c.pos..c.pos + n]); }
  }

  lemma {:induction false} ReadAllFits(stream: seq<bool>, c: Cursor, widths: seq<nat>)
    ensures |ReadAll(stream, c, widths).0| == |widths|
    ensures forall i :: 0 <= i < |widths| ==> ReadAll(stream, c, widths).0[i] < Pow2(widths[i])
  {
    if widths != [] {
      var m := |widths| - 1;
      ReadAllFits(stream, c, widths[..m]);
      ReadFieldFits(stream, ReadAll(stream, c, widths[..m]).1, widths[m]);
    }
  }

  class ReadBuffer {
    const reader: BitReader
    const data: seq<Byte>
    var versionMismatch: bool

    ghost predicate Valid()
      reads this, reader
    {
      reader.Valid() && reader.data == data
    }

    ghost function Cursor(): Cursor
      reads this, reader
      requires Valid()
    {
      if reader.error then Failed else At(reader.Position())
    }

    constructor (data: seq<Byte>)
      ensures Valid() && fresh(reader) && this.data == data
      ensures var (version, c) := ReadField(BitsOf(data), At(0), 32);
        Cursor() == c && (versionMismatch <==> version != PROTOCOL_VERSION)
    {
      var r := new BitReader(data);
      var version := r.Read(32);
      reader, this.data, versionMismatch := r, data, version != PROTOCOL_VERSION;
    }

    predicate IsGood()
      reads this, reader
    {
      !reader.error && !versionMismatch
    }

    method ReadBits(bits: nat) returns (v: nat)
      requires Valid() && 1 <= bits <= 64
      modifies reader
      ensures Valid() && (v, Cursor()) == ReadField(BitsOf(data), old(Cursor()), bits) && v < Pow2(bits)
    {
      ReadFieldFits(BitsOf(data), Cursor(), bits);
      v := reader.Read(bits);
    }

    /** Typed reads one after the other, each at its own width. */
    method ReadRecord(widths: seq<nat>) returns (vs: seq<nat>)
      requires Valid() && forall n :: n in widths ==> 1 <= n <= 64
      modifies reader
      ensures Valid() && (vs, Cursor()) == ReadAll(BitsOf(data), old(Cursor()), widths)
      ensures |vs| == |widths|
    {
      hide BitsOf, ReadField;
      vs := [];
      for i := 0 to |widths|
        invariant Valid() && (vs, Cursor()) == ReadAll(BitsOf(data), old(Cursor()), widths[..i])
        invariant |vs| == i
      {
        assert widths[i] in widths;
        var v := ReadBits(widths[i]);
        vs := vs + [v];
        assert widths[..i + 1][..i] == widths[..i];
      }
      assert widths[..|widths|] == widths;
    }

    method ReadBytes(count: nat) returns (vs: seq<nat>)
      requires Valid()
      modifies reader
      ensures Valid() && (vs, Cursor()) == ReadAll(BitsOf(data), Align(old(Cursor())), Repeat(8, count))
    {
      reader.AlignToByte();
      vs := ReadRecord(Repeat(8, count));
    }
  }

  // ---- Reading what a script wrote -----------------------------------------

  ghost function Widths(fields: seq<Op>): seq<nat>
    requires forall i :: 0 <= i < |fields| ==> fields[i].Field?
  {
    seq(|fields|, i requires 0 <= i < |fields| => fields[i].width)
  }

  ghost function Contents(fields: seq<Op>): seq<nat>
    requires forall i :: 0 <= i < |fields| ==> fields[i].Field?
  {
    seq(|fields|, i requires 0 <= i < |fields| => fields[i].value)
  }

  /** Only fields, each of whose values needs no masking. */
  ghost predicate Fitting(fields: seq<Op>) {
    forall i :: 0 <= i < |fields| ==> fields[i].Field? && fields[i].value < Pow2(fields[i].width)
  }

  lemma ReadOp(before: seq<Op>, o: Op, after: seq<Op>, stream: seq<bool>)
    requires Encoded(before + [o] + after) <= stream
    requires o.Field? && o.value < Pow2(o.width)
    ensures ReadField(stream, At(|Encoded(before)|), o.width) == (o.value, At(|Encoded(before + [o])|))
  {
    hide FromBits, Pow2, Encoded, Values;
    var ops, i := before + [o] + after, |before|;
    OpInStream(ops, i, stream);
    assert ops[..i] == before && ops[..i + 1] == before + [o];
  }

  /** A run of fitting fields inside a script is read back by reads of the same widths. */
  lemma {:induction false} ReadSegment(before: seq<Op>, fields: seq<Op>, after: seq<Op>, stream: seq<bool>)
    requires Fitting(fields) && Encoded(before + fields + after) <= stream
    ensures ReadAll(stream, At(|Encoded(before)|), Widths(fields))
      == (Contents(fields), At(|Encoded(before + fields)|))
  {
    hide FromBits, Pow2, Encoded, Values, ReadField;
    if fields == [] {
      assert before + fields == before;
    } else {
      var m := |fields| - 1;
      var init, o := fields[..m], fields[m];
      assert before + fields + after == before + init + ([o] + after) == (before + init) + [o] + after;
      assert before + fields == before + init + [o];
      ReadSegment(before, init, [o] + after, stream);
      ReadOp(before + init, o, after, stream);
      assert Widths(fields)[..m] == Widths(init);
      assert Contents(fields) == Contents(init) + [o.value];
    }
  }

  /** A read that succeeds on a prefix of the bits gives the same result on all of
      them, and ends inside the prefix if it started inside. */
  lemma {:induction false} ReadAllOfPrefix(stream: seq<bool>, k: nat, c: Cursor, widths: seq<nat>)
    requires k <= |stream| && ReadAll(stream[..k], c, widths).1.At?
    ensures ReadAll(stream[..k], c, widths) == ReadAll(stream, c, widths)
    ensures c.At? && (c.pos <= k || widths != [] ==> ReadAll(stream, c, widths).1.pos <= k)
  {
    if widths != [] {
      var m := |widths| - 1;
      var c1 := ReadAll(stream[..k], c, widths[..m]).1;
      ReadAllOfPrefix(stream, k, c, widths[..m]);
      assert stream[..k][c1.pos..c1.pos + widths[m]] == stream[c1.pos..c1.pos + widths[m]];
    }
  }
}
