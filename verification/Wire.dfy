/**
 * The wire formats (proto/native_data.h, proto/native_wire.h): a format is a list of little-endian fields, and
 * the builders and parsers are proved against it. Parsing undoes building, and building undoes parsing except
 * for the reserved bytes.
 */
module Wire {
  import opened Basics
  import opened NativeData
  import Fragment

  // ----- little-endian numbers -----

  function Pow256(n: nat): (p: nat)
    ensures p > 0
  {
    if n == 0 then 1 else 256 * Pow256(n - 1)
  }

  function Le(v: nat, width: nat): (b: seq<Byte>)
    ensures |b| == width
  {
    if width == 0 then [] else [(v % 256) as Byte] + Le(v / 256, width - 1)
  }

  function Value(b: seq<Byte>): nat {
    if b == [] then 0 else b[0] as nat + 256 * Value(b[1..])
  }

  lemma {:induction false} ValueOfLe(v: nat, width: nat)
    requires v < Pow256(width)
    ensures Value(Le(v, width)) == v
  {
    if width > 0 {
      assert v / 256 < Pow256(width - 1);
      ValueOfLe(v / 256, width - 1);
      assert Le(v, width)[1..] == Le(v / 256, width - 1);
    }
  }

  lemma {:induction false} LeOfValue(b: seq<Byte>)
    ensures Le(Value(b), |b|) == b && Value(b) < Pow256(|b|)
  {
    if b != [] {
      LeOfValue(b[1..]);
      assert Value(b) / 256 == Value(b[1..]) && Value(b) % 256 == b[0] as nat;
      assert b == [b[0]] + b[1..];
    }
  }

  // ----- formats -----

  datatype Field = Field(width: nat, value: nat)

  function Encode(fs: seq<Field>): seq<Byte> {
    if fs == [] then [] else Encode(fs[..|fs| - 1]) + Le(fs[|fs| - 1].value, fs[|fs| - 1].width)
  }

  /** Where the k-th field begins. */
  function Offset(fs: seq<Field>, k: nat): nat
    requires k <= |fs|
  {
    if k == 0 then 0 else Offset(fs, k - 1) + fs[k - 1].width
  }

  function Get(b: seq<Byte>, offset: nat, width: nat): nat
    requires offset + width <= |b|
  {
    Value(b[offset..offset + width])
  }

  /** tbv_wire_get_le64: the low half stands first. */
  function Get64(b: seq<Byte>, offset: nat): nat
    requires offset + 8 <= |b|
  {
    Get(b, offset, 4) + U32_MOD * Get(b, offset + 4, 4)
  }

  lemma {:induction false} OffsetOfPrefix(fs: seq<Field>, n: nat, k: nat)
    requires k <= n <= |fs|
    ensures Offset(fs[..n], k) == Offset(fs, k)
  {
    if k > 0 { OffsetOfPrefix(fs, n, k - 1); }
  }

  lemma {:induction false} EncodedLength(fs: seq<Field>)
    ensures |Encode(fs)| == Offset(fs, |fs|)
  {
    if fs != [] {
      EncodedLength(fs[..|fs| - 1]);
      OffsetOfPrefix(fs, |fs| - 1, |fs| - 1);
    }
  }

  /** Each field can be read back at its offset. */
  lemma {:induction false} FieldReadsBack(fs: seq<Field>, k: nat)
    requires k < |fs| && fs[k].value < Pow256(fs[k].width)
    ensures Offset(fs, k) + fs[k].width <= |Encode(fs)|
    ensures Get(Encode(fs), Offset(fs, k), fs[k].width) == fs[k].value
    decreases |fs|
  {
    var n := |fs| - 1;
    EncodedLength(fs[..n]);
    EncodedLength(fs);
    OffsetOfPrefix(fs, n, n);
    if k < n {
      FieldReadsBack(fs[..n], k);
      OffsetOfPrefix(fs, n, k);
      assert Encode(fs)[Offset(fs, k)..Offset(fs, k) + fs[k].width]
             == Encode(fs[..n])[Offset(fs, k)..Offset(fs, k) + fs[k].width];
    } else {
      ValueOfLe(fs[n].value, fs[n].width);
      assert Encode(fs)[Offset(fs, n)..Offset(fs, n) + fs[n].width] == Le(fs[n].value, fs[n].width);
    }
  }

  lemma {:induction false} OffsetsRise(fs: seq<Field>, k: nat, n: nat)
    requires k <= n <= |fs|
    ensures Offset(fs, k) <= Offset(fs, n)
    decreases n
  {
    if k < n { OffsetsRise(fs, k, n - 1); }
  }

  /** The fields are what stands in the bytes. */
  ghost predicate Reads(fs: seq<Field>, b: seq<Byte>) {
    && |b| == Offset(fs, |fs|)
    && forall k | 0 <= k < |fs| ::
         Offset(fs, k) + fs[k].width <= |b| && fs[k].value == Get(b, Offset(fs, k), fs[k].width)
  }

  lemma OffsetNext(fs: seq<Field>, k: nat)
    requires k < |fs|
    ensures Offset(fs, 0) == 0 && Offset(fs, k + 1) == Offset(fs, k) + fs[k].width
  {
  }

  lemma GetInPrefix(b: seq<Byte>, at: nat, offset: nat, width: nat)
    requires offset + width <= at <= |b|
    ensures Get(b[..at], offset, width) == Get(b, offset, width)
  {
    assert b[..at][offset..offset + width] == b[offset..offset + width];
  }

  lemma ReadsPrefix(fs: seq<Field>, b: seq<Byte>)
    requires fs != [] && Reads(fs, b)
    ensures var n := |fs| - 1; var at := Offset(fs, n);
            at + fs[n].width == |b| && Reads(fs[..n], b[..at]) && fs[n].value == Get(b, at, fs[n].width)
  {
    hide Offset, Get;
    var n := |fs| - 1;
    var init, at := fs[..n], Offset(fs, n);
    OffsetNext(fs, n);
    OffsetOfPrefix(fs, n, n);
    forall k | 0 <= k < n
      ensures Offset(init, k) + init[k].width <= at && init[k].value == Get(b[..at], Offset(init, k), init[k].width)
    {
      OffsetOfPrefix(fs, n, k);
      OffsetNext(fs, k);
      OffsetsRise(fs, k + 1, n);
      GetInPrefix(b, at, Offset(fs, k), fs[k].width);
    }
  }

  /** Bytes whose fields have these values are the encoding of these values. */
  lemma {:induction false} FieldsDetermineBytes(fs: seq<Field>, b: seq<Byte>)
    requires Reads(fs, b)
    ensures Encode(fs) == b
    decreases |fs|
  {
    assert fs == [] ==> |b| == Offset(fs, 0);
    hide Reads, Offset, Get, Le;
    if fs != [] {
      ReadsPrefix(fs, b);
      var n := |fs| - 1;
      var at, width := Offset(fs, n), fs[n].width;
      FieldsDetermineBytes(fs[..n], b[..at]);
      Rejoin(b, at, width);
    }
  }

  lemma Rejoin(b: seq<Byte>, at: nat, width: nat)
    requires at + width == |b|
    ensures b[..at] + Le(Get(b, at, width), width) == b
  {
    LeOfValue(b[at..at + width]);
    hide Le, Value, Pow256;
  }

  // ----- data frame header -----

  const MAGIC: nat := 0x31445654
  const HDR_SIZE: nat := 48
  const OP_MAX: nat := 11

  datatype Result<T> = Ok(value: T) | Invalid | TooLong | NoSpace

  function HeaderFields(h: DataHeader): seq<Field> {
    [Field(4, MAGIC), Field(2, 1), Field(2, HDR_SIZE), Field(1, h.opcode), Field(1, h.flags), Field(2, 0),
     Field(4, h.destQp), Field(4, h.srcQp), Field(4, h.psn), Field(4, h.length), Field(4, h.imm),
     Field(4, h.remoteAddr % U32_MOD), Field(4, h.remoteAddr / U32_MOD), Field(4, h.rkey), Field(4, h.fragOffset)]
  }

  /** The widths of the header's members. */
  predicate Fits(h: DataHeader) {
    && h.opcode < 256 && h.flags < 256
    && h.destQp < U32_MOD && h.srcQp < U32_MOD && h.psn < U32_MOD && h.length < U32_MOD && h.imm < U32_MOD
    && h.remoteAddr < U32_MOD * U32_MOD && h.rkey < U32_MOD && h.fragOffset < U32_MOD
  }

  /** What both the builder and the parser insist on. */
  function Checked(h: DataHeader): Result<DataHeader> {
    if h.opcode == 0 || h.opcode > OP_MAX then Invalid
    else if h.length > (if h.RawStream() then MAX_STREAM else Fragment.MAX_PAYLOAD) then TooLong
    else Ok(h)
  }

  /** tbv_native_data_parse_header */
  function ParseHeader(b: seq<Byte>): Result<DataHeader> {
    if |b| < HDR_SIZE then Invalid
    else if Get(b, 0, 4) != MAGIC then Invalid
    else if Get(b, 4, 2) != 1 || Get(b, 6, 2) != HDR_SIZE then Invalid
    else
      Checked(DataHeader(Get(b, 8, 1), Get(b, 9, 1), Get(b, 12, 4), Get(b, 16, 4), Get(b, 20, 4), Get(b, 24, 4),
                         Get(b, 28, 4), Get64(b, 32), Get(b, 40, 4), Get(b, 44, 4)))
  }

  lemma HeaderOffsets(h: DataHeader)
    ensures var f := HeaderFields(h);
            && Offset(f, 0) == 0 && Offset(f, 1) == 4 && Offset(f, 2) == 6 && Offset(f, 3) == 8 && Offset(f, 4) == 9
            && Offset(f, 5) == 10 && Offset(f, 6) == 12 && Offset(f, 7) == 16 && Offset(f, 8) == 20
            && Offset(f, 9) == 24 && Offset(f, 10) == 28 && Offset(f, 11) == 32 && Offset(f, 12) == 36
            && Offset(f, 13) == 40 && Offset(f, 14) == 44 && Offset(f, 15) == HDR_SIZE
  {
    var f := HeaderFields(h);
    hide Offset;
    OffsetNext(f, 0);
    OffsetNext(f, 1);
    OffsetNext(f, 2);
    OffsetNext(f, 3);
    OffsetNext(f, 4);
    OffsetNext(f, 5);
    OffsetNext(f, 6);
    OffsetNext(f, 7);
    OffsetNext(f, 8);
    OffsetNext(f, 9);
    OffsetNext(f, 10);
    OffsetNext(f, 11);
    OffsetNext(f, 12);
    OffsetNext(f, 13);
    OffsetNext(f, 14);
  }

  lemma Powers()
    ensures Pow256(1) == 256 && Pow256(2) == 65536 && Pow256(4) == U32_MOD
  {
    assert Pow256(2) == 65536;
    assert Pow256(4) == 65536 * Pow256(2);
  }

  lemma GetWithRest(b: seq<Byte>, rest: seq<Byte>, offset: nat, width: nat)
    requires offset + width <= |b|
    ensures Get(b + rest, offset, width) == Get(b, offset, width)
  {
    assert (b + rest)[offset..offset + width] == b[offset..offset + width];
  }

  /** Every field of an encoding, with anything behind it, reads back. */
  lemma AllReadBack(f: seq<Field>, rest: seq<Byte>)
    requires forall k | 0 <= k < |f| :: f[k].value < Pow256(f[k].width)
    ensures |Encode(f)| == Offset(f, |f|)
    ensures forall k | 0 <= k < |f| ::
              Offset(f, k) + f[k].width <= |Encode(f)| && Get(Encode(f) + rest, Offset(f, k), f[k].width) == f[k].value
  {
    hide Offset, Get, Encode;
    EncodedLength(f);
    forall k | 0 <= k < |f|
      ensures Offset(f, k) + f[k].width <= |Encode(f)| && Get(Encode(f) + rest, Offset(f, k), f[k].width) == f[k].value
    {
      FieldReadsBack(f, k);
      GetWithRest(Encode(f), rest, Offset(f, k), f[k].width);
    }
  }

  lemma HeaderValuesFit(h: DataHeader)
    requires Fits(h)
    ensures forall k | 0 <= k < 15 :: HeaderFields(h)[k].value < Pow256(HeaderFields(h)[k].width)
  {
    Powers();
    hide Pow256;
  }

  lemma HeaderGets(h: DataHeader, payload: seq<Byte>)
    requires Fits(h)
    ensures var b := Encode(HeaderFields(h)) + payload;
            && |b| >= HDR_SIZE && Get(b, 0, 4) == MAGIC && Get(b, 4, 2) == 1 && Get(b, 6, 2) == HDR_SIZE
            && Get(b, 8, 1) == h.opcode && Get(b, 9, 1) == h.flags
            && Get(b, 12, 4) == h.destQp && Get(b, 16, 4) == h.srcQp && Get(b, 20, 4) == h.psn
            && Get(b, 24, 4) == h.length && Get(b, 28, 4) == h.imm && Get64(b, 32) == h.remoteAddr
            && Get(b, 40, 4) == h.rkey && Get(b, 44, 4) == h.fragOffset
  {
    var f := HeaderFields(h);
    HeaderOffsets(h);
    HeaderValuesFit(h);
    AllReadBack(f, payload);
    hide Encode, Offset, Get, Pow256;
    var b := Encode(f) + payload;
    assert Get(b, Offset(f, 0), f[0].width) == f[0].value && Get(b, Offset(f, 1), f[1].width) == f[1].value;
    assert Get(b, Offset(f, 2), f[2].width) == f[2].value && Get(b, Offset(f, 3), f[3].width) == f[3].value;
    assert Get(b, Offset(f, 4), f[4].width) == f[4].value && Get(b, Offset(f, 6), f[6].width) == f[6].value;
    assert Get(b, Offset(f, 7), f[7].width) == f[7].value && Get(b, Offset(f, 8), f[8].width) == f[8].value;
    assert Get(b, Offset(f, 9), f[9].width) == f[9].value && Get(b, Offset(f, 10), f[10].width) == f[10].value;
    assert Get(b, Offset(f, 11), f[11].width) == f[11].value && Get(b, Offset(f, 12), f[12].width) == f[12].value;
    assert Get(b, Offset(f, 13), f[13].width) == f[13].value && Get(b, Offset(f, 14), f[14].width) == f[14].value;
  }

  /** Parsing an encoded header, with any payload behind it, gives the header back or the builder's own verdict on it. */
  lemma ParseUndoesBuild(h: DataHeader, payload: seq<Byte>)
    requires Fits(h)
    ensures ParseHeader(Encode(HeaderFields(h)) + payload) == Checked(h)
  {
    hide Encode, HeaderFields, Get, Get64, Checked, Fits;
    HeaderGets(h, payload);
  }

  /**
   * The headers both ends accept, in numbers: opcodes 1 to 11, and at most 4048 payload bytes, or 16 MiB behind a header
   * that announces a raw stream (flag bit 2).
   */
  predicate Valid(h: DataHeader) {
    1 <= h.opcode <= 11 && h.length <= if h.flags / 4 % 2 == 1 then 16777216 else 4048
  }

  /** A header comes back from the wire, whatever payload follows it, if and only if it is valid; else the parser says why. */
  lemma RoundTripExactly(h: DataHeader, payload: seq<Byte>)
    requires Fits(h)
    ensures var parsed := ParseHeader(Encode(HeaderFields(h)) + payload);
            && (parsed == Ok(h) <==> Valid(h))
            && (!Valid(h) ==> parsed == if 1 <= h.opcode <= 11 then TooLong else Invalid)
  {
    hide Encode, HeaderFields, Get, Fits;
    ParseUndoesBuild(h, payload);
  }

  /** Which frames the parser takes for one of its own, and which of these announce too much. */
  predicate Recognised(b: seq<Byte>) {
    |b| >= 48 && b[0..4] == [0x54, 0x56, 0x44, 0x31] && Get(b, 4, 2) == 1 && Get(b, 6, 2) == 48 && 1 <= Get(b, 8, 1) <= 11
  }

  /** The parser's verdict on any bytes at all. */
  lemma ParsesExactly(b: seq<Byte>)
    ensures ParseHeader(b) == Invalid <==> !Recognised(b)
    ensures ParseHeader(b) == TooLong <==> Recognised(b) && Get(b, 24, 4) > if Get(b, 9, 1) / 4 % 2 == 1 then 16777216 else 4048
    ensures ParseHeader(b) != NoSpace
  {
    if |b| >= 48 {
      HeaderMagicBytes();
      if Get(b, 0, 4) == MAGIC { ValueInjective(b[0..4], [0x54, 0x56, 0x44, 0x31]); }
    }
    hide Value;
  }

  lemma HeaderMagicBytes()
    ensures Value([0x54, 0x56, 0x44, 0x31]) == MAGIC
  {
    var b: seq<Byte> := [0x54, 0x56, 0x44, 0x31];
    assert b[1..] == [0x56, 0x44, 0x31] && b[1..][1..] == [0x44, 0x31] && b[1..][1..][1..] == [0x31];
    assert Value([0x31]) == 0x31;
    assert Value([0x44, 0x31]) == 0x44 + 256 * 0x31;
  }

  lemma GetBounded(b: seq<Byte>, offset: nat, width: nat)
    requires offset + width <= |b|
    ensures Get(b, offset, width) < Pow256(width)
  {
    LeOfValue(b[offset..offset + width]);
  }

  /** Building a parsed header restores its 48 bytes, but for the two reserved ones, which become 0. */
  lemma BuildUndoesParse(b: seq<Byte>)
    requires ParseHeader(b).Ok?
    ensures var h := ParseHeader(b).value;
            Fits(h) && Encode(HeaderFields(h)) == b[..10] + [0, 0] + b[12..HDR_SIZE]
  {
    var h := ParseHeader(b).value;
    var f, c := HeaderFields(h), b[..10] + [0, 0] + b[12..HDR_SIZE];
    HeaderOffsets(h);
    Powers();
    GetBounded(b, 8, 1);
    GetBounded(b, 9, 1);
    GetBounded(b, 12, 4);
    GetBounded(b, 16, 4);
    GetBounded(b, 20, 4);
    GetBounded(b, 24, 4);
    GetBounded(b, 28, 4);
    GetBounded(b, 32, 4);
    GetBounded(b, 36, 4);
    GetBounded(b, 40, 4);
    GetBounded(b, 44, 4);
    ReservedIsZero(c);
    hide Encode, Offset, Value, Pow256;
    KeptSlice(b, 0, 4);
    KeptSlice(b, 4, 6);
    KeptSlice(b, 6, 8);
    KeptSlice(b, 8, 9);
    KeptSlice(b, 9, 10);
    KeptSlice(b, 12, 16);
    KeptSlice(b, 16, 20);
    KeptSlice(b, 20, 24);
    KeptSlice(b, 24, 28);
    KeptSlice(b, 28, 32);
    KeptSlice(b, 32, 36);
    KeptSlice(b, 36, 40);
    KeptSlice(b, 40, 44);
    KeptSlice(b, 44, 48);
    FieldsDetermineBytes(f, c);
  }

  lemma KeptSlice(b: seq<Byte>, lo: nat, hi: nat)
    requires |b| >= HDR_SIZE && lo <= hi && (hi <= 10 || (12 <= lo && hi <= HDR_SIZE))
    ensures (b[..10] + [0, 0] + b[12..HDR_SIZE])[lo..hi] == b[lo..hi]
  {
    var c := b[..10] + [0, 0] + b[12..HDR_SIZE];
    assert forall i | lo <= i < hi :: c[i] == b[i];
  }

  lemma ReservedIsZero(c: seq<Byte>)
    requires |c| == HDR_SIZE && c[10] == 0 && c[11] == 0
    ensures Get(c, 10, 2) == 0
  {
    var r := c[10..12];
    assert r[1..][1..] == [];
    assert Value(r[1..]) == 0;
  }

  // ----- building in place -----

  /** The first `k` fields stand at the front of the buffer. */
  ghost predicate Built(b: seq<Byte>, fs: seq<Field>, k: nat) {
    k <= |fs| && Offset(fs, k) <= |b| && b[..Offset(fs, k)] == Encode(fs[..k])
  }

  lemma EncodeNext(fs: seq<Field>, k: nat)
    requires k < |fs|
    ensures Encode(fs[..k + 1]) == Encode(fs[..k]) + Le(fs[k].value, fs[k].width)
  {
    assert fs[..k + 1][..k] == fs[..k];
  }

  lemma Adjacent(b: seq<Byte>, at: nat, end: nat)
    requires at <= end <= |b|
    ensures b[..end] == b[..at] + b[at..end]
  {
  }

  lemma NextBuilt(before: seq<Byte>, after: seq<Byte>, fs: seq<Field>, k: nat)
    requires k < |fs| && Built(before, fs, k) && Offset(fs, k) + fs[k].width <= |before| == |after|
    requires after[..Offset(fs, k)] == before[..Offset(fs, k)]
    requires after[Offset(fs, k)..Offset(fs, k) + fs[k].width] == Le(fs[k].value, fs[k].width)
    ensures Built(after, fs, k + 1)
  {
    hide Le, Offset, Encode;
    OffsetNext(fs, k);
    EncodeNext(fs, k);
    Adjacent(after, Offset(fs, k), Offset(fs, k) + fs[k].width);
  }

  lemma LeBytes(v: nat)
    ensures Le(v, 1) == [(v % 256) as Byte]
    ensures Le(v, 2) == [(v % 256) as Byte, (v / 256 % 256) as Byte]
    ensures Le(v, 4) == [(v % 256) as Byte, (v / 256 % 256) as Byte, (v / 65536 % 256) as Byte, (v / 16777216 % 256) as Byte]
  {
    assert v / 256 / 256 == v / 65536 && v / 65536 / 256 == v / 16777216;
    assert Le(v / 16777216, 1) == [(v / 16777216 % 256) as Byte];
    assert Le(v / 65536, 2) == [(v / 65536 % 256) as Byte] + Le(v / 16777216, 1);
    assert Le(v / 256, 3) == [(v / 256 % 256) as Byte] + Le(v / 65536, 2);
  }

  method PutByte(buf: array<Byte>, ghost fs: seq<Field>, ghost k: nat, at: nat, v: nat)
    requires k < |fs| && fs[k] == Field(1, v) && Offset(fs, k) == at && at + 1 <= buf.Length && v < 256
    requires Built(buf[..], fs, k)
    modifies buf
    ensures Built(buf[..], fs, k + 1)
    ensures forall i | at + 1 <= i < buf.Length :: buf[i] == old(buf[i])
  {
    ghost var before := buf[..];
    LeBytes(v);
    buf[at] := v as Byte;
    assert buf[..at] == before[..at] && buf[at..at + 1] == Le(v, 1);
    NextBuilt(before, buf[..], fs, k);
  }

  /** tbv_wire_put_le16 */
  method PutLe16(buf: array<Byte>, ghost fs: seq<Field>, ghost k: nat, at: nat, v: nat)
    requires k < |fs| && fs[k] == Field(2, v) && Offset(fs, k) == at && at + 2 <= buf.Length && v < 65536
    requires Built(buf[..], fs, k)
    modifies buf
    ensures Built(buf[..], fs, k + 1)
    ensures forall i | at + 2 <= i < buf.Length :: buf[i] == old(buf[i])
  {
    ghost var before := buf[..];
    LeBytes(v);
    buf[at], buf[at + 1] := (v % 256) as Byte, (v / 256 % 256) as Byte;
    assert buf[..at] == before[..at] && buf[at..at + 2] == Le(v, 2);
    NextBuilt(before, buf[..], fs, k);
  }

  /** tbv_wire_put_le32 */
  method PutLe32(buf: array<Byte>, ghost fs: seq<Field>, ghost k: nat, at: nat, v: nat)
    requires k < |fs| && fs[k] == Field(4, v) && Offset(fs, k) == at && at + 4 <= buf.Length && v < U32_MOD
    requires Built(buf[..], fs, k)
    modifies buf
    ensures Built(buf[..], fs, k + 1)
    ensures forall i | at + 4 <= i < buf.Length :: buf[i] == old(buf[i])
  {
    ghost var before := buf[..];
    LeBytes(v);
    buf[at], buf[at + 1] := (v % 256) as Byte, (v / 256 % 256) as Byte;
    buf[at + 2], buf[at + 3] := (v / 65536 % 256) as Byte, (v / 16777216 % 256) as Byte;
    assert buf[..at] == before[..at] && buf[at..at + 4] == Le(v, 4);
    NextBuilt(before, buf[..], fs, k);
  }

  /** tbv_wire_put_le64: the low half, then the high half. */
  method PutLe64(buf: array<Byte>, ghost fs: seq<Field>, ghost k: nat, at: nat, v: nat)
    requires k + 1 < |fs| && fs[k] == Field(4, v % U32_MOD) && fs[k + 1] == Field(4, v / U32_MOD) && v < U32_MOD * U32_MOD
    requires Offset(fs, k) == at && Offset(fs, k + 1) == at + 4 && at + 8 <= buf.Length
    requires Built(buf[..], fs, k)
    modifies buf
    ensures Built(buf[..], fs, k + 2)
    ensures forall i | at + 8 <= i < buf.Length :: buf[i] == old(buf[i])
  {
    PutLe32(buf, fs, k, at, v % U32_MOD);
    PutLe32(buf, fs, k + 1, at + 4, v / U32_MOD);
  }

  /** A reserved field keeps the zeros it was cleared to. */
  lemma ReservedBuilt(b: seq<Byte>, fs: seq<Field>, k: nat)
    requires k < |fs| && fs[k] == Field(2, 0) && Built(b, fs, k) && Offset(fs, k) + 2 <= |b|
    requires b[Offset(fs, k)] == 0 && b[Offset(fs, k) + 1] == 0
    ensures Built(b, fs, k + 1)
  {
    LeBytes(0);
    assert b[Offset(fs, k)..Offset(fs, k) + 2] == Le(0, 2);
    NextBuilt(b, b, fs, k);
  }

  /** The fixed part of the header, its opcode and its flags, over the cleared buffer. */
  method PutHeaderFront(buf: array<Byte>, h: DataHeader)
    requires Fits(h) && buf.Length >= HDR_SIZE
    modifies buf
    ensures Built(buf[..], HeaderFields(h), 6)
    ensures forall i | HDR_SIZE <= i < buf.Length :: buf[i] == old(buf[i])
  {
    ghost var f := HeaderFields(h);
    HeaderOffsets(h);
    assert f[..0] == [] && Encode(f[..0]) == [];
    forall i | 0 <= i < HDR_SIZE { buf[i] := 0; }
    assert Built(buf[..], f, 0);
    hide Encode, Offset, Built;
    PutLe32(buf, f, 0, 0, MAGIC);
    PutLe16(buf, f, 1, 4, 1);
    PutLe16(buf, f, 2, 6, HDR_SIZE);
    PutByte(buf, f, 3, 8, h.opcode);
    PutByte(buf, f, 4, 9, h.flags);
    assert buf[..][10] == 0 && buf[..][11] == 0;
    ReservedBuilt(buf[..], f, 5);
  }

  /** tbv_native_data_build_header: a valid header is written over the first 48 bytes, and nothing else is touched. */
  method BuildHeader(buf: array<Byte>, h: DataHeader) returns (r: Result<DataHeader>)
    requires Fits(h)
    modifies buf
    ensures r == if buf.Length < HDR_SIZE then NoSpace else Checked(h)
    ensures !r.Ok? ==> buf[..] == old(buf[..])
    ensures r.Ok? ==> buf[..HDR_SIZE] == Encode(HeaderFields(h)) && buf[HDR_SIZE..] == old(buf[HDR_SIZE..])
  {
    hide Encode, Offset, Built;
    if buf.Length < HDR_SIZE { return NoSpace; }
    r := Checked(h);
    if !r.Ok? { return; }
    ghost var f := HeaderFields(h);
    HeaderOffsets(h);
    PutHeaderFront(buf, h);
    PutLe32(buf, f, 6, 12, h.destQp);
    PutLe32(buf, f, 7, 16, h.srcQp);
    PutLe32(buf, f, 8, 20, h.psn);
    PutLe32(buf, f, 9, 24, h.length);
    PutLe32(buf, f, 10, 28, h.imm);
    PutLe64(buf, f, 11, 32, h.remoteAddr);
    PutLe32(buf, f, 13, 40, h.rkey);
    PutLe32(buf, f, 14, 44, h.fragOffset);
    AllBuilt(buf[..], f);
    assert buf[..][..HDR_SIZE] == buf[..HDR_SIZE];
  }

  lemma AllBuilt(b: seq<Byte>, fs: seq<Field>)
    requires Built(b, fs, |fs|)
    ensures b[..Offset(fs, |fs|)] == Encode(fs)
  {
    assert fs[..|fs|] == fs;
  }

  // ----- HELLO message -----

  const HELLO_MAGIC: nat := 0x31564254
  const HELLO_MSG_SIZE: nat := 88
  const BIT27: nat := 0x800_0000
  const BIT63: nat := 0x8000_0000_0000_0000

  const UUID: seq<Byte> := [0x7c, 0x2c, 0x8f, 0x1e, 0x5b, 0x4d, 0x4a, 0x01, 0x9f, 0x3a, 0x2b, 0x8e, 0x6d, 0x4c, 0x1a, 0x07]

  datatype HelloBody = HelloBody(
    capabilities: nat, railId: nat, route: nat, txHop: nat, rxHop: nat, transmitPath: nat, txRingSize: nat,
    rxRingSize: nat, pathFlags: nat)

  datatype Info = Info(op: nat, flags: nat, xdomainSequence: nat, sequence: nat, route: nat)

  predicate HelloFits(b: HelloBody, i: Info) {
    && b.capabilities < U32_MOD && b.railId < U32_MOD && b.route < U32_MOD * U32_MOD && b.txHop < U32_MOD && b.rxHop < U32_MOD
    && b.transmitPath < U32_MOD && b.txRingSize < U32_MOD && b.rxRingSize < U32_MOD && b.pathFlags < U32_MOD
    && i.op < 65536 && i.flags < 65536 && i.xdomainSequence < 256 && i.sequence < U32_MOD && i.route < U32_MOD * U32_MOD
  }

  predicate HelloOp(op: nat) { 1 <= op <= 4 }

  /** The XDomain length in words with the sequence number in bits 27 and 28. */
  function LengthSn(sequence: nat): nat { (HELLO_MSG_SIZE - 12) / 4 + sequence % 4 * BIT27 }

  function HelloFields(b: HelloBody, i: Info): seq<Field> {
    [Field(4, i.route / U32_MOD), Field(4, i.route % U32_MOD), Field(4, LengthSn(i.xdomainSequence)),
     Field(16, Value(UUID)), Field(4, i.op),
     Field(4, HELLO_MAGIC), Field(2, 1), Field(2, i.op), Field(2, HELLO_MSG_SIZE), Field(2, i.flags), Field(4, i.sequence),
     Field(4, b.capabilities), Field(4, b.railId), Field(4, b.route % U32_MOD), Field(4, b.route / U32_MOD), Field(4, b.txHop), Field(4, b.rxHop),
     Field(4, b.transmitPath), Field(4, b.txRingSize), Field(4, b.rxRingSize), Field(4, b.pathFlags)]
  }

  /** tbv_native_wire_parse_hello */
  function ParseHello(p: seq<Byte>): Option<(HelloBody, Info)> {
    if |p| < HELLO_MSG_SIZE then None
    else if Get(p, 8, 4) % 64 != (HELLO_MSG_SIZE - 12) / 4 || p[12..28] != UUID || !HelloOp(Get(p, 28, 4)) then None
    else if Get(p, 32, 4) != HELLO_MAGIC || Get(p, 36, 2) != 1 || !HelloOp(Get(p, 38, 2)) then None
    else if Get(p, 38, 2) != Get(p, 28, 4) || Get(p, 40, 2) != HELLO_MSG_SIZE then None
    else
      Some((HelloBody(Get(p, 48, 4), Get(p, 52, 4), Get64(p, 56), Get(p, 64, 4), Get(p, 68, 4), Get(p, 72, 4),
                      Get(p, 76, 4), Get(p, 80, 4), Get(p, 84, 4)),
            Info(Get(p, 38, 2), Get(p, 42, 2), Get(p, 8, 4) / BIT27 % 4, Get(p, 44, 4),
                 (Get(p, 0, 4) * U32_MOD + Get(p, 4, 4)) % BIT63)))
  }

  lemma HelloOffsets(b: HelloBody, i: Info)
    ensures var f := HelloFields(b, i);
            && Offset(f, 0) == 0 && Offset(f, 1) == 4 && Offset(f, 2) == 8 && Offset(f, 3) == 12 && Offset(f, 4) == 28
            && Offset(f, 5) == 32 && Offset(f, 6) == 36 && Offset(f, 7) == 38 && Offset(f, 8) == 40 && Offset(f, 9) == 42
            && Offset(f, 10) == 44 && Offset(f, 11) == 48 && Offset(f, 12) == 52 && Offset(f, 13) == 56
            && Offset(f, 14) == 60 && Offset(f, 15) == 64 && Offset(f, 16) == 68 && Offset(f, 17) == 72
            && Offset(f, 18) == 76 && Offset(f, 19) == 80 && Offset(f, 20) == 84 && Offset(f, 21) == HELLO_MSG_SIZE
  {
    var f := HelloFields(b, i);
    hide Offset, Value;
    OffsetNext(f, 0);
    OffsetNext(f, 1);
    OffsetNext(f, 2);
    OffsetNext(f, 3);
    OffsetNext(f, 4);
    OffsetNext(f, 5);
    OffsetNext(f, 6);
    OffsetNext(f, 7);
    OffsetNext(f, 8);
    OffsetNext(f, 9);
    OffsetNext(f, 10);
    OffsetNext(f, 11);
    OffsetNext(f, 12);
    OffsetNext(f, 13);
    OffsetNext(f, 14);
    OffsetNext(f, 15);
    OffsetNext(f, 16);
    OffsetNext(f, 17);
    OffsetNext(f, 18);
    OffsetNext(f, 19);
    OffsetNext(f, 20);
  }

  lemma HelloValuesFit(b: HelloBody, i: Info)
    requires HelloFits(b, i)
    ensures forall k | 0 <= k < 21 :: HelloFields(b, i)[k].value < Pow256(HelloFields(b, i)[k].width)
  {
    Powers();
    LeOfValue(UUID);
    hide Pow256, Value, Le;
  }

  lemma HelloGets(b: HelloBody, i: Info, rest: seq<Byte>)
    requires HelloFits(b, i)
    ensures var p := Encode(HelloFields(b, i)) + rest;
            && |p| >= HELLO_MSG_SIZE && Get(p, 0, 4) == i.route / U32_MOD && Get(p, 4, 4) == i.route % U32_MOD
            && Get(p, 8, 4) == LengthSn(i.xdomainSequence) && Get(p, 12, 16) == Value(UUID) && Get(p, 28, 4) == i.op
            && Get(p, 32, 4) == HELLO_MAGIC && Get(p, 36, 2) == 1 && Get(p, 38, 2) == i.op
            && Get(p, 40, 2) == HELLO_MSG_SIZE && Get(p, 42, 2) == i.flags && Get(p, 44, 4) == i.sequence
            && Get(p, 48, 4) == b.capabilities && Get(p, 52, 4) == b.railId && Get64(p, 56) == b.route
            && Get(p, 64, 4) == b.txHop && Get(p, 68, 4) == b.rxHop && Get(p, 72, 4) == b.transmitPath
            && Get(p, 76, 4) == b.txRingSize && Get(p, 80, 4) == b.rxRingSize && Get(p, 84, 4) == b.pathFlags
  {
    hide Encode, Offset, Get, Pow256, Value, LengthSn, HelloFits;
    var f := HelloFields(b, i);
    HelloOffsets(b, i);
    HelloValuesFit(b, i);
    AllReadBack(f, rest);
    var p := Encode(f) + rest;
    assert Get(p, Offset(f, 0), f[0].width) == f[0].value;
    assert Get(p, Offset(f, 1), f[1].width) == f[1].value;
    assert Get(p, Offset(f, 2), f[2].width) == f[2].value;
    assert Get(p, Offset(f, 3), f[3].width) == f[3].value;
    assert Get(p, Offset(f, 4), f[4].width) == f[4].value;
    assert Get(p, Offset(f, 5), f[5].width) == f[5].value;
    assert Get(p, Offset(f, 6), f[6].width) == f[6].value;
    assert Get(p, Offset(f, 7), f[7].width) == f[7].value;
    assert Get(p, Offset(f, 8), f[8].width) == f[8].value;
    assert Get(p, Offset(f, 9), f[9].width) == f[9].value;
    assert Get(p, Offset(f, 10), f[10].width) == f[10].value;
    assert Get(p, Offset(f, 11), f[11].width) == f[11].value;
    assert Get(p, Offset(f, 12), f[12].width) == f[12].value;
    assert Get(p, Offset(f, 13), f[13].width) == f[13].value;
    assert Get(p, Offset(f, 14), f[14].width) == f[14].value;
    assert Get(p, Offset(f, 15), f[15].width) == f[15].value;
    assert Get(p, Offset(f, 16), f[16].width) == f[16].value;
    assert Get(p, Offset(f, 17), f[17].width) == f[17].value;
    assert Get(p, Offset(f, 18), f[18].width) == f[18].value;
    assert Get(p, Offset(f, 19), f[19].width) == f[19].value;
    assert Get(p, Offset(f, 20), f[20].width) == f[20].value;
  }

  lemma UuidBack(p: seq<Byte>)
    requires |p| >= 28 && Get(p, 12, 16) == Value(UUID)
    ensures p[12..28] == UUID
  {
    hide Value;
    ValueInjective(p[12..28], UUID);
  }

  lemma ValueInjective(a: seq<Byte>, b: seq<Byte>)
    requires |a| == |b| && Value(a) == Value(b)
    ensures a == b
  {
    LeOfValue(a);
    LeOfValue(b);
    hide Value, Le, Pow256;
  }

  lemma BitsBack(i: Info)
    ensures i.route / U32_MOD * U32_MOD + i.route % U32_MOD == i.route
    ensures LengthSn(i.xdomainSequence) % 64 == (HELLO_MSG_SIZE - 12) / 4
    ensures LengthSn(i.xdomainSequence) / BIT27 % 4 == i.xdomainSequence % 4
  {
  }

  /**
   * Parsing a built HELLO, HELLO_ACK, READY or READY_ACK returns every body field, the operation, flags and sequence
   * number, the XDomain sequence modulo 4, and the route without its top bit.
   */
  lemma HelloRoundTrip(b: HelloBody, i: Info, rest: seq<Byte>)
    requires HelloFits(b, i)
    ensures ParseHello(Encode(HelloFields(b, i)) + rest)
            == if HelloOp(i.op) then Some((b, i.(xdomainSequence := i.xdomainSequence % 4, route := i.route % BIT63))) else None
  {
    hide Encode, HelloFields, Get, Get64, Value, LengthSn, HelloFits;
    HelloGets(b, i, rest);
    UuidBack(Encode(HelloFields(b, i)) + rest);
    BitsBack(i);
  }

  /**
   * Exactly the messages the parser takes: long enough for 88 bytes, the XDomain length word saying 19 words in its low six
   * bits, the protocol's UUID, one of the four operations in both places, and the native header's own magic, version and size.
   */
  lemma HelloAcceptedExactly(p: seq<Byte>)
    ensures ParseHello(p).Some?
            <==> && |p| >= 88 && Get(p, 8, 4) % 64 == 19
                 && p[12..28] == [0x7c, 0x2c, 0x8f, 0x1e, 0x5b, 0x4d, 0x4a, 0x01, 0x9f, 0x3a, 0x2b, 0x8e, 0x6d, 0x4c, 0x1a, 0x07]
                 && 1 <= Get(p, 28, 4) <= 4 && Get(p, 38, 2) == Get(p, 28, 4)
                 && p[32..36] == [0x54, 0x42, 0x56, 0x31] && Get(p, 36, 2) == 1 && Get(p, 40, 2) == 88
  {
    if |p| >= 88 {
      MagicBytes();
      if Get(p, 32, 4) == HELLO_MAGIC { ValueInjective(p[32..36], [0x54, 0x42, 0x56, 0x31]); }
    }
    hide Value;
  }

  lemma MagicBytes()
    ensures Value([0x54, 0x42, 0x56, 0x31]) == HELLO_MAGIC
  {
    var b: seq<Byte> := [0x54, 0x42, 0x56, 0x31];
    assert b[1..] == [0x42, 0x56, 0x31] && b[1..][1..] == [0x56, 0x31] && b[1..][1..][1..] == [0x31];
    assert Value([0x31]) == 0x31;
    assert Value([0x56, 0x31]) == 0x56 + 256 * 0x31;
  }
}
