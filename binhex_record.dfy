/**
 * The last stage of BinHexFile.ReadFrom: the expanded bytes hold a header
 * (name length N, name, a zero byte, type, creator, flags, the two fork
 * lengths and the header CRC) and then the data fork, its CRC, the resource
 * fork and its CRC. Every field sits at an offset fixed by N and the two
 * fork lengths. Bytes after the resource CRC are ignored.
 */
module BinHexRecord {
  import opened Wrappers
  import opened ByteListExtensions
  import opened BinHexErrors
  import opened MacFiles
  import Arith

  // ---------------------------------------------------------------------------
  // The inline field arithmetic of the header parse
  // ---------------------------------------------------------------------------

  /** `(ushort)((b0 << 8) | b1)`: the OR of disjoint bits is their sum, the cast truncates to 16 bits. */
  function InlineUInt16(b0: byte, b1: byte): u16 {
    (b0 as int * 0x100 + b1) % 0x1_0000
  }

  /**
   * `(uint)((b0 << 24) | (b1 << 16) | (b2 << 8) | b3)`: the shift of b0 is
   * 32-bit `int` arithmetic and can set the sign bit; the ORs combine
   * disjoint bits; the cast reads the 32 bits as unsigned.
   */
  function InlineUInt32(b0: byte, b1: byte, b2: byte, b3: byte): u32 {
    AsUInt32(Wrap32(Wrap32(b0 as int * 0x100_0000) + b1 as int * 0x1_0000 + b2 as int * 0x100 + b3))
  }

  /** The big-endian 16-bit field at i. */
  function Field16(u: seq<byte>, i: nat): u16
    requires i + 2 <= |u|
  {
    BigEndian16(u[i], u[i + 1])
  }

  /** The big-endian unsigned 32-bit field at i. */
  function Field32(u: seq<byte>, i: nat): u32
    requires i + 4 <= |u|
  {
    BigEndian32(u[i], u[i + 1], u[i + 2], u[i + 3])
  }

  /** The inline 16-bit field is the big-endian value: the cast to ushort loses nothing. */
  lemma InlineUInt16IsField(u: seq<byte>, i: nat)
    requires i + 2 <= |u|
    ensures InlineUInt16(u[i], u[i + 1]) == Field16(u, i)
  {
    Arith.DivMod(u[i] as int * 0x100 + u[i + 1], 0, u[i] as int * 0x100 + u[i + 1], 0x1_0000);
  }

  /** The inline 16-bit field equals ReadUInt16 at the same offset. */
  lemma InlineUInt16Agrees(u: seq<byte>, i: nat)
    requires i + 2 <= |u|
    ensures ReadUInt16(u, i) == Success(InlineUInt16(u[i], u[i + 1]))
  {
    InlineUInt16IsField(u, i);
  }

  /**
   * The inline 32-bit field is the unsigned big-endian value, and equals
   * ReadInt32 at the same offset reinterpreted as unsigned.
   */
  lemma InlineUInt32Agrees(u: seq<byte>, i: nat)
    requires i + 4 <= |u|
    ensures ReadInt32(u, i).Success?
    ensures AsUInt32(ReadInt32(u, i).value) == InlineUInt32(u[i], u[i + 1], u[i + 2], u[i + 3])
  {
    InlineUInt32IsField(u, i);
  }

  /** The inline 32-bit field is the unsigned big-endian value: the sign the shift may set is undone by the cast. */
  lemma InlineUInt32IsField(u: seq<byte>, i: nat)
    requires i + 4 <= |u|
    ensures InlineUInt32(u[i], u[i + 1], u[i + 2], u[i + 3]) == Field32(u, i)
  {
    var b0, b1, b2, b3 := u[i], u[i + 1], u[i + 2], u[i + 3];
    WrapShiftedByte(b0);
    var x := Wrap32(b0 as int * 0x100_0000) + b1 as int * 0x1_0000 + b2 as int * 0x100 + b3;
    WrapInRange(x);
  }

  // ---------------------------------------------------------------------------
  // The record layout
  // ---------------------------------------------------------------------------

  /** Where everything after the name sits, for a name of n bytes. */
  function TypeAt(n: nat): nat { 2 + n }
  function CreatorAt(n: nat): nat { 6 + n }
  function FlagAt(n: nat): nat { 10 + n }
  function DataLengthAt(n: nat): nat { 12 + n }
  function ResourceLengthAt(n: nat): nat { 16 + n }
  function HeaderCrcAt(n: nat): nat { 20 + n }
  function DataAt(n: nat): nat { 22 + n }

  /** The fields before the forks, with the name length n that places them. */
  datatype Header = Header(
    n: nat,
    fileName: string,
    fileType: string,
    creator: string,
    flag: u16,
    dataLength: u32,
    resourceLength: u32,
    headerCRC: u16)

  /**
   * The header at the start of the expanded bytes u. A read past the end of
   * u fails; so does a nonzero byte after the name.
   */
  function HeaderOf(u: seq<byte>): (r: Result<Header, Error>)
    ensures r.Success? ==> 0 < |u| && r.value.n == u[0] as int && DataAt(r.value.n) <= |u|
  {
    if |u| == 0 then Failure(TruncatedInput)
    else
      var n := u[0] as int;
      if |u| < 2 + n then Failure(TruncatedInput)
      else if u[1 + n] != 0 then Failure(MalformedHeader)
      else if |u| < DataAt(n) then Failure(TruncatedInput)
      else
        Success(Header(
          n,
          BytesToString(u[1..1 + n]),
          BytesToString(u[TypeAt(n)..TypeAt(n) + 4]),
          BytesToString(u[CreatorAt(n)..CreatorAt(n) + 4]),
          Field16(u, FlagAt(n)),
          Field32(u, DataLengthAt(n)),
          Field32(u, ResourceLengthAt(n)),
          Field16(u, HeaderCrcAt(n))))
  }

  /** Where the resource fork starts: after the data fork and its CRC. */
  function ResourceAt(h: Header): nat {
    DataAt(h.n) + h.dataLength + 2
  }

  /** The forks and their CRCs after header h; a fork or CRC read past the end fails. */
  function ForksOf(u: seq<byte>, h: Header): Result<BinHexFile, Error>
    requires DataAt(h.n) <= |u|
  {
    var dataAt, resourceAt := DataAt(h.n), ResourceAt(h);
    if |u| < resourceAt + h.resourceLength + 2 then Failure(TruncatedInput)
    else
      Success(BinHexFile(
        MacFile(h.fileName, h.fileType, h.creator, h.flag,
          u[dataAt..dataAt + h.dataLength],
          u[resourceAt..resourceAt + h.resourceLength]),
        h.headerCRC,
        Field16(u, dataAt + h.dataLength),
        Field16(u, resourceAt + h.resourceLength)))
  }

  /** The record in the expanded bytes u: its header, then its forks. CRCs are returned as read. */
  function ParseRecord(u: seq<byte>): Result<BinHexFile, Error> {
    var h :- HeaderOf(u);
    ForksOf(u, h)
  }

  /**
   * Which error a failed parse reports: MalformedHeader exactly when the
   * byte after the name is there and is not zero, TruncatedInput exactly
   * when a read before that zero check or a later read runs past the end.
   */
  lemma ParseRecordErrors(u: seq<byte>)
    ensures ParseRecord(u).Failure? ==> ParseRecord(u).error in {MalformedHeader, TruncatedInput}
    ensures ParseRecord(u) == Failure(MalformedHeader) <==>
      0 < |u| && 2 + u[0] as int <= |u| && u[1 + u[0] as int] != 0
    ensures ParseRecord(u) == Failure(TruncatedInput) <==>
      || |u| == 0
      || |u| < 2 + u[0] as int
      || (u[1 + u[0] as int] == 0 && |u| < DataAt(u[0] as int))
      || (u[1 + u[0] as int] == 0 &&
          |u| < DataAt(u[0] as int) + Field32(u, DataLengthAt(u[0] as int)) + 2
                + Field32(u, ResourceLengthAt(u[0] as int)) + 2)
  {
  }

  /**
   * The header's flag and header CRC are what ReadUInt16 reads at the same
   * offsets, and its fork lengths what ReadInt32 reads there, as unsigned.
   */
  lemma HeaderAgreesWithReaders(u: seq<byte>)
    requires HeaderOf(u).Success?
    ensures var h := HeaderOf(u).value;
      && ReadUInt16(u, FlagAt(h.n)) == Success(h.flag)
      && ReadInt32(u, DataLengthAt(h.n)).Success?
      && AsUInt32(ReadInt32(u, DataLengthAt(h.n)).value) == h.dataLength
      && ReadInt32(u, ResourceLengthAt(h.n)).Success?
      && AsUInt32(ReadInt32(u, ResourceLengthAt(h.n)).value) == h.resourceLength
      && ReadUInt16(u, HeaderCrcAt(h.n)) == Success(h.headerCRC)
  {
    var n := HeaderOf(u).value.n;
    InlineUInt16Agrees(u, FlagAt(n));
    InlineUInt16IsField(u, FlagAt(n));
    InlineUInt32Agrees(u, DataLengthAt(n));
    InlineUInt32IsField(u, DataLengthAt(n));
    InlineUInt32Agrees(u, ResourceLengthAt(n));
    InlineUInt32IsField(u, ResourceLengthAt(n));
    InlineUInt16Agrees(u, HeaderCrcAt(n));
    InlineUInt16IsField(u, HeaderCrcAt(n));
  }

  /** The `s += (char)u[index + i]` loops: count characters from index on. */
  method ReadChars(u: seq<byte>, index: nat, count: nat) returns (s: string)
    requires index + count <= |u|
    ensures s == BytesToString(u[index..index + count])
  {
    s := "";
    for i := 0 to count
      invariant s == BytesToString(u[index..index + i])
    {
      s := s + [ByteToChar(u[index + i])];
    }
  }

  /**
   * The header part of the parse in BinHexFile.ReadFrom, advancing an index
   * cursor: the name length, the name, the zero byte, type, creator, flags,
   * the two fork lengths and the header CRC. Each read past the end, which
   * throws in the source, is a TruncatedInput failure here.
   */
  method ReadHeader(u: seq<byte>) returns (r: Result<Header, Error>, index: nat)
    ensures r == HeaderOf(u)
    ensures r.Success? ==> index == DataAt(r.value.n)
  {
    index := 0;
    if |u| == 0 {
      return Failure(TruncatedInput), index;
    }
    var filenameLength := u[index];
    index := index + 1;
    if |u| < index + filenameLength + 1 {
      return Failure(TruncatedInput), index;
    }
    var fileName := ReadChars(u, index, filenameLength);
    index := index + filenameLength;
    if u[index] != 0x00 {
      return Failure(MalformedHeader), index;
    }
    index := index + 1;
    if |u| < index + 20 {
      return Failure(TruncatedInput), index;
    }
    var fileType := ReadChars(u, index, 4);
    index := index + 4;
    var creator := ReadChars(u, index, 4);
    index := index + 4;
    var flag := InlineUInt16(u[index], u[index + 1]);
    InlineUInt16IsField(u, index);
    index := index + 2;
    var dataForkLength := InlineUInt32(u[index], u[index + 1], u[index + 2], u[index + 3]);
    InlineUInt32IsField(u, index);
    index := index + 4;
    var resourceForkLength := InlineUInt32(u[index], u[index + 1], u[index + 2], u[index + 3]);
    InlineUInt32IsField(u, index);
    index := index + 4;
    var headerCRC := InlineUInt16(u[index], u[index + 1]);
    InlineUInt16IsField(u, index);
    index := index + 2;
    return Success(Header(filenameLength, fileName, fileType, creator, flag,
      dataForkLength, resourceForkLength, headerCRC)), index;
  }

  /**
   * The header and fork parse of BinHexFile.ReadFrom: the header, then the
   * data fork, its CRC, the resource fork and its CRC, each copied from the
   * cursor on.
   */
  method ReadRecord(uncompressedBytes: seq<byte>) returns (r: Result<BinHexFile, Error>)
    ensures r == ParseRecord(uncompressedBytes)
  {
    var u := uncompressedBytes;
    var header, index := ReadHeader(u);
    if header.Failure? {
      return Failure(header.error);
    }
    var h := header.value;
    if |u| < index + h.dataLength + 2 + h.resourceLength + 2 {
      return Failure(TruncatedInput);
    }
    var dataFork := u[index..index + h.dataLength];
    index := index + h.dataLength;
    var dataCRC := InlineUInt16(u[index], u[index + 1]);
    InlineUInt16IsField(u, index);
    index := index + 2;
    var resourceFork := u[index..index + h.resourceLength];
    index := index + h.resourceLength;
    var resourceCRC := InlineUInt16(u[index], u[index + 1]);
    InlineUInt16IsField(u, index);
    index := index + 2;
    return Success(BinHexFile(
      MacFile(h.fileName, h.fileType, h.creator, h.flag, dataFork, resourceFork),
      h.headerCRC, dataCRC, resourceCRC));
  }

  // ---------------------------------------------------------------------------
  // An encoder for the record, and the round trips
  // ---------------------------------------------------------------------------

  /** A string whose characters are all below U+0100, so that each fits a byte. */
  predicate IsByteString(s: string) {
    forall i :: 0 <= i < |s| ==> s[i] as int < 0x100
  }

  function StringToBytes(s: string): (b: seq<byte>)
    requires IsByteString(s)
    ensures |b| == |s|
  {
    seq(|s|, i requires 0 <= i < |s| => s[i] as int)
  }

  function U16Bytes(x: u16): seq<byte> {
    [x / 0x100, x % 0x100]
  }

  function U32Bytes(x: u32): seq<byte> {
    [x / 0x100_0000, (x / 0x1_0000) % 0x100, (x / 0x100) % 0x100, x % 0x100]
  }

  /** A record the layout can carry: a name of at most 255 bytes, four-byte codes, forks below 4 GiB. */
  predicate WellFormed(f: BinHexFile) {
    && |f.file.fileName| <= 255 && IsByteString(f.file.fileName)
    && |f.file.fileType| == 4 && IsByteString(f.file.fileType)
    && |f.file.creator| == 4 && IsByteString(f.file.creator)
    && |f.file.dataFork| < 0x1_0000_0000 && |f.file.resourceFork| < 0x1_0000_0000
  }

  /** The header of a record, up to and including the header CRC. */
  function EncodeHeader(f: BinHexFile): (h: seq<byte>)
    requires WellFormed(f)
    ensures |h| == DataAt(|f.file.fileName|)
  {
    var m := f.file;
    [|m.fileName|] + StringToBytes(m.fileName) + [0] + StringToBytes(m.fileType) + StringToBytes(m.creator)
      + U16Bytes(m.flag) + U32Bytes(|m.dataFork|) + U32Bytes(|m.resourceFork|) + U16Bytes(f.headerCRC)
  }

  /** The bytes of a record, as a BinHex 4.0 writer lays them out before compression. */
  function EncodeRecord(f: BinHexFile): seq<byte>
    requires WellFormed(f)
  {
    EncodeHeader(f) + f.file.dataFork + U16Bytes(f.dataCRC) + f.file.resourceFork + U16Bytes(f.resourceCRC)
  }

  lemma Field16Of(u: seq<byte>, k: nat, x: u16)
    requires k + 2 <= |u| && u[k] == x / 0x100 && u[k + 1] == x % 0x100
    ensures Field16(u, k) == x
  {
  }

  lemma Field32Of(u: seq<byte>, k: nat, x: u32)
    requires k + 4 <= |u| && u[k] == x / 0x100_0000 && u[k + 1] == (x / 0x1_0000) % 0x100
    requires u[k + 2] == (x / 0x100) % 0x100 && u[k + 3] == x % 0x100
    ensures Field32(u, k) == x
  {
    Arith.DivMod(x, x / 0x100, x % 0x100, 0x100);
    Arith.DivMod(x / 0x100, x / 0x1_0000, (x / 0x100) % 0x100, 0x100);
    Arith.DivMod(x / 0x1_0000, x / 0x100_0000, (x / 0x1_0000) % 0x100, 0x100);
  }

  lemma BytesStringRoundTrip(s: string)
    requires IsByteString(s)
    ensures BytesToString(StringToBytes(s)) == s
  {
  }

  /** Every header field of an encoded record sits where the parser reads it. */
  lemma HeaderFields(f: BinHexFile, rest: seq<byte>)
    requires WellFormed(f)
    ensures var u, n := EncodeHeader(f) + rest, |f.file.fileName|;
      && u[0] == n && u[1 + n] == 0
      && BytesToString(u[1..1 + n]) == f.file.fileName
      && BytesToString(u[TypeAt(n)..TypeAt(n) + 4]) == f.file.fileType
      && BytesToString(u[CreatorAt(n)..CreatorAt(n) + 4]) == f.file.creator
      && Field16(u, FlagAt(n)) == f.file.flag
      && Field32(u, DataLengthAt(n)) == |f.file.dataFork|
      && Field32(u, ResourceLengthAt(n)) == |f.file.resourceFork|
      && Field16(u, HeaderCrcAt(n)) == f.headerCRC
      && u[DataAt(n)..] == rest
  {
    var m := f.file;
    var n := |m.fileName|;
    var u := EncodeHeader(f) + rest;
    var name, ty, cr := StringToBytes(m.fileName), StringToBytes(m.fileType), StringToBytes(m.creator);
    assert u[1..1 + n] == name;
    assert u[TypeAt(n)..TypeAt(n) + 4] == ty;
    assert u[CreatorAt(n)..CreatorAt(n) + 4] == cr;
    BytesStringRoundTrip(m.fileName);
    BytesStringRoundTrip(m.fileType);
    BytesStringRoundTrip(m.creator);
    Field16Of(u, FlagAt(n), m.flag);
    Field32Of(u, DataLengthAt(n), |m.dataFork|);
    Field32Of(u, ResourceLengthAt(n), |m.resourceFork|);
    Field16Of(u, HeaderCrcAt(n), f.headerCRC);
  }

  /** After the header: the data fork, its CRC, the resource fork and its CRC, in that order. */
  lemma ForkFields(f: BinHexFile, tail: seq<byte>)
    requires WellFormed(f)
    ensures var v, d := f.file.dataFork + U16Bytes(f.dataCRC) + f.file.resourceFork + U16Bytes(f.resourceCRC) + tail, |f.file.dataFork|;
      && |v| >= d + 2 + |f.file.resourceFork| + 2
      && v[..d] == f.file.dataFork
      && Field16(v, d) == f.dataCRC
      && v[d + 2..d + 2 + |f.file.resourceFork|] == f.file.resourceFork
      && Field16(v, d + 2 + |f.file.resourceFork|) == f.resourceCRC
  {
    var m := f.file;
    var d := |m.dataFork|;
    var v := m.dataFork + U16Bytes(f.dataCRC) + m.resourceFork + U16Bytes(f.resourceCRC) + tail;
    assert v[..d] == m.dataFork;
    Field16Of(v, d, f.dataCRC);
    assert v[d + 2..d + 2 + |m.resourceFork|] == m.resourceFork;
    Field16Of(v, d + 2 + |m.resourceFork|, f.resourceCRC);
  }

  /** The header a record is written with. */
  function HeaderFor(f: BinHexFile): Header
    requires WellFormed(f)
  {
    var m := f.file;
    Header(|m.fileName|, m.fileName, m.fileType, m.creator, m.flag, |m.dataFork|, |m.resourceFork|, f.headerCRC)
  }

  /** Parsing an encoded header gives back the header of the record. */
  lemma HeaderRoundTrip(f: BinHexFile, rest: seq<byte>)
    requires WellFormed(f)
    ensures HeaderOf(EncodeHeader(f) + rest) == Success(HeaderFor(f))
  {
    HeaderFields(f, rest);
  }

  /** The forks and CRCs after an encoded header are read back as written. */
  lemma ForksRoundTrip(f: BinHexFile, u: seq<byte>, tail: seq<byte>)
    requires WellFormed(f) && DataAt(|f.file.fileName|) <= |u|
    requires u[DataAt(|f.file.fileName|)..] ==
      f.file.dataFork + U16Bytes(f.dataCRC) + f.file.resourceFork + U16Bytes(f.resourceCRC) + tail
    ensures ForksOf(u, HeaderFor(f)) == Success(f)
  {
    var m := f.file;
    var n, d, rl := |m.fileName|, |m.dataFork|, |m.resourceFork|;
    ForkFields(f, tail);
    SliceOfSuffix(u, DataAt(n), 0, d);
    SliceOfSuffix(u, DataAt(n), d + 2, d + 2 + rl);
    Field16OfSuffix(u, DataAt(n), d);
    Field16OfSuffix(u, DataAt(n), d + 2 + rl);
  }

  /** Parsing an encoded record gives it back, whatever follows it. */
  lemma RecordRoundTrip(f: BinHexFile, tail: seq<byte>)
    requires WellFormed(f)
    ensures ParseRecord(EncodeRecord(f) + tail) == Success(f)
  {
    var m := f.file;
    var v := m.dataFork + U16Bytes(f.dataCRC) + m.resourceFork + U16Bytes(f.resourceCRC) + tail;
    var u := EncodeHeader(f) + v;
    assert EncodeRecord(f) + tail == u;
    assert u[DataAt(|m.fileName|)..] == v;
    HeaderRoundTrip(f, v);
    ForksRoundTrip(f, u, tail);
  }

  lemma SliceOfSuffix(u: seq<byte>, k: nat, i: nat, j: nat)
    requires k <= |u| && i <= j <= |u| - k
    ensures u[k..][i..j] == u[k + i..k + j]
  {
  }

  lemma Field16OfSuffix(u: seq<byte>, k: nat, i: nat)
    requires k <= |u| && i + 2 <= |u| - k
    ensures Field16(u[k..], i) == Field16(u, k + i)
  {
  }

  lemma U16BytesOfField(u: seq<byte>, k: nat)
    requires k + 2 <= |u|
    ensures U16Bytes(Field16(u, k)) == u[k..k + 2]
  {
    var x := Field16(u, k);
    Arith.DivMod(x, u[k] as int, u[k + 1] as int, 0x100);
  }

  lemma U32BytesOfField(u: seq<byte>, k: nat)
    requires k + 4 <= |u|
    ensures U32Bytes(Field32(u, k)) == u[k..k + 4]
  {
    var x := Field32(u, k);
    var b0, b1, b2, b3 := u[k] as int, u[k + 1] as int, u[k + 2] as int, u[k + 3] as int;
    Arith.DivMod(x, b0 * 0x1_0000 + b1 * 0x100 + b2, b3, 0x100);
    Arith.DivMod(x / 0x100, b0 * 0x100 + b1, b2, 0x100);
    Arith.DivMod(x, b0 * 0x100 + b1, b2 * 0x100 + b3, 0x1_0000);
    Arith.DivMod(x / 0x1_0000, b0, b1, 0x100);
    Arith.DivMod(x, b0, b1 * 0x1_0000 + b2 * 0x100 + b3, 0x100_0000);
  }

  lemma StringBytesRoundTrip(b: seq<byte>)
    ensures IsByteString(BytesToString(b)) && StringToBytes(BytesToString(b)) == b
  {
  }

  /** u[a..c] is u[a..b] followed by u[b..c]. */
  lemma SplitSlice(u: seq<byte>, a: nat, b: nat, c: nat)
    requires a <= b <= c <= |u|
    ensures u[a..c] == u[a..b] + u[b..c]
  {
  }

  /** The name length, the name, the zero byte, the type and the creator a parse reads, re-encoded. */
  lemma HeaderTextPrefix(u: seq<byte>, f: BinHexFile)
    requires HeaderOf(u).Success? && ParseRecord(u) == Success(f)
    ensures var n := HeaderOf(u).value.n;
      && |f.file.fileName| == n <= 255 && IsByteString(f.file.fileName)
      && |f.file.fileType| == 4 && IsByteString(f.file.fileType)
      && |f.file.creator| == 4 && IsByteString(f.file.creator)
      && [n] + StringToBytes(f.file.fileName) + [0] + StringToBytes(f.file.fileType) + StringToBytes(f.file.creator)
         == u[..FlagAt(n)]
  {
    var n := HeaderOf(u).value.n;
    StringBytesRoundTrip(u[1..1 + n]);
    StringBytesRoundTrip(u[TypeAt(n)..TypeAt(n) + 4]);
    StringBytesRoundTrip(u[CreatorAt(n)..CreatorAt(n) + 4]);
    SplitSlice(u, 0, 1, 1 + n);
    SplitSlice(u, 0, 1 + n, 2 + n);
    SplitSlice(u, 0, 2 + n, 6 + n);
    SplitSlice(u, 0, 6 + n, 10 + n);
    assert u[0..1] == [n as byte] && u[1 + n..2 + n] == [0];
    assert u[..FlagAt(n)] == u[0..10 + n];
  }

  /** The flag, the fork lengths and the header CRC a parse reads, re-encoded. */
  lemma HeaderNumbersPrefix(u: seq<byte>, f: BinHexFile)
    requires HeaderOf(u).Success? && ParseRecord(u) == Success(f)
    ensures var n := HeaderOf(u).value.n;
      && |f.file.dataFork| < 0x1_0000_0000 && |f.file.resourceFork| < 0x1_0000_0000
      && U16Bytes(f.file.flag) + U32Bytes(|f.file.dataFork|) + U32Bytes(|f.file.resourceFork|) + U16Bytes(f.headerCRC)
         == u[FlagAt(n)..DataAt(n)]
  {
    var h := HeaderOf(u).value;
    var n := h.n;
    U16BytesOfField(u, FlagAt(n));
    U32BytesOfField(u, DataLengthAt(n));
    U32BytesOfField(u, ResourceLengthAt(n));
    U16BytesOfField(u, HeaderCrcAt(n));
    assert |f.file.dataFork| == h.dataLength && |f.file.resourceFork| == h.resourceLength;
    SplitSlice(u, 10 + n, 12 + n, 16 + n);
    SplitSlice(u, 10 + n, 16 + n, 20 + n);
    SplitSlice(u, 10 + n, 20 + n, 22 + n);
  }

  /** The header the parser reads is the encoding of what it returns. */
  lemma HeaderPrefix(u: seq<byte>, f: BinHexFile)
    requires HeaderOf(u).Success? && ParseRecord(u) == Success(f)
    ensures WellFormed(f) && EncodeHeader(f) == u[..DataAt(HeaderOf(u).value.n)]
  {
    var n := HeaderOf(u).value.n;
    HeaderTextPrefix(u, f);
    HeaderNumbersPrefix(u, f);
    SplitSlice(u, 0, FlagAt(n), DataAt(n));
    assert u[..DataAt(n)] == u[0..DataAt(n)] && u[..FlagAt(n)] == u[0..FlagAt(n)];
    var m := f.file;
    assert EncodeHeader(f) ==
      ([n] + StringToBytes(m.fileName) + [0] + StringToBytes(m.fileType) + StringToBytes(m.creator))
      + (U16Bytes(m.flag) + U32Bytes(|m.dataFork|) + U32Bytes(|m.resourceFork|) + U16Bytes(f.headerCRC));
  }

  /**
   * A successful parse reads exactly an encoded record: the bytes it
   * consumed are the encoding of its result, and whatever follows is ignored.
   */
  lemma RecordPrefix(u: seq<byte>)
    requires ParseRecord(u).Success?
    ensures var f := ParseRecord(u).value;
      WellFormed(f) && |EncodeRecord(f)| <= |u| && EncodeRecord(f) == u[..|EncodeRecord(f)|]
  {
    var f := ParseRecord(u).value;
    var h := HeaderOf(u).value;
    HeaderPrefix(u, f);
    var a := DataAt(h.n);
    var b := a + h.dataLength;
    var c := b + 2 + h.resourceLength;
    U16BytesOfField(u, b);
    U16BytesOfField(u, c);
    SplitSlice(u, 0, a, b);
    SplitSlice(u, 0, b, b + 2);
    SplitSlice(u, 0, b + 2, c);
    SplitSlice(u, 0, c, c + 2);
    assert u[..a] == u[0..a] && u[..c + 2] == u[0..c + 2];
    assert |EncodeRecord(f)| == c + 2;
  }
}
