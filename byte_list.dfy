/**
 * The big-endian readers of ByteListExtensions: a fixed-length byte-as-character
 * string, a signed 32-bit integer and an unsigned 16-bit integer, each read at an
 * offset of a read-only byte list. A read outside the list fails, as the list
 * indexer does.
 */
module ByteListExtensions {
  import opened Wrappers
  import Arith

  type byte = b: int | 0 <= b < 0x100
  type u16 = x: int | 0 <= x < 0x1_0000
  type u32 = x: int | 0 <= x < 0x1_0000_0000
  type i32 = x: int | -0x8000_0000 <= x < 0x8000_0000

  /** The indexer of the list threw: the offset lies outside the list. */
  datatype ReadError = OutOfRange

  /** C#'s unchecked `int` arithmetic: the result is taken modulo 2^32 into [-2^31, 2^31). */
  function Wrap32(x: int): (r: i32)
    ensures (x - r) % 0x1_0000_0000 == 0
  {
    (x + 0x8000_0000) % 0x1_0000_0000 - 0x8000_0000
  }

  /** C#'s cast from `int` to `uint`: the same 32 bits read as unsigned. */
  function AsUInt32(x: i32): (r: u32)
    ensures (r - x) % 0x1_0000_0000 == 0
    ensures x >= 0 ==> r == x
  {
    if x < 0 then x + 0x1_0000_0000 else x
  }

  /** The unsigned value of two bytes, most significant first. */
  function BigEndian16(b0: byte, b1: byte): u16 {
    b0 as int * 0x100 + b1
  }

  /** The unsigned value of four bytes, most significant first. */
  function BigEndian32(b0: byte, b1: byte, b2: byte, b3: byte): u32 {
    b0 as int * 0x100_0000 + b1 as int * 0x1_0000 + b2 as int * 0x100 + b3
  }

  /** The (char) cast of a byte: the code point is the byte value. */
  function ByteToChar(b: byte): char {
    b as char
  }

  /** A byte sequence read as characters, one character per byte. */
  function BytesToString(s: seq<byte>): string {
    seq(|s|, i requires 0 <= i < |s| => ByteToChar(s[i]))
  }

  /**
   * ReadString: `length` characters whose code points are the bytes at
   * offset, offset + 1, ...; a length of zero or less reads nothing and
   * yields the empty string.
   */
  method ReadString(data: seq<byte>, offset: int, length: int) returns (r: Result<string, ReadError>)
    ensures r.Success? <==> length <= 0 || (0 <= offset && offset + length <= |data|)
    ensures r.Success? ==> |r.value| == (if length <= 0 then 0 else length)
    ensures r.Success? ==> forall i :: 0 <= i < |r.value| ==> r.value[i] as int == data[offset + i]
  {
    var result := "";
    var i := 0;
    while i < length
      invariant 0 <= i <= (if length <= 0 then 0 else length)
      invariant i > 0 ==> 0 <= offset && offset + i <= |data|
      invariant |result| == i
      invariant forall k :: 0 <= k < i ==> result[k] as int == data[offset + k]
    {
      if offset + i < 0 || offset + i >= |data| {
        return Failure(OutOfRange);
      }
      result := result + [ByteToChar(data[offset + i])];
      i := i + 1;
    }
    return Success(result);
  }

  /**
   * ReadInt32: the four bytes at offset, most significant first, accumulated
   * with `int` shifts and additions as the source does; the result is the
   * two's-complement reading of the 32 bits.
   */
  function ReadInt32(data: seq<byte>, offset: int): (r: Result<i32, ReadError>)
    ensures r.Success? <==> 0 <= offset && offset + 4 <= |data|
    ensures r.Success? ==>
      var u := BigEndian32(data[offset], data[offset + 1], data[offset + 2], data[offset + 3]);
      r.value == (if data[offset] < 0x80 then u else u - 0x1_0000_0000)
    ensures r.Success? ==> (r.value >= 0 <==> data[offset] < 0x80)
    ensures r.Success? ==>
      AsUInt32(r.value) == BigEndian32(data[offset], data[offset + 1], data[offset + 2], data[offset + 3])
  {
    if offset < 0 || offset + 4 > |data| then Failure(OutOfRange)
    else
      var b0, b1, b2, b3 := data[offset], data[offset + 1], data[offset + 2], data[offset + 3];
      var r0 := Wrap32(0 + Wrap32(b0 as int * 0x100_0000));
      var r1 := Wrap32(r0 + b1 as int * 0x1_0000);
      var r2 := Wrap32(r1 + b2 as int * 0x100);
      var r3 := Wrap32(r2 + b3);
      WrapShiftedByte(b0);
      WrapInRange(r0 + b1 as int * 0x1_0000);
      WrapInRange(r1 + b2 as int * 0x100);
      WrapInRange(r2 + b3);
      Success(r3)
  }

  /** `b << 24` in 32-bit arithmetic: the sign bit is the top bit of b. */
  lemma WrapShiftedByte(b: byte)
    ensures Wrap32(b as int * 0x100_0000) == (if b < 0x80 then b as int * 0x100_0000 else b as int * 0x100_0000 - 0x1_0000_0000)
    ensures Wrap32(0 + Wrap32(b as int * 0x100_0000)) == Wrap32(b as int * 0x100_0000)
  {
    if b < 0x80 {
      Arith.DivMod(b as int * 0x100_0000 + 0x8000_0000, 0, b as int * 0x100_0000 + 0x8000_0000, 0x1_0000_0000);
    } else {
      Arith.DivMod(b as int * 0x100_0000 + 0x8000_0000, 1, b as int * 0x100_0000 + 0x8000_0000 - 0x1_0000_0000, 0x1_0000_0000);
    }
    WrapInRange(Wrap32(b as int * 0x100_0000));
  }

  lemma WrapInRange(x: int)
    requires -0x8000_0000 <= x < 0x8000_0000
    ensures Wrap32(x) == x
  {
    Arith.DivMod(x + 0x8000_0000, 0, x + 0x8000_0000, 0x1_0000_0000);
  }

  /**
   * ReadUInt16: the two bytes at offset, most significant first, accumulated
   * in `ushort` arithmetic as the source does; no carry is ever lost.
   */
  function ReadUInt16(data: seq<byte>, offset: int): (r: Result<u16, ReadError>)
    ensures r.Success? <==> 0 <= offset && offset + 2 <= |data|
    ensures r.Success? ==> r.value == data[offset] as int * 0x100 + data[offset + 1]
  {
    if offset < 0 || offset + 2 > |data| then Failure(OutOfRange)
    else
      var hi := (data[offset] as int * 0x100) % 0x1_0000;
      var r0 := (0 + hi) % 0x1_0000;
      var r1 := (r0 + data[offset + 1] % 0x1_0000) % 0x1_0000;
      Arith.DivMod(data[offset] as int * 0x100, 0, data[offset] as int * 0x100, 0x1_0000);
      Arith.DivMod(data[offset] as int * 0x100 + data[offset + 1], 0, data[offset] as int * 0x100 + data[offset + 1], 0x1_0000);
      Success(r1)
  }

  /** Each reader touches only the bytes it reads: cutting the list down to them changes nothing. */
  lemma ReadersAreLocal(data: seq<byte>, offset: nat)
    ensures offset + 4 <= |data| ==> ReadInt32(data, offset) == ReadInt32(data[offset..offset + 4], 0)
    ensures offset + 2 <= |data| ==> ReadUInt16(data, offset) == ReadUInt16(data[offset..offset + 2], 0)
  {
  }
}
