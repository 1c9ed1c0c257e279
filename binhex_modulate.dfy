/**
 * The encoding direction of the BinHex 4.0 six-bit stage, written as the
 * partner of the decoder: six bytes become eight six-bit values, most
 * significant bit first. Demodulating what was modulated gives back the
 * bytes, and the alphabet text of those values passes the decoder's scan.
 */
module BinHexModulation {
  import opened Wrappers
  import opened ByteListExtensions
  import opened BinHexText
  import opened BinHexErrors
  import Arith

  /** The 48-bit number whose big-endian bytes are b. */
  function BytesValue(b: seq<byte>): nat
    requires |b| == 6
  {
    b[0] as int * 0x100_0000_0000 + b[1] as int * 0x1_0000_0000 + b[2] as int * 0x100_0000
      + b[3] as int * 0x1_0000 + b[4] as int * 0x100 + b[5] as int
  }

  /** Splitting a 48-bit number into six bytes, most significant first, recovers them. */
  lemma ChunkBytesOfValue(b: seq<byte>)
    requires |b| == 6
    ensures ChunkBytes(BytesValue(b)) == b
  {
    var x := BytesValue(b);
    var b0, b1, b2, b3, b4, b5 := b[0] as int, b[1] as int, b[2] as int, b[3] as int, b[4] as int, b[5] as int;
    Arith.DigitAt(x, 0, b0, b1 * 0x1_0000_0000 + b2 * 0x100_0000 + b3 * 0x1_0000 + b4 * 0x100 + b5, 0x100_0000_0000);
    Arith.DigitAt(x, b0, b1, b2 * 0x100_0000 + b3 * 0x1_0000 + b4 * 0x100 + b5, 0x1_0000_0000);
    Arith.DigitAt(x, b0 * 0x100 + b1, b2, b3 * 0x1_0000 + b4 * 0x100 + b5, 0x100_0000);
    Arith.DigitAt(x, b0 * 0x1_0000 + b1 * 0x100 + b2, b3, b4 * 0x100 + b5, 0x1_0000);
    Arith.DigitAt(x, b0 * 0x100_0000 + b1 * 0x1_0000 + b2 * 0x100 + b3, b4, b5, 0x100);
    Arith.DivMod(x, b0 * 0x1_0000_0000 + b1 * 0x100_0000 + b2 * 0x1_0000 + b3 * 0x100 + b4, b5, 0x100);
    assert ChunkBytes(x)[0] == b0 && ChunkBytes(x)[1] == b1 && ChunkBytes(x)[2] == b2;
    assert ChunkBytes(x)[3] == b3 && ChunkBytes(x)[4] == b4 && ChunkBytes(x)[5] == b5;
  }

  lemma ChunkStep(g: seq<SixBit>, k: nat)
    requires k < |g| <= 8
    ensures Chunk(g[..k + 1]) == Chunk(g[..k]) + ShiftIn(g[k], k)
  {
    assert g[..k + 1][..k] == g[..k];
  }

  /** The chunk of a full group, written out: value k times 2^(42 - 6k). */
  lemma ChunkOfGroup(g: seq<SixBit>)
    requires |g| == 8
    ensures Chunk(g) == g[0] as int * 0x400_0000_0000 + g[1] as int * 0x10_0000_0000 + g[2] as int * 0x4000_0000
      + g[3] as int * 0x100_0000 + g[4] as int * 0x4_0000 + g[5] as int * 0x1000 + g[6] as int * 0x40 + g[7] as int
  {
    assert g[..0] == [] && g[..8] == g;
    ChunkStep(g, 0); ChunkStep(g, 1); ChunkStep(g, 2); ChunkStep(g, 3);
    ChunkStep(g, 4); ChunkStep(g, 5); ChunkStep(g, 6); ChunkStep(g, 7);
  }

  /**
   * The packing of one full group written out bit by bit: byte j takes
   * bits 47 - 8j .. 40 - 8j of the eight values laid out most significant first.
   */
  function PackGroup(g: seq<SixBit>): seq<byte>
    requires |g| == 8
  {
    var v0, v1, v2, v3, v4, v5, v6, v7 :=
      g[0] as int, g[1] as int, g[2] as int, g[3] as int, g[4] as int, g[5] as int, g[6] as int, g[7] as int;
    [v0 * 4 + v1 / 16, (v1 % 16) * 16 + v2 / 4, (v2 % 4) * 64 + v3,
     v4 * 4 + v5 / 16, (v5 % 16) * 16 + v6 / 4, (v6 % 4) * 64 + v7]
  }

  /** The decoder's accumulate-and-shift packing of a full group equals the bitwise layout. */
  lemma GroupBytesFormula(g: seq<SixBit>)
    requires |g| == 8
    ensures GroupBytes(g) == PackGroup(g)
  {
    var b := PackGroup(g);
    ChunkOfGroup(g);
    assert g[1] == g[1] / 16 * 16 + g[1] % 16 && g[2] == g[2] / 4 * 4 + g[2] % 4;
    assert g[5] == g[5] / 16 * 16 + g[5] % 16 && g[6] == g[6] / 4 * 4 + g[6] % 4;
    assert Chunk(g) == BytesValue(b);
    ChunkBytesOfValue(b);
  }

  /** The eight values that carry six bytes, most significant bit first. */
  function ModulateGroup(b: seq<byte>): (g: seq<SixBit>)
    requires |b| == 6
    ensures |g| == 8
  {
    var b0, b1, b2, b3, b4, b5 := b[0] as int, b[1] as int, b[2] as int, b[3] as int, b[4] as int, b[5] as int;
    [b0 / 4, (b0 % 4) * 16 + b1 / 16, (b1 % 16) * 4 + b2 / 64, b2 % 64,
     b3 / 4, (b3 % 4) * 16 + b4 / 16, (b4 % 16) * 4 + b5 / 64, b5 % 64]
  }

  /** Demodulating a modulated group gives back its six bytes. */
  lemma GroupRoundTrip(b: seq<byte>)
    requires |b| == 6
    ensures GroupBytes(ModulateGroup(b)) == b
  {
    var g := ModulateGroup(b);
    GroupBytesFormula(g);
    var b0, b1, b2, b3, b4, b5 := b[0] as int, b[1] as int, b[2] as int, b[3] as int, b[4] as int, b[5] as int;
    assert b0 == b0 / 4 * 4 + b0 % 4 && b1 == b1 / 16 * 16 + b1 % 16 && b2 == b2 / 64 * 64 + b2 % 64;
    assert b3 == b3 / 4 * 4 + b3 % 4 && b4 == b4 / 16 * 16 + b4 % 16 && b5 == b5 / 64 * 64 + b5 % 64;
    Arith.DivMod(g[1], b0 % 4, b1 / 16, 16);
    Arith.DivMod(g[2], b1 % 16, b2 / 64, 4);
    Arith.DivMod(g[5], b3 % 4, b4 / 16, 16);
    Arith.DivMod(g[6], b4 % 16, b5 / 64, 4);
  }

  /** Six-byte blocks, each turned into eight values. */
  function Modulate(b: seq<byte>): (r: seq<SixBit>)
    requires |b| % 6 == 0
    ensures |r| == |b| / 6 * 8 && |r| % 8 == 0
    decreases |b|
  {
    if b == [] then []
    else
      Arith.DivMod(|b| - 6, |b| / 6 - 1, 0, 6);
      Modulate(b[..|b| - 6]) + ModulateGroup(b[|b| - 6..])
  }

  /** The decoder's packing undoes the modulation. */
  lemma {:induction false} DemodulateModulate(b: seq<byte>)
    requires |b| % 6 == 0
    ensures Demodulate(Modulate(b)) == b
    decreases |b|
  {
    if b != [] {
      var init, last := b[..|b| - 6], b[|b| - 6..];
      Arith.DivMod(|b| - 6, |b| / 6 - 1, 0, 6);
      var m, g := Modulate(init), ModulateGroup(last);
      assert Modulate(b) == m + g;
      DemodulateModulate(init);
      DemodulateSnoc(m, g);
      GroupRoundTrip(last);
      assert Demodulate(m + g) == init + last == b;
    }
  }

  /** The alphabet text of any six-bit values scans back to those values. */
  lemma {:induction false} ValuesOfText(vals: seq<SixBit>)
    ensures SixBitValues(ValuesToText(vals)) == Success(vals)
    decreases |vals|
  {
    if vals != [] {
      var text := ValuesToText(vals);
      var init := vals[..|vals| - 1];
      assert text[..|text| - 1] == ValuesToText(init);
      ValuesOfText(init);
      MapCharIsPlain(vals[|vals| - 1]);
      CharValueOfMapChar(vals[|vals| - 1]);
      assert init + [vals[|vals| - 1]] == vals;
    }
  }

  /** The six-bit stage decodes the alphabet text of modulated bytes back to the bytes. */
  lemma ModulatedTextRoundTrip(b: seq<byte>)
    requires |b| % 6 == 0
    ensures SixBitDecode(ValuesToText(Modulate(b))) == Success(b)
  {
    ValuesOfText(Modulate(b));
    DemodulateModulate(b);
  }

  /**
   * A short last group is flushed as if padded with zero values: one more
   * zero value leaves its six bytes as they are.
   */
  lemma ShortGroupPadding(g: seq<SixBit>)
    requires |g| < 8
    ensures GroupBytes(g + [0]) == GroupBytes(g)
  {
    ChunkSnoc(g, 0);
  }
}
