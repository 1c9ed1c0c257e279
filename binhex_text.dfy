/**
 * The text stages of BinHexFile.ReadFrom: finding the signature and the two
 * ':' delimiters, and demodulating the 64-character alphabet into bytes,
 * eight six-bit values to six bytes, most significant first.
 */
module BinHexText {
  import opened Wrappers
  import opened ByteListExtensions
  import opened BinHexErrors
  import Arith

  const BinHexHeader: string := "(This file must be converted with BinHex 4.0)"

  /**
   * The alphabet; the index of a character is its six-bit value. It is one
   * 64-character string, written here as eight pieces of eight characters.
   */
  const BinHexCharMap: string :=
    "!\"#$%&'(" + ")*+,-012" + "345689@A" + "BCDEFGHI" + "JKLMNPQR" + "STUVXYZ[" + "`abcdefh" + "ijklmpqr"

  type SixBit = v: int | 0 <= v < 64

  // ---------------------------------------------------------------------------
  // Ordinal search, as string.IndexOf(string) and string.IndexOf(char, int)
  // ---------------------------------------------------------------------------

  predicate OccursAt(text: string, pat: string, k: nat) {
    k + |pat| <= |text| && text[k..k + |pat|] == pat
  }

  /** The first position at or after `from` where `pat` occurs, or -1 when there is none. */
  function IndexOf(text: string, pat: string, from: nat): (r: int)
    requires from <= |text|
    ensures r == -1 || from <= r <= |text|
    ensures r >= 0 ==> OccursAt(text, pat, r)
    ensures forall k :: from <= k <= |text| && (r < 0 || k < r) ==> !OccursAt(text, pat, k)
    decreases |text| - from
  {
    if OccursAt(text, pat, from) then from
    else if from == |text| then -1
    else IndexOf(text, pat, from + 1)
  }

  /** The first index at or after `from` holding `c`, or -1 when there is none. */
  function IndexOfChar(text: string, c: char, from: nat): (r: int)
    requires from <= |text|
    ensures r == -1 || from <= r < |text|
    ensures r >= 0 ==> text[r] == c
    ensures forall k :: from <= k < |text| && (r < 0 || k < r) ==> text[k] != c
    decreases |text| - from
  {
    if from == |text| then -1
    else if text[from] == c then from
    else IndexOfChar(text, c, from + 1)
  }

  // ---------------------------------------------------------------------------
  // Signature and delimiters
  // ---------------------------------------------------------------------------

  /** Where the signature starts, and where the opening and closing colons are. */
  datatype Span = Span(header: nat, start: nat, end: nat)

  /** i is the first ':' at or after `from`. */
  predicate FirstColonFrom(text: string, from: nat, i: nat) {
    from <= i < |text| && text[i] == ':' && forall k :: from <= k < i ==> text[k] != ':'
  }

  predicate NoColonFrom(text: string, from: nat) {
    forall k :: from <= k < |text| ==> text[k] != ':'
  }

  function Delimiters(text: string): Result<Span, Error> {
    var headerIndex := IndexOf(text, BinHexHeader, 0);
    if headerIndex < 0 then Failure(MissingHeader)
    else
      var startColonIndex := IndexOfChar(text, ':', headerIndex + |BinHexHeader|);
      if startColonIndex < 0 then Failure(MissingStartColon)
      else
        var endColonIndex := IndexOfChar(text, ':', startColonIndex + 1);
        if endColonIndex < 0 then Failure(MissingEndColon)
        else Success(Span(headerIndex, startColonIndex, endColonIndex))
  }

  /**
   * The search fails on a text without the signature, and on one whose first
   * signature no colon follows; on success it has found the first
   * signature, the first colon after it and the next colon after that.
   */
  lemma DelimitersSearch(text: string)
    ensures Delimiters(text) == Failure(MissingHeader) <==>
      forall k :: 0 <= k <= |text| ==> !OccursAt(text, BinHexHeader, k)
    ensures Delimiters(text) == Failure(MissingStartColon) <==>
      var h := IndexOf(text, BinHexHeader, 0); h >= 0 && NoColonFrom(text, h + |BinHexHeader|)
    ensures Delimiters(text).Failure? ==> Delimiters(text).error in {MissingHeader, MissingStartColon, MissingEndColon}
    ensures Delimiters(text).Success? ==>
      var span := Delimiters(text).value;
      && OccursAt(text, BinHexHeader, span.header)
      && (forall k :: 0 <= k < span.header ==> !OccursAt(text, BinHexHeader, k))
      && FirstColonFrom(text, span.header + |BinHexHeader|, span.start)
      && FirstColonFrom(text, span.start + 1, span.end)
  {
  }

  /** The search fails for want of a closing colon exactly when no colon follows the opening one. */
  lemma DelimitersEndColon(text: string)
    ensures Delimiters(text) == Failure(MissingEndColon) <==>
      var h := IndexOf(text, BinHexHeader, 0);
      h >= 0 && (var s := IndexOfChar(text, ':', h + |BinHexHeader|); s >= 0 && NoColonFrom(text, s + 1))
  {
  }

  /** The encoded text: everything strictly between the two colons. */
  function Payload(text: string): Result<string, Error> {
    var span :- Delimiters(text);
    Success(text[span.start + 1..span.end])
  }

  /** The payload is found exactly when both colons are, and it holds no colon. */
  lemma PayloadBetweenColons(text: string)
    ensures Payload(text).Success? <==> Delimiters(text).Success?
    ensures Payload(text).Success? ==> ':' !in Payload(text).value
  {
    DelimitersSearch(text);
  }

  // ---------------------------------------------------------------------------
  // The alphabet
  // ---------------------------------------------------------------------------

  /** char.IsWhiteSpace: the space, line and paragraph separators of Unicode, and U+0009..U+000D, U+0085. */
  predicate IsWhiteSpace(c: char) {
    || c == ' ' || ('\t' <= c <= '\r') || c == '\U{0085}' || c == '\U{00A0}' || c == '\U{1680}'
    || ('\U{2000}' <= c <= '\U{200A}') || c == '\U{2028}' || c == '\U{2029}' || c == '\U{202F}'
    || c == '\U{205F}' || c == '\U{3000}'
  }

  /** Adjacent characters of the alphabet from index lo up to hi are in increasing order. */
  predicate AdjacentIncreasing(lo: nat, hi: nat)
    requires lo <= hi <= 63 && |BinHexCharMap| == 64
  {
    forall i :: lo <= i < hi ==> BinHexCharMap[i] < BinHexCharMap[i + 1]
  }

  lemma CharMapAdjacent0()
    ensures |BinHexCharMap| == 64 && AdjacentIncreasing(0, 16)
  {
  }

  lemma CharMapAdjacent1()
    ensures |BinHexCharMap| == 64 && AdjacentIncreasing(16, 32)
  {
  }

  lemma CharMapAdjacent2()
    ensures |BinHexCharMap| == 64 && AdjacentIncreasing(32, 48)
  {
  }

  lemma CharMapAdjacent3()
    ensures |BinHexCharMap| == 64 && AdjacentIncreasing(48, 63)
  {
  }

  lemma CharMapAdjacent()
    ensures |BinHexCharMap| == 64
    ensures forall i :: 0 <= i < 63 ==> BinHexCharMap[i] < BinHexCharMap[i + 1]
    ensures BinHexCharMap[0] == '!' && BinHexCharMap[21] == '9' && BinHexCharMap[22] == '@' && BinHexCharMap[63] == 'r'
  {
    CharMapAdjacent0();
    CharMapAdjacent1();
    CharMapAdjacent2();
    CharMapAdjacent3();
  }

  /** The alphabet is in strictly increasing order, so its 64 characters are distinct. */
  lemma {:induction false} CharMapIncreasing(i: nat, j: nat)
    requires i < j < 64
    ensures BinHexCharMap[i] < BinHexCharMap[j]
    decreases j - i
  {
    CharMapAdjacent();
    if j > i + 1 {
      CharMapIncreasing(i, j - 1);
    }
  }

  /** BinHexCharMap.IndexOf(c): the six-bit value of c, or -1 for a character outside the alphabet. */
  function CharValue(c: char): (r: int)
    ensures -1 <= r < 64
    ensures r >= 0 ==> BinHexCharMap[r] == c
    ensures r < 0 <==> c !in BinHexCharMap
  {
    CharMapAdjacent();
    IndexOfChar(BinHexCharMap, c, 0)
  }

  /** Every character of the alphabet decodes to its own index. */
  lemma CharValueOfMapChar(v: SixBit)
    ensures CharValue(BinHexCharMap[v]) == v
  {
    CharMapAdjacent();
    var r := CharValue(BinHexCharMap[v]);
    if r < v { CharMapIncreasing(r, v); }
  }

  /** No character of the alphabet is white space or a colon. */
  lemma MapCharIsPlain(v: SixBit)
    ensures !IsWhiteSpace(BinHexCharMap[v]) && BinHexCharMap[v] != ':'
  {
    CharMapAdjacent();
    if v > 0 { CharMapIncreasing(0, v); }
    if v < 63 { CharMapIncreasing(v, 63); }
    if v < 21 { CharMapIncreasing(v, 21); }
    if v > 22 { CharMapIncreasing(22, v); }
  }

  // ---------------------------------------------------------------------------
  // Six-bit values of the payload
  // ---------------------------------------------------------------------------

  /** The characters of text that are not white space, in order. */
  function NonWhiteSpace(text: string): string
    decreases |text|
  {
    if text == [] then []
    else
      var c := text[|text| - 1];
      NonWhiteSpace(text[..|text| - 1]) + (if IsWhiteSpace(c) then [] else [c])
  }

  /** Every character is white space or in the alphabet. */
  predicate AllEncodable(text: string) {
    forall i :: 0 <= i < |text| ==> IsWhiteSpace(text[i]) || text[i] in BinHexCharMap
  }

  /** The characters of the alphabet that a sequence of six-bit values names. */
  function ValuesToText(vals: seq<SixBit>): string {
    seq(|vals|, i requires 0 <= i < |vals| => BinHexCharMap[vals[i]])
  }

  /**
   * The six-bit values of the payload, white space skipped; the first
   * character outside the alphabet stops the scan with its index.
   */
  function SixBitValues(text: string): Result<seq<SixBit>, Error>
    decreases |text|
  {
    if text == [] then Success([])
    else
      var c := text[|text| - 1];
      match SixBitValues(text[..|text| - 1])
      case Failure(e) => Failure(e)
      case Success(vs) =>
        if IsWhiteSpace(c) then Success(vs)
        else
          var v := CharValue(c);
          if v < 0 then Failure(InvalidCharacter(c, |text| - 1)) else Success(vs + [v])
  }

  lemma EncodableSnoc(text: string)
    requires text != []
    ensures AllEncodable(text) <==>
      AllEncodable(text[..|text| - 1]) && (IsWhiteSpace(text[|text| - 1]) || text[|text| - 1] in BinHexCharMap)
  {
    var init := text[..|text| - 1];
    assert forall i :: 0 <= i < |init| ==> init[i] == text[i];
  }

  /** The scan succeeds exactly when every character is white space or in the alphabet. */
  lemma {:induction false} ValuesAcceptance(text: string)
    ensures SixBitValues(text).Success? <==> AllEncodable(text)
    decreases |text|
  {
    if text != [] {
      ValuesAcceptance(text[..|text| - 1]);
      EncodableSnoc(text);
    }
  }

  /** On success the values name, in order, exactly the characters that are not white space. */
  lemma {:induction false} ValuesSpellText(text: string)
    ensures SixBitValues(text).Success? ==> ValuesToText(SixBitValues(text).value) == NonWhiteSpace(text)
    decreases |text|
  {
    if text != [] && SixBitValues(text).Success? {
      var init, c := text[..|text| - 1], text[|text| - 1];
      ValuesSpellText(init);
      var vs := SixBitValues(init).value;
      if !IsWhiteSpace(c) {
        var v := CharValue(c);
        assert ValuesToText(vs + [v]) == ValuesToText(vs) + [c];
      }
    }
  }

  /**
   * On failure the error names the first character that is neither white
   * space nor in the alphabet, with its index.
   */
  lemma {:induction false} ValuesFirstInvalid(text: string)
    ensures var r := SixBitValues(text);
      r.Failure? ==>
        && r.error.InvalidCharacter?
        && r.error.index < |text|
        && text[r.error.index] == r.error.c
        && !IsWhiteSpace(r.error.c) && r.error.c !in BinHexCharMap
        && AllEncodable(text[..r.error.index])
    decreases |text|
  {
    if text != [] && SixBitValues(text).Failure? {
      var init := text[..|text| - 1];
      ValuesFirstInvalid(init);
      if SixBitValues(init).Failure? {
        var e := SixBitValues(init).error;
        assert SixBitValues(text) == Failure(e);
        assert text[..e.index] == init[..e.index] && text[e.index] == init[e.index];
      } else {
        ValuesAcceptance(init);
        assert SixBitValues(text) == Failure(InvalidCharacter(text[|text| - 1], |text| - 1));
      }
    }
  }

  /** Once a prefix holds an invalid character, the whole text fails with the same error. */
  lemma {:induction false} ValuesFailurePersists(text: string, n: nat)
    requires n <= |text|
    requires SixBitValues(text[..n]).Failure?
    ensures SixBitValues(text) == SixBitValues(text[..n])
    decreases |text| - n
  {
    if n < |text| {
      assert text[..n + 1][..n] == text[..n];
      assert SixBitValues(text[..n + 1]) == SixBitValues(text[..n]);
      ValuesFailurePersists(text, n + 1);
    } else {
      assert text[..n] == text;
    }
  }

  // ---------------------------------------------------------------------------
  // Packing: eight six-bit values into a 48-bit chunk, the chunk into six bytes
  // ---------------------------------------------------------------------------

  /** `(ulong)v << (42 - 6k)`: value k of a group occupies bits 47 - 6k .. 42 - 6k of the chunk. */
  function ShiftIn(v: SixBit, k: nat): nat
    requires k < 8
  {
    match k
    case 0 => v * 0x400_0000_0000
    case 1 => v * 0x10_0000_0000
    case 2 => v * 0x4000_0000
    case 3 => v * 0x100_0000
    case 4 => v * 0x4_0000
    case 5 => v * 0x1000
    case 6 => v * 0x40
    case 7 => v
  }

  /** `(byte)(0xFF & (chunk >> (40 - 8j)))`: byte j is bits 47 - 8j .. 40 - 8j of the chunk. */
  function ByteOf(chunk: nat, j: nat): byte
    requires j < 6
  {
    match j
    case 0 => (chunk / 0x100_0000_0000) % 0x100
    case 1 => (chunk / 0x1_0000_0000) % 0x100
    case 2 => (chunk / 0x100_0000) % 0x100
    case 3 => (chunk / 0x1_0000) % 0x100
    case 4 => (chunk / 0x100) % 0x100
    case 5 => chunk % 0x100
  }

  /** The accumulator after the values of g have been shifted into a freshly reset chunk. */
  function Chunk(g: seq<SixBit>): nat
    requires |g| <= 8
    decreases |g|
  {
    if g == [] then 0 else Chunk(g[..|g| - 1]) + ShiftIn(g[|g| - 1], |g| - 1)
  }

  /** The six bytes of a 48-bit chunk, most significant first. */
  function ChunkBytes(chunk: nat): seq<byte> {
    seq(6, j requires 0 <= j < 6 => ByteOf(chunk, j))
  }

  /** The six bytes flushed for a group of up to eight values; a short group leaves low bits zero. */
  function GroupBytes(g: seq<SixBit>): seq<byte>
    requires |g| <= 8
  {
    ChunkBytes(Chunk(g))
  }

  /** Where the last group of n > 0 values starts: the largest multiple of eight below n. */
  function LastGroupStart(n: nat): (k: nat)
    requires n > 0
    ensures k % 8 == 0 && k < n <= k + 8
  {
    (n - 1) / 8 * 8
  }

  /** The bytes of consecutive groups of eight values; the last group may be short. */
  function Demodulate(vals: seq<SixBit>): (r: seq<byte>)
    ensures |r| == 6 * ((|vals| + 7) / 8)
    decreases |vals|
  {
    if vals == [] then []
    else
      var k := LastGroupStart(|vals|);
      Demodulate(vals[..k]) + GroupBytes(vals[k..])
  }

  /** The whole six-bit stage: the values of the payload, packed. */
  function SixBitDecode(text: string): Result<seq<byte>, Error> {
    var vals :- SixBitValues(text);
    Success(Demodulate(vals))
  }

  /**
   * The stage succeeds exactly on texts of white space and alphabet
   * characters, and then n such characters give 6 * ceil(n / 8) bytes.
   */
  lemma SixBitDecodeLength(text: string)
    ensures SixBitDecode(text).Success? <==> AllEncodable(text)
    ensures SixBitDecode(text).Success? ==> |SixBitDecode(text).value| == 6 * ((|NonWhiteSpace(text)| + 7) / 8)
  {
    ValuesAcceptance(text);
    ValuesSpellText(text);
  }

  /** Demodulate of a whole number of groups followed by one more group of up to eight values. */
  lemma DemodulateSnoc(w: seq<SixBit>, g: seq<SixBit>)
    requires |w| % 8 == 0 && 1 <= |g| <= 8
    ensures Demodulate(w + g) == Demodulate(w) + GroupBytes(g)
  {
    var v := w + g;
    Arith.DivMod(|v| - 1, |w| / 8, |g| - 1, 8);
    assert LastGroupStart(|v|) == |w|;
    assert v[..|w|] == w && v[|w|..] == g;
  }

  /** Shifting one more value into a chunk extends the group by that value. */
  lemma ChunkSnoc(g: seq<SixBit>, v: SixBit)
    requires |g| < 8
    ensures Chunk(g + [v]) == Chunk(g) + ShiftIn(v, |g|)
  {
    assert (g + [v])[..|g|] == g;
  }

  /** What one more character of the payload does to the six-bit values read so far. */
  lemma ValuesStep(text: string, i: nat, vals: seq<SixBit>)
    requires i < |text| && SixBitValues(text[..i]) == Success(vals)
    ensures IsWhiteSpace(text[i]) ==> SixBitValues(text[..i + 1]) == Success(vals)
    ensures !IsWhiteSpace(text[i]) && CharValue(text[i]) >= 0 ==>
      SixBitValues(text[..i + 1]) == Success(vals + [CharValue(text[i])])
    ensures !IsWhiteSpace(text[i]) && CharValue(text[i]) < 0 ==>
      SixBitDecode(text) == Failure(InvalidCharacter(text[i], i))
  {
    assert text[..i + 1][..i] == text[..i];
    if !IsWhiteSpace(text[i]) && CharValue(text[i]) < 0 {
      ValuesFailurePersists(text, i + 1);
    }
  }

  /** The inner loop of BinHexFile.ReadFrom that emits the six bytes of the chunk. */
  method FlushChunk(inputChunk: nat) returns (bytes: seq<byte>)
    ensures bytes == ChunkBytes(inputChunk)
  {
    bytes := [];
    for j := 0 to 6
      invariant bytes == ChunkBytes(inputChunk)[..j]
    {
      bytes := bytes + [ByteOf(inputChunk, j)];
    }
  }

  /** What the decoder has packed so far: whole groups flushed, the rest waiting in the chunk. */
  predicate Packed(compressedBytes: seq<byte>, charCount: int, inputChunk: nat, full: seq<SixBit>, group: seq<SixBit>) {
    && |full| % 8 == 0 && |group| == charCount && charCount < 8
    && compressedBytes == Demodulate(full)
    && (charCount > 0 ==> inputChunk == Chunk(group))
  }

  /** Eight more values after whole groups: one more whole group, six more bytes. */
  lemma CompleteGroup(full: seq<SixBit>, group: seq<SixBit>)
    requires |full| % 8 == 0 && |group| == 8
    ensures Demodulate(full + group) == Demodulate(full) + GroupBytes(group)
    ensures |full + group| % 8 == 0
  {
    DemodulateSnoc(full, group);
    Arith.DivMod(|full| + 8, |full| / 8 + 1, 0, 8);
  }

  /** The value count modulo eight goes back to zero after the eighth value. */
  lemma NextCount(charCount: int)
    requires 0 <= charCount < 8
    ensures (charCount + 1) % 8 == if charCount == 7 then 0 else charCount + 1
  {
    Arith.DivMod(charCount + 1, if charCount == 7 then 1 else 0, if charCount == 7 then 0 else charCount + 1, 8);
  }

  /**
   * The body of the decoding loop for an accepted value: reset the chunk at
   * a group start, OR the value in at 42 - 6 * charCount, flush six bytes
   * on the eighth value, and advance charCount modulo 8.
   */
  method PushValue(compressedBytes: seq<byte>, charCount: int, inputChunk: nat, charValue: SixBit,
                   ghost full: seq<SixBit>, ghost group: seq<SixBit>)
    returns (bytes': seq<byte>, count': int, chunk': nat, ghost full': seq<SixBit>, ghost group': seq<SixBit>)
    requires Packed(compressedBytes, charCount, inputChunk, full, group)
    ensures Packed(bytes', count', chunk', full', group')
    ensures full' + group' == full + group + [charValue]
  {
    chunk' := if charCount == 0 then 0 else inputChunk;
    // The bits 47 - 6 * charCount .. 42 - 6 * charCount of the chunk are still zero, so OR is addition.
    chunk' := chunk' + ShiftIn(charValue, charCount);
    ChunkSnoc(group, charValue);
    full', group' := full, group + [charValue];
    assert chunk' == Chunk(group');
    bytes' := compressedBytes;
    NextCount(charCount);
    if charCount == 7 {
      var bytes := FlushChunk(chunk');
      CompleteGroup(full, group');
      bytes' := bytes' + bytes;
      assert full + group' == (full + group') + [];
      full', group' := full + group', [];
    }
    count' := (charCount + 1) % 8;
  }

  /**
   * The loop of BinHexFile.ReadFrom that turns the payload into compressed
   * bytes: white space skipped, an unknown character rejected, each value
   * pushed into the chunk, and a trailing partial group flushed at the end.
   */
  method DecodeSixBit(encodedText: string) returns (r: Result<seq<byte>, Error>)
    ensures r == SixBitDecode(encodedText)
  {
    var compressedBytes: seq<byte> := [];
    var charCount := 0;
    var inputChunk: nat := 0;
    // The values read so far: whole groups already flushed, then the group being filled.
    ghost var full: seq<SixBit> := [];
    ghost var group: seq<SixBit> := [];
    assert encodedText[..0] == [] && full + group == [];
    for i := 0 to |encodedText|
      invariant SixBitValues(encodedText[..i]) == Success(full + group)
      invariant Packed(compressedBytes, charCount, inputChunk, full, group)
    {
      ValuesStep(encodedText, i, full + group);
      if IsWhiteSpace(encodedText[i]) {
        continue;
      }
      var charValue := CharValue(encodedText[i]);
      if charValue < 0 {
        return Failure(InvalidCharacter(encodedText[i], i));
      }
      compressedBytes, charCount, inputChunk, full, group :=
        PushValue(compressedBytes, charCount, inputChunk, charValue, full, group);
    }
    assert encodedText[..|encodedText|] == encodedText;
    if charCount > 0 {
      var bytes := FlushChunk(inputChunk);
      DemodulateSnoc(full, group);
      compressedBytes := compressedBytes + bytes;
    } else {
      assert full + group == full;
    }
    return Success(compressedBytes);
  }
}
