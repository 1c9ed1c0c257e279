/**
 * BinHexFile.ReadFrom as a whole: find the signature and the payload
 * between two colons, demodulate the payload, expand the runs and parse
 * the record. An encoder built from the partners of the stages shows that
 * every well-formed record survives the trip through the text format.
 */
module BinHexDecoder {
  import opened Wrappers
  import opened ByteListExtensions
  import opened BinHexErrors
  import opened MacFiles
  import opened BinHexText
  import opened BinHexModulation
  import opened BinHexRle
  import opened BinHexRecord
  import Arith

  /** The decoder as a composition of its four stages, each failing with its own errors. */
  function Decode(inputText: string): Result<BinHexFile, Error> {
    var encodedText :- Payload(inputText);
    var compressedBytes :- SixBitDecode(encodedText);
    var uncompressedBytes :- Expand(compressedBytes);
    ParseRecord(uncompressedBytes)
  }

  /** The searches of BinHexFile.ReadFrom for the signature and the two colons, and the text between the colons. */
  method FindPayload(inputText: string) returns (r: Result<string, Error>)
    ensures r == Payload(inputText)
  {
    var headerIndex := IndexOf(inputText, BinHexHeader, 0);
    if headerIndex < 0 {
      assert Delimiters(inputText) == Failure(MissingHeader);
      return Failure(MissingHeader);
    }
    var startColonIndex := IndexOfChar(inputText, ':', headerIndex + |BinHexHeader|);
    if startColonIndex < 0 {
      assert Delimiters(inputText) == Failure(MissingStartColon);
      return Failure(MissingStartColon);
    }
    var endColonIndex := IndexOfChar(inputText, ':', startColonIndex + 1);
    if endColonIndex < 0 {
      assert Delimiters(inputText) == Failure(MissingEndColon);
      return Failure(MissingEndColon);
    }
    assert Delimiters(inputText) == Success(Span(headerIndex, startColonIndex, endColonIndex));
    return Success(inputText[startColonIndex + 1..endColonIndex]);
  }

  /**
   * BinHexFile.ReadFrom after the stream has been read to its end: the
   * searches for the signature and the colons, then the three loops.
   */
  method ReadFrom(inputText: string) returns (r: Result<BinHexFile, Error>)
    ensures r == Decode(inputText)
  {
    var encodedText := FindPayload(inputText);
    if encodedText.Failure? {
      return Failure(encodedText.error);
    }
    var compressedBytes := DecodeSixBit(encodedText.value);
    if compressedBytes.Failure? {
      return Failure(compressedBytes.error);
    }
    var uncompressedBytes := ExpandRle(compressedBytes.value);
    if uncompressedBytes.Failure? {
      return Failure(uncompressedBytes.error);
    }
    r := ReadRecord(uncompressedBytes.value);
  }

  // ---------------------------------------------------------------------------
  // Which stage an error comes from
  // ---------------------------------------------------------------------------

  /** Once the payload is found, the decoder fails, if at all, with an error of a later stage. */
  lemma LaterStageErrors(inputText: string)
    requires Payload(inputText).Success?
    ensures Decode(inputText).Failure? ==> Decode(inputText).error !in {MissingHeader, MissingStartColon, MissingEndColon}
  {
    var p := Payload(inputText);
    var s := SixBitDecode(p.value);
    ValuesFirstInvalid(p.value);
    if s.Success? {
      ExpandErrors(s.value, []);
    }
  }

  /**
   * The decoder reports a missing signature exactly when the text lacks one,
   * a missing opening colon exactly when none follows the first signature,
   * and a missing closing colon exactly when no colon follows that first
   * opening colon.
   */
  lemma DecodeSearchErrors(inputText: string)
    ensures Decode(inputText) == Failure(MissingHeader) <==>
      forall k :: 0 <= k <= |inputText| ==> !OccursAt(inputText, BinHexHeader, k)
    ensures Decode(inputText) == Failure(MissingStartColon) <==>
      var h := IndexOf(inputText, BinHexHeader, 0); h >= 0 && NoColonFrom(inputText, h + |BinHexHeader|)
    ensures Decode(inputText) == Failure(MissingEndColon) <==>
      var h := IndexOf(inputText, BinHexHeader, 0);
      h >= 0 && (var s := IndexOfChar(inputText, ':', h + |BinHexHeader|); s >= 0 && NoColonFrom(inputText, s + 1))
  {
    DelimitersSearch(inputText);
    DelimitersEndColon(inputText);
    if Payload(inputText).Success? {
      LaterStageErrors(inputText);
    }
  }

  /** An invalid character is reported with its index in the payload, and everything before it is acceptable. */
  lemma DecodeInvalidCharacter(inputText: string)
    requires Decode(inputText).Failure? && Decode(inputText).error.InvalidCharacter?
    ensures Payload(inputText).Success?
    ensures var text, e := Payload(inputText).value, Decode(inputText).error;
      e.index < |text| && text[e.index] == e.c && e.c !in BinHexCharMap && !IsWhiteSpace(e.c)
      && AllEncodable(text[..e.index])
  {
    var p := Payload(inputText);
    if p.Success? {
      ValuesFirstInvalid(p.value);
      var s := SixBitDecode(p.value);
      if s.Success? {
        ExpandErrors(s.value, []);
      }
    }
  }

  // ---------------------------------------------------------------------------
  // An encoder, and the round trip through the text format
  // ---------------------------------------------------------------------------

  /** Zero bytes that bring c up to a whole number of six-byte blocks. */
  function Padding(c: seq<byte>): (z: seq<byte>)
    ensures (|c| + |z|) % 6 == 0 && RLEFlag !in z
  {
    var m := (6 - |c| % 6) % 6;
    Arith.DivMod(|c|, |c| / 6, |c| % 6, 6);
    seq(m, _ => 0)
  }

  /** The compressed bytes of a record: every byte escaped, then padded to whole six-byte blocks. */
  function CompressedRecord(f: BinHexFile): (c: seq<byte>)
    requires WellFormed(f)
    ensures |c| % 6 == 0
  {
    var c := EncodeRuns(SingleRuns(EncodeRecord(f)));
    c + Padding(c)
  }

  /** The payload of a record: its compressed bytes modulated and spelled in the alphabet. */
  function EncodedText(f: BinHexFile): (t: string)
    requires WellFormed(f)
    ensures ':' !in t
  {
    var vals := Modulate(CompressedRecord(f));
    forall i | 0 <= i < |vals|
      ensures BinHexCharMap[vals[i]] != ':'
    {
      MapCharIsPlain(vals[i]);
    }
    ValuesToText(vals)
  }

  /** The run-length stage turns the compressed bytes back into the record, followed by the zero padding. */
  lemma ExpandCompressedRecord(f: BinHexFile)
    requires WellFormed(f)
    ensures var c := EncodeRuns(SingleRuns(EncodeRecord(f)));
      Expand(CompressedRecord(f)) == Success(EncodeRecord(f) + Padding(c))
  {
    var c := EncodeRuns(SingleRuns(EncodeRecord(f)));
    ExpandEscapedPadded(EncodeRecord(f), Padding(c));
  }

  /** A BinHex 4.0 text for a record: the signature, a line break, and the payload between colons. */
  function BinHexEncode(f: BinHexFile): string
    requires WellFormed(f)
  {
    BinHexHeader + "\r\n:" + EncodedText(f) + ":"
  }

  /** The payload found in an encoded text is the one that was put there. */
  lemma PayloadOfEncoding(t: string)
    requires ':' !in t
    ensures Payload(BinHexHeader + "\r\n:" + t + ":") == Success(t)
  {
    var text := BinHexHeader + "\r\n:" + t + ":";
    var n := |BinHexHeader|;
    assert text[..n] == BinHexHeader;
    assert IndexOf(text, BinHexHeader, 0) == 0;
    assert text[n] == '\r' && text[n + 1] == '\n' && text[n + 2] == ':';
    assert IndexOfChar(text, ':', n) == n + 2;
    var e := n + 3 + |t|;
    assert text[e] == ':';
    assert forall k :: n + 3 <= k < e ==> text[k] == t[k - (n + 3)];
    var r := IndexOfChar(text, ':', n + 3);
    assert r == e;
    assert text[n + 3..e] == t;
  }

  /** Decoding the text written for a well-formed record gives the record back. */
  lemma DecodeEncode(f: BinHexFile)
    requires WellFormed(f)
    ensures Decode(BinHexEncode(f)) == Success(f)
  {
    var z := Padding(EncodeRuns(SingleRuns(EncodeRecord(f))));
    PayloadOfEncoding(EncodedText(f));
    ModulatedTextRoundTrip(CompressedRecord(f));
    ExpandCompressedRecord(f);
    RecordRoundTrip(f, z);
  }
}
