/**
 * DiskCopy 4.2 floppy images: an 84-byte header, then the raw disk data.
 * DiskCopyImage.ReadFrom checks the minimum size and the magic bytes at
 * 0x52 and 0x53, reads the big-endian data size at 0x40, accepts only the
 * 400K, 800K and 1440K sizes, and copies the header and the data out.
 */
module DiskCopy {
  import opened Wrappers
  import opened ByteListExtensions
  import Arith

  const HeaderSizeInBytes: nat := 0x54

  /** The smallest input accepted before the header is looked at: 400 KiB. */
  const MinimumSize: nat := 400 * 1024

  /** The disk sizes of 400K, 800K and 1440K floppies. */
  predicate SupportedSize(n: int) {
    n == 400 * 1024 || n == 800 * 1024 || n == 1440 * 1024
  }

  /** Why DiskCopyImage.ReadFrom gave up; each stands for one exception the source throws. */
  datatype DiskCopyError =
    | TooSmall                   // fewer than 400 KiB
    | NotDiskCopyFormat          // the bytes at 0x52 and 0x53 are not 0x01 0x00
    | UnsupportedDataSize(size: u32)
    | TruncatedData              // the declared data runs past the end of the input

  /** The header and the data of an image, as values. */
  datatype Image = Image(header: seq<byte>, data: seq<byte>)

  /**
   * The data size field: the four bytes at 0x40 weighted in `int`
   * arithmetic, which wraps, and cast to `uint`.
   */
  function DataSize(header: seq<byte>): u32
    requires |header| == HeaderSizeInBytes
  {
    AsUInt32(Wrap32(header[0x40] as int * 16777216 + header[0x41] as int * 65536 + header[0x42] as int * 256 + header[0x43] as int))
  }

  /** What ReadFrom(byte[]) returns for the bytes raw. */
  function Decode(raw: seq<byte>): Result<Image, DiskCopyError> {
    if |raw| < MinimumSize then Failure(TooSmall)
    else
      var header := raw[..HeaderSizeInBytes];
      if header[0x52] != 0x01 || header[0x53] != 0x00 then Failure(NotDiskCopyFormat)
      else
        var dataSize := DataSize(header);
        if !SupportedSize(dataSize) then Failure(UnsupportedDataSize(dataSize))
        else if |raw| < HeaderSizeInBytes + dataSize then Failure(TruncatedData)
        else Success(Image(header, raw[HeaderSizeInBytes..HeaderSizeInBytes + dataSize]))
  }

  class DiskCopyImage {
    var Header: array<byte>
    var Data: array<byte>

    constructor(header: array<byte>, data: array<byte>)
      ensures Header == header && Data == data
    {
      Header := header;
      Data := data;
    }

    /**
     * ReadFrom(byte[]): the input array is only read, and a decoded image
     * holds fresh copies of the header and of the data.
     */
    static method ReadFrom(rawData: array<byte>) returns (r: Result<DiskCopyImage, DiskCopyError>)
      ensures r.Failure? ==> Decode(rawData[..]) == Failure(r.error)
      ensures r.Success? ==>
        && Decode(rawData[..]).Success?
        && fresh(r.value) && fresh(r.value.Header) && fresh(r.value.Data)
        && r.value.Header[..] == Decode(rawData[..]).value.header
        && r.value.Data[..] == Decode(rawData[..]).value.data
    {
      if rawData.Length < 400 * 1024 {
        return Failure(TooSmall);
      }
      var header := new byte[HeaderSizeInBytes];
      forall i | 0 <= i < HeaderSizeInBytes {
        header[i] := rawData[i];
      }
      assert header[..] == rawData[..][..HeaderSizeInBytes];
      if header[0x52] != 0x01 || header[0x53] != 0x00 {
        return Failure(NotDiskCopyFormat);
      }
      var dataSize := DataSize(header[..]);
      if dataSize != 400 * 1024 && dataSize != 800 * 1024 && dataSize != 1440 * 1024 {
        return Failure(UnsupportedDataSize(dataSize));
      }
      if HeaderSizeInBytes + dataSize > rawData.Length {
        // Array.Copy throws when the source range runs past the end.
        return Failure(TruncatedData);
      }
      var data := new byte[dataSize];
      forall i | 0 <= i < dataSize {
        data[i] := rawData[HeaderSizeInBytes + i];
      }
      assert data[..] == rawData[..][HeaderSizeInBytes..HeaderSizeInBytes + dataSize];
      var image := new DiskCopyImage(header, data);
      return Success(image);
    }
  }

  // ---------------------------------------------------------------------------
  // The rules of the format
  // ---------------------------------------------------------------------------

  /** The size field is the unsigned big-endian value at 0x40, which ReadInt32 reads as well. */
  lemma DataSizeIsBigEndian(header: seq<byte>)
    requires |header| == HeaderSizeInBytes
    ensures DataSize(header) == BigEndian32(header[0x40], header[0x41], header[0x42], header[0x43])
    ensures ReadInt32(header, 0x40).Success? && DataSize(header) == AsUInt32(ReadInt32(header, 0x40).value)
  {
    var x: int := BigEndian32(header[0x40], header[0x41], header[0x42], header[0x43]);
    if x < 0x8000_0000 {
      WrapInRange(x);
    } else {
      Arith.DivMod(x + 0x8000_0000, 1, x - 0x8000_0000, 0x1_0000_0000);
    }
  }

  /**
   * The decode succeeds exactly on inputs of at least 400 KiB with the magic
   * bytes 0x01 0x00 at 0x52, a supported size at 0x40, and that much data after the header;
   * otherwise the first of those checks to fail names the error, an
   * unsupported size together with the size read.
   */
  lemma DecodeAcceptance(raw: seq<byte>)
    ensures Decode(raw).Success? <==>
      && |raw| >= MinimumSize
      && raw[0x52] == 0x01 && raw[0x53] == 0x00
      && SupportedSize(BigEndian32(raw[0x40], raw[0x41], raw[0x42], raw[0x43]))
      && |raw| >= HeaderSizeInBytes + BigEndian32(raw[0x40], raw[0x41], raw[0x42], raw[0x43])
    ensures |raw| < MinimumSize ==> Decode(raw) == Failure(TooSmall)
    ensures |raw| >= MinimumSize && (raw[0x52] != 0x01 || raw[0x53] != 0x00) ==> Decode(raw) == Failure(NotDiskCopyFormat)
    ensures (|raw| >= MinimumSize && raw[0x52] == 0x01 && raw[0x53] == 0x00
      && !SupportedSize(BigEndian32(raw[0x40], raw[0x41], raw[0x42], raw[0x43]))) ==>
        Decode(raw) == Failure(UnsupportedDataSize(BigEndian32(raw[0x40], raw[0x41], raw[0x42], raw[0x43])))
    ensures (|raw| >= MinimumSize && raw[0x52] == 0x01 && raw[0x53] == 0x00
      && SupportedSize(BigEndian32(raw[0x40], raw[0x41], raw[0x42], raw[0x43]))
      && |raw| < HeaderSizeInBytes + BigEndian32(raw[0x40], raw[0x41], raw[0x42], raw[0x43])) ==>
        Decode(raw) == Failure(TruncatedData)
  {
    if |raw| >= MinimumSize {
      DataSizeIsBigEndian(raw[..HeaderSizeInBytes]);
    }
  }

  /**
   * A decoded image's header is the first 0x54 input bytes and its data the
   * declared number of bytes right after them.
   */
  lemma DecodedSlices(raw: seq<byte>)
    requires Decode(raw).Success?
    ensures var img := Decode(raw).value;
      && img.header == raw[..HeaderSizeInBytes]
      && |img.data| == BigEndian32(raw[0x40], raw[0x41], raw[0x42], raw[0x43])
      && SupportedSize(|img.data|)
      && forall i :: 0 <= i < |img.data| ==> img.data[i] == raw[HeaderSizeInBytes + i]
  {
    DataSizeIsBigEndian(raw[..HeaderSizeInBytes]);
  }

  /**
   * The minimum-size check is looser than the data check: no input shorter
   * than the header plus 400 KiB decodes, an input of exactly 400 KiB included.
   */
  lemma ShortInputFails(raw: seq<byte>)
    requires |raw| < HeaderSizeInBytes + MinimumSize
    ensures Decode(raw).Failure?
  {
    if |raw| >= MinimumSize {
      DataSizeIsBigEndian(raw[..HeaderSizeInBytes]);
    }
  }

  // ---------------------------------------------------------------------------
  // Writing an image, and the round trip
  // ---------------------------------------------------------------------------

  /** A header that declares n bytes of data: the magic bytes, and n big-endian at 0x40. */
  predicate HeaderDeclares(header: seq<byte>, n: nat) {
    && |header| == HeaderSizeInBytes
    && header[0x52] == 0x01 && header[0x53] == 0x00
    && BigEndian32(header[0x40], header[0x41], header[0x42], header[0x43]) == n
  }

  /** An image written as its header, its data and whatever trails them (the tag bytes) decodes back. */
  lemma DecodeEncoded(header: seq<byte>, data: seq<byte>, tail: seq<byte>)
    requires HeaderDeclares(header, |data|) && SupportedSize(|data|)
    ensures Decode(header + data + tail) == Success(Image(header, data))
  {
    var raw := header + data + tail;
    assert raw[..HeaderSizeInBytes] == header;
    DataSizeIsBigEndian(header);
    assert raw[HeaderSizeInBytes..HeaderSizeInBytes + |data|] == data;
  }
}
