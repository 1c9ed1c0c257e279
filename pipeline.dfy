/**
 * The two conversions convert2dsk offers: a .hqx file is BinHex-decoded
 * and its data fork read as a DiskCopy 4.2 image; a .img or .image file is
 * read as a DiskCopy 4.2 image directly. Either way the output is the raw
 * disk data of the image.
 */
module Conversion {
  import opened Wrappers
  import opened ByteListExtensions
  import opened MacFiles
  import BinHexErrors
  import BinHexRecord
  import opened BinHexDecoder
  import opened DiskCopy

  datatype ConvertError =
    | BinHexFailed(binHexError: BinHexErrors.Error)
    | DiskCopyFailed(diskCopyError: DiskCopyError)

  /** DiskCopyImage.ReadFrom(BinHexFile.ReadFrom(input).DataFork).Data */
  function ConvertBinHex(inputText: string): Result<seq<byte>, ConvertError> {
    match BinHexDecoder.Decode(inputText)
    case Failure(e) => Failure(BinHexFailed(e))
    case Success(f) =>
      match DiskCopy.Decode(f.file.dataFork)
      case Failure(e) => Failure(DiskCopyFailed(e))
      case Success(img) => Success(img.data)
  }

  /** DiskCopyImage.ReadFrom(input).Data */
  function ConvertDiskCopy(raw: seq<byte>): Result<seq<byte>, ConvertError> {
    match DiskCopy.Decode(raw)
    case Failure(e) => Failure(DiskCopyFailed(e))
    case Success(img) => Success(img.data)
  }

  /**
   * A .hqx conversion succeeds exactly when the direct conversion of the
   * data fork would, and gives the same disk: a 400K, 800K or 1440K slice of the fork after its header.
   */
  lemma BinHexConversionIsDiskCopyOfFork(inputText: string)
    requires BinHexDecoder.Decode(inputText).Success?
    ensures var fork := BinHexDecoder.Decode(inputText).value.file.dataFork;
      && (ConvertBinHex(inputText).Success? <==> ConvertDiskCopy(fork).Success?)
      && (ConvertBinHex(inputText).Success? ==>
            && ConvertBinHex(inputText).value == ConvertDiskCopy(fork).value
            && SupportedSize(|ConvertBinHex(inputText).value|)
            && ConvertBinHex(inputText).value == fork[HeaderSizeInBytes..HeaderSizeInBytes + |ConvertBinHex(inputText).value|])
  {
    var fork := BinHexDecoder.Decode(inputText).value.file.dataFork;
    if DiskCopy.Decode(fork).Success? {
      DecodedSlices(fork);
    }
  }

  /** The disk inside a DiskCopy image carried as the data fork of a BinHex file comes out unchanged. */
  lemma ConvertEncodedImage(f: BinHexFile, header: seq<byte>, disk: seq<byte>, tags: seq<byte>)
    requires BinHexRecord.WellFormed(f) && f.file.dataFork == header + disk + tags
    requires HeaderDeclares(header, |disk|) && SupportedSize(|disk|)
    ensures ConvertBinHex(BinHexEncode(f)) == Success(disk)
  {
    DecodeEncode(f);
    DecodeEncoded(header, disk, tags);
  }
}
