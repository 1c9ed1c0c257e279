/** The decoded Macintosh two-fork file that every container decoder produces. */
module MacFiles {
  import opened ByteListExtensions

  /**
   * MacFile: the name, the four-character type and creator codes, the Finder
   * flags and the two forks. The record itself has no behaviour.
   */
  datatype MacFile = MacFile(
    fileName: string,
    fileType: string,
    creator: string,
    flag: u16,
    dataFork: seq<byte>,
    resourceFork: seq<byte>)

  /** BinHexFile: a MacFile together with the three CRC fields read from a BinHex 4.0 stream. */
  datatype BinHexFile = BinHexFile(
    file: MacFile,
    headerCRC: u16,
    dataCRC: u16,
    resourceCRC: u16)
}
