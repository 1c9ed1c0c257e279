/** Why BinHexFile.ReadFrom gave up; each stands for one exception the source throws. */
module BinHexErrors {

  datatype Error =
    | MissingHeader                         // no "(This file must be converted with BinHex 4.0)"
    | MissingStartColon                     // no ':' after the signature
    | MissingEndColon                       // no second ':'
    | InvalidCharacter(c: char, index: nat) // a character outside the alphabet, at its index in the payload
    | TruncatedRun                          // a run marker read at the last compressed byte, with no count after it
    | MalformedRun                          // a repeat with nothing decoded before it
    | TruncatedInput                        // a header, fork or CRC read past the end of the decoded bytes
    | MalformedHeader                       // the byte after the file name is not zero
}
