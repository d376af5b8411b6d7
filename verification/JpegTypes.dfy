/** Values shared by the models of the JPEG compressor modules. */
module JpegTypes {

  datatype Option<+T> = None | Some(value: T)

  /** The ERREXIT codes the modelled routines can raise. */
  datatype Error =
    | NoHuffTable
    | BadHuffTable
    | MissingCode
    | BadDctCoef
    | CodeLengthOverflow

  datatype Result<+T> = Ok(value: T) | Err(error: Error)

  /** What a decoding step yields: a value and the input left over, or nothing. */
  datatype Decoded<+T> = Corrupt | Got(value: T, rest: seq<bool>)

  /** One output octet (JOCTET). */
  type Byte = b: int | 0 <= b < 256

  const DCT_SIZE := 8
  const DCT_SIZE2 := 64
  const NUM_HUFF_TBLS := 4

  /** Sixty-four coefficients in natural (row by row) order. */
  type Block = b: seq<int> | |b| == DCT_SIZE2 witness seq(DCT_SIZE2, _ => 0)
}
