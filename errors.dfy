/** The error results of the codec's operations, one constructor per distinct Go error. */
module Errors {
  import opened Bytes

  datatype Error =
    // SplitFile, SplitData
    | TooFewChunks
    // os.MkdirAll of the empty path
    | MkdirFailed
    // open of a missing file, or of the empty path
    | OpenFailed(path: Bytes)
    // os.ReadDir of the empty path
    | ReadDirFailed
    // MergeFile
    | NoChunkFiles
    | FirstChunkMissing
    | MetadataTruncated
    | CreateFailed(path: Bytes)
    | HashMismatch
    // injectMetadata: io.Copy from the temporary file into its own `.part` name
    | CopyFailed(path: Bytes)
    // SplitData, MergeData
    | InputNil
    | OutputLengthMismatch
    | EncodeFailed
    | OutputNil
    | NoChunksProvided
    | NotByteSlice(index: nat)
    | NoDataToDecode
    | DecodeFailed
    // QRFileTransfer
    | NoDataFiles
    | QrCodeFailed(path: Bytes)
    | ReconstructedNotFound

  /** The `error` return value: nil or an error. */
  datatype Status = Ok | Err(error: Error)

  /** A value, or the error that prevented computing it. */
  datatype Result<T> = Success(value: T) | Failure(error: Error)
}
