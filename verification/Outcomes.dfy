/** The answer of an interface of `common/` that may fail: a value, or the code of
    `common/ErrorCode.hpp` that says why there is none. */
module Outcomes {

  datatype Option<+T> = None | Some(value: T)

  datatype Expected<+T> = Ok(value: T) | Failed(code: ErrorCode)

  datatype ErrorCode =
    | InvalidArgument
    | RpcFrameMagicInvalid
    | RpcFrameTooLarge
    | PayloadTrailerUnreadable
    | PayloadTrailerInconsistent
    | IsolationTokenUnknown
    | EntryKindTokenUnknown
    | IsolationDocumentInvalid
    | IsolationDocumentUnsupportedVersion
    | IsolationEntryNotListed
    | LayerKeyUnmapped
    | TextConversionFailed
    | PathEmpty
    | PathNoStreamName
    | PathNotInViewNamespace
    | PathNotLocalDrive
    | PathVolumeUnmounted
    | PathDeviceUnknown
}
