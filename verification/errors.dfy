/**
 The crate's error values: an I/O failure, an RPM file error, or an internal
 error; how a parser error kind is classified into one of them; and the
 descriptions, messages and causes each error reports.
 */
module Errors {
  import opened Cursor

  /** An operating-system I/O failure. Only the two texts it reports are
      modelled: the message it displays and its short description. */
  datatype IoError = IoError(message: string, description: string)

  /** What can be wrong with an RPM file, after the error codes of rpm's own
      file handling. */
  datatype RPMFileError =
    | BadMagic
    | BadHeader
    | HeaderSize
    | UnknownFiletype
    | MissingFile
    | DigestMismatch
    | UnmappedFile
    | FileSize
    | Internal

  datatype RPMError =
    | Io(io: IoError)
    | File(file: RPMFileError)
    | Internal

  /** The underlying error an RPMError wraps. */
  datatype Cause = IoCause(io: IoError) | FileCause(file: RPMFileError)

  datatype Option<T> = None | Some(value: T)

  /** An I/O failure becomes an RPMError unchanged. */
  function FromIoError(e: IoError): (r: RPMError)
    ensures r.Io? && r.io == e
  {
    Io(e)
  }

  /** A parser error kind becomes a file error: a failed literal match means
      the magic was wrong, and anything else means the header could not be
      read. */
  function FromErrorKind(k: ErrorKind): (r: RPMError)
    ensures r.File?
    ensures r.file == BadMagic <==> k == Tag
    ensures r.file == BadHeader <==> k != Tag
  {
    match k
    case Tag => File(BadMagic)
    case _ => File(BadHeader)
  }

  /** The error wrapped inside `e`; an internal error wraps nothing. */
  function CauseOf(e: RPMError): (c: Option<Cause>)
    ensures c.None? <==> e.Internal?
  {
    match e
    case Io(err) => Some(IoCause(err))
    case File(err) => Some(FileCause(err))
    case Internal => None
  }

  /** Rebuilds the RPMError around a cause. */
  function Wrap(c: Cause): RPMError {
    match c
    case IoCause(err) => Io(err)
    case FileCause(err) => File(err)
  }

  function FileErrorDescription(e: RPMFileError): string {
    match e
    case BadMagic => "bad magic"
    case BadHeader => "bad header"
    case HeaderSize => "header size"
    case UnknownFiletype => "unknown filetype"
    case MissingFile => "missing file"
    case DigestMismatch => "digest mismatch"
    case UnmappedFile => "unmapped file"
    case FileSize => "file size"
    case Internal => "internal error"
  }

  /** The short description of `e`: the wrapped error's own description, or
      a fixed text for an internal error. */
  function Description(e: RPMError): (d: string)
    ensures e.Io? ==> d == e.io.description
    ensures e.File? ==> d == FileErrorDescription(e.file)
    ensures e.Internal? ==> d == "internal error"
  {
    match e
    case Io(err) => err.description
    case File(err) => FileErrorDescription(err)
    case Internal => "internal error"
  }

  function FileErrorMessage(e: RPMFileError): string {
    match e
    case BadMagic => "Bad RPM file magic"
    case BadHeader => "Bad or unreadable RPM header"
    case HeaderSize => "Header size too big"
    case UnknownFiletype => "Unknown file type"
    case MissingFile => "Missing file(s)"
    case DigestMismatch => "Digest mismatch"
    case UnmappedFile => "Archive file not in header"
    case FileSize => "File too large for archive"
    case Internal => "Internal error"
  }

  const IoPrefix: string := "IO error: "
  const FilePrefix: string := "RPM file error: "

  /** The displayed message: the wrapped error's message behind a prefix that
      names its class. */
  function Message(e: RPMError): (m: string)
    ensures e.Io? ==> m == IoPrefix + e.io.message
    ensures e.File? ==> m == FilePrefix + FileErrorMessage(e.file)
    ensures e.Internal? ==> m == "Internal error"
  {
    match e
    case Io(err) => IoPrefix + err.message
    case File(err) => FilePrefix + FileErrorMessage(err)
    case Internal => "Internal error"
  }
}
