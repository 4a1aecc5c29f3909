/** The archive entries the file system is built from: a stand-in for Go's
    `archive/zip` `File` records, which the repository reads but does not
    define. Only the fields and the two operations the core uses are kept. */
module Archive {
  import opened Common

  /** A point in time: seconds since the Unix epoch and nanoseconds. */
  datatype Time = Time(unix: int, nanos: nat)

  /** Go's zero `time.Time` (January 1, year 1, UTC). */
  const ZeroTime: Time := Time(-62135596800, 0)

  predicate IsZero(t: Time) { t == ZeroTime }

  /** Compression methods of the ZIP format. */
  const Store: uint16 := 0
  const Deflate: uint16 := 8

  /** One ZIP entry. `isDir` is the directory bit of the entry's own file
      mode; `dataOffset` is None when the entry's local header cannot be
      read; `content` is what the entry decompresses to. */
  datatype Entry = Entry(
    name: string,
    crc32: uint32,
    compressedSize64: uint64,
    uncompressedSize: uint32,
    uncompressedSize64: uint64,
    compression: uint16,
    modified: Time,
    isDir: bool,
    dataOffset: Option<nat>,
    content: seq<byte>)

  /** Errors of `zip.File.Open` and `zip.File.DataOffset`. `ErrClosed` is
      what reading the archive file gives once `FileSystem.Close` has closed
      it (`os.ErrClosed`). */
  datatype ZipError = ErrFormat | ErrAlgorithm | ErrClosed

  function ZipErrorText(e: ZipError): string
  {
    match e
    case ErrFormat => "zip: not a valid zip file"
    case ErrAlgorithm => "zip: unsupported compression algorithm"
    case ErrClosed => "file already closed"
  }

  datatype ZipResult<T> = ZipOk(value: T) | ZipErr(error: ZipError)

  /** `zip.File.DataOffset`: the local header is read from the archive file,
      which must still be open. */
  function DataOffset(e: Entry, archiveOpen: bool): (r: ZipResult<nat>)
    ensures r.ZipOk? <==> archiveOpen && e.dataOffset.Some?
    ensures r.ZipOk? ==> r.value == e.dataOffset.value
    ensures !archiveOpen ==> r == ZipErr(ErrClosed)
    ensures archiveOpen && e.dataOffset.None? ==> r == ZipErr(ErrFormat)
  {
    if !archiveOpen then ZipErr(ErrClosed)
    else if e.dataOffset.None? then ZipErr(ErrFormat)
    else ZipOk(e.dataOffset.value)
  }

  /** `zip.File.Open`: the local header is read first, then a decompressor is
      chosen; only store and deflate have one. The stream yields `content`. */
  function OpenEntry(e: Entry, archiveOpen: bool): (r: ZipResult<seq<byte>>)
    ensures r.ZipOk? <==> archiveOpen && e.dataOffset.Some? && (e.compression == Store || e.compression == Deflate)
    ensures r.ZipOk? ==> r.value == e.content
    ensures !archiveOpen ==> r == ZipErr(ErrClosed)
    ensures archiveOpen && e.dataOffset.None? ==> r == ZipErr(ErrFormat)
  {
    match DataOffset(e, archiveOpen)
    case ZipErr(err) => ZipErr(err)
    case ZipOk(_) =>
      if e.compression != Store && e.compression != Deflate then ZipErr(ErrAlgorithm)
      else ZipOk(e.content)
  }
}
