/** The state machine of an open file (`fileReader`, zipfs.go:245-351) as
    functions from the old handle state to the new one. The `FileReader`
    class in filesystem.dfy holds this state in fields and its methods are
    proved to follow these functions. */
module Handles {
  import opened Common
  import opened Archive
  import opened Index

  /** The errors the file system reports. `NilZipFile` stands for the Go
      runtime panic of using the entry of a node that has none;
      `ReadAfterClose` is what a deflate stream answers once it has been
      closed ("Read after Close"). */
  datatype Error =
    | NotExist
    | FileClosed
    | NotDirectory
    | EOF
    | Zip(zipErr: ZipError)
    | InvalidArgument
    | TempFileFailed
    | NilZipFile
    | ReadAfterClose
    | PathError(op: string, path: string, err: Error)

  datatype Result<T> = Ok(value: T) | Err(error: Error)

  /** A sequential reader over `data`, at position `pos`: the decompressing
      stream of an entry, or an open temporary copy of it. */
  datatype Cursor = Cursor(data: seq<byte>, pos: nat)
  datatype TempFile = TempFile(path: string, cursor: Cursor)

  /** The stream `zip.File.Open` returns: `deflated` when it decompresses
      (its `Close` releases the decompressor) rather than passing stored
      bytes through (its `Close` does nothing); `shut` once `Close` was
      called on it. */
  datatype Stream = Stream(cursor: Cursor, deflated: bool, shut: bool)

  /** The fields of a `fileReader` that change: the stream, the temporary
      file, the closed flag and the paging cursor of `Readdir` (None for
      Go's nil slice: no listing in progress). */
  datatype Handle = Handle(reader: Option<Stream>, file: Option<TempFile>, closed: bool, readdir: Option<seq<NodeId>>)

  /** The state `openReader` creates. */
  const Unopened: Handle := Handle(None, None, false, None)

  /** One read into a buffer of `n` bytes: as many bytes as the buffer holds
      and the data has left; end of file only when nothing is left and the
      buffer is not empty. */
  function ReadAtCursor(c: Cursor, n: nat): (r: (Cursor, seq<byte>, bool))
    ensures r.0.data == c.data
    ensures |r.1| == (if c.pos >= |c.data| then 0 else Min(n, |c.data| - c.pos))
    ensures r.0.pos == c.pos + |r.1|
    ensures |r.1| > 0 ==> r.1 == c.data[c.pos..c.pos + |r.1|]
    ensures r.2 <==> n > 0 && c.pos >= |c.data|
  {
    if n == 0 then (c, [], false)
    else if c.pos >= |c.data| then (c, [], true)
    else
      var k := Min(n, |c.data| - c.pos);
      (c.(pos := c.pos + k), c.data[c.pos..c.pos + k], false)
  }

  /** The bytes of the entry behind a node; what its temporary copy holds. */
  function Content(fi: FileInfo): seq<byte>
  {
    if fi.zipFile.Some? then fi.zipFile.value.content else []
  }

  /** `fileReader.Read` (zipfs.go:273-287): fails on a closed handle, reads
      the temporary file once there is one, and otherwise the entry's stream,
      which the first read opens. A stream at its end fetches nothing more:
      it reports EOF, which archive/zip's `checksumReader` repeats once the
      decompressor has handed it over with the last bytes. A stream with
      bytes left answers "Read after Close" if it is a deflate stream that
      Seek closed, and otherwise reads the archive file, which must still be
      open (`archiveOpen`). */
  function ReadStep(h: Handle, fi: FileInfo, archiveOpen: bool, name: string, n: nat): (r: (Handle, seq<byte>, Option<Error>))
    ensures r.0.closed == h.closed && r.0.readdir == h.readdir && r.0.file.Some? == h.file.Some?
    ensures h.file.Some? ==> r.0.file.value.path == h.file.value.path
    ensures |r.1| <= n
    ensures r.2.Some? ==> r.1 == []
  {
    if h.closed then (h, [], Some(PathError("Read", name, FileClosed)))
    else if h.file.Some? then
      var (c, bytes, eof) := ReadAtCursor(h.file.value.cursor, n);
      (h.(file := Some(h.file.value.(cursor := c))), bytes, if eof then Some(EOF) else None)
    else if h.reader.Some? then
      var s := h.reader.value;
      var atEnd := s.cursor.pos >= |s.cursor.data|;
      if !atEnd && s.shut && s.deflated then (h, [], Some(ReadAfterClose))
      else if !atEnd && !archiveOpen then (h, [], Some(Zip(ErrClosed)))
      else
        var (c, bytes, eof) := ReadAtCursor(s.cursor, n);
        (h.(reader := Some(s.(cursor := c))), bytes, if eof then Some(EOF) else None)
    else if fi.zipFile.None? then (h, [], Some(NilZipFile))
    else match OpenEntry(fi.zipFile.value, archiveOpen)
      case ZipErr(e) => (h, [], Some(Zip(e)))
      case ZipOk(content) =>
        var (c, bytes, eof) := ReadAtCursor(Cursor(content, 0), n);
        (h.(reader := Some(Stream(c, fi.zipFile.value.compression == Deflate, false))), bytes, if eof then Some(EOF) else None)
  }

  /** `fileInfo.openFile` with `createTempFile` (zipfs.go:215-231, 547-573):
      the first call extracts the entry to a new temporary file, named
      `tempName` by the OS, and remembers its path on the node; later calls
      reopen that path. Only the extraction reads the archive file, which must
      be open (`archiveOpen`). `osFails` stands for a failure of the OS. */
  function OpenFile(fi: FileInfo, archiveOpen: bool, tempName: string, osFails: bool): (r: (FileInfo, Result<TempFile>))
    requires tempName != ""
    ensures r.1.Ok? ==> r.0.tempPath != "" && r.1.value == TempFile(r.0.tempPath, Cursor(Content(fi), 0))
    ensures fi.tempPath != "" ==> r.0 == fi
    ensures r.1.Err? ==> r.0 == fi
  {
    if fi.tempPath == "" then
      if fi.zipFile.None? then (fi, Err(NilZipFile))
      else match OpenEntry(fi.zipFile.value, archiveOpen)
        case ZipErr(e) => (fi, Err(Zip(e)))
        case ZipOk(content) =>
          if osFails then (fi, Err(TempFileFailed))
          else (fi.(tempPath := tempName), Ok(TempFile(tempName, Cursor(content, 0))))
    else if osFails then (fi, Err(TempFileFailed))
    else (fi, Ok(TempFile(fi.tempPath, Cursor(Content(fi), 0))))
  }

  /** `os.File.Seek`: whence 0, 1 and 2 count from the start, the current
      position and the end; any other whence, or a negative result, is
      invalid. */
  function SeekPosition(c: Cursor, offset: int, whence: int): (r: Result<nat>)
    ensures r.Ok? <==> 0 <= whence <= 2 && 0 <= (if whence == 0 then 0 else if whence == 1 then c.pos else |c.data|) + offset
    ensures r.Ok? && whence == 0 ==> r.value == offset
    ensures r.Ok? && whence == 1 ==> r.value == c.pos + offset
    ensures r.Ok? && whence == 2 ==> r.value == |c.data| + offset
  {
    var base := if whence == 0 then 0 else if whence == 1 then c.pos else |c.data|;
    if whence < 0 || whence > 2 || base + offset < 0 then Err(InvalidArgument)
    else Ok(base + offset)
  }

  /** The stream after `Close`, if there is one. */
  function Shut(s: Option<Stream>): (r: Option<Stream>)
    ensures r.Some? <==> s.Some?
    ensures r.Some? ==> r.value == s.value.(shut := true)
  {
    match s
    case None => None
    case Some(st) => Some(st.(shut := true))
  }

  /** `fileReader.Seek` (zipfs.go:289-310): fails on a closed handle; closes
      the stream, which cannot seek, and leaves it in the field; opens the
      temporary file when the handle has none yet; seeks in it. Returns the
      new handle, the new node and the new offset. */
  function SeekStep(h: Handle, fi: FileInfo, archiveOpen: bool, name: string, offset: int, whence: int, tempName: string, osFails: bool)
    : (r: (Handle, FileInfo, Result<int>))
    requires tempName != ""
    ensures r.0.closed == h.closed && r.0.readdir == h.readdir
    ensures r.2.Ok? ==> r.2.value >= 0 && r.0.file.Some? && r.0.file.value.cursor.pos == r.2.value
  {
    if h.closed then (h, fi, Err(PathError("Seek", name, FileClosed)))
    else
      var h0 := h.(reader := Shut(h.reader));
      var (fi1, got) := if h.file.Some? then (fi, Ok(h.file.value)) else OpenFile(fi, archiveOpen, tempName, osFails);
      match got
      case Err(e) => (h0, fi1, Err(e))
      case Ok(tf) =>
        match SeekPosition(tf.cursor, offset, whence)
        case Err(_) => (h0.(file := Some(tf)), fi1, Err(PathError("seek", tf.path, InvalidArgument)))
        case Ok(p) => (h0.(file := Some(tf.(cursor := tf.cursor.(pos := p)))), fi1, Ok(p))
  }

  /** `fileInfo.readdir` (zipfs.go:233-243): the child list of a directory. */
  function ChildList(fi: FileInfo): (r: Result<seq<NodeId>>)
    ensures r.Ok? <==> IsDir(fi)
    ensures r.Ok? ==> r.value == fi.fileInfos
    ensures r.Err? ==> r.error == NotDirectory
  {
    if Mode(fi) & ModeDir == 0 then Err(NotDirectory) else Ok(fi.fileInfos)
  }

  /** `fileReader.Readdir` (zipfs.go:312-339). A positive count pages through
      the children kept in the cursor; a last, short page comes with EOF and
      resets the cursor to nil. Other counts list every child and leave the
      cursor alone. A node that is not a directory fails with a nil result. */
  function ReaddirStep(h: Handle, fi: FileInfo, name: string, count: int): (r: (Handle, Option<seq<NodeId>>, Option<Error>))
    ensures r.0.file == h.file && r.0.reader == h.reader && r.0.closed == h.closed
    ensures r.1.None? <==> r.2.Some? && r.2.value.PathError?
    ensures count > 0 && r.1.Some? ==> |r.1.value| <= count && (|r.1.value| < count <==> r.2 == Some(EOF))
  {
    if count > 0 then
      var listed := if h.readdir.Some? then Ok(h.readdir.value) else ChildList(fi);
      match listed
      case Err(e) => (h.(readdir := None), None, Some(PathError("Readdir", name, e)))
      case Ok(cur) =>
        if |cur| >= count then (h.(readdir := Some(cur[count..])), Some(cur[..count]), None)
        else (h.(readdir := None), Some(cur), Some(EOF))
    else
      match ChildList(fi)
      case Err(e) => (h, None, Some(PathError("Readdir", name, e)))
      case Ok(all) => (h, Some(all), None)
  }

  /** `fileReader.Close` (zipfs.go:254-271): marks the handle closed; the
      stream and the file stay in the fields. */
  function CloseStep(h: Handle): (r: Handle)
    ensures r.closed && r.reader == h.reader && r.file == h.file && r.readdir == h.readdir
  {
    h.(closed := true)
  }

  // ---------------------------------------------------------------------
  // Properties of the handle state machine.

  /** Read and Seek on a closed handle fail with "file closed" and change
      nothing. */
  lemma ClosedHandleFails(h: Handle, fi: FileInfo, archiveOpen: bool, name: string, n: nat, offset: int, whence: int, tempName: string, osFails: bool)
    requires h.closed && tempName != ""
    ensures ReadStep(h, fi, archiveOpen, name, n) == (h, [], Some(PathError("Read", name, FileClosed)))
    ensures SeekStep(h, fi, archiveOpen, name, offset, whence, tempName, osFails) == (h, fi, Err(PathError("Seek", name, FileClosed)))
  {
  }

  /** Once Seek has given the handle a file, every later Read, Seek and
      Readdir keeps it file-backed with the same file, Read never touches
      the stream again and Seek only closes it again. None of this needs the
      archive file to be open. */
  lemma FileBackedStays(h: Handle, fi: FileInfo, archiveOpen: bool, name: string, n: nat, count: int, offset: int, whence: int, tempName: string, osFails: bool)
    requires h.file.Some? && tempName != ""
    ensures var r := ReadStep(h, fi, archiveOpen, name, n);
      r.0.file.Some? && r.0.file.value.path == h.file.value.path && r.0.reader == h.reader
    ensures var r := SeekStep(h, fi, archiveOpen, name, offset, whence, tempName, osFails);
      r.0.file.Some? && r.0.file.value.path == h.file.value.path && r.1 == fi
      && r.0.reader == (if h.closed then h.reader else Shut(h.reader))
    ensures ReaddirStep(h, fi, name, count).0.file == h.file
  {
  }

  /** The temporary copy's path on a node is set at most once, only to the
      name the OS gave, and once set it is what every later Seek opens. */
  lemma TempPathMemoized(h: Handle, fi: FileInfo, archiveOpen: bool, name: string, offset: int, whence: int, tempName: string, osFails: bool)
    requires tempName != ""
    ensures var (h1, fi1, _) := SeekStep(h, fi, archiveOpen, name, offset, whence, tempName, osFails);
      && fi1.name == fi.name && fi1.zipFile == fi.zipFile && fi1.fileInfos == fi.fileInfos
      && (fi.tempPath != "" ==> fi1 == fi)
      && (fi1.tempPath == fi.tempPath || (fi.tempPath == "" && fi1.tempPath == tempName))
      && (h.file.None? && h1.file.Some? ==> h1.file.value.path == fi1.tempPath && fi1.tempPath != "")
  {
  }

  /** The handle only ever reads the bytes of its own entry, from the
      temporary copy the node remembers. */
  predicate Consistent(h: Handle, fi: FileInfo)
  {
    && (h.reader.Some? ==> fi.zipFile.Some? && h.reader.value.cursor.data == Content(fi)
                           && h.reader.value.deflated == (fi.zipFile.value.compression == Deflate))
    && (h.file.Some? ==> fi.tempPath != "" && h.file.value.path == fi.tempPath && h.file.value.cursor.data == Content(fi))
  }

  lemma StepsKeepConsistent(h: Handle, fi: FileInfo, archiveOpen: bool, name: string, n: nat, count: int, offset: int, whence: int, tempName: string, osFails: bool)
    requires Consistent(h, fi) && tempName != ""
    ensures Consistent(ReadStep(h, fi, archiveOpen, name, n).0, fi)
    ensures var (h1, fi1, _) := SeekStep(h, fi, archiveOpen, name, offset, whence, tempName, osFails); Consistent(h1, fi1)
    ensures Consistent(ReaddirStep(h, fi, name, count).0, fi)
    ensures Consistent(CloseStep(h), fi)
  {
    SeekKeepsConsistent(h, fi, archiveOpen, name, offset, whence, tempName, osFails);
  }

  /** Seek, which may also change the node, keeps the two consistent. */
  lemma SeekKeepsConsistent(h: Handle, fi: FileInfo, archiveOpen: bool, name: string, offset: int, whence: int, tempName: string, osFails: bool)
    requires Consistent(h, fi) && tempName != ""
    ensures var (h1, fi1, _) := SeekStep(h, fi, archiveOpen, name, offset, whence, tempName, osFails); Consistent(h1, fi1)
  {
  }

  /** Seeking to an offset from the start and reading gives the entry's
      bytes from that offset on, whatever the handle read before; with the
      archive file closed this holds once the node has its temporary copy. */
  lemma SeekThenRead(h: Handle, fi: FileInfo, e: Entry, archiveOpen: bool, name: string, offset: nat, n: nat, tempName: string)
    requires Consistent(h, fi) && !h.closed && tempName != ""
    requires fi.zipFile == Some(e) && OpenEntry(e, true).ZipOk? && offset < |e.content|
    requires archiveOpen || fi.tempPath != ""
    ensures var (h1, fi1, r) := SeekStep(h, fi, archiveOpen, name, offset, 0, tempName, false);
      && r == Ok(offset)
      && var (_, bytes, err) := ReadStep(h1, fi1, archiveOpen, name, n);
      && err == None
      && bytes == e.content[offset..offset + Min(n, |e.content| - offset)]
  {
  }

  /** Reading a whole entry, seeking back to 0 and reading again gives the
      same bytes twice (the round trip under seek). */
  lemma ReadSeekReadRoundTrip(fi: FileInfo, e: Entry, name: string, tempName: string)
    requires fi.zipFile == Some(e) && OpenEntry(e, true).ZipOk? && |e.content| > 0 && tempName != ""
    ensures var (h1, first, err1) := ReadStep(Unopened, fi, true, name, |e.content|);
      && first == e.content && err1 == None
      && var (h2, fi2, r) := SeekStep(h1, fi, true, name, 0, 0, tempName, false);
      && r == Ok(0)
      && var (_, second, err2) := ReadStep(h2, fi2, true, name, |e.content|);
      && second == first && err2 == None
  {
    var (h1, first, err1) := ReadStep(Unopened, fi, true, name, |e.content|);
    assert first == e.content[0..|e.content|];
    StepsKeepConsistent(Unopened, fi, true, name, |e.content|, 0, 0, 0, tempName, false);
    SeekThenRead(h1, fi, e, true, name, 0, |e.content|, tempName);
  }

  /** `Seek(0, io.SeekEnd)`, which net/http uses to learn a file's size,
      reports the size of the entry's bytes once the handle has, or can
      open, its temporary copy. */
  lemma SeekEndReportsSize(h: Handle, fi: FileInfo, archiveOpen: bool, name: string, tempName: string, osFails: bool)
    requires !h.closed && tempName != "" && Consistent(h, fi)
    requires h.file.Some? || OpenFile(fi, archiveOpen, tempName, osFails).1.Ok?
    ensures SeekStep(h, fi, archiveOpen, name, 0, 2, tempName, osFails).2 == Ok(|Content(fi)|)
  {
  }

  /** `Seek(k, io.SeekCurrent)` on a file-backed handle moves k bytes from
      where the handle stands, and fails when that is before the start. */
  lemma SeekCurrentMoves(h: Handle, fi: FileInfo, archiveOpen: bool, name: string, offset: int, tempName: string, osFails: bool)
    requires !h.closed && tempName != "" && h.file.Some?
    ensures var r := SeekStep(h, fi, archiveOpen, name, offset, 1, tempName, osFails).2;
      && (r.Ok? <==> h.file.value.cursor.pos + offset >= 0)
      && (r.Ok? ==> r.value == h.file.value.cursor.pos + offset)
  {
  }

  /** Seek closes the stream before it opens the temporary copy. When that
      open fails the handle keeps the closed stream: the next Read of a
      deflated entry with bytes left fails with "Read after Close" and
      returns nothing. A stored entry, whose stream ignores `Close`, and a
      stream already at its end read on as if there had been no Seek. */
  lemma ReadAfterFailedSeek(h: Handle, fi: FileInfo, archiveOpen: bool, name: string, offset: int, whence: int,
                            tempName: string, osFails: bool, n: nat)
    requires !h.closed && h.file.None? && h.reader.Some? && tempName != ""
    requires OpenFile(fi, archiveOpen, tempName, osFails).1.Err?
    ensures var (h1, fi1, r) := SeekStep(h, fi, archiveOpen, name, offset, whence, tempName, osFails);
      var c := h.reader.value.cursor;
      && r.Err? && fi1 == fi && h1.reader.value.shut
      && var after := ReadStep(h1, fi1, archiveOpen, name, n);
      && (h.reader.value.deflated && c.pos < |c.data| ==> after == (h1, [], Some(ReadAfterClose)))
      && (!h.reader.value.deflated || c.pos >= |c.data| ==>
            after.1 == ReadStep(h, fi, archiveOpen, name, n).1 && after.2 == ReadStep(h, fi, archiveOpen, name, n).2)
  {
  }

  /** Once `FileSystem.Close` has closed the archive file, a handle without a
      temporary copy can neither open its entry's stream nor read the bytes
      it has left; a stream at its end answers as with the archive open. Seek
      fails on a node whose copy was never made. */
  lemma ArchiveClosedReads(h: Handle, fi: FileInfo, name: string, n: nat, offset: int, whence: int, tempName: string, osFails: bool)
    requires !h.closed && h.file.None? && fi.zipFile.Some? && tempName != ""
    ensures h.reader.None? || h.reader.value.cursor.pos < |h.reader.value.cursor.data| ==>
      var (h1, bytes, err) := ReadStep(h, fi, false, name, n);
      && h1 == h && bytes == []
      && err == Some(if h.reader.Some? && h.reader.value.shut && h.reader.value.deflated then ReadAfterClose else Zip(ErrClosed))
    ensures h.reader.Some? && h.reader.value.cursor.pos >= |h.reader.value.cursor.data| ==>
      ReadStep(h, fi, false, name, n) == ReadStep(h, fi, true, name, n)
    ensures fi.tempPath == "" ==> SeekStep(h, fi, false, name, offset, whence, tempName, osFails).2 == Err(Zip(ErrClosed))
  {
  }

  // ---------------------------------------------------------------------
  // Paging through a directory.

  /** What one Readdir call returned. */
  datatype Listing = Listing(infos: Option<seq<NodeId>>, err: Option<Error>)

  /** The results of `calls` consecutive `Readdir(count)` calls, and the
      handle after them. */
  function Drain(h: Handle, fi: FileInfo, name: string, count: int, calls: nat): (r: (Handle, seq<Listing>))
    ensures |r.1| == calls
    decreases calls
  {
    if calls == 0 then (h, [])
    else
      var (h1, infos, err) := ReaddirStep(h, fi, name, count);
      var (h2, rest) := Drain(h1, fi, name, count, calls - 1);
      (h2, [Listing(infos, err)] + rest)
  }

  function Concat(ls: seq<Listing>): seq<NodeId>
  {
    if ls == [] then [] else (if ls[0].infos.Some? then ls[0].infos.value else []) + Concat(ls[1..])
  }

  /** The number of `Readdir(count)` calls that drain `n` children: one per
      full page and one for the final short page. */
  function PageCalls(n: nat, count: int): (calls: nat)
    requires count > 0
    ensures calls >= 1
    decreases n
  {
    if n < count then 1 else 1 + PageCalls(n - count, count)
  }

  lemma {:induction false} PageCallsIsQuotient(n: nat, count: int)
    requires count > 0
    ensures PageCalls(n, count) == n / count + 1
    decreases n
  {
    if n >= count {
      PageCallsIsQuotient(n - count, count);
      var q := (n - count) / count;
      var r := (n - count) % count;
      assert n == (q + 1) * count + r;
      DivUnique(n, count, q + 1, r);
    } else {
      DivUnique(n, count, 0, n);
    }
  }

  lemma DivUnique(n: int, k: int, q: int, r: int)
    requires k > 0 && 0 <= r < k && n == q * k + r
    ensures n / k == q
  {
    var q0 := n / k;
    var r0 := n % k;
    assert n == q0 * k + r0;
    if q0 > q {
      assert (q0 - q) * k == r - r0;
      MulAtLeast(q0 - q, k);
    } else if q0 < q {
      assert (q - q0) * k == r0 - r;
      MulAtLeast(q - q0, k);
    }
  }

  lemma MulAtLeast(a: int, k: int)
    requires a >= 1 && k > 0
    ensures a * k >= k
  {
    assert a * k == (a - 1) * k + k;
    assert (a - 1) * k >= 0;
  }

  /** Paging with a positive count through a listing in progress (`rest`):
      |rest| / count full pages without error, then one short page, possibly
      empty, with EOF; together the pages are exactly `rest`, in order, and
      the cursor is nil again afterwards. */
  lemma PagesCoverRest(h: Handle, fi: FileInfo, name: string, count: int, rest: seq<NodeId>)
    requires count > 0 && h.readdir == Some(rest)
    ensures var calls := PageCalls(|rest|, count);
      var (h1, ls) := Drain(h, fi, name, count, calls);
      && Concat(ls) == rest
      && (forall i :: 0 <= i < calls - 1 ==> ls[i].err == None && ls[i].infos.Some? && |ls[i].infos.value| == count)
      && ls[calls - 1].err == Some(EOF) && ls[calls - 1].infos.Some? && |ls[calls - 1].infos.value| < count
      && h1.readdir == None && h1.file == h.file && h1.reader == h.reader && h1.closed == h.closed
    decreases |rest|
  {
    var calls := PageCalls(|rest|, count);
    var (h1, infos, err) := ReaddirStep(h, fi, name, count);
    if |rest| >= count {
      assert h1.readdir == Some(rest[count..]) && infos == Some(rest[..count]) && err == None;
      PagesCoverRest(h1, fi, name, count, rest[count..]);
      var (h2, tail) := Drain(h1, fi, name, count, calls - 1);
      var ls := [Listing(infos, err)] + tail;
      assert Drain(h, fi, name, count, calls) == (h2, ls);
      assert ls[1..] == tail;
      assert Concat(ls) == rest[..count] + Concat(tail);
      assert rest == rest[..count] + rest[count..];
      assert forall i :: 1 <= i < calls ==> ls[i] == tail[i - 1];
    } else {
      var ls := [Listing(Some(rest), Some(EOF))];
      assert infos == Some(rest) && err == Some(EOF) && h1 == h.(readdir := None);
      assert Drain(h1, fi, name, count, 0) == (h1, []);
      assert Drain(h, fi, name, count, 1) == (h1, [Listing(infos, err)] + []);
      assert [Listing(infos, err)] + [] == ls;
      assert ls[1..] == [];
      assert Concat(ls) == rest + Concat([]);
    }
  }

  /** A fresh listing: `Readdir(count)` with a positive count, called
      |children| / count + 1 times on a directory, returns every child once,
      in the stored order, ending with EOF; the next call starts over. */
  lemma PagesCoverChildren(h: Handle, fi: FileInfo, name: string, count: int)
    requires count > 0 && h.readdir == None && IsDir(fi)
    ensures var calls := |fi.fileInfos| / count + 1;
      var (h1, ls) := Drain(h, fi, name, count, calls);
      && Concat(ls) == fi.fileInfos
      && (forall i :: 0 <= i < calls - 1 ==> ls[i].err == None && ls[i].infos.Some? && |ls[i].infos.value| == count)
      && ls[calls - 1].err == Some(EOF)
      && h1.readdir == None
  {
    var calls := |fi.fileInfos| / count + 1;
    PageCallsIsQuotient(|fi.fileInfos|, count);
    var hs := h.(readdir := Some(fi.fileInfos));
    assert ReaddirStep(h, fi, name, count) == ReaddirStep(hs, fi, name, count);
    assert Drain(h, fi, name, count, calls) == Drain(hs, fi, name, count, calls);
    PagesCoverRest(hs, fi, name, count, fi.fileInfos);
  }

  /** Readdir on a node that is not a directory fails with "not a directory"
      and a nil result, with a positive count and without. */
  lemma ReaddirNotDirectory(h: Handle, fi: FileInfo, name: string, count: int)
    requires !IsDir(fi) && h.readdir == None
    ensures var (_, infos, err) := ReaddirStep(h, fi, name, count);
      infos == None && err == Some(PathError("Readdir", name, NotDirectory))
  {
  }

  /** Readdir with a count of zero or less lists every child and leaves the
      paging cursor as it was. */
  lemma ReaddirAll(h: Handle, fi: FileInfo, name: string, count: int)
    requires count <= 0 && IsDir(fi)
    ensures ReaddirStep(h, fi, name, count) == (h, Some(fi.fileInfos), None)
  {
  }
}
