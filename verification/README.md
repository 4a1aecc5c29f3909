# zipfs in Dafny

A model of the Go package zipfs. The package serves the contents of a ZIP
archive in two ways:

- as a read-only file system, `FileSystem` with `Open`/`Close` and `fileReader`
  handles;
- as an HTTP handler, `fileHandler`, that sends deflated entries to clients
  that accept deflate without decompressing them.

The model covers four parts.

- **The directory index that `New` builds** (`Index`, `ZipFs.FileSystem`).
  - Every entry gets a node.
  - A directory name is registered both with and without its trailing slash.
  - Every node is appended to the child list of its parent directory.
  - Every child list is then sorted by base name.
- **The attributes a node reports** (`Index.Name`, `Size`, `Mode`, `ModTime`).
- **The state machine of an open file** (`Handles`, `ZipFs.FileReader`).
  - Reads go through the decompressing stream until the first `Seek`.
  - `Seek` closes that stream and switches the handle to a temporary copy;
    its path is remembered on the node. The closed stream stays in the
    handle, so after a failed `Seek` a deflated entry with bytes left
    answers "Read after Close", while a stored one reads on. A stream at
    its end keeps reporting EOF.
  - `Readdir` pages through the children with a cursor that is nil
    (`None`) or a list (`Some`).
  - `Close` marks the handle closed.
  - `FileSystem.Close` closes the archive file. From then on, every read of
    the archive fails: opening or reading an entry's stream, extracting a
    temporary copy, and the handler's reads.
- **The HTTP handler** (`Handler`, `ConditionalRequest`).
  - The request path is made rooted and cleaned, then looked up in the map
    built by `newHandler`.
  - The response gets the entry's ETag. `checkETag` then evaluates
    If-Range and If-None-Match.
  - A request that still carries a Range header is delegated to the
    standard library.
  - Otherwise the entry is served by compression method:
    - a stored entry is read through `zip.File.Open` and sent in full;
    - a deflated entry, for a client whose Accept-Encoding contains
      "deflate", is copied raw from the archive in buffers of 32768 bytes,
      with `Content-Encoding: deflate`; for any other client it is served
      like a stored one;
    - any other method gives a 500.

Where the source updates state, the model has classes, and each class method
is proved equal to a pure function. `FileSystem` holds the node table and the
name map. `FileReader` holds the handle fields. `FileHandler` holds the map and
shares the file system, so it sees `FileSystem.Close`.
Four loops keep their loop form:

- the build loop (`AddAll`);
- the sorting of child lists (`SortAll`, with an in-place insertion sort on
  an array);
- the filling of the handler map (`Handler.NewHandler`);
- the deflate copy loop (`CopyChunks`).

The HTTP response is a value, `Http.Resp`, that every step takes and returns.
It holds the header map, the status (0 until one is written), the body bytes,
the length of each write the handler issues (one for a whole `io.CopyN`), and
what was handed to `http.ServeContent`.

These Go standard library functions are written out as models, following
their documented rules:

- `path.Clean`, `path.Dir`, `path.Base` and `filepath.Ext` (`Paths`);
- `strings.TrimRight`/`TrimLeft`/`Contains`/`Compare`, and
  `strconv.FormatUint` for `%d`/`%x` (`Strs`);
- `http.Header` `Get`/`Set`/`Del`, `ResponseWriter.Write`/`WriteHeader`,
  `http.Error` and `http.NotFound` (`Http`).

They are not repository code.

The following are parameters:

- `mime.TypeByExtension` is a function parameter `mime`.
- `http.ParseTime` is a function parameter `parseTime`.
- The name the OS gives a temporary file is `tempName`.
- Whether the OS fails while making or opening that file is `osFails` for
  `Seek` and `tempErr` for `serveStandard`.

The archive is a sequence of `Archive.Entry` records. Each record has the name,
the CRC-32, both sizes, the method, the modification time, the directory bit,
the data offset (None when the local header is unreadable) and the bytes the
entry decompresses to. The raw archive file is a `seq<byte>`.

## Model

| member | source | states |
|---|---|---|
| Index.FindOrCreate | zipfs.go:130-144 | Returns the node already registered under `name` and leaves the table unchanged. Otherwise it appends a new node named `name` and registers it under `name` and under `name` without trailing slashes. The table stays valid. |
| Index.FindOrCreateKeys | zipfs.go:130-144 | The keys after `FindOrCreate` are exactly the old keys, `name`, and (for a new name) its slash-stripped form. Every other key keeps its node. |
| Index.FindOrCreateIdempotent | zipfs.go:130-144 | A second `FindOrCreate` of the same name returns the same node and changes nothing. |
| Index.DirectoryAliases | zipfs.go:138-141 | A new name ending in "/" is registered under itself and under its slash-stripped form, which is a different key, both pointing to the same node. |
| Index.ParentKey | zipfs.go:146-153 | The parent key is `path.Dir` of the name without trailing slashes, plus "/". It is "/" exactly when that directory is "." or "/", so always for a top-level name (no slash once trailing slashes are removed). |
| Index.ParentKeyOfChild | zipfs.go:146-153 | For a clean relative directory `d` (no empty, "." or ".." element) and a non-empty name `b` without a slash, both `d/b` and `d/b/` have the parent key `d/`. |
| Index.FindOrCreateParent | zipfs.go:146-155 | The parent key is registered afterwards and leads to the returned node. A parent key already present changes nothing. The table stays valid. |
| Index.SetZipFile | zipfs.go:95 | Records the entry on its node. Only that node's `zipFile` changes: its name, children and temporary path, every other node and every key stay as they were. The table stays valid. |
| Index.AppendChild | zipfs.go:97 | The child goes to the end of the parent's child list. Nothing else changes, and the table stays valid. |
| Index.AddEntry | zipfs.go:93-98 | One round of the build loop keeps the table valid. |
| Index.Build | zipfs.go:93-98 | The whole loop, from the empty table, leaves a valid table. |
| Index.AddEntryEffect | zipfs.go:93-98 | After one round, the entry's node carries the entry and is the last child of the node under the parent key. It is registered under the entry's name unless the parent key claims that name. |
| Index.BuildSnoc | zipfs.go:93-98 | The index after i+1 entries is one more round on the index after i entries. |
| Index.BuildChildCount | zipfs.go:93-98 | Over the whole table, the number of child links equals the number of entries: each entry goes to exactly one parent. |
| Index.AddEntryKeepsKey | zipfs.go:93-98 | A round of the loop never drops a key. |
| Index.AddEntryAddsName | zipfs.go:94 | A round of the loop registers the entry's name. |
| Index.BuildKeys | zipfs.go:93-98 | After the loop, every entry's name is a key of the map. |
| Index.FindOrCreateRegistered | zipfs.go:130-144 | `FindOrCreate` keeps `ParentsRegistered`: a key ending in "/" leads to the node created under that name, and a node with children is registered under its own slash-terminated name. A slash-terminated name gets a node of that name. |
| Index.AddEntryRegistered | zipfs.go:93-98 | One round of the loop keeps `ParentsRegistered`. |
| Index.BuildRegistered | zipfs.go:93-104 | The built index satisfies `ParentsRegistered`, so the nodes that have children are the ones the sorting loop reaches through the map. |
| Index.Name | zipfs.go:167-169 | `Name` is a non-empty base name: "/" or a string without a slash. |
| Index.RootAndDirectoryNames | zipfs.go:167-169 | The root node is named "/" and a node created as "img/" is named "img". |
| Index.Size | zipfs.go:171-179 | 0 without an entry. Otherwise the 32-bit uncompressed size when the 64-bit one is 0, or else the 64-bit one. A 64-bit size of 2^63 or more comes out negative, as Go's `int64` conversion does. |
| Index.Mode | zipfs.go:181-186 | The directory bit is set exactly for directories. The permission bits are 0555 for a directory and 0444 otherwise. No write bit is ever set. |
| Index.ModTime | zipfs.go:188-195 | The entry's time, or 2001-01-01 (not Go's zero time) for a node without an entry. |
| Index.SyntheticDirectoryAttributes | zipfs.go:167-202 | A node with no entry is a directory of size 0, mode 0555 with the directory bit, dated 2001-01-01. |
| Index.FileAttributes | zipfs.go:171-186 | A node for a file entry has mode 0444 and its uncompressed size, and is not a directory. |
| ChildOrder.NameLeTransitive | zipfs.go:115-119 | The order `Less` induces on nodes is transitive. |
| ChildOrder.NameLeTotal | zipfs.go:115-119 | Any two named nodes are ordered one way or the other. |
| ChildOrder.InsertStep | zipfs.go:121-125 | Swapping the inserted node with a larger predecessor moves the insertion one place left and keeps the multiset of nodes. |
| ChildOrder.InsertDone | zipfs.go:115-119 | Once the inserted node meets a predecessor that is not larger, the prefix is sorted. |
| ChildOrder.SortByName | zipfs.go:102 | Sorting a child list in place leaves it in non-decreasing base-name order and a permutation of what it was. |
| ZipFs.Names | zipfs.go:116-117 | The compared names are the nodes' base names, position by position. |
| ZipFs.SortStep | zipfs.go:100-104 | Replacing one child list by a sorted permutation keeps the table valid and every name, and extends the sorted prefix of the table. |
| ZipFs.FileSystem.New | zipfs.go:65-107 | The new file system is open. Its map is the built index's map. Each node is the built node with its child list sorted by base name and holding the same children. |
| ZipFs.FileSystem.AddAll | zipfs.go:93-98 | The build loop leaves exactly the index `Index.Build` describes. |
| ZipFs.FileSystem.AddEntry | zipfs.go:94-97 | One round of the loop updates the fields as `Index.AddEntry` says. |
| ZipFs.FileSystem.SortAll | zipfs.go:100-104 | Every child list ends up sorted by name and a permutation of what it was. Keys, names, entries and temp paths do not change. |
| ZipFs.FileSystem.FindOrCreate | zipfs.go:130-144 | Updates the fields as `Index.FindOrCreate` says and returns its node. |
| ZipFs.FileSystem.FindOrCreateParent | zipfs.go:146-155 | Updates the fields as `Index.FindOrCreateParent` says. |
| ZipFs.FileSystem.Open | zipfs.go:40-49 | Opens a handle exactly when the cleaned name, without leading slashes, is a key. The handle is fresh, unopened, named by the cleaned name, and on that key's node. A miss gives a path error "Open" with "does not exist". |
| ZipFs.FileSystem.Close | zipfs.go:52-61 | Closes the archive: `archiveOpen` becomes false, which every later `Read`, `Seek` and `ServeHTTP` sees (`Handles.ArchiveClosedReads`, `Handler.ServedAfterClose`). The index is kept, so `Open` still works. |
| ZipFs.FileReader.constructor | zipfs.go:208-213 | `openReader`: a handle that is not closed, has no stream, no file and no listing in progress. |
| ZipFs.FileReader.Read | zipfs.go:273-287 | Updates the handle and returns what `Handles.ReadStep` says, for the archive as open or closed as it is now. |
| ZipFs.FileReader.Seek | zipfs.go:289-310 | Updates the handle and its node as `Handles.SeekStep` says, for the archive as open or closed as it is now. Every other node is left alone. |
| ZipFs.FileReader.Readdir | zipfs.go:312-339 | Updates the handle and returns what `Handles.ReaddirStep` says. |
| ZipFs.FileReader.Stat | zipfs.go:341-343 | Reports the handle's own node. A node without an entry reports a directory of size 0 dated 2001-01-01. One with an entry reports the entry's time. |
| ZipFs.FileReader.Close | zipfs.go:254-271 | Marks the handle closed and changes nothing else. |
| Handles.ReadAtCursor | zipfs.go:273-287 | A read returns as many bytes as the buffer holds and the data has left, from the current position, and advances past them. EOF is reported exactly when the buffer is non-empty and nothing is left. |
| Handles.OpenFile | zipfs.go:215-231 | The first successful call records a temporary path on the node. Later calls reuse the recorded path unchanged. The file holds the entry's bytes from position 0, and a failure leaves the node alone. |
| Handles.SeekPosition | zipfs.go:309 | The seek succeeds exactly for whence 0, 1 or 2 with a non-negative result. It lands on the offset counted from the start, the current position or the end. |
| Handles.ChildList | zipfs.go:233-243 | Succeeds with the child list exactly for a directory, and fails with "not a directory" otherwise. |
| Handles.ReadStep | zipfs.go:273-287 | A read keeps the closed flag, the listing cursor and the file (with its path). It returns at most n bytes, and none when it reports an error or EOF. |
| Handles.SeekStep | zipfs.go:289-310 | A seek keeps the closed flag and the listing cursor. On success the position is non-negative and the handle reads a file at that position. |
| Handles.ReaddirStep | zipfs.go:312-339 | Readdir keeps the stream, the file and the closed flag. It returns no list exactly when it fails with a path error. For a positive count a page holds at most count nodes, and fewer exactly when it reports EOF. |
| Handles.Shut | zipfs.go:295-299 | Closing the stream keeps it in place, marked closed. |
| Handles.CloseStep | zipfs.go:254-271 | Closing sets the flag and keeps the stream, the file and the listing. |
| Handles.ClosedHandleFails | zipfs.go:273-292 | Read and Seek on a closed handle fail with "file closed" and change nothing. |
| Handles.FileBackedStays | zipfs.go:277-309 | Once a handle has a file, Read, Seek and Readdir keep the same file, whether or not the archive is open. Read leaves the stream alone and Seek only closes it. |
| Handles.TempPathMemoized | zipfs.go:215-231 | Seek only ever sets an empty temp path, and only to the name the OS gave. A set path never changes, and a handle that gets a file gets the node's path. |
| Handles.StepsKeepConsistent | zipfs.go:273-310 | Every step keeps the handle reading only its own entry's bytes, from the copy whose path the node remembers. |
| Handles.SeekKeepsConsistent | zipfs.go:289-310 | Seek, which may record a temporary path on the node, keeps the handle reading only that node's entry. |
| Handles.SeekThenRead | zipfs.go:277-310 | Seeking to offset p from the start and reading gives the entry's bytes from p, whatever was read before. With the archive closed this still holds once the node has its temporary copy. |
| Handles.SeekEndReportsSize | zipfs.go:289-310 | `Seek(0, io.SeekEnd)` reports the entry's size once the handle has, or can open, its temporary copy. |
| Handles.SeekCurrentMoves | zipfs.go:289-310 | `Seek(k, io.SeekCurrent)` on a file-backed handle moves k bytes from the current position, and fails exactly when that lands before the start. |
| Handles.ReadSeekReadRoundTrip | zipfs.go:273-310 | Reading a whole entry, seeking to 0 and reading again gives the same bytes twice. |
| Handles.ReadAfterFailedSeek | zipfs.go:286-305 | When `Seek` cannot open the temporary copy, the handle keeps its closed stream. The next Read of a deflated entry with bytes left returns nothing and "Read after Close". A stored entry, and a stream already at its end, read on exactly as without the `Seek`. |
| Handles.ArchiveClosedReads | zipfs.go:273-305 | With the archive closed, a handle without a temporary copy whose stream is unopened or has bytes left reads nothing: "file already closed", or "Read after Close" for a deflate stream that `Seek` closed. A stream at its end answers as with the archive open. `Seek` fails with "file already closed" on a node that has no copy yet. |
| Handles.Drain | zipfs.go:312-339 | `calls` Readdir calls give `calls` results. |
| Handles.PageCallsIsQuotient | zipfs.go:316-330 | Draining n children with page size k takes n / k + 1 calls. |
| Handles.PagesCoverRest | zipfs.go:316-330 | Paging through a listing in progress: full pages without error, then one short (possibly empty) page with EOF. Together the pages are exactly the listing, in order, and the cursor is nil again. |
| Handles.PagesCoverChildren | zipfs.go:316-330 | From a fresh handle, n / k + 1 calls of Readdir(k) return every child once, in stored order, ending with EOF, and reset the cursor. For 20 children and k = 2, that is 11 calls and an empty last page. |
| Handles.ReaddirNotDirectory | zipfs.go:312-339 | On a non-directory, Readdir fails with "not a directory" and a nil result. |
| Handles.ReaddirAll | zipfs.go:331-336 | Readdir with a count of 0 or less returns every child and leaves the cursor alone. |
| ConditionalRequest.CheckETag | check_etag.go:23-74 | The request is done exactly when If-None-Match is set, the ETag is known, the method is GET or HEAD, and the value is the ETag or "*". Then the Range is "" and the response is a 304 without Content-Type and Content-Length. Otherwise the response is untouched, and the Range is kept exactly when it is empty or If-Range is not stale. |
| ConditionalRequest.WithoutIfNoneMatch | check_etag.go:47-73 | Without If-None-Match the request is never done and the response is unchanged. |
| ConditionalRequest.NotModifiedOnlyForGetAndHead | check_etag.go:49-60 | With no ETag, or a method other than GET and HEAD, the request is not done. |
| ConditionalRequest.DoneMeansNotModified | check_etag.go:65-70 | A done request has Range "", status 304, no Content-Type, no Content-Length, and adds nothing to the body. |
| ConditionalRequest.IfRangeMatchKeepsRange | check_etag.go:33-45 | If-Range equal to the ETag, or a date in the same second as a known modification time, keeps the Range header. |
| ConditionalRequest.IfRangeMismatchDropsRange | check_etag.go:33-45 | Any other If-Range value empties the Range. |
| ConditionalRequest.OnlyExactTagMatches | check_etag.go:62-65 | A weak form of the ETag, or a list containing it, does not count as a match. |
| ConditionalRequest.HandlerCases | check_etag.go:23-74 | The If-Range and If-None-Match cases the handler tests use, with the ETag "27106c15f45b", give the expected Range and 304. |
| Handler.EtagValue | zipfs.go:524 | The CRC-32 XOR the low 32 bits of the compressed size shifted left by 32 equals CRC + (size mod 2^32) * 2^32. |
| Handler.XorDisjoint | zipfs.go:524 | XOR with a value whose bits all lie above those of `a` is addition. |
| Handler.EtagValueLayout | zipfs.go:524 | The ETag value fits 64 bits. Its low 32 bits are the CRC-32 and its high 32 bits the low half of the compressed size. |
| Handler.CalcEtag | zipfs.go:523-528 | The ETag is a non-empty string in double quotes. |
| Handler.EtagReadsBack | zipfs.go:523-528 | Between its quotes, the ETag is hex digits that read back as the ETag value: the CRC-32 in the low 32 bits and the compressed size in the high 32 bits. |
| Handler.EtagIdentifiesCrcAndSize | zipfs.go:523-528 | Two entries have the same ETag exactly when their CRC-32 values and the low 32 bits of their compressed sizes agree. |
| Handler.EtagRendering | zipfs.go:527 | The ETag is the value's lower-case hex digits in double quotes. |
| Strs.ParseFormat | zipfs.go:527 | `strconv.FormatUint` (library model): hex and decimal renderings read back to the number. |
| Strs.FormatUintInjective | zipfs.go:527 | Different numbers render differently. |
| Strs.FormatUint | zipfs.go:527 | The rendering is a non-empty string of digits of the base, with no leading zero except for "0" itself. |
| Handler.RandomDatEtag | zipfs.go:523-528 | A stored entry of 10000 bytes with CRC 6c15f45b has the ETag "27106c15f45b" in quotes. |
| Handler.CircleEtag | zipfs.go:523-528 | For the circle.png record, the ETag is "1296529fb2ff" (from the compressed size 4758), not "1755529fb2ff". |
| Handler.GuessedType | zipfs.go:508-514 | The guessed type is never empty: the type for the extension of the base name, or "application/octet-stream". |
| Handler.ContentTyped | zipfs.go:504-521 | A preset Content-Type keeps its first value. Without one, the guessed type is set. |
| Handler.ContentTypedKeepsOthers | zipfs.go:504-521 | `setContentType` touches no other header key. |
| Handler.CopyN | zipfs.go:438 | The body grows by the first n bytes of the content (all of it if shorter), and the header is untouched. |
| Handler.IdentityServed | zipfs.go:422-440 | `serveIdentity` keeps the ETag header and hands nothing to `ServeContent`. |
| Handler.IdentitySendsContent | zipfs.go:422-440 | A GET of an entry that opens sends its decompressed bytes in full, with 200 unless empty. Content-Length is the uncompressed size, there is no Content-Encoding, and the Content-Type is non-empty. |
| Handler.Pump | zipfs.go:474-501 | The copy loop keeps the ETag and touches no delegation. |
| Handler.DeflateHeader | zipfs.go:454-456 | The deflate header has Content-Encoding "deflate", the compressed size as Content-Length, and keeps the ETag. |
| Handler.DeflateStart | zipfs.go:454-456 | The loop starts from the deflate header with nothing written. |
| Handler.AcceptsDeflate | zipfs.go:443-447 | True exactly when "deflate" occurs anywhere in the first Accept-Encoding value. |
| Handler.DeflateQualityIgnored | zipfs.go:445-447 | "gzip, deflate;q=0" still counts as accepting deflate: the header is not parsed, as the comment in the code admits. |
| Handler.DeflateServed | zipfs.go:442-502 | `serveDeflate` keeps the ETag header and hands nothing to `ServeContent`. |
| Handler.DeflateRefusedIsIdentity | zipfs.go:443-452 | Without "deflate" in Accept-Encoding, `serveDeflate` gives exactly what `serveIdentity` gives. |
| Handler.DeflatedEntryToPlainClient | zipfs.go:410-452 | Such a client's GET of a deflated entry gets the decompressed bytes, the uncompressed size as Content-Length, no Content-Encoding, and the entry's ETag. |
| Handler.IdentityHead | zipfs.go:422-440 | A HEAD on the identity path gets the same header a GET gets, no body, no write and no status. |
| Handler.DeflateHead | zipfs.go:454-459 | A HEAD that accepts deflate gets Content-Encoding deflate and the compressed size, no body, no write and no status, even with the archive closed. |
| Handler.ServedAfterClose | zipfs.go:398-467 | With the archive closed, every request that must read the archive gets a 500 with "file already closed": stored, deflated and Range alike. Only a 304 and a HEAD that accepts deflate are unaffected. |
| Handler.DeflateRoute | zipfs.go:442-474 | A GET from a client that accepts deflate, for an entry with a data offset, runs the copy loop over the compressed size. |
| Handler.DeflateSendsCompressed | zipfs.go:442-502 | With the whole entry inside the archive: exactly the compressed bytes from the data offset, in chunks of at most 32768 bytes, status 200, Content-Encoding deflate, Content-Length the compressed size. |
| Handler.DeflateUnreadable | zipfs.go:485-491 | If the first buffer cannot be read, the client gets a 500 with the read error. |
| Handler.DeflateTruncated | zipfs.go:485-491 | If the archive ends after the first buffer, the whole buffers that fit are sent with 200 and the response stops without an error. |
| Handler.PumpComplete | zipfs.go:474-501 | When the archive holds the remaining bytes, the loop sends exactly them, in order. The header is untouched, and the status is 200 if none was written. |
| Handler.PumpCompleteChunked | zipfs.go:474-501 | Every write of the loop is a non-empty chunk of at most 32768 bytes. |
| Handler.PumpStops | zipfs.go:485-491 | A read that fails ends the loop, with an error response only if nothing was written. |
| Handler.PumpFullBuffer | zipfs.go:474-500 | A buffer the archive holds whole is written, and the loop continues after it. |
| Handler.PumpPrefix | zipfs.go:474-501 | When the archive ends early and something is written, the loop sends the whole buffers that fit and stops without an error. |
| Handler.PumpPrefixChunked | zipfs.go:474-501 | The writes of a loop that stops early are chunks of at most 32768 bytes. |
| Handler.PumpPartial | zipfs.go:474-501 | Whole buffers that fit, from a fresh loop that gets past its first buffer. |
| Handler.FullChunks | buf.go:7 | The bytes that whole buffers cover are at most what is available, and less than one buffer short of it. |
| Handler.FullChunksWhole | buf.go:7 | Those bytes are a multiple of the buffer size. |
| Handler.CopyChunks | zipfs.go:461-501 | The chunk loop gives the response `Pump` describes. |
| Handler.ServeDeflate | zipfs.go:442-502 | `serveDeflate` gives the response `DeflateServed` describes. |
| Handler.StandardServed | zipfs.go:533-573 | Without an error, the entry's bytes, name and time are handed to `ServeContent` and nothing else changes. Any zip or OS error gives a 500. The ETag is kept. |
| Handler.RequestKey | zipfs.go:386-391 | The lookup key is rooted and has no trailing slash unless it is "/". |
| Handler.Served | zipfs.go:385-420 | An unknown path gives a 404 and no delegation. A response is delegated to `ServeContent` only for a known path whose request has a Range header, and it hands over that entry's name, time and bytes. |
| Handler.Tagged | zipfs.go:398 | Sets the ETag to `CalcEtag` of the entry. No other header key, nor the status, body, writes or delegation, changes. |
| Handler.ServedEntry | zipfs.go:398-419 | Delegation happens only for a request with a Range header, an entry that opens and a temporary file that works. It hands over the entry's name, time and bytes. |
| Handler.FileHandler.ServeHTTP | zipfs.go:385-420 | Gives the response `Served` describes, for the archive as open or closed as it is now. |
| Handler.NewHandler | zipfs.go:367-383 | The handler shares the file system's archive, and its map is `HandlerMap` of the archive's entries (see the next two rows). After `Close` there is no handler, because Go panics there. |
| Handler.FileHandler.constructor | zipfs.go:368-371 | The handler holds the file system, the archive bytes and the map it is given. |
| Handler.HandlerMap | zipfs.go:376-380 | Every key is "/" followed by the name of the entry it leads to, and every entry's name with "/" in front is a key. |
| Handler.HandlerMapKeys | zipfs.go:376-380 | A key is in the handler map exactly when some entry has that name with "/" in front. |
| Handler.HandlerMapLast | zipfs.go:376-380 | A key leads to the last entry of that name. |
| Handler.DirectoryEntriesUnreachable | zipfs.go:376-392 | A directory entry's key ends in a slash, which a cleaned request path never does, so it is never served. |
| Handler.RootNeedsEmptyName | zipfs.go:376-392 | "/" is found only if the archive has an entry with an empty name. |
| Handler.ServedLookup | zipfs.go:391-396 | An unknown path gives "404 page not found" as plain text. A known one is served from its entry. |
| Handler.ServedCarriesEtag | zipfs.go:398 | Every response for an entry carries that entry's ETag. |
| Handler.ServedNotModified | zipfs.go:399-402 | A GET or HEAD with If-None-Match equal to the ETag or "*" gets a 304 with no body, no Content-Type and no Content-Length. |
| Handler.ServedWhole | zipfs.go:410-419 | Without conditional headers or Range, the compression method alone chooses the path. |
| Handler.ServedUnsupportedMethod | zipfs.go:417-418 | A compression method other than store and deflate gives a 500 whose message names the method number. |
| Handler.ServedRange | zipfs.go:403-407 | A Range that survives If-Range is delegated to `ServeContent` with the entry's bytes. It gives a 500 instead if the archive is closed, or the entry or the temporary file fails. |
| Paths.Clean | zipfs.go:391 | `path.Clean` (library model): the result is non-empty, rooted exactly when the input is, and has no trailing slash except for "/". |
| Paths.Dir | zipfs.go:148 | `path.Dir` (library model): "." for a name without a slash, and no trailing slash except for "/". |
| Paths.DirOfChild | zipfs.go:148 | `path.Dir` of `d/b` is `d` for a clean relative `d` and a name `b` without a slash. |
| Paths.CleanJoin | zipfs.go:148 | A path joined from plain elements is clean, and cleaning it with one trailing slash only drops the slash. |
| Paths.Base | zipfs.go:168 | `path.Base` (library model): "/" or a string without a slash. |
| Paths.ExtIsSuffix | zipfs.go:508 | `filepath.Ext` (library model) is a suffix of the name. |
| Strs.TrimRightSlash | zipfs.go:147 | `strings.TrimRight(s, "/")` (library model): a prefix of `s` without a trailing slash, and everything cut off is slashes. |
| Strs.TrimLeftSlash | zipfs.go:42 | `strings.TrimLeft(s, "/")` (library model): a suffix of `s` without a leading slash, and everything cut off is slashes. |
| Strs.Contains | zipfs.go:447 | `strings.Contains` (library model): true exactly when the substring occurs at some index. |
| Strs.LessTotal | zipfs.go:118 | `strings.Compare(a, b) < 0` (library model) orders any two different strings one way or the other. |
| Strs.LessTransitive | zipfs.go:118 | That order is transitive. |
| Http.Error | zipfs.go:418 | `http.Error` (library model): sets the status if none was written, appends the message and a newline, sets plain text and nosniff, and drops Content-Length. |
| Http.SetKeepsOthers | zipfs.go:455-456 | `Header.Set` (library model) leaves every other key. |
| Archive.OpenEntry | zipfs.go:427 | `zip.File.Open` (library model): succeeds exactly for an open archive, a readable local header and the store or deflate method, and then yields the entry's bytes. A closed archive gives "file already closed", and an unreadable header a format error. |
| Archive.DataOffset | zipfs.go:463 | `zip.File.DataOffset` (library model): succeeds exactly for an open archive and a readable local header, with the recorded offset. |
| Http.Get | zipfs.go:443 | `Header.Get` (library model): "" for a missing key, otherwise the first value. |
| Http.Set | zipfs.go:455-456 | `Header.Set` (library model): the key holds exactly the new value. |
| Http.Del | check_etag.go:66-67 | `Header.Del` (library model): the key is gone. |
| Http.DelKeepsOthers | check_etag.go:66-67 | `Header.Del` leaves every other key. |
| Http.WriteHeader | check_etag.go:68 | `WriteHeader` (library model): only the first status counts, and nothing else changes. |
| Http.Write | zipfs.go:493 | `Write` (library model): appends the bytes, records one write of that length, and implies status 200 if none was written. |
| Http.NotFound | zipfs.go:394 | `http.NotFound` (library model): status 404 with "404 page not found" and a newline. |
| Common.ToInt64 | zipfs.go:462 | Go's `int64(x)` of a `uint64`: the same value below 2^63, negative from there. |

## Left out

- Archive parsing and OS I/O are not modelled: `os.Open`, `zip.NewReader`, `file.Stat`, the decompressor, `ioutil.TempFile`, `io.Copy` and `os.Remove`. Entries are given as records, and the OS outcome is a parameter (`tempName`, `osFails`, `tempErr`).
- `New` reports an error when the file cannot be opened or parsed; that error path is not modelled. The constructor starts from the entry list.
- Checksum errors that `zip.File.Open` reports at the end of a stream are not modelled. `OpenEntry` fails only on an unreadable header or an unknown method.
- `ReadAt` errors other than the archive ending early (`io.EOF`) are not modelled.
- Client write failures in the deflate loop (zipfs.go:493-497) are not modelled: every `Write` succeeds.
- `http.ServeContent` is not modelled: only the decision to delegate, and what is handed over, is recorded.
- The body `http.NotFound` and `http.Error` write uses the ASCII messages the handler produces. `Utf8` encodes any string, but no other message text is modelled.
- The mutex in `fileInfo` and the buffer pool (buf.go, buf_pool.go) are not modelled. They only matter under concurrency, which the model does not have. The buffer length 32768 is kept.
- `ServeHTTP` writes the rooted path back into `r.URL.Path` (zipfs.go:389). The model does not keep the request after the call.
- `ZipFs.FileReader.Seek`: the close of the stream before seeking (zipfs.go:295-299) is treated as always succeeding.
- `ZipFs.FileSystem.Close`: a read of the closed archive file fails with "file already closed". Go's message also starts with "read " and the archive's path, which the model does not know.
- `Handles.ReadStep`: once the archive is closed, every read of a stream with bytes left fails. In Go a deflate stream may first return bytes its decompressor has buffered.
- `Handles.ReadStep`: a stream at its end reports EOF, even after `Seek` closed it, because Go's `checksumReader` repeats the EOF it got with the last bytes. A deflate decompressor may instead hold that EOF back for one more read. If `Seek` has closed such a stream, Go answers "Read after Close" where the model answers EOF.
- `Handles.ReadAtCursor`: a stream read fills the buffer as far as the data goes, and reports EOF only on a read that returns nothing. Go's decompressor may return fewer bytes, or EOF together with the last bytes. Go reports EOF on any empty-buffer read of a stream at its end, where the model reports nothing.
- `Archive.Entry`: the length of `content` is not tied to `uncompressedSize64`. Go reports a format error at the end of a stream whose length differs; as with checksum errors, that is not modelled.
- `Index.Mode`: the directory bit of an entry is the record's `isDir` field. Go's `zip.FileHeader.Mode` sets it for every name ending in "/"; the model does not force that.
- `Handler.CopyN`: `io.CopyN` is recorded as one write of all the bytes. Go writes in chunks of its own, or through the writer's `ReadFrom`.
- `ZipFs.FileReader.Close`: closing the stream and the temporary file always succeeds, so the method never returns a path error.
- `ZipFs.FileSystem.SortAll`: the Go loop walks the map, reaching a directory twice (under both keys); the model walks the node table once. `Index.BuildRegistered` shows the nodes with children are the ones the map reaches. `sort.Sort` is not stable, so lists with equal base names may end in another order; the model proves only sortedness and permutation.
- `ChildOrder.SortByName`: Go's `sort.Sort` is library code. An insertion sort on the same `Less` stands in for it, with the same promise.
- `Index.ModTime`: the record's `modified` field stands for what `zip.FileHeader.ModTime` returns. That method always decodes the legacy MS-DOS date and time fields and ignores `Modified`. The decoding is not modelled.
- `Strs.Less`: entry names are Unicode strings (`seq<char>`), while Go's are byte strings. UTF-8 byte order agrees with code point order only for valid UTF-8, so the model's order is Go's only for names that are valid UTF-8. Other names are not modelled.
- `Http.Key`: header keys are a datatype, so canonicalisation is not modelled.
- `Http.Error`: the model follows the `http.Error` of current Go, which deletes Content-Length.
- Panics are modelled as outcomes:
  - using the entry of a node without one is the `NilZipFile` error;
  - `newHandler` after `FileSystem.Close` gives a null handler.
- The test expectations in the repository's tests that the code does not meet are not modelled. The model follows the code:
  - `Open` after `FileSystem.Close` succeeds, because `Close` keeps the map (zipfs_test.go:318);
  - "/" is not served, because no entry has an empty name (`Handler.RootNeedsEmptyName`; zipfs_test.go:141-148);
  - the circle.png ETag uses the compressed size (`Handler.CircleEtag`; zipfs_test.go:128);
  - the 301, 403 and Location redirects of file_server_test.go:215-238 do not exist in the handler.
