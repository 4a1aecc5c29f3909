/** `fileHandler` of zipfs.go: the HTTP handler that serves archive entries
    straight from the archive, passing deflated data through unchanged when
    the client accepts it. The response is a value (`Http.Resp`) that each
    step takes and gives back. `mime` stands for `mime.TypeByExtension`,
    `parseTime` for `http.ParseTime`. */
module Handler {
  import opened Common
  import opened Strs
  import opened Paths
  import opened Archive
  import opened Http
  import opened ConditionalRequest
  import ZipFs

  /** Length of the buffers `getBuf` hands out (buf.go:7). */
  const BufSize: nat := 32768

  // ---------------------------------------------------------------------
  // ETag

  function Pow2(k: nat): (r: nat)
    ensures r >= 1
  {
    if k == 0 then 1 else 2 * Pow2(k - 1)
  }

  lemma {:induction false} Pow2Sum(a: nat, b: nat)
    ensures Pow2(a + b) == Pow2(a) * Pow2(b)
    decreases a
  {
    if a != 0 {
      var p, q, pq := Pow2(a - 1), Pow2(b), Pow2(a - 1 + b);
      Pow2Sum(a - 1, b);
      assert pq == p * q;
      assert Pow2(a) == 2 * p;
      assert Pow2(a + b) == 2 * pq;
      assert 2 * (p * q) == (2 * p) * q;
    }
  }

  lemma Pow2Of32()
    ensures Pow2(32) == 0x1_0000_0000
  {
    assert Pow2(4) == 16;
    Pow2Sum(4, 4);
    Pow2Sum(8, 8);
    Pow2Sum(16, 16);
  }

  /** Go's `^` on unsigned integers, bit by bit from the lowest. */
  function Xor(a: nat, b: nat): (r: nat)
    decreases a + b
  {
    if a == 0 && b == 0 then 0 else (if a % 2 == b % 2 then 0 else 1) + 2 * Xor(a / 2, b / 2)
  }

  /** Go's `<< 32` on `uint64`: bits shifted past bit 63 are lost. */
  function ShiftLeft32(x: nat): (r: nat)
    ensures r < TwoTo64
  {
    (x * 0x1_0000_0000) % TwoTo64
  }

  lemma {:induction false} XorZero(b: nat)
    ensures Xor(0, b) == b
    decreases b
  {
    if b != 0 {
      XorZero(b / 2);
    }
  }

  /** XOR with a value whose bits all lie above those of `a` is addition. */
  lemma {:induction false} XorDisjoint(a: nat, b: nat, k: nat)
    requires a < Pow2(k)
    ensures Xor(a, b * Pow2(k)) == a + b * Pow2(k)
    decreases k
  {
    if k == 0 {
      XorZero(b);
    } else {
      var p := Pow2(k - 1);
      var h := b * p;
      assert Pow2(k) == 2 * p;
      assert b * (2 * p) == 2 * h;
      assert a / 2 < p;
      XorDisjoint(a / 2, b, k - 1);
      assert (2 * h) % 2 == 0 && (2 * h) / 2 == h;
      if a != 0 || h != 0 {
        assert Xor(a, 2 * h) == (if a % 2 == 0 then 0 else 1) + 2 * Xor(a / 2, h);
      }
    }
  }

  /** The number the ETag renders (zipfs.go:524): the CRC-32 in the low 32
      bits, the low 32 bits of the compressed size above them. */
  function EtagValue(f: Entry): (v: nat)
    ensures v == f.crc32 + (f.compressedSize64 % 0x1_0000_0000) * 0x1_0000_0000
  {
    var high := f.compressedSize64 % 0x1_0000_0000;
    assert high * 0x1_0000_0000 < TwoTo64 by {
      assert high <= 0xffff_ffff;
      assert high * 0x1_0000_0000 <= 0xffff_ffff * 0x1_0000_0000;
    }
    Pow2Of32();
    assert ShiftLeft32(high) == high * Pow2(32);
    XorDisjoint(f.crc32, high, 32);
    Xor(f.crc32, ShiftLeft32(high))
  }

  /** A 64-bit number built from two 32-bit halves gives them back. */
  lemma Halves(lo: nat, hi: nat)
    requires lo < 0x1_0000_0000 && hi < 0x1_0000_0000
    ensures lo + hi * 0x1_0000_0000 < TwoTo64
    ensures (lo + hi * 0x1_0000_0000) % 0x1_0000_0000 == lo
    ensures (lo + hi * 0x1_0000_0000) / 0x1_0000_0000 == hi
  {
  }

  /** The ETag value keeps the CRC-32 and the low half of the size apart. */
  lemma EtagValueLayout(f: Entry)
    ensures EtagValue(f) < TwoTo64
    ensures EtagValue(f) % 0x1_0000_0000 == f.crc32
    ensures EtagValue(f) / 0x1_0000_0000 == f.compressedSize64 % 0x1_0000_0000
  {
    Halves(f.crc32, f.compressedSize64 % 0x1_0000_0000);
  }

  /** `calcEtag` (zipfs.go:523-528): the ETag value in lower-case hex, quoted. */
  function CalcEtag(f: Entry): (r: string)
    ensures |r| >= 3 && r[0] == '"' && r[|r| - 1] == '"'
  {
    "\"" + Hex(EtagValue(f)) + "\""
  }

  /** Between its quotes the ETag is a string of hex digits that reads back
      as the ETag value. */
  lemma EtagReadsBack(f: Entry)
    ensures var e := CalcEtag(f);
      IsDigits(e[1..|e| - 1], 16) && ParseUint(e[1..|e| - 1], 16) == EtagValue(f)
  {
    var e := CalcEtag(f);
    assert e[1..|e| - 1] == Hex(EtagValue(f));
    ParseFormat(EtagValue(f), 16);
  }

  /** Two entries share an ETag exactly when their CRC-32 and the low 32 bits
      of their compressed sizes agree. */
  lemma EtagIdentifiesCrcAndSize(f: Entry, g: Entry)
    ensures CalcEtag(f) == CalcEtag(g) <==>
      f.crc32 == g.crc32 && f.compressedSize64 % 0x1_0000_0000 == g.compressedSize64 % 0x1_0000_0000
  {
    var vf := EtagValue(f);
    var vg := EtagValue(g);
    if CalcEtag(f) == CalcEtag(g) {
      var rf := CalcEtag(f);
      assert Hex(vf) == Hex(vg) by {
        assert rf[1..|rf| - 1] == Hex(vf);
        assert CalcEtag(g)[1..|rf| - 1] == Hex(vg);
      }
      FormatUintInjective(vf, vg, 16);
      EtagValueLayout(f);
      EtagValueLayout(g);
    }
  }

  /** Appending a digit to a number appends it to its hex rendering. */
  lemma HexAppend(n: nat, s: string, d: nat)
    requires 1 <= n && d < 16 && Hex(n) == s
    ensures Hex(16 * n + d) == s + [DigitChars[d]]
  {
    var m := 16 * n + d;
    assert m / 16 == n && m % 16 == d;
    DivMod(m, 16);
    assert Hex(m) == FormatUint(m / 16, 16) + [DigitChars[m % 16]];
  }

  /** A number below 16 renders as its digit. */
  lemma HexOfDigit(d: nat)
    requires d < 16
    ensures Hex(d) == [DigitChars[d]]
  {
    DivMod(d, 16);
  }

  lemma HexOf271()
    ensures Hex(0x271) == "271"
  {
    HexOfDigit(0x2);
    HexAppend(0x2, "2", 0x7);
    HexAppend(0x27, "27", 0x1);
  }

  lemma HexOfRandomDatHigh()
    ensures Hex(0x27106c) == "27106c"
  {
    HexOf271();
    HexAppend(0x271, "271", 0x0);
    HexAppend(0x2710, "2710", 0x6);
    HexAppend(0x27106, "27106", 0xc);
  }

  lemma HexOfRandomDatMiddle()
    ensures Hex(0x27106c15f) == "27106c15f"
  {
    HexOfRandomDatHigh();
    HexAppend(0x27106c, "27106c", 0x1);
    HexAppend(0x27106c1, "27106c1", 0x5);
    HexAppend(0x27106c15, "27106c15", 0xf);
  }

  lemma HexOfRandomDat()
    ensures Hex(0x27106c15f45b) == "27106c15f45b"
  {
    HexOfRandomDatMiddle();
    HexAppend(0x27106c15f, "27106c15f", 0x4);
    HexAppend(0x27106c15f4, "27106c15f4", 0x5);
    HexAppend(0x27106c15f45, "27106c15f45", 0xb);
  }

  lemma HexOf129()
    ensures Hex(0x129) == "129"
  {
    HexOfDigit(0x1);
    HexAppend(0x1, "1", 0x2);
    HexAppend(0x12, "12", 0x9);
  }

  lemma HexOfCircleHigh()
    ensures Hex(0x129652) == "129652"
  {
    HexOf129();
    HexAppend(0x129, "129", 0x6);
    HexAppend(0x1296, "1296", 0x5);
    HexAppend(0x12965, "12965", 0x2);
  }

  lemma HexOfCircleMiddle()
    ensures Hex(0x1296529fb) == "1296529fb"
  {
    HexOfCircleHigh();
    HexAppend(0x129652, "129652", 0x9);
    HexAppend(0x1296529, "1296529", 0xf);
    HexAppend(0x1296529f, "1296529f", 0xb);
  }

  lemma HexOfCircle()
    ensures Hex(0x1296529fb2ff) == "1296529fb2ff"
  {
    HexOfCircleMiddle();
    HexAppend(0x1296529fb, "1296529fb", 0x2);
    HexAppend(0x1296529fb2, "1296529fb2", 0xf);
    HexAppend(0x1296529fb2f, "1296529fb2f", 0xf);
  }

  lemma EtagRendering(f: Entry, v: nat, hex: string)
    requires f.crc32 + (f.compressedSize64 % 0x1_0000_0000) * 0x1_0000_0000 == v && Hex(v) == hex
    ensures CalcEtag(f) == "\"" + hex + "\""
  {
  }

  /** The ETag of the archive's random.dat: stored, 10000 bytes, CRC-32
      6c15f45b (zipfs_test.go:176). */
  lemma RandomDatEtag(f: Entry)
    requires f.crc32 == 0x6c15f45b && f.compressedSize64 == 10000
    ensures CalcEtag(f) == "\"27106c15f45b\""
  {
    assert f.compressedSize64 % 0x1_0000_0000 == 10000;
    assert f.crc32 + 10000 * 0x1_0000_0000 == 0x27106c15f45b;
    HexOfRandomDat();
    EtagRendering(f, 0x27106c15f45b, "27106c15f45b");
    assert "\"" + "27106c15f45b" + "\"" == "\"27106c15f45b\"";
  }

  /** circle.png is deflated from 5973 to 4758 bytes (0x1296) with CRC-32
      529fb2ff; its ETag renders those two values. */
  lemma CircleEtagText(f: Entry)
    requires f.crc32 == 0x529fb2ff && f.compressedSize64 == 4758
    ensures CalcEtag(f) == "\"1296529fb2ff\""
  {
    assert f.compressedSize64 % 0x1_0000_0000 == 4758;
    assert f.crc32 + 4758 * 0x1_0000_0000 == 0x1296529fb2ff;
    HexOfCircle();
    EtagRendering(f, 0x1296529fb2ff, "1296529fb2ff");
    assert "\"" + "1296529fb2ff" + "\"" == "\"1296529fb2ff\"";
  }

  /** The ETag takes the compressed size, so for circle.png it reads
      "1296529fb2ff", not the "1755529fb2ff" built from the uncompressed size
      (zipfs_test.go:128). */
  lemma CircleEtag(f: Entry)
    requires f.crc32 == 0x529fb2ff && f.compressedSize64 == 4758 && f.uncompressedSize64 == 5973
    ensures CalcEtag(f) == "\"1296529fb2ff\""
    ensures CalcEtag(f) != "\"1755529fb2ff\""
  {
    CircleEtagText(f);
    var etag := CalcEtag(f);
    assert etag[2] == '2' != "\"1755529fb2ff\""[2];
  }

  // ---------------------------------------------------------------------
  // Response bodies

  /** The text of the error `ReadAt` reports when the archive ends before the
      requested bytes (`io.EOF`). */
  const ReadAtErrorText: string := "EOF"

  /** What `mime.TypeByExtension` makes of the file's extension, or
      "application/octet-stream" when it knows nothing. */
  function GuessedType(filename: string, mime: string -> string): (t: string)
    ensures t != ""
  {
    var ctype := mime(Ext(Base(filename)));
    if ctype == "" then "application/octet-stream" else ctype
  }

  /** `setContentType` (zipfs.go:504-521): a preset Content-Type is kept
      (only its first value), otherwise the type is guessed from the name. */
  function ContentTyped(h: Header, filename: string, mime: string -> string): (r: Header)
    ensures ContentType in h ==> Get(r, ContentType) == Get(h, ContentType)
    ensures ContentType !in h ==> ContentType in r && r[ContentType] == [GuessedType(filename, mime)]
  {
    var ctype :=
      if ContentType !in h then GuessedType(filename, mime)
      else if h[ContentType] != [] then h[ContentType][0]
      else "";
    if ctype != "" then Set(h, ContentType, ctype) else h
  }

  /** `setContentType` touches no header key but Content-Type. */
  lemma ContentTypedKeepsOthers(h: Header, filename: string, mime: string -> string, k: Key)
    requires k != ContentType
    ensures k in ContentTyped(h, filename, mime) <==> k in h
    ensures k in h ==> ContentTyped(h, filename, mime)[k] == h[k]
  {
  }

  /** `io.CopyN(w, reader, n)` from a stream of `content`. */
  function CopyN(w: Resp, content: seq<byte>, n: int): (r: Resp)
    ensures r.header == w.header && r.delegated == w.delegated
    ensures n <= 0 ==> r == w
    ensures n >= 0 ==> r.body == w.body + content[..Min(n, |content|)]
  {
    var k := if n <= 0 then 0 else Min(n, |content|);
    if k == 0 then w else Write(w, content[..k])
  }

  /** `serveIdentity` (zipfs.go:422-440): the decompressed entry, with its
      uncompressed size as Content-Length and no Content-Encoding. The entry
      is opened first, even for HEAD, so it needs the archive file open
      (`open`). */
  function IdentityServed(w: Resp, req: Request, f: Entry, open: bool, mime: string -> string): (r: Resp)
    ensures Get(r.header, Etag) == Get(w.header, Etag) && r.delegated == w.delegated
  {
    match OpenEntry(f, open)
    case ZipErr(e) => Error(w, ZipErrorText(e), StatusInternalServerError)
    case ZipOk(content) =>
      var typed := ContentTyped(w.header, f.name, mime);
      var plain := Del(typed, ContentEncoding);
      var h := Set(plain, ContentLength, Decimal(f.uncompressedSize64));
      ContentTypedKeepsOthers(w.header, f.name, mime, Etag);
      DelKeepsOthers(typed, ContentEncoding, Etag);
      SetKeepsOthers(plain, ContentLength, Decimal(f.uncompressedSize64), Etag);
      var w1 := w.(header := h);
      if req.verb != "HEAD" then CopyN(w1, content, ToInt64(f.uncompressedSize64)) else w1
  }

  /** The loop of `serveDeflate` (zipfs.go:474-501) from `offset` with
      `remaining` bytes to go and `written` sent so far: chunks of at most
      `BufSize` bytes are read from the archive and written; a failed read
      ends the loop, with an error response only if nothing was sent. */
  function Pump(w: Resp, archive: seq<byte>, offset: nat, remaining: int, written: nat): (r: Resp)
    ensures Get(r.header, Etag) == Get(w.header, Etag) && r.delegated == w.delegated
    decreases remaining
  {
    if remaining <= 0 then w
    else
      var size := Min(BufSize, remaining);
      if offset + size > |archive| then
        if written == 0 then Error(w, ReadAtErrorText, StatusInternalServerError) else w
      else Pump(Write(w, archive[offset..offset + size]), archive, offset + size, remaining - size, written + size)
  }

  /** The client names deflate in Accept-Encoding (zipfs.go:443-447): the
      word anywhere in the first value, with no parsing of the header. */
  function AcceptsDeflate(req: Request): (b: bool)
    ensures b <==> exists i :: OccursAt(Get(req.header, AcceptEncoding), "deflate", i)
  {
    Contains(Get(req.header, AcceptEncoding), "deflate")
  }

  /** A client that rules deflate out with a zero quality value still gets
      the deflate path, as the Go code's own TODO concedes. */
  lemma DeflateQualityIgnored(req: Request)
    requires Get(req.header, AcceptEncoding) == "gzip, deflate;q=0"
    ensures AcceptsDeflate(req)
  {
    assert OccursAt(Get(req.header, AcceptEncoding), "deflate", 6);
  }

  /** The header `serveDeflate` sets before copying (zipfs.go:449-451). */
  function DeflateHeader(h: Header, f: Entry, mime: string -> string): (r: Header)
    ensures Get(r, ContentEncoding) == "deflate" && Get(r, ContentLength) == Decimal(f.compressedSize64)
    ensures Get(r, Etag) == Get(h, Etag)
  {
    var typed := ContentTyped(h, f.name, mime);
    var encoded := Set(typed, ContentEncoding, "deflate");
    var r := Set(encoded, ContentLength, Decimal(f.compressedSize64));
    ContentTypedKeepsOthers(h, f.name, mime, Etag);
    SetKeepsOthers(typed, ContentEncoding, "deflate", Etag);
    SetKeepsOthers(encoded, ContentLength, Decimal(f.compressedSize64), Etag);
    SetKeepsOthers(encoded, ContentLength, Decimal(f.compressedSize64), ContentEncoding);
    assert Get(r, Etag) == Get(encoded, Etag) == Get(typed, Etag);
    r
  }

  /** The response the deflate copy loop starts from: nothing written yet,
      under the deflate header. */
  function DeflateStart(w: Resp, f: Entry, mime: string -> string): (w1: Resp)
    ensures w1.body == w.body && w1.writes == w.writes && w1.status == w.status && w1.delegated == w.delegated
    ensures Get(w1.header, ContentEncoding) == "deflate"
    ensures Get(w1.header, ContentLength) == Decimal(f.compressedSize64)
    ensures Get(w1.header, Etag) == Get(w.header, Etag)
  {
    w.(header := DeflateHeader(w.header, f, mime))
  }

  /** `serveDeflate` (zipfs.go:442-502). `readerAt` is the raw archive and
      `open` says whether the archive file is still open; a HEAD is answered
      from the header alone, before the archive is read. */
  function DeflateServed(w: Resp, req: Request, f: Entry, readerAt: seq<byte>, open: bool, mime: string -> string): (r: Resp)
    ensures Get(r.header, Etag) == Get(w.header, Etag) && r.delegated == w.delegated
  {
    if !AcceptsDeflate(req) then IdentityServed(w, req, f, open, mime)
    else
      var w1 := DeflateStart(w, f, mime);
      if req.verb == "HEAD" then w1
      else match DataOffset(f, open)
        case ZipErr(e) => Error(w1, ZipErrorText(e), StatusInternalServerError)
        case ZipOk(offset) => Pump(w1, readerAt, offset, ToInt64(f.compressedSize64), 0)
  }

  /** `serveStandard` and `createTempFile` (zipfs.go:533-573): the entry is
      extracted to a temporary file and handed to `http.ServeContent`.
      `tempErr` is the error the OS reports, if any, while creating,
      filling or rewinding the temporary file. */
  function StandardServed(w: Resp, f: Entry, open: bool, tempErr: Option<string>): (r: Resp)
    ensures OpenEntry(f, open).ZipOk? && tempErr.None? ==> r == w.(delegated := Some(Delegation(f.name, f.modified, f.content)))
    ensures OpenEntry(f, open).ZipErr? || tempErr.Some? ==> r.delegated == w.delegated && r.status == (if w.status == 0 then StatusInternalServerError else w.status)
    ensures Get(r.header, Etag) == Get(w.header, Etag)
  {
    match OpenEntry(f, open)
    case ZipErr(e) => Error(w, ZipErrorText(e), StatusInternalServerError)
    case ZipOk(content) =>
      match tempErr
      case Some(msg) => Error(w, msg, StatusInternalServerError)
      case None => w.(delegated := Some(Delegation(f.name, f.modified, content)))
  }

  /** The key `ServeHTTP` looks up: the URL path, rooted, then cleaned. */
  function RequestKey(req: Request): (k: string)
    ensures k != [] && k[0] == '/'
    ensures k == "/" || k[|k| - 1] != '/'
  {
    var upath := if HasPrefix(req.path, "/") then req.path else "/" + req.path;
    Clean(upath)
  }

  /** `fileHandler.ServeHTTP` (zipfs.go:385-420) with handler map `m`, over
      an archive file whose bytes are `readerAt` and which is still open when
      `open` holds. */
  function Served(m: map<string, Entry>, readerAt: seq<byte>, open: bool, w: Resp, req: Request,
                  parseTime: string -> Option<Time>, mime: string -> string, tempErr: Option<string>): (r: Resp)
    ensures RequestKey(req) !in m ==> r.delegated == w.delegated && r.status == (if w.status == 0 then StatusNotFound else w.status)
    ensures r.delegated != w.delegated ==>
      var f := m[RequestKey(req)];
      && RequestKey(req) in m && Get(req.header, Range) != ""
      && r.delegated == Some(Delegation(f.name, f.modified, f.content))
  {
    var upath := RequestKey(req);
    if upath !in m then NotFound(w) else ServedEntry(m[upath], readerAt, open, w, req, parseTime, mime, tempErr)
  }

  /** The response `ServedEntry` starts from: the entry's ETag is set. */
  function Tagged(w: Resp, f: Entry): (r: Resp)
    ensures Get(r.header, Etag) == CalcEtag(f)
    ensures r.status == w.status && r.body == w.body && r.writes == w.writes && r.delegated == w.delegated
    ensures forall k :: k != Etag ==> (k in r.header <==> k in w.header) && (k in w.header ==> r.header[k] == w.header[k])
  {
    w.(header := Set(w.header, Etag, CalcEtag(f)))
  }

  /** The part of `ServeHTTP` after the entry `f` is found (zipfs.go:398-419). */
  function ServedEntry(f: Entry, readerAt: seq<byte>, open: bool, w: Resp, req: Request,
                       parseTime: string -> Option<Time>, mime: string -> string, tempErr: Option<string>): (r: Resp)
    ensures r.delegated != w.delegated ==>
      && Get(req.header, Range) != "" && OpenEntry(f, open).ZipOk? && tempErr.None?
      && r.delegated == Some(Delegation(f.name, f.modified, f.content))
  {
    var d := CheckETag(Tagged(w, f), req, f.modified, parseTime);
    if d.done then d.resp
    else if d.rangeReq != "" then StandardServed(d.resp, f, open, tempErr)
    else if f.compression == Store then IdentityServed(d.resp, req, f, open, mime)
    else if f.compression == Deflate then DeflateServed(d.resp, req, f, readerAt, open, mime)
    else Error(d.resp, "unsupported zip method: " + Decimal(f.compression), StatusInternalServerError)
  }

  // ---------------------------------------------------------------------
  // The handler

  /** The map `newHandler` builds: every entry under "/" + its name, a later
      entry replacing an earlier one of the same name. */
  function HandlerMap(files: seq<Entry>): (m: map<string, Entry>)
    ensures forall k :: k in m ==> k == "/" + m[k].name
    ensures forall i :: 0 <= i < |files| ==> "/" + files[i].name in m
  {
    if files == [] then map[]
    else HandlerMap(files[..|files| - 1])["/" + files[|files| - 1].name := files[|files| - 1]]
  }

  class FileHandler {
    /** The raw archive file. */
    const readerAt: seq<byte>
    const m: map<string, Entry>
    /** The file system the handler was made from. Go's handler shares its
        `os.File`, so it sees `fs.Close` close that file. */
    const fs: ZipFs.FileSystem

    constructor (fs: ZipFs.FileSystem, readerAt: seq<byte>, m: map<string, Entry>)
      ensures this.fs == fs && this.readerAt == readerAt && this.m == m
    {
      this.fs := fs;
      this.readerAt := readerAt;
      this.m := m;
    }

    /** `ServeHTTP` (zipfs.go:385-420) on response `w`. */
    method ServeHTTP(w: Resp, req: Request, parseTime: string -> Option<Time>, mime: string -> string, tempErr: Option<string>)
      returns (r: Resp)
      ensures r == Served(m, readerAt, fs.archiveOpen, w, req, parseTime, mime, tempErr)
    {
      var upath := req.path;
      if !HasPrefix(upath, "/") {
        upath := "/" + upath;
      }
      upath := Clean(upath);
      if upath !in m {
        return NotFound(w);
      }
      var f := m[upath];
      r := w.(header := Set(w.header, Etag, CalcEtag(f)));
      var d := CheckETag(r, req, f.modified, parseTime);
      r := d.resp;
      if d.done {
        return;
      }
      if d.rangeReq != "" {
        return StandardServed(r, f, fs.archiveOpen, tempErr);
      }
      if f.compression == Store {
        r := IdentityServed(r, req, f, fs.archiveOpen, mime);
      } else if f.compression == Deflate {
        r := ServeDeflate(r, req, f, readerAt, fs.archiveOpen, mime);
      } else {
        r := Error(r, "unsupported zip method: " + Decimal(f.compression), StatusInternalServerError);
      }
    }
  }

  /** `newHandler` (zipfs.go:367-383). After `FileSystem.Close` the archive
      reader is nil and Go panics; that outcome is `null` here. */
  method NewHandler(fs: ZipFs.FileSystem) returns (h: FileHandler?)
    ensures h == null <==> !fs.archiveOpen
    ensures h != null ==> h.fs == fs && h.readerAt == fs.readerAt && h.m == HandlerMap(fs.files)
  {
    if !fs.archiveOpen {
      return null;
    }
    var m := map[];
    var i := 0;
    while i < |fs.files|
      invariant 0 <= i <= |fs.files|
      invariant m == HandlerMap(fs.files[..i])
    {
      var f := fs.files[i];
      m := m["/" + f.name := f];
      assert fs.files[..i + 1][..i] == fs.files[..i];
      i := i + 1;
    }
    assert fs.files[..i] == fs.files;
    h := new FileHandler(fs, fs.readerAt, m);
  }

  /** `serveDeflate` (zipfs.go:442-502): the deflated bytes are copied from
      the archive to the client without being decompressed. */
  method ServeDeflate(w: Resp, req: Request, f: Entry, readerAt: seq<byte>, open: bool, mime: string -> string) returns (r: Resp)
    ensures r == DeflateServed(w, req, f, readerAt, open, mime)
  {
    var acceptEncoding := Get(req.header, AcceptEncoding);
    var acceptsDeflate := Contains(acceptEncoding, "deflate");
    if !acceptsDeflate {
      return IdentityServed(w, req, f, open, mime);
    }
    var h := ContentTyped(w.header, f.name, mime);
    h := Set(h, ContentEncoding, "deflate");
    h := Set(h, ContentLength, Decimal(f.compressedSize64));
    r := w.(header := h);
    if req.verb == "HEAD" {
      return;
    }
    var remaining := ToInt64(f.compressedSize64);
    var offset := DataOffset(f, open);
    if offset.ZipErr? {
      return Error(r, ZipErrorText(offset.error), StatusInternalServerError);
    }
    r := CopyChunks(r, readerAt, offset.value, remaining);
  }

  /** The chunk loop of `serveDeflate` (zipfs.go:461-501), from a fresh
      `written` count. */
  method CopyChunks(w: Resp, readerAt: seq<byte>, dataOffset: nat, size64: int) returns (r: Resp)
    ensures r == Pump(w, readerAt, dataOffset, size64, 0)
  {
    r := w;
    var written: nat := 0;
    var remaining := size64;
    var offset: nat := dataOffset;
    while remaining > 0
      invariant Pump(r, readerAt, offset, remaining, written) == Pump(w, readerAt, dataOffset, size64, 0)
      decreases remaining
    {
      var size := BufSize;
      if size > remaining {
        size := remaining;
      }
      if offset + size > |readerAt| {
        if written == 0 {
          r := Error(r, ReadAtErrorText, StatusInternalServerError);
        }
        return;
      }
      var b := readerAt[offset..offset + size];
      r := Write(r, b);
      written := written + size;
      remaining := remaining - size;
      offset := offset + size;
    }
  }

  // ---------------------------------------------------------------------
  // Properties of the chunk loop

  /** The bytes that whole buffers cover in `avail` bytes. */
  function FullChunks(avail: int): (k: nat)
    ensures avail >= 0 ==> k <= avail < k + BufSize
    ensures avail < BufSize ==> k == 0
    decreases avail
  {
    if avail < BufSize then 0 else BufSize + FullChunks(avail - BufSize)
  }

  /** The bytes of `FullChunks` make up whole buffers. */
  lemma {:induction false} FullChunksWhole(avail: int)
    ensures FullChunks(avail) % BufSize == 0
    decreases avail
  {
    if avail >= BufSize {
      FullChunksWhole(avail - BufSize);
    }
  }

  /** Every write the loop adds is a non-empty chunk of at most `BufSize` bytes. */
  predicate ChunkedAfter(w: Resp, r: Resp)
  {
    && |w.writes| <= |r.writes| && r.writes[..|w.writes|] == w.writes
    && forall i :: |w.writes| <= i < |r.writes| ==> 0 < r.writes[i] <= BufSize
  }

  /** When the archive holds all `remaining` bytes from `offset`, the loop
      sends exactly those bytes, in order, in chunks no longer than the
      buffer, and touches no header. */
  lemma {:induction false} PumpComplete(w: Resp, archive: seq<byte>, offset: nat, remaining: int, written: nat)
    requires 0 <= remaining && offset + remaining <= |archive|
    ensures var r := Pump(w, archive, offset, remaining, written);
      && r.header == w.header && r.delegated == w.delegated
      && r.body == w.body + archive[offset..offset + remaining]
      && r.status == (if remaining > 0 && w.status == 0 then StatusOK else w.status)
    decreases remaining
  {
    if remaining > 0 {
      var size := Min(BufSize, remaining);
      var w1 := Write(w, archive[offset..offset + size]);
      PumpComplete(w1, archive, offset + size, remaining - size, written + size);
      assert archive[offset..offset + size] + archive[offset + size..offset + remaining] == archive[offset..offset + remaining];
    }
  }

  /** The writes of `PumpComplete` are buffers no longer than `BufSize`. */
  lemma {:induction false} PumpCompleteChunked(w: Resp, archive: seq<byte>, offset: nat, remaining: int, written: nat)
    requires 0 <= remaining && offset + remaining <= |archive|
    ensures ChunkedAfter(w, Pump(w, archive, offset, remaining, written))
    decreases remaining
  {
    if remaining > 0 {
      var size := Min(BufSize, remaining);
      var w1 := Write(w, archive[offset..offset + size]);
      PumpCompleteChunked(w1, archive, offset + size, remaining - size, written + size);
      var r := Pump(w1, archive, offset + size, remaining - size, written + size);
      assert r.writes[..|w.writes|] == w.writes by {
        assert r.writes[..|w1.writes|][..|w.writes|] == w.writes;
      }
    }
  }

  /** When the next buffer cannot be read whole, the loop stops: the client
      gets an error response only when nothing has been written yet. */
  lemma PumpStops(w: Resp, archive: seq<byte>, offset: nat, remaining: int, written: nat)
    requires 0 < remaining && offset + remaining > |archive| && |archive| < offset + BufSize
    ensures Pump(w, archive, offset, remaining, written)
      == if written == 0 then Error(w, ReadAtErrorText, StatusInternalServerError) else w
  {
  }

  /** A buffer the archive holds whole is read and written, and the loop
      goes on after it. */
  lemma PumpFullBuffer(w: Resp, archive: seq<byte>, offset: nat, remaining: int, written: nat)
    requires BufSize < remaining && offset + BufSize <= |archive|
    ensures Pump(w, archive, offset, remaining, written)
      == Pump(Write(w, archive[offset..offset + BufSize]), archive, offset + BufSize, remaining - BufSize, written + BufSize)
  {
  }

  /** When the archive ends before `remaining` bytes from `offset` and
      something has been or will be written, the loop sends the whole
      buffers that fit, in order, and stops without an error. */
  lemma {:induction false} PumpPrefix(w: Resp, archive: seq<byte>, offset: nat, remaining: int, written: nat)
    requires offset <= |archive| < offset + remaining
    requires written > 0 || offset + BufSize <= |archive|
    ensures var r := Pump(w, archive, offset, remaining, written);
      var k := FullChunks(|archive| - offset);
      && r.header == w.header
      && r.body == w.body + archive[offset..offset + k]
      && r.status == (if k > 0 && w.status == 0 then StatusOK else w.status)
    decreases remaining
  {
    if offset + BufSize <= |archive| {
      var k := FullChunks(|archive| - offset);
      var w1 := Write(w, archive[offset..offset + BufSize]);
      PumpFullBuffer(w, archive, offset, remaining, written);
      PumpPrefix(w1, archive, offset + BufSize, remaining - BufSize, written + BufSize);
      assert k == BufSize + FullChunks(|archive| - (offset + BufSize));
      var head, rest := archive[offset..offset + BufSize], archive[offset + BufSize..offset + k];
      assert Pump(w1, archive, offset + BufSize, remaining - BufSize, written + BufSize).body == (w.body + head) + rest;
      assert head + rest == archive[offset..offset + k];
      assert (w.body + head) + rest == w.body + (head + rest);
    } else {
      PumpStops(w, archive, offset, remaining, written);
      assert archive[offset..offset] == [];
    }
  }

  /** The writes of `PumpPrefix` are buffers no longer than `BufSize`. */
  lemma {:induction false} PumpPrefixChunked(w: Resp, archive: seq<byte>, offset: nat, remaining: int, written: nat)
    requires offset <= |archive| < offset + remaining
    requires written > 0 || offset + BufSize <= |archive|
    ensures ChunkedAfter(w, Pump(w, archive, offset, remaining, written))
    decreases remaining
  {
    if offset + BufSize <= |archive| {
      var w1 := Write(w, archive[offset..offset + BufSize]);
      PumpPrefixChunked(w1, archive, offset + BufSize, remaining - BufSize, written + BufSize);
      var r := Pump(w1, archive, offset + BufSize, remaining - BufSize, written + BufSize);
      assert r.writes[..|w.writes|] == w.writes by {
        assert r.writes[..|w1.writes|][..|w.writes|] == w.writes;
      }
    }
  }

  /** When the archive ends inside the entry but after its first buffer, the
      loop sends the whole buffers that fit, in order, and stops there. */
  lemma PumpPartial(w: Resp, archive: seq<byte>, offset: nat, remaining: int)
    requires 0 < remaining && offset + remaining > |archive| >= offset + BufSize
    ensures var r := Pump(w, archive, offset, remaining, 0);
      var k := FullChunks(|archive| - offset);
      && 0 < k < remaining && offset + k <= |archive|
      && r.body == w.body + archive[offset..offset + k]
      && ChunkedAfter(w, r)
      && r.status == (if w.status == 0 then StatusOK else w.status)
  {
    PumpPrefix(w, archive, offset, remaining, 0);
    PumpPrefixChunked(w, archive, offset, remaining, 0);
  }

  // ---------------------------------------------------------------------
  // Properties of the handler map

  lemma RootedNameInjective(a: string, b: string)
    ensures "/" + a == "/" + b ==> a == b
  {
    if "/" + a == "/" + b {
      assert a == ("/" + a)[1..];
    }
  }

  /** A key is in the handler map exactly when some entry has that name. */
  lemma {:induction false} HandlerMapKeys(files: seq<Entry>, key: string)
    ensures key in HandlerMap(files) <==> exists i :: 0 <= i < |files| && key == "/" + files[i].name
  {
    if files != [] {
      var n := |files| - 1;
      var pre := files[..n];
      HandlerMapKeys(pre, key);
      assert HandlerMap(files) == HandlerMap(pre)["/" + files[n].name := files[n]];
      if key in HandlerMap(pre) {
        var i :| 0 <= i < |pre| && key == "/" + pre[i].name;
        assert files[i] == pre[i];
      }
      if exists i :: 0 <= i < |files| && key == "/" + files[i].name {
        var i :| 0 <= i < |files| && key == "/" + files[i].name;
        if i < n { assert pre[i] == files[i]; }
      }
    }
  }

  /** A key leads to the last entry of that name. */
  lemma {:induction false} HandlerMapLast(files: seq<Entry>, i: nat)
    requires i < |files| && forall j :: i < j < |files| ==> files[j].name != files[i].name
    ensures "/" + files[i].name in HandlerMap(files) && HandlerMap(files)["/" + files[i].name] == files[i]
  {
    var n := |files| - 1;
    var pre := files[..n];
    assert HandlerMap(files) == HandlerMap(pre)["/" + files[n].name := files[n]];
    if i < n {
      RootedNameInjective(files[i].name, files[n].name);
      assert pre[i] == files[i];
      forall j | i < j < |pre| ensures pre[j].name != pre[i].name { assert pre[j] == files[j]; }
      HandlerMapLast(pre, i);
    }
  }

  /** Directory entries ("img/") are in the map under a key with a trailing
      slash, which a cleaned request path never has: they are never served. */
  lemma DirectoryEntriesUnreachable(files: seq<Entry>, req: Request, i: nat)
    requires i < |files| && HasSuffix(files[i].name, "/")
    ensures RequestKey(req) != "/" + files[i].name
  {
    var key := "/" + files[i].name;
    assert key[|key| - 1] == '/';
    assert |key| >= 2;
  }

  /** A request for the root finds an entry only if the archive has an entry
      with an empty name. */
  lemma RootNeedsEmptyName(files: seq<Entry>, req: Request)
    requires RequestKey(req) == "/"
    ensures RequestKey(req) in HandlerMap(files) <==> exists i :: 0 <= i < |files| && files[i].name == ""
  {
    HandlerMapKeys(files, "/");
    if exists i :: 0 <= i < |files| && "/" == "/" + files[i].name {
      var i :| 0 <= i < |files| && "/" == "/" + files[i].name;
      assert |files[i].name| == 0;
    }
    if exists i :: 0 <= i < |files| && files[i].name == "" {
      var i :| 0 <= i < |files| && files[i].name == "";
      assert "/" == "/" + files[i].name;
    }
  }

  // ---------------------------------------------------------------------
  // Properties of ServeHTTP

  /** A path the map does not hold gets "404 page not found"; any other is
      served from the entry the map holds for it. */
  lemma ServedLookup(m: map<string, Entry>, readerAt: seq<byte>, open: bool, w: Resp, req: Request,
                     parseTime: string -> Option<Time>, mime: string -> string, tempErr: Option<string>)
    requires w.status == 0
    ensures var r := Served(m, readerAt, open, w, req, parseTime, mime, tempErr);
      if RequestKey(req) !in m then
        && r.status == StatusNotFound && r.body == w.body + Utf8(NotFoundText + "\n")
        && Get(r.header, ContentType) == "text/plain; charset=utf-8"
      else r == ServedEntry(m[RequestKey(req)], readerAt, open, w, req, parseTime, mime, tempErr)
  {
  }

  /** Every response for an entry carries that entry's ETag. */
  lemma ServedCarriesEtag(f: Entry, readerAt: seq<byte>, open: bool, w: Resp, req: Request,
                          parseTime: string -> Option<Time>, mime: string -> string, tempErr: Option<string>)
    ensures Get(ServedEntry(f, readerAt, open, w, req, parseTime, mime, tempErr).header, Etag) == CalcEtag(f)
  {
    var d := CheckETag(Tagged(w, f), req, f.modified, parseTime);
    if d.done {
      assert Get(d.resp.header, Etag) == Get(Tagged(w, f).header, Etag);
    }
  }

  /** A GET or HEAD whose If-None-Match is the entry's ETag (or "*") gets
      304 with no body, Content-Type or Content-Length. */
  lemma ServedNotModified(f: Entry, readerAt: seq<byte>, open: bool, w: Resp, req: Request,
                          parseTime: string -> Option<Time>, mime: string -> string, tempErr: Option<string>)
    requires w.status == 0
    requires req.verb == "GET" || req.verb == "HEAD"
    requires var inm := Get(req.header, IfNoneMatch); inm == CalcEtag(f) || inm == "*"
    ensures var r := ServedEntry(f, readerAt, open, w, req, parseTime, mime, tempErr);
      && r.status == StatusNotModified && r.body == w.body && r.writes == w.writes
      && ContentType !in r.header && ContentLength !in r.header
  {
  }

  /** The whole-entry cases need no conditional header and no Range. */
  predicate Unconditional(req: Request)
  {
    Get(req.header, IfNoneMatch) == "" && Get(req.header, Range) == ""
  }

  /** Without conditional headers or Range, `ServeHTTP` goes straight to the
      switch on the compression method. */
  lemma ServedWhole(f: Entry, readerAt: seq<byte>, open: bool, w: Resp, req: Request,
                    parseTime: string -> Option<Time>, mime: string -> string, tempErr: Option<string>)
    requires Unconditional(req)
    ensures var r := ServedEntry(f, readerAt, open, w, req, parseTime, mime, tempErr);
      && (f.compression == Store ==> r == IdentityServed(Tagged(w, f), req, f, open, mime))
      && (f.compression == Deflate ==> r == DeflateServed(Tagged(w, f), req, f, readerAt, open, mime))
      && (f.compression != Store && f.compression != Deflate ==>
            r == Error(Tagged(w, f), "unsupported zip method: " + Decimal(f.compression), StatusInternalServerError))
  {
    assert CheckETag(Tagged(w, f), req, f.modified, parseTime) == Decision("", false, Tagged(w, f));
  }

  /** `serveIdentity` on a GET of an entry that opens: the decompressed
      bytes in full, with the uncompressed size as Content-Length, no
      Content-Encoding and a non-empty Content-Type. */
  lemma IdentitySendsContent(w: Resp, req: Request, f: Entry, mime: string -> string)
    requires w.status == 0 && req.verb == "GET"
    requires f.compression == Store || f.compression == Deflate
    requires f.dataOffset.Some? && |f.content| == f.uncompressedSize64 < TwoTo63
    ensures var r := IdentityServed(w, req, f, true, mime);
      && r.body == w.body + f.content
      && r.status == (if f.content == [] then 0 else StatusOK)
      && Get(r.header, ContentLength) == Decimal(f.uncompressedSize64)
      && ContentEncoding !in r.header
      && (ContentType !in w.header ==> Get(r.header, ContentType) != "")
  {
    assert f.content[..Min(ToInt64(f.uncompressedSize64), |f.content|)] == f.content;
  }

  /** `serveDeflate` on a GET from a client that accepts deflate, for an
      entry whose data offset is known, runs the copy loop over the
      compressed size from `DeflateStart`. */
  lemma DeflateRoute(w: Resp, req: Request, f: Entry, readerAt: seq<byte>, mime: string -> string, off: nat)
    requires req.verb == "GET" && AcceptsDeflate(req)
    requires f.dataOffset == Some(off) && f.compressedSize64 < TwoTo63
    ensures DeflateServed(w, req, f, readerAt, true, mime) == Pump(DeflateStart(w, f, mime), readerAt, off, f.compressedSize64, 0)
  {
  }

  /** `serveDeflate` on a GET from a client that accepts deflate, with the
      whole entry inside the archive at data offset `off`: exactly the
      compressed bytes from there, in chunks no longer than the buffer,
      marked as deflate-encoded with the compressed size as Content-Length. */
  lemma DeflateSendsCompressed(w: Resp, req: Request, f: Entry, readerAt: seq<byte>, mime: string -> string, off: nat)
    requires w.status == 0 && req.verb == "GET" && AcceptsDeflate(req)
    requires f.dataOffset == Some(off) && 0 < f.compressedSize64 < TwoTo63
    requires off + f.compressedSize64 <= |readerAt|
    ensures var r := DeflateServed(w, req, f, readerAt, true, mime);
      && r.body == w.body + readerAt[off..off + f.compressedSize64]
      && ChunkedAfter(w, r) && r.status == StatusOK
    ensures var r := DeflateServed(w, req, f, readerAt, true, mime);
      && Get(r.header, ContentEncoding) == "deflate"
      && Get(r.header, ContentLength) == Decimal(f.compressedSize64)
  {
    var start := DeflateStart(w, f, mime);
    DeflateRoute(w, req, f, readerAt, mime, off);
    PumpComplete(start, readerAt, off, f.compressedSize64, 0);
    PumpCompleteChunked(start, readerAt, off, f.compressedSize64, 0);
    assert Pump(start, readerAt, off, f.compressedSize64, 0).header == start.header;
  }

  /** When the archive ends before the first buffer of the entry, the
      client gets a 500 carrying the read error. */
  lemma DeflateUnreadable(w: Resp, req: Request, f: Entry, readerAt: seq<byte>, mime: string -> string, off: nat)
    requires w.status == 0 && req.verb == "GET" && AcceptsDeflate(req)
    requires f.dataOffset == Some(off) && 0 < f.compressedSize64 < TwoTo63
    requires off + f.compressedSize64 > |readerAt| && |readerAt| < off + BufSize
    ensures var r := DeflateServed(w, req, f, readerAt, true, mime);
      r.status == StatusInternalServerError && r.body == w.body + Utf8(ReadAtErrorText + "\n")
  {
    DeflateRoute(w, req, f, readerAt, mime, off);
    PumpStops(DeflateStart(w, f, mime), readerAt, off, f.compressedSize64, 0);
  }

  /** When the archive ends inside the entry but after its first buffer,
      every full buffer that could be read is sent with status 200 and the
      response stops there: the status line is out, so no error follows. */
  lemma DeflateTruncated(w: Resp, req: Request, f: Entry, readerAt: seq<byte>, mime: string -> string, off: nat)
    requires w.status == 0 && req.verb == "GET" && AcceptsDeflate(req)
    requires f.dataOffset == Some(off) && 0 < f.compressedSize64 < TwoTo63
    requires off + f.compressedSize64 > |readerAt| >= off + BufSize
    ensures var k := FullChunks(|readerAt| - off);
      var r := DeflateServed(w, req, f, readerAt, true, mime);
      && 0 < k < f.compressedSize64 && off + k <= |readerAt|
      && r.body == w.body + readerAt[off..off + k]
      && ChunkedAfter(w, r) && r.status == StatusOK
  {
    DeflateRoute(w, req, f, readerAt, mime, off);
    PumpPartial(DeflateStart(w, f, mime), readerAt, off, f.compressedSize64);
  }

  /** An entry compressed by any other method gets a 500 naming the method. */
  lemma ServedUnsupportedMethod(f: Entry, readerAt: seq<byte>, open: bool, w: Resp, req: Request,
                                parseTime: string -> Option<Time>, mime: string -> string, tempErr: Option<string>)
    requires w.status == 0 && Unconditional(req)
    requires f.compression != Store && f.compression != Deflate
    ensures var r := ServedEntry(f, readerAt, open, w, req, parseTime, mime, tempErr);
      && r.status == StatusInternalServerError
      && r.body == w.body + Utf8("unsupported zip method: " + Decimal(f.compression) + "\n")
  {
    ServedWhole(f, readerAt, open, w, req, parseTime, mime, tempErr);
  }

  /** A Range request the If-Range check lets through is handed, with the
      entry's decompressed bytes, to the standard library; a failure to
      build the temporary file is a 500 instead. */
  lemma ServedRange(f: Entry, readerAt: seq<byte>, open: bool, w: Resp, req: Request,
                    parseTime: string -> Option<Time>, mime: string -> string, tempErr: Option<string>)
    requires w.status == 0
    requires Get(req.header, IfNoneMatch) == "" && Get(req.header, Range) != ""
    requires var ir := Get(req.header, IfRange); ir == "" || ir == CalcEtag(f)
    ensures var r := ServedEntry(f, readerAt, open, w, req, parseTime, mime, tempErr);
      if open && f.dataOffset.Some? && (f.compression == Store || f.compression == Deflate) && tempErr.None? then
        r.delegated == Some(Delegation(f.name, f.modified, f.content)) && r.status == 0 && r.body == w.body
      else
        r.status == StatusInternalServerError && r.delegated == w.delegated
  {
  }

  /** A client that does not name deflate in Accept-Encoding gets a deflated
      entry exactly as `serveIdentity` serves it. */
  lemma DeflateRefusedIsIdentity(w: Resp, req: Request, f: Entry, readerAt: seq<byte>, open: bool, mime: string -> string)
    requires !AcceptsDeflate(req)
    ensures DeflateServed(w, req, f, readerAt, open, mime) == IdentityServed(w, req, f, open, mime)
  {
  }

  /** So such a client's GET of a deflated entry gets the decompressed bytes
      with the uncompressed size as Content-Length and no Content-Encoding. */
  lemma DeflatedEntryToPlainClient(f: Entry, readerAt: seq<byte>, w: Resp, req: Request,
                                   parseTime: string -> Option<Time>, mime: string -> string, tempErr: Option<string>)
    requires w.status == 0 && Unconditional(req) && req.verb == "GET" && !AcceptsDeflate(req)
    requires f.compression == Deflate && f.dataOffset.Some? && |f.content| == f.uncompressedSize64 < TwoTo63
    ensures var r := ServedEntry(f, readerAt, true, w, req, parseTime, mime, tempErr);
      && r.body == w.body + f.content
      && Get(r.header, ContentLength) == Decimal(f.uncompressedSize64)
      && ContentEncoding !in r.header
      && Get(r.header, Etag) == CalcEtag(f)
  {
    ServedWhole(f, readerAt, true, w, req, parseTime, mime, tempErr);
    ServedCarriesEtag(f, readerAt, true, w, req, parseTime, mime, tempErr);
    DeflateRefusedIsIdentity(Tagged(w, f), req, f, readerAt, true, mime);
    IdentitySendsContent(Tagged(w, f), req, f, mime);
  }

  /** A HEAD on the identity path gets the header a GET gets and no body:
      nothing is written and the status stays unset. */
  lemma IdentityHead(w: Resp, req: Request, f: Entry, mime: string -> string)
    requires req.verb == "HEAD"
    requires f.dataOffset.Some? && (f.compression == Store || f.compression == Deflate)
    ensures var r := IdentityServed(w, req, f, true, mime);
      && r.body == w.body && r.writes == w.writes && r.status == w.status
      && r.header == IdentityServed(w, req.(verb := "GET"), f, true, mime).header
      && Get(r.header, ContentLength) == Decimal(f.uncompressedSize64)
      && ContentEncoding !in r.header
  {
    var typed := ContentTyped(w.header, f.name, mime);
    DelKeepsOthers(typed, ContentEncoding, ContentLength);
  }

  /** A HEAD from a client that accepts deflate gets the deflate header and
      no body, whether or not the archive file is still open. */
  lemma DeflateHead(w: Resp, req: Request, f: Entry, readerAt: seq<byte>, open: bool, mime: string -> string)
    requires req.verb == "HEAD" && AcceptsDeflate(req)
    ensures var r := DeflateServed(w, req, f, readerAt, open, mime);
      && r.body == w.body && r.writes == w.writes && r.status == w.status
      && Get(r.header, ContentEncoding) == "deflate"
      && Get(r.header, ContentLength) == Decimal(f.compressedSize64)
  {
  }

  /** After `FileSystem.Close` has closed the archive file, a handler made
      before it answers every request that has to read the archive with a
      500 carrying the close error: the stored and deflated whole-entry paths
      and Range requests alike. Only 304 answers and a HEAD that accepts
      deflate, answered from the header, are unaffected. */
  lemma ServedAfterClose(f: Entry, readerAt: seq<byte>, w: Resp, req: Request,
                         parseTime: string -> Option<Time>, mime: string -> string, tempErr: Option<string>)
    requires w.status == 0
    requires f.compression == Store || f.compression == Deflate
    ensures var d := CheckETag(Tagged(w, f), req, f.modified, parseTime);
      var r := ServedEntry(f, readerAt, false, w, req, parseTime, mime, tempErr);
      !d.done && !(d.rangeReq == "" && f.compression == Deflate && AcceptsDeflate(req) && req.verb == "HEAD") ==>
        && r.status == StatusInternalServerError && r.delegated == w.delegated
        && r.body == w.body + Utf8(ZipErrorText(ErrClosed) + "\n")
  {
  }
}
