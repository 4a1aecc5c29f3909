/** The parts of Go's `net/http` that the handler relies on: header maps,
    requests, and a response as the client receives it. These model the Go
    standard library, not repository code. */
module Http {
  import opened Common
  import opened Archive

  /** A header key in the canonical form `net/http` gives it. The keys the
      handler reads or writes are constructors of their own; `Other` holds
      the name of any other key. */
  datatype Key =
    | Etag                 // "Etag"
    | ContentType          // "Content-Type"
    | ContentLength        // "Content-Length"
    | ContentEncoding      // "Content-Encoding"
    | XContentTypeOptions  // "X-Content-Type-Options"
    | IfNoneMatch          // "If-None-Match"
    | IfRange              // "If-Range"
    | Range                // "Range"
    | AcceptEncoding       // "Accept-Encoding"
    | Other(name: string)

  /** `http.Header`: every key maps to a list of values. */
  type Header = map<Key, seq<string>>

  /** `Header.Get`: the first value of `key`, or "" when there is none. */
  function Get(h: Header, key: Key): (v: string)
    ensures key !in h ==> v == ""
    ensures key in h && h[key] != [] ==> v == h[key][0]
  {
    if key in h && h[key] != [] then h[key][0] else ""
  }

  /** `Header.Set`: `key` gets the single value `v`. */
  function Set(h: Header, key: Key, v: string): (r: Header)
    ensures key in r && r[key] == [v] && Get(r, key) == v
  {
    h[key := [v]]
  }

  /** `Set` leaves every other key as it was. */
  lemma SetKeepsOthers(h: Header, key: Key, v: string, k: Key)
    requires k != key
    ensures k in Set(h, key, v) <==> k in h
    ensures k in h ==> Set(h, key, v)[k] == h[k]
  {
  }

  /** `Header.Del` (and Go's `delete` on a header map). */
  function Del(h: Header, key: Key): (r: Header)
    ensures key !in r && Get(r, key) == ""
  {
    h - {key}
  }

  /** `Del` leaves every other key as it was. */
  lemma DelKeepsOthers(h: Header, key: Key, k: Key)
    requires k != key
    ensures k in Del(h, key) <==> k in h
    ensures k in h ==> Del(h, key)[k] == h[k]
  {
  }

  /** An incoming request: its method (`verb`), the path of its URL and its header. */
  datatype Request = Request(verb: string, path: string, header: Header)

  /** What `http.ServeContent` was handed when the handler delegated to it:
      the name, the modification time and the bytes of the seekable file. */
  datatype Delegation = Delegation(name: string, modtime: Time, content: seq<byte>)

  /** A response as the client sees it. `status` is 0 until a status line is
      written; `writes` holds, in order, the length of each write the handler
      issues itself (the copy `io.CopyN` makes counts as one). */
  datatype Resp = Resp(header: Header, status: nat, body: seq<byte>, writes: seq<nat>, delegated: Option<Delegation>)

  const StatusOK: nat := 200
  const StatusNotModified: nat := 304
  const StatusNotFound: nat := 404
  const StatusInternalServerError: nat := 500

  /** A fresh response with a header the caller may have preset. */
  function NewResp(h: Header): Resp
  {
    Resp(h, 0, [], [], None)
  }

  /** `ResponseWriter.WriteHeader`: only the first status line counts. */
  function WriteHeader(r: Resp, code: nat): (r': Resp)
    requires code != 0
    ensures r'.status == (if r.status == 0 then code else r.status)
    ensures r'.header == r.header && r'.body == r.body && r'.writes == r.writes && r'.delegated == r.delegated
  {
    if r.status == 0 then r.(status := code) else r
  }

  /** `ResponseWriter.Write`: sends 200 first when no status was written. */
  function Write(r: Resp, b: seq<byte>): (r': Resp)
    ensures r'.status == (if r.status == 0 then StatusOK else r.status)
    ensures r'.body == r.body + b && r'.writes == r.writes + [|b|]
    ensures r'.header == r.header && r'.delegated == r.delegated
  {
    WriteHeader(r, StatusOK).(body := r.body + b, writes := r.writes + [|b|])
  }

  /** The UTF-8 encoding of one character (Go strings hold UTF-8 bytes). */
  function EncodeRune(c: char): (r: seq<byte>)
    ensures 1 <= |r| <= 4
    ensures c as int < 0x80 <==> |r| == 1
    ensures c as int < 0x80 ==> r[0] == c as int
  {
    var n := c as int;
    if n < 0x80 then [n]
    else if n < 0x800 then [0xC0 + n / 0x40, 0x80 + n % 0x40]
    else if n < 0x1_0000 then [0xE0 + n / 0x1000, 0x80 + (n / 0x40) % 0x40, 0x80 + n % 0x40]
    else [0xF0 + n / 0x4_0000, 0x80 + (n / 0x1000) % 0x40, 0x80 + (n / 0x40) % 0x40, 0x80 + n % 0x40]
  }

  /** The bytes of a Go string. */
  function Utf8(s: string): (r: seq<byte>)
    ensures |r| >= |s|
    ensures (forall i :: 0 <= i < |s| ==> s[i] as int < 0x80) ==> |r| == |s|
  {
    if s == [] then [] else EncodeRune(s[0]) + Utf8(s[1..])
  }

  /** `http.Error`: drops Content-Length, marks the body as plain text that
      must not be sniffed, writes `code` and then `msg` and a newline. */
  function Error(r: Resp, msg: string, code: nat): (r': Resp)
    requires code != 0
    ensures r'.status == (if r.status == 0 then code else r.status)
    ensures r'.body == r.body + Utf8(msg + "\n")
    ensures Get(r'.header, ContentType) == "text/plain; charset=utf-8"
    ensures Get(r'.header, XContentTypeOptions) == "nosniff"
    ensures ContentLength !in r'.header
    ensures r'.delegated == r.delegated
  {
    var h := Set(Set(Del(r.header, ContentLength), ContentType, "text/plain; charset=utf-8"), XContentTypeOptions, "nosniff");
    Write(WriteHeader(r.(header := h), code), Utf8(msg + "\n"))
  }

  /** `http.Error` touches no header key but the three it sets or drops. */
  lemma ErrorKeepsOthers(r: Resp, msg: string, code: nat, k: Key)
    requires code != 0
    requires k != ContentLength && k != ContentType && k != XContentTypeOptions
    ensures k in Error(r, msg, code).header <==> k in r.header
    ensures k in r.header ==> Error(r, msg, code).header[k] == r.header[k]
  {
  }

  const NotFoundText: string := "404 page not found"

  /** `http.NotFound`. */
  function NotFound(r: Resp): (r': Resp)
    ensures r'.status == (if r.status == 0 then StatusNotFound else r.status)
    ensures r'.body == r.body + Utf8(NotFoundText + "\n")
  {
    Error(r, NotFoundText, StatusNotFound)
  }
}
