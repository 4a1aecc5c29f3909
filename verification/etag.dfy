/** `checkETag` of check_etag.go: the If-Range and If-None-Match evaluation
    that net/http performs for `ServeContent`, in the simplified form the
    repository copies (section 3.2 of RFC 7232 for If-None-Match, section 3.2
    of RFC 7233 for If-Range; one strong ETag only, no lists, no weak tags). */
module ConditionalRequest {
  import opened Common
  import opened Archive
  import opened Http

  /** The effective Range header, whether the request is finished, and the
      response after the check. */
  datatype Decision = Decision(rangeReq: string, done: bool, resp: Resp)

  /** The If-Range value `ir` names a version other than the current one: it
      is neither the ETag nor, when the modification time is known, a date in
      the same second. */
  predicate RangeStale(ir: string, etag: string, modtime: Time, parseTime: string -> Option<Time>)
  {
    && ir != "" && ir != etag
    && !(!IsZero(modtime) && parseTime(ir).Some? && parseTime(ir).value.unix == modtime.unix)
  }

  /** If-None-Match value `inm` matches the current ETag on a GET or HEAD. */
  predicate NotModified(inm: string, etag: string, verb: string)
  {
    inm != "" && etag != "" && (verb == "GET" || verb == "HEAD") && (inm == etag || inm == "*")
  }

  /** `checkETag` (check_etag.go:23-74). The ETag is read from the response
      header `w` already carries; `parseTime` is `http.ParseTime`. */
  function CheckETag(w: Resp, req: Request, modtime: Time, parseTime: string -> Option<Time>): (d: Decision)
    ensures var etag := Get(w.header, Etag);
      d.done <==> NotModified(Get(req.header, IfNoneMatch), etag, req.verb)
    ensures d.done ==> d.rangeReq == "" && d.resp == WriteHeader(w.(header := Del(Del(w.header, ContentType), ContentLength)), StatusNotModified)
    ensures !d.done ==> d.resp == w
    ensures !d.done ==>
      (d.rangeReq == "" || d.rangeReq == Get(req.header, Range))
      && (d.rangeReq == Get(req.header, Range) <==>
          Get(req.header, Range) == "" || !RangeStale(Get(req.header, IfRange), Get(w.header, Etag), modtime, parseTime))
  {
    var etag := Get(w.header, Etag);
    var rangeReq := Get(req.header, Range);
    var ir := Get(req.header, IfRange);
    var rangeReq :=
      if ir != "" && ir != etag then
        var timeMatches :=
          if !IsZero(modtime) then
            match parseTime(ir)
            case Some(t) => t.unix == modtime.unix
            case None => false
          else false;
        if !timeMatches then "" else rangeReq
      else rangeReq;
    var inm := Get(req.header, IfNoneMatch);
    if inm != "" then
      if etag == "" then Decision(rangeReq, false, w)
      else if req.verb != "GET" && req.verb != "HEAD" then Decision(rangeReq, false, w)
      else if inm == etag || inm == "*" then
        var h := Del(Del(w.header, ContentType), ContentLength);
        Decision("", true, WriteHeader(w.(header := h), StatusNotModified))
      else Decision(rangeReq, false, w)
    else Decision(rangeReq, false, w)
  }

  /** Without an If-None-Match header the request is never finished here and
      the response is untouched. */
  lemma WithoutIfNoneMatch(w: Resp, req: Request, modtime: Time, parseTime: string -> Option<Time>)
    requires Get(req.header, IfNoneMatch) == ""
    ensures !CheckETag(w, req, modtime, parseTime).done
    ensures CheckETag(w, req, modtime, parseTime).resp == w
  {
  }

  /** If-None-Match is only honoured when the ETag is known and the method is
      GET or HEAD. */
  lemma NotModifiedOnlyForGetAndHead(w: Resp, req: Request, modtime: Time, parseTime: string -> Option<Time>)
    requires Get(w.header, Etag) == "" || (req.verb != "GET" && req.verb != "HEAD")
    ensures !CheckETag(w, req, modtime, parseTime).done
    ensures CheckETag(w, req, modtime, parseTime).resp == w
  {
  }

  /** A finished request carries 304, no Content-Type, no Content-Length, and
      has no Range left to serve. */
  lemma DoneMeansNotModified(w: Resp, req: Request, modtime: Time, parseTime: string -> Option<Time>)
    requires w.status == 0
    requires CheckETag(w, req, modtime, parseTime).done
    ensures var d := CheckETag(w, req, modtime, parseTime);
      && d.rangeReq == "" && d.resp.status == StatusNotModified
      && ContentType !in d.resp.header && ContentLength !in d.resp.header
      && d.resp.body == w.body
  {
  }

  /** If-Range equal to the current ETag keeps the Range header, and so does
      a date in the same second as a known modification time. */
  lemma IfRangeMatchKeepsRange(w: Resp, req: Request, modtime: Time, parseTime: string -> Option<Time>)
    requires
      var ir := Get(req.header, IfRange);
      ir == Get(w.header, Etag)
      || (!IsZero(modtime) && parseTime(ir).Some? && parseTime(ir).value.unix == modtime.unix)
    requires !CheckETag(w, req, modtime, parseTime).done
    ensures CheckETag(w, req, modtime, parseTime).rangeReq == Get(req.header, Range)
  {
  }

  /** Any other If-Range value drops the Range header, so the whole entity is
      sent; with an unknown (zero) modification time every date is stale. */
  lemma IfRangeMismatchDropsRange(w: Resp, req: Request, modtime: Time, parseTime: string -> Option<Time>)
    requires RangeStale(Get(req.header, IfRange), Get(w.header, Etag), modtime, parseTime)
    ensures CheckETag(w, req, modtime, parseTime).rangeReq == ""
  {
  }

  /** Only a single strong tag or "*" matches: a weak form of the current
      ETag, or a list that contains it, does not. */
  lemma OnlyExactTagMatches(w: Resp, req: Request, modtime: Time, parseTime: string -> Option<Time>)
    requires var etag := Get(w.header, Etag);
      var inm := Get(req.header, IfNoneMatch);
      etag != "" && (inm == "W/" + etag || inm == etag + ", \"x\"")
    ensures !CheckETag(w, req, modtime, parseTime).done
  {
    var etag := Get(w.header, Etag);
    var inm := Get(req.header, IfNoneMatch);
    assert inm != etag by {
      if inm == "W/" + etag { assert |inm| > |etag|; } else { assert |inm| > |etag|; }
    }
    assert inm != "*" by {
      if inm == "W/" + etag { assert |inm| > 2; } else { assert |inm| > 5; }
    }
  }

  /** The conditional cases the handler tests exercise for an entry whose
      ETag is "27106c15f45b" (quoted): a matching If-Range keeps the range,
      a different one drops it, and a matching If-None-Match gives 304. */
  lemma HandlerCases(modtime: Time, parseTime: string -> Option<Time>)
    requires forall s :: parseTime(s) == None
    ensures var w := NewResp(map[Etag := ["\"27106c15f45b\""], ContentType := ["application/octet-stream"]]);
      && CheckETag(w, Request("GET", "/random.dat", map[IfRange := ["\"27106c15f45b\""], Range := ["bytes=0-499"]]), modtime, parseTime)
         == Decision("bytes=0-499", false, w)
      && CheckETag(w, Request("GET", "/random.dat", map[IfRange := ["\"123456789\""], Range := ["bytes=0-499"]]), modtime, parseTime)
         == Decision("", false, w)
      && CheckETag(w, Request("GET", "/random.dat", map[IfNoneMatch := ["\"27106c15f45b\""]]), modtime, parseTime)
         == Decision("", true, Resp(map[Etag := ["\"27106c15f45b\""]], StatusNotModified, [], [], None))
  {
    var w := NewResp(map[Etag := ["\"27106c15f45b\""], ContentType := ["application/octet-stream"]]);
    assert Get(w.header, Etag) == "\"27106c15f45b\"";
    assert "\"123456789\"" != "\"27106c15f45b\"" by { assert "\"123456789\""[1] != "\"27106c15f45b\""[1]; }
    assert Del(Del(w.header, ContentType), ContentLength) == map[Etag := ["\"27106c15f45b\""]];
  }
}
