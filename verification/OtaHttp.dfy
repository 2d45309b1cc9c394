/** The HTTP body reader of utils_httpc.c on a response with a Content-Length, and the fetch layer of
    ota_fetch.c above it. The text of the header is represented by where it ends and what it says. */
module OtaHttp {
  import opened Buffers
  import opened Octets

  const CHUNK_SIZE := 1024
  const RETRIEVE_MORE_DATA := 1
  const ERR_FAILURE := -1001
  const ERR_HTTP := -4
  const ERR_UNRESOLVED := -6
  const ERR_CONN := -8
  const ERR_AUTH := -9
  const ERR_NOT_FOUND := -10
  const ERR_TIMEOUT := -11
  const ERR_PEER_SHUTDOWN := -608
  const FETCH_NOT_EXIST := -6
  const FETCH_AUTH_FAIL := -7
  const FETCH_TIMEOUT := -8

  /** What a header says: its status, the length of its first line and of all of it, and the content
      length, if there is one. */
  datatype Response = Response(status: nat, firstLine: nat, header: nat, length: Option<nat>)

  predicate ResponseOk(r: Response) {
    2 <= r.firstLine && r.firstLine + 2 <= r.header && (r.length.Some? ==> r.length.value < 0x8000_0000)
  }

  datatype ReadCode = READ_OK | NOTHING_TO_READ | READ_TIMEOUT | PEER_SHUTDOWN | READ_FAILED(rc: int)

  /** What a read came to: its code, the number of bytes it brought, and the time left after it. */
  datatype Reading = Reading(code: ReadCode, n: nat, left: nat)

  /** The connection: what the server has still to deliver, any part of it at a time, and the history
      of reads. */
  class Link {
    var pending: seq<byte>
    var open: bool
    ghost var trace: seq<Reading>

    /** A read takes time unless it brings something; a closed connection only fails. */
    method Read(max: nat, time: nat) returns (code: ReadCode, got: seq<byte>, time': nat)
      modifies this`pending, this`trace
      ensures |got| <= max && old(pending) == got + pending
      ensures time' <= time && (got == [] && time > 0 ==> time' < time)
      ensures code.READ_FAILED? ==> code.rc < 0
      ensures !open ==> code.READ_FAILED? && got == []
      ensures trace == old(trace) + [Reading(code, |got|, time')]
    {
      var n: int := *;
      if !open || n < 0 || n > max || n > |pending| { n := 0; }
      got, pending := pending[..n], pending[n..];
      var t: int := *;
      time' := if 0 <= t <= time && (n > 0 || t < time) then t else if time > 0 then time - 1 else 0;
      var c: ReadCode := *;
      code := if !open then READ_FAILED(ERR_FAILURE) else if c.READ_FAILED? && c.rc >= 0 then READ_OK else c;
      trace := trace + [Reading(code, n, time')];
    }
  }

  // ---------- how a fetch fails ----------

  /** What _http_client_recv makes of a read: no bytes in time is no error. */
  function ErrorOf(r: Reading): (rc: int)
    ensures rc <= 0
  {
    match r.code
    case READ_FAILED(rc) => if rc < 0 then rc else 0
    case PEER_SHUTDOWN => if r.n > 0 then 0 else ERR_PEER_SHUTDOWN
    case _ => 0
  }

  /** The end of the body's reads: all but the last went well and in time. */
  function BodyEnd(trace: seq<Reading>): (rc: int)
    ensures rc <= 0
  {
    if trace == [] then 0
    else
      var r := trace[|trace| - 1];
      if ErrorOf(r) < 0 then ErrorOf(r) else if r.left == 0 then ERR_TIMEOUT else 0
  }

  /** The end of a response whose first read brought n bytes. */
  function HeadEnd(r: Response, n: nat, trace: seq<Reading>): (rc: int)
    ensures rc <= 0
  {
    if n < r.firstLine then ERR_UNRESOLVED
    else if r.status == 403 then ERR_AUTH
    else if r.status == 404 then ERR_NOT_FOUND
    else if n >= r.header then (if r.length.None? then ERR_HTTP else BodyEnd(trace))
    else if trace == [] then ERR_FAILURE
    else if ErrorOf(trace[0]) < 0 then ErrorOf(trace[0])
    else if n + trace[0].n < r.header then ERR_FAILURE
    else if r.length.None? then ERR_HTTP
    else BodyEnd(trace[1..])
  }

  /** The end of qcloud_http_recv_data; more tells whether the body was begun by an earlier call. */
  function FetchEnd(r: Response, more: bool, open: bool, trace: seq<Reading>): (rc: int)
    ensures rc <= 0
  {
    if !open then ERR_CONN
    else if more then BodyEnd(trace)
    else if trace == [] then 0
    else if ErrorOf(trace[0]) < 0 then ErrorOf(trace[0])
    else if trace[0].n == 0 then 0
    else HeadEnd(r, trace[0].n, trace[1..])
  }

  /** The codes qcloud_ofc_fetch returns for those of the HTTP client. */
  function Mapped(rc: int): int {
    if rc == ERR_NOT_FOUND then FETCH_NOT_EXIST else if rc == ERR_AUTH then FETCH_AUTH_FAIL
    else if rc == ERR_TIMEOUT then FETCH_TIMEOUT else rc
  }

  /** The first read of a response brought something. */
  predicate Begun(more: bool, open: bool, trace: seq<Reading>) {
    open && !more && trace != [] && ErrorOf(trace[0]) == 0 && trace[0].n > 0
  }

  /** The server answered with that status. */
  predicate Answered(r: Response, more: bool, open: bool, trace: seq<Reading>, status: nat) {
    Begun(more, open, trace) && trace[0].n >= r.firstLine && r.status == status
  }

  /** The first read brought less than the first line. */
  predicate CutShort(r: Response, more: bool, open: bool, trace: seq<Reading>) {
    Begun(more, open, trace) && trace[0].n < r.firstLine
  }

  /** The error of the connection itself; reads after one do not happen. */
  function LinkError(open: bool, trace: seq<Reading>): int {
    if !open || trace == [] then 0 else ErrorOf(trace[|trace| - 1])
  }

  /** The reads that are for the body. */
  function BodyReads(r: Response, more: bool, trace: seq<Reading>): seq<Reading> {
    if more then trace
    else if trace == [] then []
    else if trace[0].n >= r.header then trace[1..]
    else if |trace| == 1 then []
    else trace[2..]
  }

  predicate OutOfTime(r: Response, more: bool, open: bool, trace: seq<Reading>) {
    open && BodyReads(r, more, trace) != [] && LinkError(open, trace) == 0 && trace[|trace| - 1].left == 0
  }

  /** The reads a fetch can make: none without a connection, none behind one that fails, and none
      behind one that ends the response. */
  predicate Fits(r: Response, more: bool, open: bool, trace: seq<Reading>) {
    && (!open ==> trace == [])
    && (open && !more ==> trace != [])
    && (forall k :: 0 <= k < |trace| - 1 ==> ErrorOf(trace[k]) == 0)
    && (open && !more && (!Begun(more, open, trace) || CutShort(r, more, open, trace) || r.status in {403, 404}) ==>
          |trace| == 1)
    && (Begun(more, open, trace) && r.firstLine <= trace[0].n < r.header && r.status !in {403, 404} ==> |trace| >= 2)
    && (BodyReads(r, more, trace) != [] && !more ==>
          r.length.Some? && (trace[0].n >= r.header || trace[0].n + trace[1].n >= r.header))
  }

  /** A fetch that made these reads ends with that code, if it fails. */
  predicate Reports(ret: int, r: Response, more: bool, open: bool, trace: seq<Reading>) {
    && Fits(r, more, open, trace)
    && (ret < 0 <==> FetchEnd(r, more, open, trace) < 0)
    && (ret < 0 ==> ret == Mapped(FetchEnd(r, more, open, trace)))
  }

  /** A missing file is reported exactly if the server says 404, or the first read brought less than
      the first line, or the connection failed with one of the two codes; so the report means a 404
      exactly if the others are not the case. */
  lemma MissingFileMeans(r: Response, more: bool, open: bool, trace: seq<Reading>)
    requires ResponseOk(r) && Fits(r, more, open, trace)
    ensures Mapped(FetchEnd(r, more, open, trace)) == FETCH_NOT_EXIST <==>
      Answered(r, more, open, trace, 404) || CutShort(r, more, open, trace)
      || LinkError(open, trace) in {FETCH_NOT_EXIST, ERR_NOT_FOUND}
    ensures Mapped(FetchEnd(r, more, open, trace)) == FETCH_NOT_EXIST ==>
      (Answered(r, more, open, trace, 404) <==>
        !CutShort(r, more, open, trace) && LinkError(open, trace) !in {FETCH_NOT_EXIST, ERR_NOT_FOUND})
  {
    LastOf(trace);
  }

  /** A refused authorisation: exactly a 403, or a failure of the connection with a code that looks
      like one. */
  lemma RefusalMeans(r: Response, more: bool, open: bool, trace: seq<Reading>)
    requires ResponseOk(r) && Fits(r, more, open, trace)
    ensures Mapped(FetchEnd(r, more, open, trace)) == FETCH_AUTH_FAIL <==>
      Answered(r, more, open, trace, 403) || LinkError(open, trace) in {FETCH_AUTH_FAIL, ERR_AUTH}
    ensures Mapped(FetchEnd(r, more, open, trace)) == FETCH_AUTH_FAIL ==>
      (Answered(r, more, open, trace, 403) <==> LinkError(open, trace) !in {FETCH_AUTH_FAIL, ERR_AUTH})
  {
    LastOf(trace);
  }

  /** A timeout: exactly if the time ran out before the body did, or the connection is closed, or it
      failed with a code that looks like one. */
  lemma TimeoutMeans(r: Response, more: bool, open: bool, trace: seq<Reading>)
    requires ResponseOk(r) && Fits(r, more, open, trace)
    ensures Mapped(FetchEnd(r, more, open, trace)) == FETCH_TIMEOUT <==>
      OutOfTime(r, more, open, trace) || !open || LinkError(open, trace) in {FETCH_TIMEOUT, ERR_TIMEOUT}
    ensures Mapped(FetchEnd(r, more, open, trace)) == FETCH_TIMEOUT ==>
      (OutOfTime(r, more, open, trace) <==> open && LinkError(open, trace) !in {FETCH_TIMEOUT, ERR_TIMEOUT})
  {
    LastOf(trace);
  }

  /** A fetch whose last read failed ends with that failure, and a shutdown by the server that brought
      nothing is one; any other end has one of the client's own codes. */
  lemma FailedReadEnds(r: Response, more: bool, open: bool, trace: seq<Reading>)
    requires ResponseOk(r) && Fits(r, more, open, trace)
    ensures var rc := FetchEnd(r, more, open, trace);
      if open && trace != [] && trace[|trace| - 1].code.READ_FAILED? && trace[|trace| - 1].code.rc < 0 then
        rc == trace[|trace| - 1].code.rc
      else if open && trace != [] && trace[|trace| - 1].code.PEER_SHUTDOWN? && trace[|trace| - 1].n == 0 then rc == -608
      else rc in {0, -4, -6, -8, -9, -10, -11, -1001}
  {
    LastOf(trace);
  }

  // The last read of the body is the last of all.
  lemma LastOf(trace: seq<Reading>)
    ensures |trace| > 1 ==> trace[1..][|trace| - 2] == trace[|trace| - 1]
    ensures |trace| > 2 ==> trace[2..][|trace| - 3] == trace[|trace| - 1] && trace[1..][1..] == trace[2..]
  {}

  /** A first read that runs into its timeout after one byte of a healthy response is reported as a
      missing file, and the fetch after the server closed the connection as a timeout. */
  lemma OneByteIsMissingFile(r: Response, left: nat)
    requires ResponseOk(r) && r.status == 200
    ensures var trace := [Reading(READ_TIMEOUT, 1, left)];
      Fits(r, false, true, trace) && Mapped(FetchEnd(r, false, true, trace)) == FETCH_NOT_EXIST
      && !Answered(r, false, true, trace, 404)
    ensures Fits(r, true, false, []) && Mapped(FetchEnd(r, true, false, [])) == FETCH_TIMEOUT
  {}

  // ---------- the client ----------

  /** HTTPClientData, and the client's connection; body is what the server sends behind the header. */
  class Http {
    const link: Link
    const response: Response
    var isMore: bool
    var retrieveLen: int
    var contentLen: int
    ghost var head: seq<byte>
    ghost var body: seq<byte>
    ghost var parsed: bool
    ghost var got: nat

    // got bytes of the body are delivered, data and what is pending in the connection are the next.
    ghost predicate Next(data: seq<byte>)
      reads this, link
    {
      && ResponseOk(response)
      && if !parsed then contentLen == 0 && retrieveLen == 0 && got == 0
         else
           && response.length.Some? && contentLen == response.length.value && 0 <= retrieveLen == contentLen - got
           && got <= |body| && (retrieveLen > 0 ==> body[got..] == data + link.pending)
    }

    ghost predicate Valid()
      reads this, link
    {
      && Next([])
      && (!parsed ==> link.pending == head + body && |head| == response.header)
      && (parsed && retrieveLen > 0 ==> isMore)
    }

    /** ofc_Init: all zero. */
    constructor (l: Link, r: Response, ghost h: seq<byte>, ghost b: seq<byte>)
      requires ResponseOk(r) && |h| == r.header && l.pending == h + b
      ensures Valid() && !parsed && got == 0 && body == b && link == l && response == r
    {
      link, response, isMore, retrieveLen, contentLen := l, r, false, 0, 0;
      head, body, parsed, got := h, b, false, 0;
    }

    /** _http_client_recv. */
    method Recv(max: nat, time: nat) returns (rc: int, data: seq<byte>, time': nat)
      modifies link
      ensures |data| <= max && old(link.pending) == data + link.pending
      ensures time' <= time && (data == [] && time > 0 ==> time' < time)
      ensures |link.trace| == |old(link.trace)| + 1 && link.trace[..|old(link.trace)|] == old(link.trace)
      ensures var last := link.trace[|old(link.trace)|]; rc == ErrorOf(last) && last.n == |data| && last.left == time'
    {
      var code;
      code, data, time' := link.Read(max, time);
      if code.PEER_SHUTDOWN? && |data| > 0 { link.open := false; }
      rc := match code
        case READ_OK => 0
        case NOTHING_TO_READ => 0
        case READ_TIMEOUT => 0
        case PEER_SHUTDOWN => if |data| > 0 then 0 else ERR_PEER_SHUTDOWN
        case READ_FAILED(e) => e;
    }

    // data, and then what is pending, continue the body while some of it is to be retrieved.
    ghost predicate Feeds(data: seq<byte>)
      reads this`retrieveLen, this`got, this`body, link`pending
    {
      retrieveLen >= 0 && got <= |body| && (retrieveLen > 0 ==> body[got..] == data + link.pending)
    }

    // One round of the inner loop: as much of data as is wanted goes into the buffer. If that fills
    // it the call ends here, and what is left of data is lost.
    method TakeData(data: seq<byte>, buf: array<byte>, count: nat, readLen: nat, ghost g: nat)
      returns (full: bool, count': nat, readLen': nat)
      requires Feeds(data) && readLen == retrieveLen && count < buf.Length && g <= got && buf[..count] == body[g..got]
      modifies this`retrieveLen, this`got, buf
      ensures readLen' == retrieveLen && got + retrieveLen == old(got + retrieveLen) && g <= got
      ensures count <= count' == count + got - old(got) < buf.Length
      ensures full <==> count' == buf.Length - 1
      ensures count' - count <= |data| && Feeds(if full then data[count' - count..] else [])
      ensures buf[..count'] == body[g..got]
      ensures !full ==> count' == count + (if |data| < readLen then |data| else readLen)
      ensures got <= |body| && (!full ==> Feeds([]))
    {
      readLen' := readLen;
      var templen := if |data| < readLen then |data| else readLen;
      full := count + templen >= buf.Length - 1;
      var n := if full then buf.Length - 1 - count else templen;
      if retrieveLen > 0 { Advance(body, got, data, link.pending, n); }
      Grown(body, g, got, n);
      Store(buf, count, data[..n]);
      retrieveLen := retrieveLen - n;
      got := got + n;
      count' := count + n;
      if full { readLen' := retrieveLen; return; }
      if |data| > readLen {
        readLen', retrieveLen := 0, 0;
      } else {
        readLen' := readLen - |data|;
      }
    }

    lemma Within(data: seq<byte>)
      requires Feeds(data)
      ensures got <= |body| && retrieveLen >= 0
    {}

    // What is left of data is lost, unless it is nothing.
    lemma NotLost(data: seq<byte>, n: nat)
      requires n <= |data| && Feeds(data[n..])
      ensures Feeds([]) <==> retrieveLen == 0 || n == |data|
    {
      assert [] + link.pending == link.pending;
      if n == |data| { assert data[n..] == []; }
    }

    // The end of that round: the next piece of the response, or the end of the call.
    method Reload(room: nat, readLen: nat, time: nat, ghost r0: seq<Reading>)
      returns (rc: int, data: seq<byte>, time': nat)
      requires r0 <= link.trace && AllWell(link.trace[|r0|..]) && Feeds([])
      modifies link
      ensures |data| <= room && |data| <= readLen && Feeds(data)
      ensures rc == 0 ==> time' <= time && (data == [] ==> time' < time)
      ensures r0 <= link.trace && AllBut(link.trace[|r0|..]) && rc == BodyEnd(link.trace[|r0|..])
      ensures rc == 0 ==> AllWell(link.trace[|r0|..])
    {
      hide AllWell, AllBut, BodyEnd, ErrorOf;
      var max := if CHUNK_SIZE - 1 < room then CHUNK_SIZE - 1 else room;
      max := if max < readLen then max else readLen;
      ghost var r1 := link.trace;
      rc, data, time' := Recv(max, time);
      OneMore(r0, r1, link.trace);
      assert [] + (data + link.pending) == data + link.pending;
      if rc == 0 && time' == 0 { rc := ERR_TIMEOUT; }
    }

    /** _http_client_retrieve_content, for a known length: data was read along with the header. */
    method RetrieveContent(data0: seq<byte>, buf: array<byte>, time0: nat) returns (rc: int, ghost n: nat)
      requires Feeds(data0) && buf.Length > 0
      modifies this`isMore, this`retrieveLen, this`got, link, buf
      ensures rc <= RETRIEVE_MORE_DATA && old(link.trace) <= link.trace
      ensures var seen := link.trace[|old(link.trace)|..];
        AllBut(seen) && (rc < 0 <==> BodyEnd(seen) < 0) && (rc < 0 ==> rc == BodyEnd(seen))
      ensures rc >= 0 ==> got + retrieveLen == old(got + retrieveLen) && got == old(got) + n <= |body| && n < buf.Length
      ensures rc >= 0 ==> retrieveLen >= 0 && buf[..n] == body[old(got)..got]
      ensures rc >= 0 ==> if retrieveLen > 0 then isMore && n == buf.Length - 1 else n <= old(retrieveLen)
      ensures rc >= 0 ==> (Feeds([]) <==> retrieveLen == 0 || |data0| < buf.Length)
      ensures old(retrieveLen) == 0 ==> rc >= 0 && link.pending == old(link.pending)
    {
      hide AllWell, AllBut, BodyEnd, ErrorOf, Http.Feeds;
      isMore := true;
      var count, readLen, data, time := 0, retrieveLen, data0, time0;
      n := 0;
      ghost var g, r0 := got, link.trace;
      Within(data0);
      NoReads(link.trace);
      while true
        invariant readLen == retrieveLen && Feeds(data) && got + retrieveLen == old(got + retrieveLen)
        invariant g <= got == g + count <= |body| && readLen >= 0 && count < buf.Length && isMore
        invariant buf[..count] == body[g..got]
        invariant (data == data0 && count == 0) || (count + |data| < buf.Length && |data0| < buf.Length)
        invariant old(retrieveLen) == 0 ==> link.pending == old(link.pending)
        invariant r0 <= link.trace && AllWell(link.trace[|r0|..])
        decreases readLen - (if |data| < readLen then |data| else readLen) + time
      {
        var full;
        ghost var before := count;
        full, count, readLen := TakeData(data, buf, count, readLen, g);
        n := count;
        if full {
          NotLost(data, count - before);
          WellEnds(link.trace[|r0|..]);
          return RETRIEVE_MORE_DATA, n;
        }
        if readLen == 0 {
          WellEnds(link.trace[|r0|..]);
          break;
        }
        rc, data, time := Reload(buf.Length - 1 - count, readLen, time, r0);
        if rc != 0 { return; }
      }
      isMore := false;
      rc := 0;
    }

    /** _http_client_response_parse, on the first bytes of a response. */
    method ParseResponse(data0: seq<byte>, buf: array<byte>, time0: nat) returns (rc: int, ghost n: nat)
      requires !parsed && got == 0 && ResponseOk(response) && |head| == response.header
      requires data0 + link.pending == head + body
      requires buf.Length > 0 && |data0| < CHUNK_SIZE && isMore
      modifies this, link, buf
      ensures body == old(body) && rc <= RETRIEVE_MORE_DATA && old(link.trace) <= link.trace
      ensures var seen := link.trace[|old(link.trace)|..];
        HeadFits(response, |data0|, seen) && (rc < 0 <==> HeadEnd(response, |data0|, seen) < 0)
        && (rc < 0 ==> rc == HeadEnd(response, |data0|, seen))
      ensures rc >= 0 ==>
        parsed && got == n < buf.Length && got <= |body| && buf[..n] == body[..n] && contentLen - retrieveLen == got
      ensures rc >= 0 && buf.Length >= CHUNK_SIZE ==> Valid()
    {
      n := 0;
      contentLen := -1;
      if |data0| < response.firstLine { return ERR_UNRESOLVED, n; }
      if response.status == 403 { return ERR_AUTH, n; }
      if response.status == 404 { return ERR_NOT_FOUND, n; }
      ghost var r0 := link.trace;
      var data, time, end := data0[response.firstLine..], time0, response.header - response.firstLine;
      FrontGone(data0, link.pending, head, body, response.firstLine);
      if |data| < end {
        var more;
        rc, more, time := Recv(CHUNK_SIZE - |data| - 1, time);
        if rc != 0 { return; }
        Associate(data, more, link.pending);
        data := data + more;
        if |data| < end { return ERR_FAILURE, n; }
      }
      if response.length.None? { return ERR_HTTP, n; }
      contentLen := response.length.value;
      retrieveLen := contentLen;
      parsed := true;
      FrontGone(data, link.pending, head[response.firstLine..], body, end);
      assert head[response.firstLine..][end..] + body == body;
      assert body[0..] == body;
      ghost var r1 := link.trace;
      rc, n := RetrieveContent(data[end..], buf, time);
      Behind(r0, r1, link.trace);
    }

    /** qcloud_http_recv_data and _http_client_recv_response; a failure closes the connection. */
    method RecvData(buf: array<byte>, time0: nat) returns (rc: int, ghost n: nat)
      requires Valid() && (parsed && retrieveLen == 0 ==> isMore)
      modifies this, link, buf
      ensures body == old(body) && rc <= 0 && old(link.trace) <= link.trace
      ensures buf.Length == 0 ==> rc == 0 && link.trace == old(link.trace)
      ensures var seen := link.trace[|old(link.trace)|..];
        buf.Length > 0 ==>
          && Fits(response, old(isMore), old(link.open), seen)
          && rc == FetchEnd(response, old(isMore), old(link.open), seen)
      ensures rc >= 0 ==>
        got == old(got) + n <= |body| && n <= buf.Length && buf[..n] == body[old(got)..got] && (old(parsed) ==> parsed)
      ensures rc >= 0 && (buf.Length >= CHUNK_SIZE || buf.Length == 0) ==> Valid()
      ensures rc >= 0 ==> contentLen - retrieveLen == got
      ensures rc < 0 ==> !link.open
    {
      rc, n := 0, 0;
      if buf.Length == 0 { return; }
      ghost var r0 := link.trace;
      if !link.open {
        rc := ERR_CONN;
      } else if isMore {
        rc, n := RetrieveContent([], buf, time0);
        MoreFits(response, link.trace[|r0|..]);
      } else {
        isMore := true;
        var data, time;
        rc, data, time := Recv(CHUNK_SIZE - 1, time0);
        ghost var r1 := link.trace;
        if rc == 0 {
          if |data| > 0 {
            rc, n := ParseResponse(data, buf, time);
            FirstFits(response, r0, r1, link.trace, |data|);
          } else {
            assert data + link.pending == link.pending;
          }
        }
      }
      if rc > 0 { rc := 0; }
      if rc < 0 { link.open := false; }
    }

    /** qcloud_ofc_fetch: the bytes placed in the buffer, as the difference of two counters. */
    method Fetch(buf: array<byte>, time: nat) returns (ret: int)
      requires Valid() && (parsed && retrieveLen == 0 ==> isMore)
      modifies this, link, buf
      ensures body == old(body) && old(link.trace) <= link.trace
      ensures var seen := link.trace[|old(link.trace)|..];
        buf.Length > 0 ==> Reports(ret, response, old(isMore), old(link.open), seen)
      ensures ret >= 0 ==> got == old(got) + ret <= |body| && ret <= buf.Length && buf[..ret] == body[old(got)..got]
      ensures ret >= 0 && old(parsed) ==> parsed
      ensures ret >= 0 && (buf.Length >= CHUNK_SIZE || buf.Length == 0) ==> Valid()
    {
      var diff := contentLen - retrieveLen;
      var rc;
      ghost var n;
      rc, n := RecvData(buf, time);
      if rc != 0 { return Mapped(rc); }
      ret := contentLen - retrieveLen - diff;
    }
  }

  lemma FrontGone(data: seq<byte>, pending: seq<byte>, head: seq<byte>, body: seq<byte>, k: nat)
    requires data + pending == head + body && k <= |data| && k <= |head|
    ensures data[k..] + pending == head[k..] + body
  {
    assert (data + pending)[k..] == data[k..] + pending && (head + body)[k..] == head[k..] + body;
  }

  // memcpy and the terminating zero.
  method Store(buf: array<byte>, count: nat, piece: seq<byte>)
    requires count + |piece| < buf.Length
    modifies buf
    ensures buf[..count + |piece|] == old(buf[..count]) + piece
  {
    Copy(buf, count, piece);
    buf[count + |piece|] := 0;
  }

  lemma Advance(body: seq<byte>, got: nat, data: seq<byte>, pending: seq<byte>, t: nat)
    requires got <= |body| && body[got..] == data + pending && t <= |data|
    ensures got + t <= |body| && body[got + t..] == data[t..] + pending && body[got..got + t] == data[..t]
  {
    assert body[got..][t..] == body[got + t..] && body[got..][..t] == body[got..got + t];
    assert (data + pending)[t..] == data[t..] + pending && (data + pending)[..t] == data[..t];
  }

  lemma Grown(body: seq<byte>, g: nat, got: nat, t: nat)
    requires g <= got <= |body|
    ensures got + t <= |body| ==> body[g..got + t] == body[g..got] + body[got..got + t]
  {}

  // All reads, or all but the last, went well and in time.
  predicate AllWell(trace: seq<Reading>) {
    forall k :: 0 <= k < |trace| ==> ErrorOf(trace[k]) == 0 && trace[k].left > 0
  }

  predicate AllBut(trace: seq<Reading>) { trace == [] || AllWell(trace[..|trace| - 1]) }

  lemma OneMore(r0: seq<Reading>, r1: seq<Reading>, r2: seq<Reading>)
    requires r0 <= r1 && |r2| == |r1| + 1 && r2[..|r1|] == r1 && AllWell(r1[|r0|..])
    ensures r0 <= r2 && AllBut(r2[|r0|..])
    ensures var last := r2[|r1|];
      BodyEnd(r2[|r0|..]) == (if ErrorOf(last) < 0 then ErrorOf(last) else if last.left == 0 then ERR_TIMEOUT else 0)
    ensures ErrorOf(r2[|r1|]) == 0 && r2[|r1|].left > 0 ==> AllWell(r2[|r0|..])
  {
    assert r2[|r0|..] == r1[|r0|..] + [r2[|r1|]];
    assert r2[|r0|..][..|r1| - |r0|] == r1[|r0|..];
  }

  lemma NoReads(trace: seq<Reading>)
    ensures AllWell(trace[|trace|..])
  {}

  lemma WellEnds(trace: seq<Reading>)
    requires AllWell(trace)
    ensures AllBut(trace) && BodyEnd(trace) == 0
  {}

  // Reads behind the header's.
  lemma Behind(r0: seq<Reading>, r1: seq<Reading>, r2: seq<Reading>)
    requires r0 <= r1 <= r2
    ensures r0 <= r2 && r2[|r0|..] == r1[|r0|..] + r2[|r1|..]
  {}

  /** The reads that can follow a first one of n bytes. */
  predicate HeadFits(r: Response, n: nat, trace: seq<Reading>) {
    if n < r.firstLine || r.status in {403, 404} then trace == []
    else if n >= r.header then AllBut(trace) && (trace != [] ==> r.length.Some?)
    else
      && trace != [] && AllBut(trace[1..]) && (|trace| > 1 ==> ErrorOf(trace[0]) == 0)
      && (|trace| > 1 ==> r.length.Some? && n + trace[0].n >= r.header)
  }

  lemma MoreFits(r: Response, trace: seq<Reading>)
    requires AllBut(trace)
    ensures Fits(r, true, true, trace)
  {}

  lemma FirstFits(r: Response, r0: seq<Reading>, r1: seq<Reading>, r2: seq<Reading>, n: nat)
    requires ResponseOk(r) && |r1| == |r0| + 1 && r1[..|r0|] == r0 && r1 <= r2 && n > 0
    requires ErrorOf(r1[|r0|]) == 0 && r1[|r0|].n == n && HeadFits(r, n, r2[|r1|..])
    ensures r0 <= r2 && r2[|r0|] == r1[|r0|] && r2[|r0|..][1..] == r2[|r1|..] && Fits(r, false, true, r2[|r0|..])
  {
    var trace, rest := r2[|r0|..], r2[|r1|..];
    assert trace[1..] == rest && trace[0] == r1[|r0|];
    forall k | 0 <= k < |trace| - 1 ensures ErrorOf(trace[k]) == 0 {
      if k > 0 { assert trace[k] == rest[k - 1]; }
      if k > 1 && n < r.header { assert rest[1..][k - 2] == rest[k - 1]; }
    }
    if |trace| > 1 { assert trace[1] == rest[0]; }
  }
}
