/** The download states of ota_client.c, with the byte counts and the digest they keep, and the loop of
    device_ota.c that writes a firmware to flash. */
module OtaClient {
  import opened Buffers
  import opened Octets
  import opened OtaHttp
  import opened Digest

  const ERR_INVALID_PARAM := -2
  const ERR_INVALID_STATE := -3
  const ERR_FETCH_FAILED := -5

  datatype State = UNINITED | INITED | FETCHING | FETCHED | DISCONNECTED

  class Ota {
    var state: State
    var err: int
    var sizeFetched: nat
    const sizeFile: nat
    const md5sum: seq<byte>
    const md5: Context
    var http: Http?
    ghost var start: nat
    ghost var before: seq<byte>

    /** While a download is on, the count is the start offset and what was delivered, the digest has
        taken in exactly that, and the response is long enough for the rest of the file. */
    ghost predicate Valid()
      reads this, md5, md5.buffer, http, if http != null then {http.link} else {}
    {
      && md5.Valid() && sizeFile > 0
      && (http != null && state == FETCHING ==>
            && http.Valid() && http.got <= |http.body| && sizeFetched == start + http.got
            && md5.msg == before + http.body[..http.got]
            && (http.response.length.Some? ==> sizeFile <= start + http.response.length.value < WORD)
            && (http.parsed ==> sizeFetched < sizeFile))
    }

    /** A client that was told of a firmware and may fetch it. */
    constructor (size: nat, sum: seq<byte>, m: Context)
      requires size > 0 && m.Valid()
      ensures Valid() && state == FETCHING && sizeFetched == 0 && http == null && md5 == m && sizeFile == size
      ensures md5sum == sum
    {
      state, err, sizeFetched, sizeFile, md5sum, md5, http := FETCHING, 0, 0, size, sum, m, null;
    }

    lemma Counts()
      requires Valid() && state == FETCHING && http != null
      ensures sizeFetched == start + http.got && http.got <= |http.body|
    {}

    /** IOT_OTA_UpdateClientMd5: what an earlier download left behind. */
    method UpdateClientMd5(buf: seq<byte>)
      requires Valid() && http == null && |buf| < WORD
      modifies md5, md5.buffer
      ensures Valid() && md5.msg == old(md5.msg) + buf
    {
      md5.Update(buf);
    }

    /** IOT_OTA_StartDownload; connecting may fail. */
    method StartDownload(offset: nat, link: Link, r: Response, rc: int, ghost h: seq<byte>, ghost b: seq<byte>)
      returns (ret: int)
      requires Valid() && state == FETCHING && ResponseOk(r) && |h| == r.header && link.pending == h + b
      requires r.length.Some? ==> sizeFile <= sizeFetched + offset + r.length.value < WORD
      modifies this
      ensures Valid() && ret == rc && state == (if rc == 0 then FETCHING else DISCONNECTED)
      ensures sizeFetched == old(sizeFetched) + offset && start == sizeFetched && before == md5.msg
      ensures fresh(http) && http.body == b && http.got == 0 && http.link == link && http.response == r
    {
      sizeFetched := sizeFetched + offset;
      http := new Http(link, r, h, b);
      start, before := sizeFetched, md5.msg;
      assert before + http.body[..0] == before;
      if rc != 0 {
        state := DISCONNECTED;
      }
      ret := rc;
    }

    /** IOT_OTA_FetchYield, without the progress reports. */
    method FetchYield(buf: array<byte>, time: nat) returns (ret: int)
      requires Valid() && (state == FETCHING ==> http != null) && buf.Length < WORD && buf != md5.buffer
      modifies this`state, this`err, this`sizeFetched, http, if http != null then {http.link} else {}
      modifies md5, md5.buffer, buf
      ensures buf.Length >= CHUNK_SIZE || buf.Length == 0 || ret < 0 ==> Valid()
      ensures buf.Length == 0 || old(state) != FETCHING ==>
        state == old(state) && sizeFetched == old(sizeFetched) && md5.msg == old(md5.msg)
      ensures buf.Length == 0 ==> ret == ERR_INVALID_PARAM && err == old(err)
      ensures buf.Length > 0 && old(state) != FETCHING ==> ret == err == ERR_INVALID_STATE
      ensures old(state) == FETCHING ==> http.body == old(http.body) && old(http.link.trace) <= http.link.trace
      ensures old(state) == FETCHING && buf.Length > 0 ==>
        Reports(ret, http.response, old(http.isMore), old(http.link.open), http.link.trace[|old(http.link.trace)|..])
      ensures old(state) == FETCHING && buf.Length > 0 && ret < 0 ==>
        && state == FETCHED && sizeFetched == old(sizeFetched) && md5.msg == old(md5.msg)
        && err == if ret in {FETCH_AUTH_FAIL, FETCH_NOT_EXIST, FETCH_TIMEOUT} then ret else ERR_FETCH_FAILED
      ensures old(state) == FETCHING && ret >= 0 ==>
        && http.got == old(http.got) + ret <= |http.body| && ret <= buf.Length
        && buf[..ret] == http.body[old(http.got)..http.got]
      ensures old(state) == FETCHING && ret >= 0 ==>
        sizeFetched == old(sizeFetched) + ret && md5.msg == old(md5.msg) + buf[..ret] && err == old(err)
      ensures old(state) == FETCHING && ret >= 0 ==> state == if sizeFetched >= sizeFile then FETCHED else FETCHING
    {
      hide Kept, Fits, FetchEnd;
      if buf.Length == 0 { return ERR_INVALID_PARAM; }
      if state != FETCHING {
        err := ERR_INVALID_STATE;
        return ERR_INVALID_STATE;
      }
      ghost var g, body := http.got, http.body;
      ret := http.Fetch(buf, time);
      if ret < 0 {
        state, err := FETCHED, ERR_FETCH_FAILED;
        if ret in {FETCH_AUTH_FAIL, FETCH_NOT_EXIST, FETCH_TIMEOUT} { err := ret; }
        return;
      }
      sizeFetched := sizeFetched + ret;
      if sizeFetched >= sizeFile { state := FETCHED; }
      Prefix(before, body, g, g + ret);
      md5.Update(buf[..ret]);
    }

    /** IOT_OTA_Ioctl for the check of the firmware. */
    method CheckFirmware() returns (rc: int, same: bool)
      requires Valid()
      modifies this`err, md5, md5.buffer
      ensures old(state) != FETCHED ==> rc == ERR_FAILURE && err == ERR_INVALID_STATE
      ensures old(state) == FETCHED ==> rc == 0 && (same <==> md5sum == Hex(Hash(md5.a, old(md5.msg))))
    {
      same := false;
      if state != FETCHED {
        err := ERR_INVALID_STATE;
        return ERR_FAILURE, false;
      }
      var out := md5.Finish();
      same, rc := md5sum == Hex(out), 0;
    }
  }

  lemma Prefix(before: seq<byte>, body: seq<byte>, g: nat, k: nat)
    requires g <= k
    ensures k <= |body| ==> before + body[..g] + body[g..k] == before + body[..k]
  {
    if k <= |body| { assert body[..g] + body[g..k] == body[..k]; }
  }

  datatype Outcome = COMPLETE | FAILED | UNFINISHED

  /** The loop of dooya_qcloud_ota_deal: what a fetch brings is written behind what is there. It ends
      when the fetch is over or fails, or, in this model, after so many rounds. */
  method Download(ota: Ota, buf: array<byte>, flash: array<byte>, offset: nat, rounds: nat)
    returns (o: Outcome, next: nat)
    requires ota.Valid() && ota.state == FETCHING && ota.http != null && ota.start == offset && ota.http.got == 0
    requires CHUNK_SIZE <= buf.Length < WORD && buf != ota.md5.buffer && flash != buf && flash != ota.md5.buffer
    requires offset + |ota.http.body| <= flash.Length
    modifies ota, ota.http, ota.http.link, ota.md5, ota.md5.buffer, buf, flash
    ensures ota.http == old(ota.http) && ota.http.body == old(ota.http.body)
    ensures offset <= next && next - offset <= |ota.http.body| && flash[offset..next] == ota.http.body[..next - offset]
    ensures next <= flash.Length && flash[..offset] == old(flash[..offset]) && flash[next..] == old(flash[..])[next..]
    ensures ota.md5.msg == old(ota.md5.msg) + ota.http.body[..next - offset]
    ensures o == COMPLETE ==> ota.state == FETCHED && next == ota.sizeFetched >= ota.sizeFile
    ensures o == FAILED ==> ota.state == FETCHED && ota.err < 0
  {
    hide Hash, Hex, OnFlash, Ota.Valid;
    ota.Counts();
    next := offset;
    ghost var body, was, msg := ota.http.body, flash[..], ota.md5.msg;
    assert msg + body[..0] == msg;
    Untouched(was, offset, body);
    for i := 0 to rounds
      invariant ota.Valid() && ota.state == FETCHING && ota.http == old(ota.http) && ota.http.body == body
      invariant ota.start == offset
      invariant next == offset + ota.http.got <= offset + |body| && ota.md5.msg == msg + body[..next - offset]
      invariant OnFlash(flash[..], was, offset, next, body)
    {
      ota.Counts();
      ghost var g := next - offset;
      var len := ota.FetchYield(buf, 1000);
      if len < 0 {
        Reads(flash[..], was, offset, next, body);
        return FAILED, next;
      }
      Prefix(msg, body, g, g + len);
      next := WriteFlash(flash, next, buf[..len], was, offset, body);
      if ota.state == FETCHED {
        Reads(flash[..], was, offset, next, body);
        return COMPLETE, next;
      }
    }
    Reads(flash[..], was, offset, next, body);
    o := UNFINISHED;
  }

  /** From offset to next the flash holds the beginning of body; the rest is as it was. */
  ghost predicate OnFlash(now: seq<byte>, was: seq<byte>, offset: nat, next: nat, body: seq<byte>) {
    && offset <= next <= |was| == |now| && next - offset <= |body|
    && now[..offset] == was[..offset] && now[offset..next] == body[..next - offset] && now[next..] == was[next..]
  }

  lemma Untouched(was: seq<byte>, offset: nat, body: seq<byte>)
    requires offset <= |was|
    ensures OnFlash(was, was, offset, offset, body)
  {}

  lemma Reads(now: seq<byte>, was: seq<byte>, offset: nat, next: nat, body: seq<byte>)
    requires OnFlash(now, was, offset, next, body)
    ensures offset <= next <= |was| == |now| && next - offset <= |body|
    ensures now[..offset] == was[..offset] && now[offset..next] == body[..next - offset] && now[next..] == was[next..]
  {}

  method WriteFlash(flash: array<byte>, next: nat, piece: seq<byte>, ghost was: seq<byte>, ghost offset: nat,
                    ghost body: seq<byte>) returns (next': nat)
    requires OnFlash(flash[..], was, offset, next, body) && next + |piece| <= flash.Length
    requires next + |piece| - offset <= |body|
    requires piece == body[next - offset..next + |piece| - offset]
    modifies flash
    ensures next' == next + |piece| && OnFlash(flash[..], was, offset, next', body)
  {
    hide Written;
    ghost var pre := flash[..];
    if |piece| > 0 {
      Copy(flash, next, piece);
      FlashNext(pre, was, flash[..], offset, next, body, |piece|);
    }
    next' := next + |piece|;
  }

  lemma FlashNext(pre: seq<byte>, was: seq<byte>, now: seq<byte>, offset: nat, next: nat, body: seq<byte>, len: nat)
    requires offset <= next && next + len <= |pre| == |was| && next - offset + len <= |body|
    requires pre[..offset] == was[..offset] && pre[offset..next] == body[..next - offset] && pre[next..] == was[next..]
    requires now == Written(pre, next, body[next - offset..next - offset + len])
    ensures now[..offset] == was[..offset] && now[offset..next + len] == body[..next + len - offset]
    ensures now[next + len..] == was[next + len..]
  {
    assert now[offset..next + len] == pre[offset..next] + body[next - offset..next - offset + len];
    assert pre[next..][len..] == pre[next + len..] && was[next..][len..] == was[next + len..];
  }
}
