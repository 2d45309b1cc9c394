/** The MQTT packet codec: the remaining-length field (section 2.2.3 of MQTT 3.1.1) and the PUBLISH
    printer and parser of mqtt_client_publish.c (section 3.3). */
module MqttCodec {
  import opened Arithmetic
  import opened Buffers
  import opened Octets

  const MAX_REMAINING := 268435455
  const RX_BUF_LEN := 2048
  const PUBLISH := 3

  const ERR_FAILURE := -1001
  const ERR_BUF_TOO_SHORT := -119
  const ERR_PACKET_READ := -110

  // ---------- the remaining length ----------

  /** Seven bits a byte, low ones first; the top bit says that more follow. */
  function EncodeLen(n: nat): (b: seq<byte>)
    ensures |b| > 0
  {
    if n < 128 then [n] else [n % 128 + 128] + EncodeLen(n / 128)
  }

  /** What a run of length bytes is worth. */
  function Worth(b: seq<byte>): nat { if b == [] then 0 else b[0] % 128 + 128 * Worth(b[1..]) }

  /** How many bytes a reader takes from s before it stops: the first without the top bit, or none. */
  function Taken(s: seq<byte>): (k: nat)
    ensures k <= |s|
  {
    if s == [] then 0 else if s[0] < 128 then 1 else if Taken(s[1..]) == 0 then 0 else 1 + Taken(s[1..])
  }

  function Pow128(k: nat): (p: nat)
    ensures p > 0
  {
    if k == 0 then 1 else 128 * Pow128(k - 1)
  }

  /** The length field of n, whatever follows it, is read to its end and is worth n. */
  lemma {:induction false} LenRoundTrip(n: nat, tail: seq<byte>)
    ensures Worth(EncodeLen(n)) == n && Taken(EncodeLen(n) + tail) == |EncodeLen(n)|
  {
    var s := EncodeLen(n) + tail;
    if n >= 128 {
      LenRoundTrip(n / 128, tail);
      assert s[1..] == EncodeLen(n / 128) + tail;
      assert EncodeLen(n)[1..] == EncodeLen(n / 128);
    }
  }

  /** A field read in k bytes is the one that is written for its value, unless it ends in a zero
      byte that could have been left out. */
  lemma {:induction false} LenCanonical(s: seq<byte>)
    requires Taken(s) > 0
    ensures s[..Taken(s)] == EncodeLen(Worth(s[..Taken(s)])) <==> Taken(s) == 1 || s[Taken(s) - 1] != 0
    ensures |EncodeLen(Worth(s[..Taken(s)]))| <= Taken(s)
  {
    var k := Taken(s);
    var b := s[..k];
    if k > 1 {
      LenCanonical(s[1..]);
      assert b[1..] == s[1..][..k - 1];
      var w := Worth(b[1..]);
      if w == 0 {
        TakenPrefix(s[1..]);
        ZeroWorth(b[1..]);
      } else {
        assert Worth(b) / 128 == w && Worth(b) % 128 == b[0] - 128;
        assert EncodeLen(Worth(b)) == [b[0]] + EncodeLen(w);
      }
    } else {
      assert b == [s[0]] && b[1..] == [];
    }
  }

  lemma {:induction false} TakenPrefix(s: seq<byte>)
    requires Taken(s) > 0
    ensures Taken(s[..Taken(s)]) == Taken(s)
  {
    if s[0] >= 128 {
      TakenPrefix(s[1..]);
      assert s[..Taken(s)][1..] == s[1..][..Taken(s) - 1];
    }
  }

  lemma {:induction false} ZeroWorth(b: seq<byte>)
    requires b != [] && Worth(b) == 0 && Taken(b) == |b|
    ensures b[|b| - 1] == 0 && (|b| == 1 || EncodeLen(0) != b)
  {
    if |b| > 1 { ZeroWorth(b[1..]); }
  }

  lemma {:induction false} LenSize(n: nat, k: nat)
    requires k > 0
    ensures |EncodeLen(n)| <= k <==> n < Pow128(k)
  {
    if k == 1 {
      assert Pow128(1) == 128 * Pow128(0);
    } else if n >= 128 {
      LenSize(n / 128, k - 1);
    } else {
      assert 128 <= 128 * Pow128(k - 1);
    }
  }

  lemma Sizes(n: nat)
    ensures |EncodeLen(n)| ==
      (if n < 128 then 1 else if n < 16384 then 2 else if n < 2097152 then 3 else if n <= MAX_REMAINING then 4
       else |EncodeLen(n)|)
    ensures |EncodeLen(n)| <= 4 <==> n <= MAX_REMAINING
  {
    assert Pow128(1) == 128 && Pow128(2) == 16384 && Pow128(3) == 2097152 && Pow128(4) == 268435456;
    LenSize(n, 1);
    LenSize(n, 2);
    LenSize(n, 3);
    LenSize(n, 4);
  }

  /** mqtt_write_packet_rem_len. */
  method WriteRemLen(buf: array<byte>, at: nat, length: nat) returns (outLen: nat)
    requires at + |EncodeLen(length)| <= buf.Length
    modifies buf
    ensures outLen == |EncodeLen(length)| && buf[..] == Written(old(buf[..]), at, EncodeLen(length))
  {
    hide Written, EncodeLen;
    outLen := 0;
    ghost var s, done: seq<byte> := buf[..], [];
    var left, more := length, true;
    WrittenNothing(s, at);
    assert [] + EncodeLen(length) == EncodeLen(length);
    while more
      invariant outLen == |done|
      invariant if more then EncodeLen(length) == done + EncodeLen(left) else EncodeLen(length) == done
      invariant at + |done| <= |s| && buf[..] == Written(s, at, done)
      decreases left, more
    {
      var encodeByte: byte := left % 128;
      LenNext(left, done);
      left := left / 128;
      more := left > 0;
      if more { encodeByte := encodeByte + 128; }
      PutByte(buf, at + outLen, encodeByte);
      WrittenNext(s, at, done, [encodeByte]);
      done := done + [encodeByte];
      outLen := outLen + 1;
    }
  }

  lemma LenNext(left: nat, done: seq<byte>)
    ensures done + EncodeLen(left) ==
      if left < 128 then done + [left] else done + [left % 128 + 128] + EncodeLen(left / 128)
  {}

  lemma WrittenNothing(s: seq<byte>, at: nat)
    requires at <= |s|
    ensures Written(s, at, []) == s
  {}

  /** mqtt_read_packet_rem_len_form_buf: at most four bytes. The buffer must hold what it reads. */
  method ReadRemLen(buf: array<byte>, at: nat) returns (rc: int, value: nat, len: nat)
    requires at + 4 <= buf.Length || (at <= buf.Length && Taken(buf[at..]) > 0)
    ensures var k := Taken(buf[at..]);
      if 0 < k <= 4 then rc == 0 && len == k && value == Worth(buf[at..][..k]) else rc == ERR_PACKET_READ
  {
    ghost var s := buf[at..];
    var multiplier: nat, c: byte := 1, 128;
    value, len, rc := 0, 0, 0;
    while c >= 128
      invariant len <= 4 && at + len <= buf.Length
      invariant multiplier == Pow128(len) && value == Worth(s[..len])
      invariant if c >= 128 then Taken(s) == (if Taken(s[len..]) == 0 then 0 else len + Taken(s[len..]))
        else Taken(s) == len > 0
      decreases 4 - len, c
    {
      len := len + 1;
      if len > 4 { return ERR_PACKET_READ, value, len; }
      assert Taken(s[len - 1..]) > 0 || |s| >= 4;
      c := buf[at + len - 1];
      assert s[len - 1..][0] == c && s[len - 1..][1..] == s[len..];
      WorthNext(s, len - 1);
      value := value + U8(c) % 128 * multiplier;
      multiplier := multiplier * 128;
    }
  }

  lemma {:induction false} WorthNext(s: seq<byte>, k: nat)
    requires k < |s|
    ensures Worth(s[..k + 1]) == Worth(s[..k]) + s[k] % 128 * Pow128(k)
  {
    if k == 0 {
      assert s[..1][1..] == [];
    } else {
      hide Taken;
      WorthNext(s[1..], k - 1);
      assert s[..k + 1][1..] == s[1..][..k] && s[..k][1..] == s[1..][..k - 1];
      var p := Pow128(k - 1);
      assert Pow128(k) == 128 * p;
      assert s[k] % 128 * (128 * p) == 128 * (s[k] % 128 * p);
    }
  }

  /** The whole size of a packet. */
  function PacketSize(remLen: nat): nat { 1 + |EncodeLen(remLen)| + remLen }

  /** get_mqtt_packet_len: it compares the length with the header byte already counted. */
  function PacketLen(remLen: nat): nat {
    var n := remLen + 1;
    if n < 128 then n + 1 else if n < 16384 then n + 2 else if n < 2097151 then n + 3 else n + 4
  }

  /** For every length a packet can have the computed size is enough, and one byte too much exactly
      at four lengths next to the limits of the field; beyond, it is too small. */
  lemma PacketLenBounds(remLen: nat)
    ensures remLen <= MAX_REMAINING ==>
      PacketLen(remLen) == PacketSize(remLen) + if remLen in {127, 16383, 2097150, 2097151} then 1 else 0
    ensures remLen > MAX_REMAINING ==> PacketLen(remLen) < PacketSize(remLen)
  {
    Sizes(remLen);
  }

  // ---------- PUBLISH ----------

  datatype Publish = Publish(dup: bool, qos: nat, retained: bool, id: nat, topic: seq<byte>, payload: seq<byte>)

  predicate PublishOk(m: Publish) { m.qos <= 2 && m.id < 65536 && (m.qos == 0 ==> m.id == 0) }

  /** How parsing ends: the packet, an error, or a read past the end of the packet, and then a payload
      length below zero: a packet with QoS that is too short for its id. */
  datatype Parsed = Ok(m: Publish) | Failed(rc: int) | Overrun

  function Put16(n: nat): (b: seq<byte>)
    ensures |b| == 2
  {
    [High(n), Low(n)]
  }

  function Bit(b: bool): nat { if b then 1 else 0 }

  /** mqtt_init_packet_header for PUBLISH. */
  function Header(m: Publish): byte
    requires m.qos <= 2
  {
    PUBLISH * 16 + Bit(m.dup) * 8 + m.qos * 2 + Bit(m.retained)
  }

  function IdBytes(m: Publish): seq<byte> { if m.qos > 0 then Put16(m.id) else [] }

  /** _get_publish_packet_len. */
  function RemLen(m: Publish): nat { 2 + |m.topic| + |m.payload| + if m.qos > 0 then 2 else 0 }

  function Body(m: Publish): (b: seq<byte>)
    ensures |b| == RemLen(m)
  {
    Put16(|m.topic|) + m.topic + IdBytes(m) + m.payload
  }

  function Packet(m: Publish): seq<byte>
    requires m.qos <= 2
  {
    [Header(m)] + EncodeLen(RemLen(m)) + Body(m)
  }

  /** deserialize_publish_packet on what follows the fixed header: body is what the remaining length
      covers. */
  function ParseBody(header: byte, body: seq<byte>): Parsed {
    var dup, qos, retained := header / 8 % 2 == 1, header / 2 % 4, header % 2 == 1;
    if |body| < 2 then Failed(ERR_FAILURE)
    else
      var k := Word(body[0], body[1]);
      if k > RX_BUF_LEN || 2 + k > |body| then Failed(ERR_FAILURE)
      else if qos == 0 then Ok(Publish(dup, qos, retained, 0, body[2..2 + k], body[2 + k..]))
      else if |body| < 4 + k then Overrun
      else Ok(Publish(dup, qos, retained, Word(body[2 + k], body[3 + k]), body[2..2 + k], body[4 + k..]))
  }

  /** The parser on a packet at the front of a buffer. */
  function Parse(buf: seq<byte>): Parsed {
    if |buf| < 4 then Failed(ERR_BUF_TOO_SHORT)
    else if buf[0] / 16 != PUBLISH then Failed(ERR_FAILURE)
    else
      var k := Taken(buf[1..]);
      if k == 0 || k > 4 then Failed(ERR_PACKET_READ)
      else
        var n := Worth(buf[1..][..k]);
        if |buf| < 1 + k + n then Overrun else ParseBody(buf[0], buf[1 + k..1 + k + n])
  }

  /** What _read_mqtt_packet leaves in the read buffer: all of a packet, and its length field. */
  predicate Whole(buf: seq<byte>) {
    |buf| >= 4 && buf[0] / 16 == PUBLISH ==>
      && (|buf| >= 5 || Taken(buf[1..]) > 0)
      && (0 < Taken(buf[1..]) <= 4 ==> 1 + Taken(buf[1..]) + Worth(buf[1..][..Taken(buf[1..])]) <= |buf|)
  }

  /** What is left of a packet behind its topic is too short for the id its QoS asks for. */
  predicate ShortOfId(header: byte, body: seq<byte>) {
    && header / 2 % 4 != 0 && |body| >= 2 && Word(body[0], body[1]) <= RX_BUF_LEN
    && 2 + Word(body[0], body[1]) <= |body| < 4 + Word(body[0], body[1])
  }

  /** Where the length field of a packet at the front of a buffer can be read. */
  predicate HasLength(buf: seq<byte>) { |buf| >= 4 && buf[0] / 16 == PUBLISH && 0 < Taken(buf[1..]) <= 4 }

  function BodyOf(buf: seq<byte>): seq<byte>
    requires HasLength(buf) && Whole(buf)
  {
    var k := Taken(buf[1..]);
    buf[1 + k..1 + k + Worth(buf[1..][..k])]
  }

  /** The parser reads past the end of a packet, and counts a payload below zero, exactly if its QoS
      is not 0 and fewer than two bytes follow the topic. */
  lemma ReadsPastEnd(buf: seq<byte>)
    requires Whole(buf)
    ensures Parse(buf) == Overrun <==> HasLength(buf) && ShortOfId(buf[0], BodyOf(buf))
  {
    hide Taken, Worth, Word;
    if HasLength(buf) { OverrunExactly(buf[0], BodyOf(buf)); }
  }

  lemma OverrunExactly(header: byte, body: seq<byte>)
    ensures ParseBody(header, body) == Overrun <==> ShortOfId(header, body)
  {
    hide Word;
  }

  /** A packet of QoS 1 with an empty topic and no id. */
  lemma ShortPacketReadsPastEnd()
    ensures Whole([0x32, 2, 0, 0]) && Parse([0x32, 2, 0, 0]) == Overrun
  {
    hide Parse, Taken, Worth;
    var buf: seq<byte> := [0x32, 2, 0, 0];
    OneByteLength(buf[1..]);
    assert buf[2..4] == [0, 0];
    ReadsPastEnd(buf);
  }

  lemma OneByteLength(s: seq<byte>)
    requires s != [] && s[0] < 128
    ensures Taken(s) == 1 && Worth(s[..1]) == s[0]
  {
    assert s[..1][1..] == [];
  }

  lemma Word16(n: nat)
    ensures Word(High(n), Low(n)) == n % 65536
  {
    var a := n / 256;
    DivIs(n, 65536, a / 256, 256 * (a % 256) + n % 256);
  }

  lemma HeaderBits(m: Publish)
    requires m.qos <= 2
    ensures var h := Header(m);
      h / 16 == PUBLISH && h / 2 % 4 == m.qos && (h / 8 % 2 == 1 <==> m.dup) && (h % 2 == 1 <==> m.retained)
  {}

  // Where the parts of a body are.
  lemma BodyParts(m: Publish)
    ensures var b, k := Body(m), |m.topic|; Word(b[0], b[1]) == k % 65536 && b[2..2 + k] == m.topic && |b| == RemLen(m)
    ensures var b, k := Body(m), |m.topic|;
      if m.qos > 0 then b[4 + k..] == m.payload && Word(b[2 + k], b[3 + k]) == m.id % 65536 else b[2 + k..] == m.payload
  {
    hide Word, High, Low;
    var b, k, id := Body(m), |m.topic|, IdBytes(m);
    Word16(k);
    Word16(m.id);
    assert b == Put16(k) + m.topic + (id + m.payload);
    assert b[0] == High(k) && b[1] == Low(k) && b[2 + k..] == id + m.payload;
    if m.qos > 0 {
      assert b[2 + k..][0] == b[2 + k] == High(m.id) && b[2 + k..][1] == b[3 + k] == Low(m.id);
      assert b[2 + k..][2..] == b[4 + k..];
    } else {
      assert id + m.payload == m.payload;
    }
  }

  lemma BodyReadsBack(m: Publish)
    requires PublishOk(m)
    ensures ParseBody(Header(m), Body(m)) == Ok(m) <==> |m.topic| <= RX_BUF_LEN
  {
    hide Header, Word, Body;
    HeaderBits(m);
    BodyParts(m);
  }

  /** A packet that was printed is read back whole, with whatever follows it in the buffer, exactly
      if its topic is at most 2048 bytes and its length fits the field. */
  lemma PublishRoundTrip(m: Publish, tail: seq<byte>)
    requires PublishOk(m)
    ensures Parse(Packet(m) + tail) == Ok(m) <==> |m.topic| <= RX_BUF_LEN && RemLen(m) <= MAX_REMAINING
  {
    hide ParseBody, Body, Header, Worth, Taken, EncodeLen;
    var n, e := RemLen(m), EncodeLen(RemLen(m));
    var buf := Packet(m) + tail;
    LenRoundTrip(n, Body(m) + tail);
    Sizes(n);
    HeaderBits(m);
    FrontOf(Header(m), e, Body(m), tail);
    BodyReadsBack(m);
  }

  lemma FrontOf(h: byte, e: seq<byte>, b: seq<byte>, tail: seq<byte>)
    ensures var buf := [h] + e + b + tail;
      && buf[0] == h && buf[1..] == e + (b + tail) && buf[1..][..|e|] == e
      && buf[1 + |e|..1 + |e| + |b|] == b
  {
    var buf := [h] + e + b + tail;
    assert buf == [h] + (e + (b + tail));
  }

  /** The length field in bytes, as the table of section 2.2.3 has it. */
  lemma LenBytes(n: nat)
    requires n <= 268435455
    ensures EncodeLen(n) ==
      if n < 128 then [n]
      else if n < 16384 then [n % 128 + 128, n / 128]
      else if n < 2097152 then [n % 128 + 128, n / 128 % 128 + 128, n / 16384]
      else [n % 128 + 128, n / 128 % 128 + 128, n / 16384 % 128 + 128, n / 2097152]
  {
    hide EncodeLen;
    if n < 128 {
      FirstByte(n);
    } else if n < 16384 {
      TwoBytes(n);
    } else if n < 2097152 {
      ThreeBytes(n);
    } else {
      LongField(n);
    }
  }

  lemma LongField(n: nat)
    requires 2097152 <= n <= 268435455
    ensures EncodeLen(n) == [n % 128 + 128, n / 128 % 128 + 128, n / 16384 % 128 + 128, n / 2097152]
  {
    hide EncodeLen;
    FirstByte(n);
    Quotients(n);
    var q := n / 128;
    ThreeBytes(q);
    assert q / 128 == n / 16384 && q / 16384 == n / 2097152;
  }

  lemma TwoBytes(n: nat)
    requires 128 <= n < 16384
    ensures EncodeLen(n) == [n % 128 + 128, n / 128]
  {
    hide EncodeLen;
    FirstByte(n);
    FirstByte(n / 128);
  }

  lemma ThreeBytes(n: nat)
    requires 16384 <= n < 2097152
    ensures EncodeLen(n) == [n % 128 + 128, n / 128 % 128 + 128, n / 16384]
  {
    hide EncodeLen;
    FirstByte(n);
    TwoBytes(n / 128);
    Quotients(n);
  }

  lemma Quotients(n: nat)
    ensures n / 128 / 128 == n / 16384 && n / 128 / 16384 == n / 2097152
  {}

  lemma FirstByte(n: nat)
    ensures EncodeLen(n) == if n < 128 then [n] else [n % 128 + 128] + EncodeLen(n / 128)
  {}

  /** Byte by byte what section 3.3 makes of a PUBLISH: flags, the length of the topic high byte first, the
      topic, the id high byte first if the quality of service asks for one, and the payload. */
  lemma PacketBytes(m: Publish)
    requires m.qos <= 2 && |m.topic| < 65536 && m.id < 65536
    ensures var p, k := Packet(m), |m.topic|;
      var at := 1 + |EncodeLen(2 + k + |m.payload| + if m.qos > 0 then 2 else 0)|;
      && |p| == at + 2 + k + |m.payload| + (if m.qos > 0 then 2 else 0)
      && p[0] == 0x30 + (if m.dup then 8 else 0) + 2 * m.qos + (if m.retained then 1 else 0)
      && p[1..at] == EncodeLen(2 + k + |m.payload| + if m.qos > 0 then 2 else 0)
      && p[at] == k / 256 && p[at + 1] == k % 256 && p[at + 2..at + 2 + k] == m.topic
      && (m.qos == 0 ==> p[at + 2 + k..] == m.payload)
      && (m.qos > 0 ==> p[at + 2 + k] == m.id / 256 && p[at + 3 + k] == m.id % 256 && p[at + 4 + k..] == m.payload)
  {
    hide EncodeLen, Put16, Header;
    var e, k, id := EncodeLen(RemLen(m)), |m.topic|, IdBytes(m);
    Put16Is(k);
    Put16Is(m.id);
    HeaderIs(m);
    PublishSlices([Header(m)], e, Put16(k), m.topic, id, m.payload);
    PacketParts([Header(m)] + e, Put16(k), m.topic, id, m.payload);
  }

  lemma Put16Is(n: nat)
    requires n < 65536
    ensures Put16(n) == [n / 256, n % 256]
  {}

  lemma HeaderIs(m: Publish)
    requires m.qos <= 2
    ensures Header(m) == 0x30 + (if m.dup then 8 else 0) + 2 * m.qos + (if m.retained then 1 else 0)
  {}

  lemma PublishSlices(h: seq<byte>, e: seq<byte>, l: seq<byte>, t: seq<byte>, id: seq<byte>, d: seq<byte>)
    requires |h| == 1 && |l| == 2
    ensures var p, at, k := h + e + l + t + id + d, 1 + |e|, |t|;
      && p[0] == h[0] && p[1..at] == e && p[at] == l[0] && p[at + 1] == l[1] && p[at + 2..at + 2 + k] == t
      && p[at + 2 + k + |id|..] == d && forall j :: 0 <= j < |id| ==> p[at + 2 + k + j] == id[j]
  {}

  /** mqtt_write_uint_16. */
  method WriteWord(buf: array<byte>, at: nat, n: nat)
    requires at + 2 <= buf.Length
    modifies buf
    ensures buf[..] == Written(old(buf[..]), at, Put16(n))
  {
    buf[at] := High(n);
    buf[at + 1] := Low(n);
  }

  /** _serialize_publish_packet. */
  method Serialize(buf: array<byte>, m: Publish) returns (rc: int, len: nat)
    requires m.qos <= 2 && m.id < 65536 && RemLen(m) <= MAX_REMAINING
    modifies buf
    ensures rc == if PacketLen(RemLen(m)) > buf.Length then ERR_BUF_TOO_SHORT else 0
    ensures rc != 0 ==> buf[..] == old(buf[..])
    ensures rc == 0 ==> len == |Packet(m)| <= buf.Length && buf[..] == Written(old(buf[..]), 0, Packet(m))
  {
    hide Written, EncodeLen, Put16, PacketLen, Header;
    ghost var s := buf[..];
    var remLen := 2 + |m.topic| + |m.payload|;
    if m.qos > 0 { remLen := remLen + 2; }
    PacketLenBounds(remLen);
    if PacketLen(remLen) > buf.Length { return ERR_BUF_TOO_SHORT, 0; }
    PutByte(buf, 0, Header(m));
    ghost var done := [Header(m)];
    var n := WriteRemLen(buf, 1, remLen);
    WrittenNext(s, 0, done, EncodeLen(remLen));
    done := done + EncodeLen(remLen);
    WriteWord(buf, 1 + n, |m.topic|);
    WrittenNext(s, 0, done, Put16(|m.topic|));
    done := done + Put16(|m.topic|);
    Copy(buf, 3 + n, m.topic);
    WrittenNext(s, 0, done, m.topic);
    done := done + m.topic;
    len := 3 + n + |m.topic|;
    if m.qos > 0 {
      WriteWord(buf, len, m.id);
      WrittenNext(s, 0, done, Put16(m.id));
      len := len + 2;
    }
    AddNothing(done);
    done := done + IdBytes(m);
    Copy(buf, len, m.payload);
    WrittenNext(s, 0, done, m.payload);
    len := len + |m.payload|;
    PacketParts([Header(m)] + EncodeLen(remLen), Put16(|m.topic|), m.topic, IdBytes(m), m.payload);
    rc := 0;
  }

  lemma PacketParts(h: seq<byte>, a: seq<byte>, b: seq<byte>, c: seq<byte>, d: seq<byte>)
    ensures h + (a + b + c + d) == h + a + b + c + d
  {}

  lemma SliceOf(s: seq<byte>, a: nat, b: nat, i: nat, j: nat)
    requires a <= b <= |s| && i <= j && a + j <= b
    ensures s[a..b][i..j] == s[a + i..a + j]
  {
    forall q | 0 <= q < j - i ensures s[a..b][i..j][q] == s[a + i..a + j][q] {
      assert s[a..b][i + q] == s[a + i + q];
    }
  }

  /** _read_string_with_len: the topic at cur, or nothing if it does not end before end. */
  method ReadString(buf: array<byte>, cur: nat, end: nat) returns (ok: bool, text: seq<byte>, next: nat)
    requires cur <= end <= buf.Length
    ensures var body := buf[cur..end];
      ok <==> |body| >= 2 && Word(body[0], body[1]) <= RX_BUF_LEN && 2 + Word(body[0], body[1]) <= |body|
    ensures var body := buf[cur..end];
      ok ==> next == cur + 2 + |text| <= end && |text| == Word(body[0], body[1]) && text == body[2..2 + |text|]
  {
    ok, text, next := false, [], cur;
    if end - cur > 1 {
      var len := Word(buf[cur], buf[cur + 1]);
      if len <= RX_BUF_LEN && cur + 2 + len <= end {
        SliceOf(buf[..], cur, end, 2, 2 + len);
        assert buf[..][cur..end] == buf[cur..end] && buf[..][cur + 2..cur + 2 + len] == buf[cur + 2..cur + 2 + len];
        ok, text, next := true, buf[cur + 2..cur + 2 + len], cur + 2 + len;
      }
    }
  }

  /** deserialize_publish_packet, from the topic on. */
  method ParseRest(buf: array<byte>, header: byte, start: nat, end: nat) returns (r: Parsed)
    requires start <= end <= buf.Length
    ensures r == ParseBody(header, buf[start..end])
  {
    hide Word;
    var dup, qos, retained := header / 8 % 2 == 1, header / 2 % 4, header % 2 == 1;
    ghost var body := buf[start..end];
    var ok, topic, cur := ReadString(buf, start, end);
    if !ok { return Failed(ERR_FAILURE); }
    var id := 0;
    if qos != 0 {
      if end - cur < 2 { return Overrun; }
      id := Word(buf[cur], buf[cur + 1]);
      assert buf[cur + 2..end] == body[cur + 2 - start..];
      cur := cur + 2;
    } else {
      assert buf[cur..end] == body[cur - start..];
    }
    return Ok(Publish(dup, qos, retained, id, topic, buf[cur..end]));
  }

  /** deserialize_publish_packet. */
  method Deserialize(buf: array<byte>) returns (r: Parsed)
    requires Whole(buf[..])
    ensures r == Parse(buf[..])
  {
    hide Taken, Worth, ParseBody;
    if buf.Length < 4 { return Failed(ERR_BUF_TOO_SHORT); }
    assert buf[..][1..] == buf[1..];
    if buf[0] / 16 != PUBLISH { return Failed(ERR_FAILURE); }
    var rc, decodedLen, readLen := ReadRemLen(buf, 1);
    if rc != 0 { return Failed(rc); }
    var cur := 1 + readLen;
    assert buf[..][cur..cur + decodedLen] == buf[cur..cur + decodedLen];
    r := ParseRest(buf, buf[0], cur, cur + decodedLen);
  }
}
