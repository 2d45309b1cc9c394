/** The CoAP message format (sections 3 and 3.1 of RFC 7252) as coap_client_serialize.c prints it and
    coap_client_deserialize.c reads it, on values. */
module CoapCodec {
  import opened Buffers
  import opened Octets

  /** An option: a 16-bit number and its value. */
  datatype Op = Op(num: nat, val: seq<byte>)

  const MAX_VALUE := 65804  // 269 + 0xFFFF, the longest value two extension bytes can give

  predicate OpOk(op: Op) { op.num < 65536 && |op.val| <= MAX_VALUE }

  // ---------- one option ----------

  function Nibble(n: nat): (r: nat)
    ensures r <= 14
  {
    if n >= 269 then 14 else if n >= 13 then 13 else n
  }

  // High and low byte of a 16-bit quantity.
  /** The extension bytes of n, put before what follows. */
  function PutExt(n: nat, tail: seq<byte>): seq<byte> {
    if n >= 269 then [High(n - 269), Low(n - 269)] + tail else if n >= 13 then [n - 13] + tail else tail
  }

  /** op_delta is an unsigned short: out of order numbers wrap. */
  function Delta(num: nat, prev: nat): (d: nat)
    ensures d < 65536
  {
    (num - prev) % 65536
  }

  // An option with increment d, put before what follows.
  function Put(d: nat, val: seq<byte>, tail: seq<byte>): (b: seq<byte>)
    ensures |b| >= 1
  {
    [Nibble(d) * 16 + Nibble(|val|)] + PutExt(d, PutExt(|val|, val + tail))
  }

  function EncodeOp(op: Op, prev: nat, tail: seq<byte>): (b: seq<byte>)
    ensures |b| >= 1
  {
    Put(Delta(op.num, prev), op.val, tail)
  }

  function EncodeOps(ops: seq<Op>, prev: nat, tail: seq<byte>): seq<byte> {
    if ops == [] then tail else EncodeOp(ops[0], prev, EncodeOps(ops[1..], ops[0].num, tail))
  }

  datatype Parsed<T> = Ok(value: T, rest: seq<byte>) | Bad

  function ReadExt(nibble: nat, b: seq<byte>): (r: Parsed<nat>)
    ensures r.Ok? ==> |r.rest| <= |b|
  {
    if nibble == 13 then (if |b| < 1 then Bad else Ok(13 + U8(b[0]), b[1..]))
    else if nibble == 14 then (if |b| < 2 then Bad else Ok(269 + Word(b[0], b[1]), b[2..]))
    else Ok(nibble, b)
  }

  function DecodeOp(b: seq<byte>, prev: nat): (r: Parsed<Op>)
    ensures r.Ok? ==> |r.rest| < |b|
  {
    if |b| < 1 || U8(b[0]) / 16 == 15 || U8(b[0]) % 16 == 15 then Bad else
      var delta := ReadExt(U8(b[0]) / 16, b[1..]);
      if delta.Bad? then Bad else
        var length := ReadExt(U8(b[0]) % 16, delta.rest);
        if length.Bad? || |length.rest| < length.value then Bad
        else Ok(Op((prev + delta.value) % 65536, length.rest[..length.value]), length.rest[length.value..])
  }

  function DecodeOps(b: seq<byte>, prev: nat): Parsed<seq<Op>>
    decreases |b|
  {
    if |b| == 0 || b[0] == 0xFF then Ok([], b) else
      var one := DecodeOp(b, prev);
      if one.Bad? then Bad else
        var more := DecodeOps(one.rest, one.value.num);
        if more.Bad? then Bad else Ok([one.value] + more.value, more.rest)
  }

  lemma HighLow(n: nat)
    requires n < 65536
    ensures Word(High(n), Low(n)) == n
  {}

  lemma ExtRoundTrip(n: nat, tail: seq<byte>)
    requires n <= MAX_VALUE
    ensures ReadExt(Nibble(n), PutExt(n, tail)) == Ok(n, tail)
  {
    if n >= 269 { HighLow(n - 269); }
  }

  lemma DeltaAdds(num: nat, prev: nat)
    requires num < 65536
    ensures (prev + Delta(num, prev)) % 65536 == num
  {}

  lemma FirstByte(d: nat, l: nat)
    requires d <= 14 && l <= 14
    ensures (d * 16 + l) / 16 == d && (d * 16 + l) % 16 == l && d * 16 + l < 0xFF
  {}

  lemma PutReads(d: nat, val: seq<byte>, prev: nat, tail: seq<byte>)
    requires d <= MAX_VALUE && |val| <= MAX_VALUE
    ensures DecodeOp(Put(d, val, tail), prev) == Ok(Op((prev + d) % 65536, val), tail)
    ensures Put(d, val, tail)[0] != 0xFF
  {
    FirstByte(Nibble(d), Nibble(|val|));
    ExtRoundTrip(|val|, val + tail);
    ExtRoundTrip(d, PutExt(|val|, val + tail));
  }

  /** Reading back a printed option, whatever follows it; and no option begins like the payload
      marker, so the marker is unambiguous. */
  lemma OpRoundTrip(op: Op, prev: nat, tail: seq<byte>)
    requires OpOk(op)
    ensures DecodeOp(EncodeOp(op, prev, tail), prev) == Ok(op, tail)
    ensures EncodeOp(op, prev, tail)[0] != 0xFF
  {
    PutReads(Delta(op.num, prev), op.val, prev, tail);
    DeltaAdds(op.num, prev);
  }

  /** Reading back printed options, in any order of numbers, up to the end or the marker. */
  lemma {:induction false} OpsRoundTrip(ops: seq<Op>, prev: nat, tail: seq<byte>)
    requires forall i :: 0 <= i < |ops| ==> OpOk(ops[i])
    requires tail == [] || tail[0] == 0xFF
    ensures DecodeOps(EncodeOps(ops, prev, tail), prev) == Ok(ops, tail)
    decreases |ops|
  {
    if ops != [] {
      var rest := EncodeOps(ops[1..], ops[0].num, tail);
      OpRoundTrip(ops[0], prev, rest);
      OpsRoundTrip(ops[1..], ops[0].num, tail);
      DecodeNext(EncodeOp(ops[0], prev, rest), prev, ops[0], rest, ops[1..], tail);
      assert [ops[0]] + ops[1..] == ops;
    }
  }

  lemma DecodeNext(b: seq<byte>, prev: nat, op: Op, rest: seq<byte>, ops: seq<Op>, tail: seq<byte>)
    requires |b| > 0 && b[0] != 0xFF && DecodeOp(b, prev) == Ok(op, rest) && DecodeOps(rest, op.num) == Ok(ops, tail)
    ensures DecodeOps(b, prev) == Ok([op] + ops, tail)
  {}

  // ---------- the other direction: what is accepted is what would be printed ----------

  lemma ReadExtCanonical(nibble: nat, b: seq<byte>)
    requires nibble <= 14 && ReadExt(nibble, b).Ok?
    ensures var r := ReadExt(nibble, b);
      Nibble(r.value) == nibble && r.value <= MAX_VALUE && PutExt(r.value, r.rest) == b
  {
    hide High, Low;
    var r := ReadExt(nibble, b);
    if nibble == 14 {
      WordBound(b[0], b[1]);
      BytesOf(b[0], b[1]);
      assert b == [b[0], b[1]] + b[2..];
    } else if nibble == 13 {
      assert b == [b[0]] + b[1..];
    }
  }

  lemma WordBound(h: byte, l: byte)
    ensures Word(h, l) < 65536
  {}

  lemma BytesOf(h: byte, l: byte)
    ensures High(Word(h, l)) == h && Low(Word(h, l)) == l
  {}

  /** The increment an accepted option carries. */
  function DeltaOf(b: seq<byte>): nat
    requires |b| >= 1
  {
    var r := ReadExt(U8(b[0]) / 16, b[1..]);
    if r.Ok? then r.value else 0
  }

  /** An option is accepted only as it would be printed, unless its increment does not fit in the
      16 bits an option number has. */
  lemma OpCanonical(b: seq<byte>, prev: nat)
    requires prev < 65536 && DecodeOp(b, prev).Ok? && DeltaOf(b) < 65536
    ensures var r := DecodeOp(b, prev); OpOk(r.value) && EncodeOp(r.value, prev, r.rest) == b
  {
    var r := DecodeOp(b, prev);
    var delta := ReadExt(U8(b[0]) / 16, b[1..]);
    var length := ReadExt(U8(b[0]) % 16, delta.rest);
    ReadExtCanonical(U8(b[0]) / 16, b[1..]);
    ReadExtCanonical(U8(b[0]) % 16, delta.rest);
    DeltaBack(prev, delta.value);
    var l := length.value;
    Joined(length.rest, l);
    assert [b[0]] + b[1..] == b;
  }

  lemma Joined(s: seq<byte>, k: nat)
    requires k <= |s|
    ensures s[..k] + s[k..] == s
  {}

  lemma DeltaBack(prev: nat, d: nat)
    requires prev < 65536 && d < 65536
    ensures Delta((prev + d) % 65536, prev) == d
  {}

  /** No increment in b exceeds 16 bits. */
  predicate DeltasFit(b: seq<byte>, prev: nat)
    decreases |b|
  {
    |b| == 0 || b[0] == 0xFF || DecodeOp(b, prev).Bad?
    || (DeltaOf(b) < 65536 && DeltasFit(DecodeOp(b, prev).rest, DecodeOp(b, prev).value.num))
  }

  lemma {:induction false} OpsCanonical(b: seq<byte>, prev: nat)
    requires prev < 65536 && DecodeOps(b, prev).Ok? && DeltasFit(b, prev)
    ensures var r := DecodeOps(b, prev);
      && (forall i :: 0 <= i < |r.value| ==> OpOk(r.value[i])) && EncodeOps(r.value, prev, r.rest) == b
      && (r.rest == [] || r.rest[0] == 0xFF)
    decreases |b|
  {
    if |b| > 0 && b[0] != 0xFF {
      var one := DecodeOp(b, prev);
      OpCanonical(b, prev);
      OpsCanonical(one.rest, one.value.num);
      var more := DecodeOps(one.rest, one.value.num);
      EncodeNext(one.value, more.value, prev, more.rest);
    }
  }

  lemma EncodeNext(op: Op, ops: seq<Op>, prev: nat, tail: seq<byte>)
    ensures EncodeOps([op] + ops, prev, tail) == EncodeOp(op, prev, EncodeOps(ops, op.num, tail))
  {
    assert ([op] + ops)[1..] == ops;
  }

  // ---------- whole messages ----------

  const CON: nat := 0
  const NON: nat := 1
  const ACK: nat := 2
  const RST: nat := 3

  datatype Msg = Msg(kind: nat, cls: nat, detail: nat, id: nat, token: seq<byte>, ops: seq<Op>, payload: seq<byte>)

  /** What the fields of a CoAPMessage can hold after the setters. */
  predicate Fields(m: Msg) {
    && m.kind < 4 && m.cls < 8 && m.detail < 32 && m.id < 65536 && |m.token| <= 8
    && forall i :: 0 <= i < |m.ops| ==> OpOk(m.ops[i])
  }

  function Header(m: Msg): seq<byte>
    requires Fields(m)
  {
    [64 + m.kind * 16 + |m.token|, m.cls * 32 + m.detail, High(m.id), Low(m.id)]
  }

  function Marked(payload: seq<byte>): seq<byte> { if payload == [] then [] else [0xFF] + payload }

  function Encode(m: Msg): seq<byte>
    requires Fields(m)
  {
    Header(m) + m.token + EncodeOps(m.ops, 0, Marked(m.payload))
  }

  /** _coap_msg_check: section 4.1 to 4.3 of RFC 7252 on empty messages. */
  predicate Checked(m: Msg) {
    if m.cls == 0 && m.detail == 0 then m.kind != NON && m.token == [] && m.ops == [] && m.payload == []
    else m.kind != RST
  }

  /** The four header bytes are of a version 1 message of a known class, and the token is there. */
  predicate GoodHeader(b: seq<byte>) {
    |b| >= 4 && U8(b[0]) / 64 == 1 && U8(b[0]) % 16 <= 8 && U8(b[1]) / 32 in {0, 2, 4, 5} && |b| - 4 >= U8(b[0]) % 16
  }

  function MsgOf(b: seq<byte>, ops: seq<Op>, payload: seq<byte>): Msg
    requires GoodHeader(b)
  {
    Msg(U8(b[0]) / 16 % 4, U8(b[1]) / 32, U8(b[1]) % 32, Word(b[2], b[3]), b[4..4 + U8(b[0]) % 16], ops, payload)
  }

  /** deserialize_coap_message up to the check. */
  function Decode(b: seq<byte>): Parsed<Msg> {
    if !GoodHeader(b) then Bad else Finish(b, DecodeOps(b[4 + U8(b[0]) % 16..], 0))
  }

  // The payload: what follows the marker, and not nothing.
  function Finish(b: seq<byte>, ops: Parsed<seq<Op>>): Parsed<Msg>
    requires GoodHeader(b)
  {
    if ops.Bad? || |ops.rest| == 1 then Bad
    else Ok(MsgOf(b, ops.value, if ops.rest == [] then [] else ops.rest[1..]), [])
  }

  lemma HeaderRoundTrip(m: Msg)
    requires Fields(m)
    ensures var h := Header(m);
      && U8(h[0]) / 64 == 1 && U8(h[0]) / 16 % 4 == m.kind && U8(h[0]) % 16 == |m.token|
      && U8(h[1]) / 32 == m.cls && U8(h[1]) % 32 == m.detail && Word(h[2], h[3]) == m.id
  {
    HighLow(m.id);
    KindByte(m.kind, |m.token|);
  }

  lemma KindByte(kind: nat, k: nat)
    requires kind < 4 && k <= 8
    ensures var x := 64 + kind * 16 + k; x / 64 == 1 && x / 16 % 4 == kind && x % 16 == k
  {
    if kind == 0 {} else if kind == 1 {} else if kind == 2 {} else {}
  }

  lemma {:induction false} MarkedTail(payload: seq<byte>)
    ensures var t := Marked(payload);
      (t == [] || t[0] == 0xFF) && |t| != 1 && payload == if t == [] then [] else t[1..]
  {}

  lemma MessagePieces(h: seq<byte>, token: seq<byte>, body: seq<byte>)
    requires |h| == 4
    ensures var b := h + token + body;
      && b[0] == h[0] && b[1] == h[1] && b[2] == h[2] && b[3] == h[3]
      && b[4..4 + |token|] == token && b[4 + |token|..] == body
  {}

  /** A printed message reads back as it was exactly when its class is one the client knows. */
  lemma MessageRoundTrip(m: Msg)
    requires Fields(m)
    ensures Decode(Encode(m)) == Ok(m, []) <==> m.cls in {0, 2, 4, 5}
    ensures m.cls !in {0, 2, 4, 5} ==> Decode(Encode(m)).Bad?
  {
    HeaderRoundTrip(m);
    MarkedTail(m.payload);
    OpsRoundTrip(m.ops, 0, Marked(m.payload));
    MessagePieces(Header(m), m.token, EncodeOps(m.ops, 0, Marked(m.payload)));
  }

  // ---------- the format, byte by byte ----------

  /** Section 3.1 of RFC 7252: the four bits for an increment or a length, and its extension. */
  function FourBits(n: nat): nat { if n < 13 then n else if n < 269 then 13 else 14 }

  function Extension(n: nat): seq<byte>
    requires n < 269 + 65536
  {
    if n < 13 then [] else if n < 269 then [n - 13] else [(n - 269) / 256, (n - 269) % 256]
  }

  /** An option as that section draws it. */
  lemma OptionBytes(op: Op, prev: nat, tail: seq<byte>)
    requires OpOk(op) && prev <= op.num
    ensures var d, l := op.num - prev, |op.val|;
      EncodeOp(op, prev, tail) == [16 * FourBits(d) + FourBits(l)] + Extension(d) + Extension(l) + op.val + tail
  {
    hide PutExt, Extension, Nibble, FourBits;
    var d, l := op.num - prev, |op.val|;
    assert Delta(op.num, prev) == d;
    ExtensionIs(l, op.val + tail);
    ExtensionIs(d, PutExt(l, op.val + tail));
  }

  lemma ExtensionIs(n: nat, tail: seq<byte>)
    requires n < 269 + 65536
    ensures PutExt(n, tail) == Extension(n) + tail && Nibble(n) == FourBits(n)
  {}

  /** A message as section 3 draws it: version 1, type and token length, code, id high byte first, token,
      options, and the payload behind a byte of ones. */
  lemma MessageBytes(m: Msg)
    requires Fields(m)
    ensures var e, k := Encode(m), |m.token|;
      && |e| >= 4 + k && e[0] == 64 + 16 * m.kind + k && e[1] == 32 * m.cls + m.detail
      && e[2] == m.id / 256 && e[3] == m.id % 256 && e[4..4 + k] == m.token
      && e[4 + k..] == EncodeOps(m.ops, 0, if m.payload == [] then [] else [0xFF] + m.payload)
  {
    MessagePieces(Header(m), m.token, EncodeOps(m.ops, 0, Marked(m.payload)));
  }

  /** Sections 4.1 to 4.3: an empty message may not be non-confirmable or carry anything, and only an empty
      one may be a reset. */
  lemma RefusedExactly(m: Msg)
    ensures !Checked(m) <==>
      if m.cls == 0 && m.detail == 0 then m.kind == 1 || |m.token| + |m.ops| + |m.payload| > 0 else m.kind == 3
  {}

  lemma HeaderCanonical(b: seq<byte>, m: Msg)
    requires |b| >= 4 && U8(b[0]) / 64 == 1 && U8(b[0]) % 16 <= 8 && Fields(m) && |m.token| == U8(b[0]) % 16
    requires m.kind == U8(b[0]) / 16 % 4 && m.cls == U8(b[1]) / 32 && m.detail == U8(b[1]) % 32
    requires m.id == Word(b[2], b[3])
    ensures Header(m) == b[..4]
  {
    FirstBack(U8(b[0]));
    BytesOf(b[2], b[3]);
  }

  lemma FirstBack(x: nat)
    requires x / 64 == 1
    ensures 64 + x / 16 % 4 * 16 + x % 16 == x
  {
    assert x / 16 == 4 + (x / 16 - 4) && 0 <= x / 16 - 4 < 4;
  }

  lemma Parts(b: seq<byte>, k: nat)
    requires 4 + k <= |b|
    ensures b[..4] + b[4..4 + k] + b[4 + k..] == b
  {}

  lemma Remark(t: seq<byte>)
    requires |t| != 1 && (t == [] || t[0] == 0xFF)
    ensures Marked(if t == [] then [] else t[1..]) == t
  {}

  // What an accepted byte string is made of.
  lemma Decoded(b: seq<byte>)
    requires Decode(b).Ok? && DeltasFit(b[4 + U8(b[0]) % 16..], 0)
    ensures var m, k := Decode(b).value, U8(b[0]) % 16;
      && 4 + k <= |b| && Fields(m) && Header(m) == b[..4] && m.token == b[4..4 + k]
      && EncodeOps(m.ops, 0, Marked(m.payload)) == b[4 + k..]
  {
    hide DecodeOps, EncodeOps, DeltasFit, Header;
    var m, k := Decode(b).value, U8(b[0]) % 16;
    OpsCanonical(b[4 + k..], 0);
    Remark(DecodeOps(b[4 + k..], 0).rest);
    HeaderCanonical(b, m);
  }

  /** The converse: a byte string that is accepted is the print of the message it was read as. */
  lemma MessageCanonical(b: seq<byte>)
    requires Decode(b).Ok? && DeltasFit(b[4 + U8(b[0]) % 16..], 0)
    ensures var m := Decode(b).value; Fields(m) && Encode(m) == b
  {
    Decoded(b);
    Parts(b, U8(b[0]) % 16);
  }
}
