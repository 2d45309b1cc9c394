/** coap_client_deserialize.c.  Its functions move a pointer through the buffer; here they are proved
    against a parser by position, and that one against the parser of CoapCodec, which sees only what
    is left. */
module CoapParser {
  import opened Buffers
  import opened Octets
  import opened CoapCodec
  import opened CoapMessage

  // ---------- by position ----------

  datatype Found<T> = At(value: T, next: nat) | Absent

  function AsParsed<T>(r: Found<T>, s: seq<byte>): Parsed<T>
    requires r.At? ==> r.next <= |s|
  {
    if r.Absent? then Bad else Ok(r.value, s[r.next..])
  }

  function ReadExtAt(nibble: nat, s: seq<byte>, p: nat): (r: Found<nat>)
    requires p <= |s|
    ensures r.At? ==> p <= r.next <= |s|
  {
    if nibble == 13 then (if p + 1 > |s| then Absent else At(13 + U8(s[p]), p + 1))
    else if nibble == 14 then (if p + 2 > |s| then Absent else At(269 + Word(s[p], s[p + 1]), p + 2))
    else At(nibble, p)
  }

  lemma ReadExtSame(nibble: nat, s: seq<byte>, p: nat)
    requires p <= |s|
    ensures ReadExt(nibble, s[p..]) == AsParsed(ReadExtAt(nibble, s, p), s)
  {}

  function DecodeOpAt(s: seq<byte>, p: nat, prev: nat): (r: Found<Op>)
    requires p <= |s|
    ensures r.At? ==> p < r.next <= |s|
  {
    if p == |s| || U8(s[p]) / 16 == 15 || U8(s[p]) % 16 == 15 then Absent else
      var delta := ReadExtAt(U8(s[p]) / 16, s, p + 1);
      if delta.Absent? then Absent else
        var length := ReadExtAt(U8(s[p]) % 16, s, delta.next);
        if length.Absent? || length.next + length.value > |s| then Absent
        else
          At(Op((prev + delta.value) % 65536, s[length.next..length.next + length.value]), length.next + length.value)
  }

  lemma Cut(s: seq<byte>, p: nat, k: nat)
    requires p + k <= |s|
    ensures s[p..][..k] == s[p..p + k] && s[p..][k..] == s[p + k..]
  {}

  lemma DecodeOpSame(s: seq<byte>, p: nat, prev: nat)
    requires p <= |s|
    ensures DecodeOp(s[p..], prev) == AsParsed(DecodeOpAt(s, p, prev), s)
  {
    hide ReadExt, ReadExtAt, U8;
    if p < |s| {
      Cut(s, p, 1);
      ReadExtSame(U8(s[p]) / 16, s, p + 1);
      var delta := ReadExtAt(U8(s[p]) / 16, s, p + 1);
      if delta.At? {
        ReadExtSame(U8(s[p]) % 16, s, delta.next);
        var length := ReadExtAt(U8(s[p]) % 16, s, delta.next);
        if length.At? && length.next + length.value <= |s| {
          Cut(s, length.next, length.value);
        }
      }
    }
  }

  function DecodeOpsAt(s: seq<byte>, p: nat, prev: nat): (r: Found<seq<Op>>)
    requires p <= |s|
    ensures r.At? ==> p <= r.next <= |s|
    decreases |s| - p
  {
    if p == |s| || s[p] == 0xFF then At([], p) else
      var one := DecodeOpAt(s, p, prev);
      if one.Absent? then Absent else
        var more := DecodeOpsAt(s, one.next, one.value.num);
        if more.Absent? then Absent else At([one.value] + more.value, more.next)
  }

  lemma {:induction false} DecodeOpsSame(s: seq<byte>, p: nat, prev: nat)
    requires p <= |s|
    ensures DecodeOps(s[p..], prev) == AsParsed(DecodeOpsAt(s, p, prev), s)
    decreases |s| - p
  {
    if p < |s| && s[p] != 0xFF {
      DecodeOpSame(s, p, prev);
      var one := DecodeOpAt(s, p, prev);
      if one.At? {
        DecodeOpsSame(s, one.next, one.value.num);
      }
    }
  }

  // ---------- the functions ----------

  method ParseExt(nibble: nat, buf: array<byte>, p: nat, len: nat) returns (ok: bool, value: nat, next: nat)
    requires p <= len <= buf.Length
    ensures ReadExtAt(nibble, buf[..len], p) == if ok then At(value, next) else Absent
  {
    ok, value, next := true, nibble, p;
    if nibble == 13 {
      if len - p < 1 {
        ok := false;
      } else {
        value, next := 13 + U8(buf[p]), p + 1;
      }
    } else if nibble == 14 {
      if len - p < 2 {
        ok := false;
      } else {
        value, next := 269 + Word(buf[p], buf[p + 1]), p + 2;
      }
    }
  }

  /** _coap_message_deserialize_option up to the allocation: the increment, and where the value is. */
  method ParseHead(buf: array<byte>, p: nat, len: nat, ghost prev: nat)
    returns (ok: bool, delta: nat, at: nat, length: nat)
    requires p <= len <= buf.Length
    ensures ok ==> p < at && at + length <= len
    ensures DecodeOpAt(buf[..len], p, prev)
         == if ok then At(Op((prev + delta) % 65536, buf[at..at + length]), at + length) else Absent
  {
    ok, delta, at, length := false, 0, 0, 0;
    if len - p < 1 {
      return;
    }
    var d, l := U8(buf[p]) / 16, U8(buf[p]) % 16;
    if d == 15 || l == 15 {
      return;
    }
    ok, delta, at := ParseExt(d, buf, p + 1, len);
    if !ok {
      return;
    }
    ok, length, at := ParseExt(l, buf, at, len);
    if !ok || len - at < length {
      ok := false;
      return;
    }
    assert buf[..len][at..at + length] == buf[at..at + length];
  }

  /** _coap_message_deserialize_option. */
  method ParseOption(list: OptionList, buf: array<byte>, p: nat, len: nat, ghost prev: nat) returns (num: int)
    requires list.Valid() && p <= len <= buf.Length
    requires prev == if list.last == null then 0 else list.last.num
    modifies list, list.footprint
    ensures list.Valid() && fresh(list.footprint - old(list.footprint))
    ensures DecodeOpAt(buf[..len], p, prev).Absent? ==> num == ERR_DATA_SIZE && list.Ops() == old(list.Ops())
    ensures DecodeOpAt(buf[..len], p, prev).At? ==>
      && 0 < num == DecodeOpAt(buf[..len], p, prev).next - p && list.last != null
      && list.last.num == DecodeOpAt(buf[..len], p, prev).value.num
    ensures DecodeOpAt(buf[..len], p, prev).At? ==>
      list.Ops() == old(list.Ops()) + [DecodeOpAt(buf[..len], p, prev).value]
  {
    var ok, delta, at, length := ParseHead(buf, p, len, prev);
    if !ok {
      return ERR_DATA_SIZE;
    }
    var number := if list.last == null then delta else list.last.num + delta;
    ghost var ops := list.Ops();
    list.AddLast(number, buf[at..at + length]);
    assert list.Ops()[|ops|] == Value(list.nodes[|ops|]);
    num := at + length - p;
  }

  // What the options read so far and those still to come make together.
  function Join(done: seq<Op>, r: Found<seq<Op>>): Found<seq<Op>> {
    if r.Absent? then Absent else At(done + r.value, r.next)
  }

  lemma JoinNext(done: seq<Op>, s: seq<byte>, p: nat, prev: nat)
    requires p < |s| && s[p] != 0xFF
    ensures var one := DecodeOpAt(s, p, prev);
      Join(done, DecodeOpsAt(s, p, prev)) ==
        if one.Absent? then Absent else Join(done + [one.value], DecodeOpsAt(s, one.next, one.value.num))
  {
    var one := DecodeOpAt(s, p, prev);
    if one.At? {
      var more := DecodeOpsAt(s, one.next, one.value.num);
      if more.At? { assert done + ([one.value] + more.value) == done + [one.value] + more.value; }
    }
  }

  lemma JoinEnd(done: seq<Op>, s: seq<byte>, p: nat, prev: nat)
    requires p <= |s| && (p == |s| || s[p] == 0xFF)
    ensures Join(done, DecodeOpsAt(s, p, prev)) == At(done, p)
  {
    assert done + [] == done;
  }

  lemma JoinNone(r: Found<seq<Op>>)
    ensures Join([], r) == r
  {
    if r.At? { assert [] + r.value == r.value; }
  }

  /** _coap_message_deserialize_options; the length is looked at before the byte. */
  method ParseOptions(list: OptionList, buf: array<byte>, p0: nat, len: nat) returns (num: int)
    requires list.Valid() && list.nodes == [] && p0 <= len <= buf.Length
    modifies list, list.footprint
    ensures list.Valid() && fresh(list.footprint - old(list.footprint))
    ensures DecodeOpsAt(buf[..len], p0, 0) == if num < 0 then Absent else At(list.Ops(), p0 + num)
  {
    var p := p0;
    ghost var prev: nat, s := 0, buf[..len];
    ghost var all := DecodeOpsAt(s, p0, 0);
    JoinNone(all);
    while p < len && buf[p] != 0xFF
      invariant p0 <= p <= len && list.Valid() && fresh(list.footprint - old(list.footprint))
      invariant prev == if list.last == null then 0 else list.last.num
      invariant all == Join(list.Ops(), DecodeOpsAt(s, p, prev))
      decreases len - p
    {
      JoinNext(list.Ops(), s, p, prev);
      ghost var one := DecodeOpAt(s, p, prev);
      num := ParseOption(list, buf, p, len, prev);
      if num < 0 {
        return;
      }
      p := p + num;
      prev := one.value.num;
    }
    JoinEnd(list.Ops(), s, p, prev);
    num := p - p0;
  }

  // ---------- whole messages ----------

  /** What deserialize_coap_message makes of its buffer. */
  function DecodeAt(s: seq<byte>): Found<Msg> {
    if !GoodHeader(s) then Absent else FinishAt(s, DecodeOpsAt(s, 4 + U8(s[0]) % 16, 0))
  }

  function FinishAt(s: seq<byte>, ops: Found<seq<Op>>): Found<Msg>
    requires GoodHeader(s) && (ops.At? ==> ops.next <= |s|)
  {
    if ops.Absent? || ops.next == |s| - 1 then Absent
    else At(MsgOf(s, ops.value, if ops.next == |s| then [] else s[ops.next + 1..]), |s|)
  }

  lemma FinishSame(s: seq<byte>, r: Found<seq<Op>>)
    requires GoodHeader(s) && (r.At? ==> r.next <= |s|)
    ensures Finish(s, AsParsed(r, s)) == if FinishAt(s, r).Absent? then Bad else Ok(FinishAt(s, r).value, [])
  {
    if r.At? && r.next < |s| { Cut(s, r.next, 1); }
  }

  /** The parser by position is the parser of CoapCodec. */
  lemma DecodeSame(s: seq<byte>)
    ensures Decode(s) == if DecodeAt(s).Absent? then Bad else Ok(DecodeAt(s).value, [])
  {
    hide DecodeOps, DecodeOpsAt, MsgOf;
    if GoodHeader(s) {
      var p := 4 + U8(s[0]) % 16;
      DecodeOpsSame(s, p, 0);
      FinishSame(s, DecodeOpsAt(s, p, 0));
    }
  }

  /** _coap_msg_check. */
  method Check(m: Message) returns (ret: int)
    requires m.Valid()
    ensures ret == if Checked(m.State()) then 0 else ERR_DATA_SIZE
  {
    if m.cls == 0 && m.detail == 0 {
      if m.kind == NON || |m.token| != 0 || m.list.first != null || |m.payload| != 0 {
        return ERR_DATA_SIZE;
      }
    } else if m.kind == RST {
      return ERR_DATA_SIZE;
    }
    return 0;
  }

  method Fill(m: Message, buf: array<byte>, len: nat, p: nat)
    requires m.Valid() && len <= buf.Length && p <= len && GoodHeader(buf[..len]) && m.payload == []
    modifies m
    ensures m.Valid() && m.list.Ops() == old(m.list.Ops())
    ensures m.State() == MsgOf(buf[..len], m.list.Ops(), if p == len then [] else buf[..len][p + 1..])
  {
    var k := U8(buf[0]) % 16;
    assert buf[..len][4..4 + k] == buf[4..4 + k] && (p < len ==> buf[..len][p + 1..] == buf[p + 1..len]);
    m.kind, m.cls, m.detail := U8(buf[0]) / 16 % 4, U8(buf[1]) / 32, U8(buf[1]) % 32;
    m.id, m.token := Word(buf[2], buf[3]), buf[4..4 + k];
    if p != len {
      m.payload := buf[p + 1..len];
    }
  }

  /** deserialize_coap_message, into a zeroed message. */
  method Deserialize(m: Message, buf: array<byte>, len: nat) returns (ret: int)
    requires m.Valid() && m.State() == Msg(0, 0, 0, 0, [], [], []) && m.list.nodes == [] && len <= buf.Length
    modifies m, m.list, m.list.footprint
    ensures m.Valid()
    ensures DecodeAt(buf[..len]).Absent? ==> ret == ERR_INTERNAL && m.State() == Msg(0, 0, 0, 0, [], [], [])
    ensures DecodeAt(buf[..len]).At? ==>
      m.State() == DecodeAt(buf[..len]).value && ret == if Checked(m.State()) then 0 else ERR_DATA_SIZE
  {
    hide DecodeOpsAt, MsgOf, Checked;
    ghost var s := buf[..len];
    if len < 4 || U8(buf[0]) / 64 != 1 {
      return ERR_INTERNAL;
    }
    var k := U8(buf[0]) % 16;
    if k > 8 || U8(buf[1]) / 32 !in {0, 2, 4, 5} || len - 4 < k {
      return ERR_INTERNAL;
    }
    var num := ParseOptions(m.list, buf, 4 + k, len);
    assert DecodeAt(s) == FinishAt(s, DecodeOpsAt(s, 4 + k, 0));
    if num < 0 || 4 + k + num == len - 1 {
      m.list.Clear();
      return ERR_INTERNAL;
    }
    Fill(m, buf, len, 4 + k + num);
    ret := Check(m);
  }
}
