/** A CoAP message as the C code holds it, with its options in a singly linked list, and the printer
    and parser over byte buffers, proved against CoapCodec. */
module CoapMessage {
  import opened Buffers
  import opened Octets
  import opened CoapCodec

  const ERR_DATA_SIZE := -151
  const ERR_INTERNAL := -152

  // ---------- the option list ----------

  class OptionNode {
    const num: nat
    const val: seq<byte>
    var next: OptionNode?

    /** qcloud_iot_coap_option_init; option_num is an unsigned short. */
    constructor (n: nat, v: seq<byte>)
      ensures num == n % 65536 && val == v && next == null
    {
      num, val, next := n % 65536, v, null;
    }
  }

  function Value(n: OptionNode): Op { Op(n.num, n.val) }

  function Values(ns: seq<OptionNode>): (ops: seq<Op>)
    ensures |ops| == |ns|
  {
    seq(|ns|, i requires 0 <= i < |ns| => Value(ns[i]))
  }

  /** Insertion before the first option with a larger number. */
  function Insert(ops: seq<Op>, op: Op): seq<Op> {
    if ops == [] then [op] else if op.num < ops[0].num then [op] + ops else [ops[0]] + Insert(ops[1..], op)
  }

  predicate Sorted(ops: seq<Op>) { forall i, j :: 0 <= i < j < |ops| ==> ops[i].num <= ops[j].num }

  /** The options with one number, in their order. */
  function WithNum(ops: seq<Op>, n: nat): seq<Op> {
    if ops == [] then [] else (if ops[0].num == n then [ops[0]] else []) + WithNum(ops[1..], n)
  }

  lemma {:induction false} InsertMembers(ops: seq<Op>, op: Op)
    ensures forall x :: x in Insert(ops, op) <==> x == op || x in ops
  {
    if ops != [] && op.num >= ops[0].num {
      InsertMembers(ops[1..], op);
    }
  }

  /** Insertion keeps the list sorted... */
  lemma {:induction false} InsertSorted(ops: seq<Op>, op: Op)
    requires Sorted(ops)
    ensures Sorted(Insert(ops, op))
  {
    if ops != [] && op.num >= ops[0].num {
      var rest := Insert(ops[1..], op);
      InsertSorted(ops[1..], op);
      InsertMembers(ops[1..], op);
      forall x | x in rest ensures ops[0].num <= x.num {
        if x != op {
          var k :| 0 <= k < |ops[1..]| && ops[1..][k] == x;
          assert ops[k + 1] == x;
        }
      }
    }
  }

  lemma {:induction false} NoneWithNum(ops: seq<Op>, n: nat)
    requires forall i :: 0 <= i < |ops| ==> ops[i].num != n
    ensures WithNum(ops, n) == []
  {
    if ops != [] {
      NoneWithNum(ops[1..], n);
    }
  }

  /** ...and is stable: options with the same number stay in the order they were added. */
  lemma {:induction false} InsertStable(ops: seq<Op>, op: Op, n: nat)
    requires Sorted(ops)
    ensures WithNum(Insert(ops, op), n) == WithNum(ops, n) + if op.num == n then [op] else []
  {
    if ops == [] {
      assert [op][1..] == [];
    } else if op.num < ops[0].num {
      assert ([op] + ops)[1..] == ops;
      if op.num == n { NoneWithNum(ops, n); }
    } else {
      var rest := Insert(ops[1..], op);
      InsertStable(ops[1..], op, n);
      assert ([ops[0]] + rest)[1..] == rest;
    }
  }

  function AddAll(ops: seq<Op>): seq<Op> {
    if ops == [] then [] else Insert(AddAll(ops[..|ops| - 1]), ops[|ops| - 1])
  }

  lemma {:induction false} WithNumSnoc(ops: seq<Op>, op: Op, n: nat)
    ensures WithNum(ops + [op], n) == WithNum(ops, n) + if op.num == n then [op] else []
  {
    if ops == [] {
      assert ([op])[1..] == [] && [] + [op] == [op];
    } else {
      WithNumSnoc(ops[1..], op, n);
      assert (ops + [op])[1..] == ops[1..] + [op];
    }
  }

  /** Adding options one after another is a stable sort of them by number. */
  lemma {:induction false} AddAllSorts(ops: seq<Op>, n: nat)
    ensures Sorted(AddAll(ops)) && WithNum(AddAll(ops), n) == WithNum(ops, n)
  {
    if ops != [] {
      var front, op := ops[..|ops| - 1], ops[|ops| - 1];
      AddAllSorts(front, n);
      InsertSorted(AddAll(front), op);
      InsertStable(AddAll(front), op, n);
      WithNumSnoc(front, op, n);
      assert ops == front + [op];
    }
  }

  class OptionList {
    var first: OptionNode?
    var last: OptionNode?
    ghost var nodes: seq<OptionNode>
    ghost var footprint: set<OptionNode>

    ghost predicate Valid()
      reads this, footprint
    {
      && (forall i :: 0 <= i < |nodes| ==> nodes[i] in footprint)
      && first == (if nodes == [] then null else nodes[0])
      && last == (if nodes == [] then null else nodes[|nodes| - 1])
      && (forall i, j :: 0 <= i < j < |nodes| ==> nodes[i] != nodes[j])
      && (forall i, j :: 0 <= i < j < |nodes| && j == i + 1 ==> nodes[i].next == nodes[j])
      && (nodes != [] ==> nodes[|nodes| - 1].next == null)
    }

    ghost function Ops(): seq<Op>
      reads this
    {
      Values(nodes)
    }

    constructor ()
      ensures Valid() && nodes == [] && fresh(footprint)
    {
      first, last, nodes, footprint := null, null, [], {};
    }

    /** _coap_msg_op_list_destroy. */
    method Clear()
      requires Valid()
      modifies this
      ensures Valid() && nodes == [] && footprint == old(footprint)
    {
      first, last, nodes := null, null, [];
    }

    method PushFront(option: OptionNode)
      requires Valid() && option !in nodes && first != null
      modifies this, option, footprint
      ensures Valid() && nodes == [option] + old(nodes) && footprint == old(footprint) + {option}
    {
      option.next := first;
      first := option;
      nodes, footprint := [option] + nodes, footprint + {option};
    }

    method InsertAfter(prev: OptionNode, option: OptionNode, ghost k: nat)
      requires Valid() && option !in nodes && k + 1 < |nodes| && nodes[k] == prev
      modifies this, option, footprint
      ensures Valid() && nodes == old(nodes)[..k + 1] + [option] + old(nodes)[k + 1..]
      ensures footprint == old(footprint) + {option}
    {
      assert nodes[k].next == nodes[k + 1];
      option.next := prev.next;
      prev.next := option;
      nodes, footprint := nodes[..k + 1] + [option] + nodes[k + 1..], footprint + {option};
    }

    method Append(option: OptionNode)
      requires Valid() && option !in nodes && option.next == null
      modifies this, option, footprint
      ensures Valid() && nodes == old(nodes) + [option] && footprint == old(footprint) + {option}
    {
      if first == null {
        first := option;
        last := option;
      } else {
        last.next := option;
        last := option;
      }
      nodes, footprint := nodes + [option], footprint + {option};
    }

    /** The search of coap_message_option_add, from the first option: prev is the last option whose
        successor has a larger number, or the last of all. */
    method FindPlace(num: nat) returns (prev: OptionNode, ghost k: nat)
      requires Valid() && first != null && first.num <= num
      ensures k < |nodes| && prev == nodes[k] && (prev == last <==> k + 1 == |nodes|)
      ensures forall i :: 0 <= i <= k ==> nodes[i].num <= num
      ensures k + 1 < |nodes| ==> num < nodes[k + 1].num
    {
      prev, k := first, 0;
      while prev != last
        invariant k < |nodes| && prev == nodes[k]
        invariant forall i :: 0 <= i <= k ==> nodes[i].num <= num
        decreases |nodes| - k
      {
        assert nodes[k].next == nodes[k + 1];
        if prev.num <= num && num < prev.next.num {
          return;
        }
        prev := prev.next;
        k := k + 1;
      }
    }

    /** coap_message_option_add. */
    method Add(num: nat, val: seq<byte>)
      requires Valid()
      modifies this, footprint
      ensures Valid() && Ops() == Insert(old(Ops()), Op(num % 65536, val)) && fresh(footprint - old(footprint))
    {
      var option := new OptionNode(num, val);
      ghost var op, ops := Value(option), Ops();
      if first == null {
        Append(option);
        assert Ops() == [op];
      } else if option.num < first.num {
        PushFront(option);
        assert Ops() == [op] + ops;
      } else {
        var prev;
        ghost var k;
        prev, k := FindPlace(option.num);
        InsertAt(ops, k, op);
        if prev != last {
          InsertAfter(prev, option, k);
        } else {
          Append(option);
        }
        assert Ops() == ops[..k + 1] + [op] + ops[k + 1..];
      }
    }

    /** _coap_msg_op_list_add_last. */
    method AddLast(num: nat, val: seq<byte>)
      requires Valid()
      modifies this, footprint
      ensures Valid() && Ops() == old(Ops()) + [Op(num % 65536, val)] && fresh(footprint - old(footprint))
    {
      var option := new OptionNode(num, val);
      ghost var ops := Ops();
      Append(option);
      assert Ops() == ops + [Value(option)];
    }
  }

  lemma {:induction false} InsertAt(ops: seq<Op>, k: nat, op: Op)
    requires k < |ops| && (forall i :: 0 <= i <= k ==> ops[i].num <= op.num)
    requires k + 1 < |ops| ==> op.num < ops[k + 1].num
    ensures Insert(ops, op) == ops[..k + 1] + [op] + ops[k + 1..]
  {
    if k > 0 {
      InsertAt(ops[1..], k - 1, op);
      assert [ops[0]] + ops[1..][..k] == ops[..k + 1];
    } else if |ops| == 1 {
      assert ops[1..] == [];
    }
  }

  // ---------- printing ----------

  function ExtSize(n: nat): nat { if n >= 269 then 2 else if n >= 13 then 1 else 0 }

  /** The bytes an option takes... */
  function OpSize(op: Op, prev: nat): nat { 1 + ExtSize(Delta(op.num, prev)) + ExtSize(|op.val|) + |op.val| }

  /** ...and those _coap_msg_format_op asks for before it prints: for a short value it looks at the
      option number where the length is meant. */
  function Precheck(op: Op, prev: nat): nat {
    1 + ExtSize(Delta(op.num, prev)) + (if |op.val| >= 269 then 2 else if op.num >= 13 then 1 else 0) + |op.val|
  }

  lemma SizeOfOp(op: Op, prev: nat, tail: seq<byte>)
    ensures |EncodeOp(op, prev, [])| == OpSize(op, prev)
    ensures EncodeOp(op, prev, tail) == EncodeOp(op, prev, []) + tail
  {
    var d, l := Delta(op.num, prev), |op.val|;
    ExtThen(l, op.val + [], tail);
    ExtThen(d, PutExt(l, op.val + []), tail);
    assert op.val + [] + tail == op.val + tail;
  }

  lemma ExtThen(n: nat, s: seq<byte>, tail: seq<byte>)
    ensures PutExt(n, s + tail) == PutExt(n, s) + tail && |PutExt(n, s)| == ExtSize(n) + |s|
  {}

  /** The size asked for is right exactly when number and length are on the same side of 13, or the
      length takes two extension bytes anyway; otherwise it is one too small or one too large. */
  lemma PrecheckRight(op: Op, prev: nat)
    ensures Precheck(op, prev) == OpSize(op, prev) <==> |op.val| >= 269 || (op.num >= 13 <==> |op.val| >= 13)
    ensures Precheck(op, prev) < OpSize(op, prev) <==> op.num < 13 <= |op.val| < 269
    ensures -1 <= Precheck(op, prev) - OpSize(op, prev) <= 1
  {}

  /** What the size checks of the option loop say, and what they would have to say to be safe. */
  predicate OptionsFit(ops: seq<Op>, prev: nat, len: int) {
    ops == [] || (Precheck(ops[0], prev) <= len && OptionsFit(ops[1..], ops[0].num, len - OpSize(ops[0], prev)))
  }

  predicate NoOverrun(ops: seq<Op>, prev: nat, len: int) {
    ops == [] || (Precheck(ops[0], prev) <= len ==>
      OpSize(ops[0], prev) <= len && NoOverrun(ops[1..], ops[0].num, len - OpSize(ops[0], prev)))
  }

  predicate Plain(op: Op) { !(op.num < 13 <= |op.val| < 269) }

  /** No buffer is overrun if all options are plain... */
  lemma {:induction false} PlainNeverOverruns(ops: seq<Op>, prev: nat, len: int)
    requires forall i :: 0 <= i < |ops| ==> Plain(ops[i])
    ensures NoOverrun(ops, prev, len)
  {
    if ops != [] {
      PrecheckRight(ops[0], prev);
      PlainNeverOverruns(ops[1..], ops[0].num, len - OpSize(ops[0], prev));
    }
  }

  /** ...and whatever the options, if the buffer has room for them all; one byte more and the checks
      let them pass. */
  lemma {:induction false} RoomEnough(ops: seq<Op>, prev: nat, len: int)
    requires |EncodeOps(ops, prev, [])| <= len
    ensures NoOverrun(ops, prev, len) && (|EncodeOps(ops, prev, [])| < len ==> OptionsFit(ops, prev, len))
  {
    if ops != [] {
      var rest := EncodeOps(ops[1..], ops[0].num, []);
      SizeOfOp(ops[0], prev, rest);
      PrecheckRight(ops[0], prev);
      RoomEnough(ops[1..], ops[0].num, len - OpSize(ops[0], prev));
    }
  }

  /** The bytes of the first i options. */
  function SizeOf(ops: seq<Op>, prev: nat, i: nat): nat
    requires i <= |ops|
  {
    if i == 0 then 0 else OpSize(ops[0], prev) + SizeOf(ops[1..], ops[0].num, i - 1)
  }

  // A buffer one byte too short for the options up to i, which is not plain.
  lemma {:induction false} OneShort(ops: seq<Op>, prev: nat, i: nat)
    requires i < |ops| && !Plain(ops[i])
    ensures SizeOf(ops, prev, i + 1) >= 14 && !NoOverrun(ops, prev, SizeOf(ops, prev, i + 1) - 1)
  {
    PrecheckRight(ops[0], prev);
    if i > 0 {
      OneShort(ops[1..], ops[0].num, i - 1);
    } else {
      assert SizeOf(ops[1..], ops[0].num, 0) == 0;
    }
  }

  /** No buffer is overrun, of whatever size, exactly if no option has a number below 13 and a value
      of 13 to 268 bytes. */
  lemma OverrunsExactly(ops: seq<Op>, prev: nat)
    ensures (forall len: int :: NoOverrun(ops, prev, len)) <==> forall i :: 0 <= i < |ops| ==> Plain(ops[i])
  {
    if forall i :: 0 <= i < |ops| ==> Plain(ops[i]) {
      forall len: int ensures NoOverrun(ops, prev, len) { PlainNeverOverruns(ops, prev, len); }
    } else {
      var i :| 0 <= i < |ops| && !Plain(ops[i]);
      OneShort(ops, prev, i);
    }
  }

  method PutExtAt(buf: array<byte>, o: nat, n: nat) returns (size: nat)
    requires o + ExtSize(n) <= buf.Length
    modifies buf
    ensures size == ExtSize(n) && buf[..] == Written(old(buf[..]), o, PutExt(n, []))
  {
    if n >= 269 {
      buf[o] := High(n - 269);
      buf[o + 1] := Low(n - 269);
      size := 2;
    } else if n >= 13 {
      buf[o] := n - 13;
      size := 1;
    } else {
      size := 0;
    }
  }

  lemma FourWrites(s: seq<byte>, o: nat, a: seq<byte>, b: seq<byte>, c: seq<byte>, d: seq<byte>)
    requires o + |a| + |b| + |c| + |d| <= |s|
    ensures Written(Written(Written(Written(s, o, a), o + |a|, b), o + |a| + |b|, c), o + |a| + |b| + |c|, d)
         == Written(s, o, a + b + c + d)
  {
    WrittenNext(s, o, a, b);
    WrittenNext(s, o, a + b, c);
    WrittenNext(s, o, a + b + c, d);
  }

  lemma PutExtIs(n: nat, t: seq<byte>)
    ensures PutExt(n, t) == PutExt(n, []) + t
  {}

  lemma Flat(x: seq<byte>, a: seq<byte>, b: seq<byte>, v: seq<byte>, c: seq<byte>, d: seq<byte>)
    requires c == b + (v + []) && d == a + c
    ensures x + a + b + v == x + d
  {}

  lemma Assembled(first: byte, d: nat, val: seq<byte>)
    requires first == Nibble(d) * 16 + Nibble(|val|)
    ensures [first] + PutExt(d, []) + PutExt(|val|, []) + val == Put(d, val, [])
    ensures |PutExt(d, [])| == ExtSize(d) && |PutExt(|val|, [])| == ExtSize(|val|)
  {
    PutExtIs(|val|, val + []);
    PutExtIs(d, PutExt(|val|, val + []));
    Flat([first], PutExt(d, []), PutExt(|val|, []), val, PutExt(|val|, val + []), PutExt(d, PutExt(|val|, val + [])));
  }

  /** The bytes of an option, first nibbles, then both extensions, then the value. */
  method WriteOp(delta: nat, val: seq<byte>, buf: array<byte>, o: nat) returns (num: nat)
    requires o + 1 + ExtSize(delta) + ExtSize(|val|) + |val| <= buf.Length
    modifies buf
    ensures num == |Put(delta, val, [])| && o + num <= buf.Length
    ensures buf[..] == Written(old(buf[..]), o, Put(delta, val, []))
  {
    hide Written, Nibble, PutExt;
    ghost var s := buf[..];
    var first: byte := Nibble(delta) * 16 + Nibble(|val|);
    PutByte(buf, o, first);
    Assembled(first, delta, val);
    var e := PutExtAt(buf, o + 1, delta);
    var f := PutExtAt(buf, o + 1 + e, |val|);
    Copy(buf, o + 1 + e + f, val);
    num := 1 + e + f + |val|;
    FourWrites(s, o, [first], PutExt(delta, []), PutExt(|val|, []), val);
  }

  /** _coap_msg_format_op. */
  method FormatOp(op: OptionNode, prev: nat, buf: array<byte>, o: nat, len: nat) returns (num: int)
    requires o + len <= buf.Length
    requires Precheck(Value(op), prev) <= len ==> OpSize(Value(op), prev) <= len
    modifies buf
    ensures num == if Precheck(Value(op), prev) > len then ERR_DATA_SIZE else OpSize(Value(op), prev)
    ensures num < 0 ==> buf[..] == old(buf[..])
    ensures num >= 0 ==> |EncodeOp(Value(op), prev, [])| == num <= len
    ensures num >= 0 ==> buf[..] == Written(old(buf[..]), o, EncodeOp(Value(op), prev, []))
  {
    var delta := (op.num - prev) % 65536;
    num := 1;
    if delta >= 269 {
      num := num + 2;
    } else if delta >= 13 {
      num := num + 1;
    }
    if |op.val| >= 269 {
      num := num + 2;
    } else if op.num >= 13 {
      num := num + 1;
    }
    num := num + |op.val|;
    if num > len {
      return ERR_DATA_SIZE;
    }
    SizeOfOp(Value(op), prev, []);
    num := WriteOp(delta, op.val, buf, o);
  }

  // The bytes left for the options after ops[0].
  lemma OptionsNext(ops: seq<Op>, prev: nat)
    requires ops != []
    ensures EncodeOps(ops, prev, []) == EncodeOp(ops[0], prev, []) + EncodeOps(ops[1..], ops[0].num, [])
    ensures |EncodeOp(ops[0], prev, [])| == OpSize(ops[0], prev)
  {
    SizeOfOp(ops[0], prev, EncodeOps(ops[1..], ops[0].num, []));
  }

  lemma {:induction false} OptionsTail(ops: seq<Op>, prev: nat, tail: seq<byte>)
    ensures EncodeOps(ops, prev, tail) == EncodeOps(ops, prev, []) + tail
  {
    if ops != [] {
      var next := ops[0].num;
      OptionsTail(ops[1..], next, tail);
      SizeOfOp(ops[0], prev, EncodeOps(ops[1..], next, tail));
      SizeOfOp(ops[0], prev, EncodeOps(ops[1..], next, []));
      Associate(EncodeOp(ops[0], prev, []), EncodeOps(ops[1..], next, []), tail);
    }
  }

  lemma {:induction false} FitSize(ops: seq<Op>, prev: nat, len: nat)
    requires OptionsFit(ops, prev, len) && NoOverrun(ops, prev, len)
    ensures |EncodeOps(ops, prev, [])| <= len
  {
    if ops != [] {
      OptionsNext(ops, prev);
      FitSize(ops[1..], ops[0].num, len - OpSize(ops[0], prev));
    }
  }

  /** The nodes reached from op by next. */
  ghost predicate Chain(op: OptionNode?, ns: seq<OptionNode>)
    reads ns
    decreases |ns|
  {
    if ns == [] then op == null else op == ns[0] && Chain(op.next, ns[1..])
  }

  lemma {:induction false} ChainFrom(list: OptionList, k: nat)
    requires list.Valid() && k <= |list.nodes|
    ensures Chain(if k < |list.nodes| then list.nodes[k] else null, list.nodes[k..])
    decreases |list.nodes| - k
  {
    if k < |list.nodes| {
      ChainFrom(list, k + 1);
      assert list.nodes[k..][1..] == list.nodes[k + 1..];
      assert k + 1 < |list.nodes| ==> list.nodes[k].next == list.nodes[k + 1];
    }
  }

  lemma PrintNext(ops: seq<Op>, prev: nat, done: seq<byte>)
    requires ops != []
    ensures done + EncodeOps(ops, prev, []) == done + EncodeOp(ops[0], prev, []) + EncodeOps(ops[1..], ops[0].num, [])
    ensures |EncodeOp(ops[0], prev, [])| == OpSize(ops[0], prev)
  {
    OptionsNext(ops, prev);
    Associate(done, EncodeOp(ops[0], prev, []), EncodeOps(ops[1..], ops[0].num, []));
  }

  // Where the loop is: done is printed, ops are still to come.
  ghost predicate Printing(all: seq<Op>, len: nat, done: seq<byte>, ops: seq<Op>, prev: nat, left: int) {
    && left + |done| == len && left >= 0 && NoOverrun(ops, prev, left)
    && (OptionsFit(all, 0, len) <==> OptionsFit(ops, prev, left))
    && EncodeOps(all, 0, []) == done + EncodeOps(ops, prev, [])
  }

  lemma PrintingNext(all: seq<Op>, len: nat, done: seq<byte>, ops: seq<Op>, prev: nat, left: int)
    requires Printing(all, len, done, ops, prev, left) && ops != [] && Precheck(ops[0], prev) <= left
    ensures |EncodeOp(ops[0], prev, [])| == OpSize(ops[0], prev)
    ensures Printing(all, len, done + EncodeOp(ops[0], prev, []), ops[1..], ops[0].num, left - OpSize(ops[0], prev))
  {
    PrintNext(ops, prev, done);
  }

  /** One turn of _coap_message_serialize_options. */
  method FormatNext(op: OptionNode, prev: nat, buf: array<byte>, ghost o: nat, p: nat, left: nat,
                    ghost all: seq<Op>, ghost len: nat, ghost ops: seq<Op>, ghost done: seq<byte>, ghost s: seq<byte>)
    returns (num: int, ghost done': seq<byte>)
    requires p == o + |done| && p + left <= buf.Length == |s| && ops != [] && ops[0] == Value(op)
    requires buf[..] == Written(s, o, done) && Printing(all, len, done, ops, prev, left)
    modifies buf
    ensures num < 0 ==> !OptionsFit(all, 0, len)
    ensures num >= 0 ==> Printing(all, len, done', ops[1..], op.num, left - num) && |done'| == |done| + num
    ensures num >= 0 ==> o + |done'| <= |s| && buf[..] == Written(s, o, done')
  {
    hide EncodeOps, EncodeOp;
    done' := done;
    num := FormatOp(op, prev, buf, p, left);
    if num >= 0 {
      PrintingNext(all, len, done, ops, prev, left);
      WrittenNext(s, o, done, EncodeOp(ops[0], prev, []));
      done' := done + EncodeOp(ops[0], prev, []);
    }
  }

  /** The loop of _coap_message_serialize_options. */
  method SerializeChain(head: OptionNode?, ghost ns: seq<OptionNode>, buf: array<byte>, o: nat, len: nat)
    returns (num: int)
    requires Chain(head, ns) && o + len <= buf.Length && NoOverrun(Values(ns), 0, len)
    modifies buf
    ensures num < 0 <==> !OptionsFit(Values(ns), 0, len)
    ensures num >= 0 ==>
      num == |EncodeOps(Values(ns), 0, [])| <= len && buf[..] == Written(old(buf[..]), o, EncodeOps(Values(ns), 0, []))
  {
    hide EncodeOp, Precheck, OpSize;
    ghost var all, s, rest := Values(ns), buf[..], ns;
    ghost var done: seq<byte> := [];
    var op, prev, p, left := head, 0, o, len;
    assert Written(s, o, []) == s && [] + EncodeOps(all, 0, []) == EncodeOps(all, 0, []);
    while op != null
      invariant p == o + |done| && Chain(op, rest) && left >= 0 && p + left <= buf.Length
      invariant Printing(all, len, done, Values(rest), prev, left) && buf[..] == Written(s, o, done)
      decreases |rest|
    {
      assert Values(rest)[1..] == Values(rest[1..]);
      num, done := FormatNext(op, prev, buf, o, p, left, all, len, Values(rest), done, s);
      if num < 0 {
        return;
      }
      rest := rest[1..];
      p, left := p + num, left - num;
      prev := op.num;
      op := op.next;
    }
    assert rest == [] && done + [] == done;
    num := p - o;
  }

  /** _coap_message_serialize_options. */
  method SerializeOptions(list: OptionList, buf: array<byte>, o: nat, len: nat) returns (num: int)
    requires list.Valid() && o + len <= buf.Length && NoOverrun(list.Ops(), 0, len)
    modifies buf
    ensures num < 0 <==> !OptionsFit(list.Ops(), 0, len)
    ensures num >= 0 ==>
      num == |EncodeOps(list.Ops(), 0, [])| <= len && buf[..] == Written(old(buf[..]), o, EncodeOps(list.Ops(), 0, []))
  {
    ChainFrom(list, 0);
    assert list.nodes[0..] == list.nodes;
    num := SerializeChain(list.first, list.nodes, buf, o, len);
  }

  // ---------- whole messages ----------

  class Message {
    var kind: nat
    var cls: nat
    var detail: nat
    var id: nat
    var token: seq<byte>
    var payload: seq<byte>
    const list: OptionList

    ghost predicate Valid()
      reads this, list, list.footprint
    {
      list.Valid()
    }

    ghost function State(): Msg
      reads this, list
    {
      Msg(kind, cls, detail, id, token, list.Ops(), payload)
    }

    /** A zeroed message. */
    constructor ()
      ensures Valid() && State() == Msg(0, 0, 0, 0, [], [], []) && fresh(list) && fresh(list.footprint)
    {
      kind, cls, detail, id, token, payload := 0, 0, 0, 0, [], [];
      list := new OptionList();
    }
  }

  /** Whether the checks of serialize_coap_message let m pass into len bytes. */
  predicate MessageFits(m: Msg, len: nat) {
    && 4 + |m.token| <= len && OptionsFit(m.ops, 0, len - 4 - |m.token|)
    && (m.payload == [] || |m.payload| + 1 <= len - 4 - |m.token| - |EncodeOps(m.ops, 0, [])|)
  }

  /** A message whose print leaves a byte of the buffer unused is always printed; one whose options
      ask for their right sizes is printed exactly when it fits. */
  lemma FitsWhenRoomy(m: Msg, len: nat)
    requires Fields(m)
    ensures |Encode(m)| < len ==> MessageFits(m, len)
    ensures MessageFits(m, len) && NoOverrun(m.ops, 0, len - 4 - |m.token|) ==> |Encode(m)| <= len
  {
    OptionsTail(m.ops, 0, Marked(m.payload));
    if |Encode(m)| < len {
      RoomEnough(m.ops, 0, len - 4 - |m.token|);
    }
    if MessageFits(m, len) && NoOverrun(m.ops, 0, len - 4 - |m.token|) {
      FitSize(m.ops, 0, len - 4 - |m.token|);
    }
  }

  /** _coap_message_serialize_header and _coap_message_serialize_token. */
  method SerializeHeader(m: Message, buf: array<byte>, len: nat) returns (num: int)
    requires Fields(m.State()) && len <= buf.Length
    modifies buf
    ensures num == if 4 + |m.token| <= len then 4 + |m.token| else ERR_INTERNAL
    ensures num >= 0 ==> |Header(m.State())| == 4 && buf[..] == Written(old(buf[..]), 0, Header(m.State()) + m.token)
  {
    if len < 4 {
      return ERR_INTERNAL;
    }
    ghost var s := buf[..];
    buf[0] := 64 + m.kind * 16 + |m.token|;
    buf[1] := m.cls * 32 + m.detail;
    buf[2] := High(m.id);
    buf[3] := Low(m.id);
    assert buf[..] == Written(s, 0, Header(m.State()));
    if len - 4 < |m.token| {
      return ERR_INTERNAL;
    }
    Copy(buf, 4, m.token);
    WrittenNext(s, 0, Header(m.State()), m.token);
    num := 4 + |m.token|;
  }

  /** _coap_message_serialize_payload. */
  method SerializePayload(payload: seq<byte>, buf: array<byte>, o: nat, len: nat) returns (num: int)
    requires o + len <= buf.Length
    modifies buf
    ensures num == if payload == [] then 0 else if |payload| + 1 > len then ERR_INTERNAL else |payload| + 1
    ensures num >= 0 ==> num == |Marked(payload)| <= len && buf[..] == Written(old(buf[..]), o, Marked(payload))
  {
    if |payload| == 0 {
      assert Written(buf[..], o, []) == buf[..];
      return 0;
    }
    if |payload| + 1 > len {
      return ERR_INTERNAL;
    }
    ghost var s := buf[..];
    buf[o] := 0xFF;
    assert buf[..] == Written(s, o, [0xFF]);
    Copy(buf, o + 1, payload);
    WrittenNext(s, o, [0xFF], payload);
    num := |payload| + 1;
  }

  /** serialize_coap_message. */
  method Serialize(m: Message, buf: array<byte>, len: nat) returns (num: int)
    requires m.Valid() && Fields(m.State()) && len <= buf.Length
    requires 4 + |m.token| <= len ==> NoOverrun(m.list.Ops(), 0, len - 4 - |m.token|)
    modifies buf
    ensures num == if MessageFits(m.State(), len) then |Encode(m.State())| else ERR_INTERNAL
    ensures num >= 0 ==> num <= len && buf[..num] == Encode(m.State())
  {
    hide EncodeOps, OptionsFit, NoOverrun, Encode, Header, Written, Marked;
    ghost var s, ops := buf[..], m.list.Ops();
    ghost var h, body, marked := Header(m.State()) + m.token, EncodeOps(ops, 0, []), Marked(m.payload);
    EncodeParts(m.State(), h, body, marked);
    var p := SerializeHeader(m, buf, len);
    if p < 0 {
      return ERR_INTERNAL;
    }
    num := SerializeOptions(m.list, buf, p, len - p);
    if num < 0 {
      return ERR_INTERNAL;
    }
    WrittenNext(s, 0, h, body);
    p := p + num;
    num := SerializePayload(m.payload, buf, p, len - p);
    if num < 0 {
      return ERR_INTERNAL;
    }
    WrittenNext(s, 0, h + body, marked);
    num := p + num;
    WrittenPrefix(s, h + body + marked);
  }

  lemma EncodeParts(m: Msg, h: seq<byte>, body: seq<byte>, marked: seq<byte>)
    requires Fields(m) && h == Header(m) + m.token && body == EncodeOps(m.ops, 0, []) && marked == Marked(m.payload)
    ensures Encode(m) == h + body + marked && |h| == 4 + |m.token|
  {
    OptionsTail(m.ops, 0, marked);
    Associate(h, body, marked);
  }
}
