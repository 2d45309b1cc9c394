/** The streaming digests of utils_md5.c and utils_sha1.c, which differ in their words, their
    compression function and their byte order, and the keyed digests of utils_hmac.c. */
module Digest {
  import opened Arithmetic
  import opened Buffers
  import opened Octets

  const WORD := 0x1_0000_0000
  const LONG := 0x1_0000_0000_0000_0000

  datatype Algorithm = Algorithm(init: seq<nat>, compress: (seq<nat>, seq<byte>) -> seq<nat>, bigEndian: bool)

  function MD5(compress: (seq<nat>, seq<byte>) -> seq<nat>): Algorithm {
    Algorithm([0x67452301, 0xEFCDAB89, 0x98BADCFE, 0x10325476], compress, false)
  }

  function SHA1(compress: (seq<nat>, seq<byte>) -> seq<nat>): Algorithm {
    Algorithm([0x67452301, 0xEFCDAB89, 0x98BADCFE, 0x10325476, 0xC3D2E1F0], compress, true)
  }

  /** Section 3.3 of RFC 1321, the low byte of each word first; section 6.1 of RFC 3174 adds a fifth. */
  lemma InitialWords(compress: (seq<nat>, seq<byte>) -> seq<nat>)
    ensures MD5(compress).init ==
      [FromLE([0x01, 0x23, 0x45, 0x67]), FromLE([0x89, 0xAB, 0xCD, 0xEF]),
       FromLE([0xFE, 0xDC, 0xBA, 0x98]), FromLE([0x76, 0x54, 0x32, 0x10])]
    ensures SHA1(compress).init == MD5(compress).init + [FromLE([0xF0, 0xE1, 0xD2, 0xC3])]
    ensures !MD5(compress).bigEndian && SHA1(compress).bigEndian
  {
    FourBytes(0x01, 0x23, 0x45, 0x67); FourBytes(0x89, 0xAB, 0xCD, 0xEF); FourBytes(0xFE, 0xDC, 0xBA, 0x98);
    FourBytes(0x76, 0x54, 0x32, 0x10); FourBytes(0xF0, 0xE1, 0xD2, 0xC3);
  }

  // ---------- the digest of a whole message ----------

  function Reverse(b: seq<byte>): (r: seq<byte>)
    ensures |r| == |b|
  {
    if b == [] then [] else Reverse(b[1..]) + [b[0]]
  }

  /** A number in width bytes in the byte order of the algorithm. */
  function Put(a: Algorithm, n: nat, width: nat): (b: seq<byte>)
    ensures |b| == width
  {
    if a.bigEndian then Reverse(LE(n, width)) else LE(n, width)
  }

  function Zeros(n: nat): (b: seq<byte>)
    ensures |b| == n
  {
    seq(n, _ => 0)
  }

  /** How many bytes of padding, the first 0x80, bring n to eight short of a multiple of 64. */
  function PadLen(n: nat): nat { if n % 64 < 56 then 56 - n % 64 else 120 - n % 64 }

  function Padding(n: nat): (b: seq<byte>)
    requires n > 0
    ensures |b| == n
  {
    [0x80] + Zeros(n - 1)
  }

  /** Sections 3.1 and 3.2 of RFC 1321, section 4 of RFC 3174. */
  function Padded(a: Algorithm, m: seq<byte>): (p: seq<byte>)
    ensures |p| % 64 == 0
  {
    PadWhole(|m|);
    m + Padding(PadLen(|m|)) + Put(a, 8 * |m| % LONG, 8)
  }

  lemma PadWhole(n: nat)
    ensures PadLen(n) > 0 && (n + PadLen(n) + 8) % 64 == 0
  {
    var q, r := n / 64, n % 64;
    var t := if r < 56 then q + 1 else q + 2;
    assert n + PadLen(n) + 8 == 64 * t;
  }

  /** The state after the first q blocks. */
  function Fold(a: Algorithm, m: seq<byte>, q: nat): seq<nat>
    requires 64 * q <= |m|
  {
    if q == 0 then a.init else a.compress(Fold(a, m, q - 1), m[64 * q - 64..64 * q])
  }

  function Output(a: Algorithm, words: seq<nat>): (b: seq<byte>)
    ensures |b| == 4 * |words|
  {
    if words == [] then [] else Put(a, words[0], 4) + Output(a, words[1..])
  }

  function Hash(a: Algorithm, m: seq<byte>): seq<byte> { Output(a, Fold(a, Padded(a, m), |Padded(a, m)| / 64)) }

  lemma {:induction false} FoldPrefix(a: Algorithm, m: seq<byte>, n: seq<byte>, q: nat)
    requires m <= n && 64 * q <= |m|
    ensures Fold(a, m, q) == Fold(a, n, q)
  {
    if q > 0 {
      FoldPrefix(a, m, n, q - 1);
      assert m[64 * q - 64..64 * q] == n[64 * q - 64..64 * q];
    }
  }

  // ---------- the standards ----------

  /** Sections 3.1 and 3.2 of RFC 1321, section 4 of RFC 3174: the message, a byte 0x80, as few zeros as
      fill the last block, and the length in bits modulo 2^64, low byte first in MD5, high byte first in
      SHA-1. */
  lemma PaddedMeans(a: Algorithm, m: seq<byte>)
    ensures var p := Padded(a, m);
      && |p| % 64 == 0 && |m| + 9 <= |p| < |m| + 9 + 64
      && p[..|m|] == m && p[|m|] == 0x80 && (forall i :: |m| < i < |p| - 8 ==> p[i] == 0)
      && FromLE(if a.bigEndian then Reverse(p[|p| - 8..]) else p[|p| - 8..]) == 8 * |m| % LONG
  {
    hide LE, FromLE;
    PadWhole(|m|);
    var p, n, bits := Padded(a, m), PadLen(|m|), 8 * |m| % LONG;
    assert p[|m|..|m| + n] == Padding(n);
    forall i | |m| < i < |p| - 8 ensures p[i] == 0 { assert p[i] == Padding(n)[i - |m|]; }
    assert p[|p| - 8..] == Put(a, bits, 8);
    ReverseTwice(LE(bits, 8));
    EightBytes();
    LEReads(bits, 8);
  }

  lemma EightBytes()
    ensures Pow256(8) == LONG
  {
    assert Pow256(4) == 0x1_0000_0000 by { assert Pow256(2) == 65536; }
    assert Pow256(6) == 0x1_0000_0000_0000 by { assert Pow256(5) == 256 * Pow256(4); }
    assert Pow256(8) == 256 * Pow256(7);
  }

  lemma {:induction false} ReverseTwice(b: seq<byte>)
    ensures Reverse(Reverse(b)) == b
  {
    if b != [] {
      ReverseTwice(b[1..]);
      ReverseConcat(Reverse(b[1..]), [b[0]]);
      assert [b[0]][1..] == [];
      assert Reverse([b[0]]) == [b[0]];
      assert b == [b[0]] + b[1..];
    }
  }

  /** The chain of the compression function over the blocks, first block first. */
  function Chain(compress: (seq<nat>, seq<byte>) -> seq<nat>, state: seq<nat>, blocks: seq<byte>): seq<nat>
    decreases |blocks|
  {
    if |blocks| < 64 then state else Chain(compress, compress(state, blocks[..64]), blocks[64..])
  }

  lemma {:induction false} ChainFrom(a: Algorithm, m: seq<byte>, q: nat)
    requires |m| % 64 == 0 && 64 * q <= |m|
    ensures Fold(a, m, |m| / 64) == Chain(a.compress, Fold(a, m, q), m[64 * q..])
    decreases |m| - 64 * q
  {
    if 64 * q < |m| {
      var rest := m[64 * q..];
      assert rest[..64] == m[64 * q..64 * q + 64] && rest[64..] == m[64 * (q + 1)..];
      ChainFrom(a, m, q + 1);
    }
  }

  /** The digest: the chain over the padded message from the initial words, written out word by word. */
  lemma HashMeans(a: Algorithm, m: seq<byte>, k: nat)
    ensures var words := Chain(a.compress, a.init, Padded(a, m));
      && |Hash(a, m)| == 4 * |words|
      && (k < |words| ==>
            FromLE(if a.bigEndian then Reverse(Hash(a, m)[4 * k..4 * k + 4]) else Hash(a, m)[4 * k..4 * k + 4])
            == words[k] % 0x1_0000_0000)
  {
    hide Padded;
    var p := Padded(a, m);
    ChainFrom(a, p, 0);
    assert p[0..] == p;
    var words := Chain(a.compress, a.init, p);
    if k < |words| { OutputAt(a, words, k); }
  }

  lemma {:induction false} OutputAt(a: Algorithm, words: seq<nat>, k: nat)
    requires k < |words|
    ensures var four := Output(a, words)[4 * k..4 * k + 4];
      FromLE(if a.bigEndian then Reverse(four) else four) == words[k] % 0x1_0000_0000
  {
    hide LE, FromLE, Reverse;
    var o := Output(a, words);
    if k > 0 {
      OutputAt(a, words[1..], k - 1);
      assert o[4 * k..4 * k + 4] == Output(a, words[1..])[4 * (k - 1)..4 * (k - 1) + 4];
    } else {
      assert o[0..4] == Put(a, words[0], 4);
      ReverseTwice(LE(words[0], 4));
      LEMod(words[0], 4);
      assert Pow256(4) == 0x1_0000_0000 by { assert Pow256(3) == 16777216 && Pow256(2) == 65536; }
    }
  }

  // ---------- the length field ----------

  lemma {:induction false} LESplit(lo: nat, hi: nat, v: nat, w: nat)
    requires lo < Pow256(v)
    ensures LE(lo + Pow256(v) * hi, v + w) == LE(lo, v) + LE(hi, w)
  {
    hide LE;
    if v > 0 {
      var x := Pow256(v - 1) * hi;
      Assoc(256, Pow256(v - 1), hi);
      LESplit(lo / 256, hi, v - 1, w);
      Shifted(lo, x);
      LEStep(lo + 256 * x, v - 1 + w);
      LEStep(lo, v - 1);
      assert [lo % 256] + (LE(lo / 256, v - 1) + LE(hi, w)) == [lo % 256] + LE(lo / 256, v - 1) + LE(hi, w);
    } else {
      LENone(lo);
      assert [] + LE(hi, w) == LE(hi, w);
    }
  }

  lemma LEStep(n: nat, w: nat)
    ensures LE(n, w + 1) == [n % 256] + LE(n / 256, w)
  {}

  lemma LENone(n: nat)
    ensures LE(n, 0) == []
  {}

  lemma Assoc(a: nat, b: nat, c: nat)
    ensures a * b * c == a * (b * c)
  {}

  lemma Shifted(lo: nat, x: nat)
    ensures (lo + 256 * x) % 256 == lo % 256 && (lo + 256 * x) / 256 == lo / 256 + x
  {}

  lemma {:induction false} ReverseConcat(x: seq<byte>, y: seq<byte>)
    ensures Reverse(x + y) == Reverse(y) + Reverse(x)
  {
    if x == [] {
      assert x + y == y && Reverse(y) + [] == Reverse(y);
    } else {
      ReverseConcat(x[1..], y);
      assert (x + y)[1..] == x[1..] + y;
      assert Reverse(x + y) == Reverse(y) + Reverse(x[1..]) + [x[0]];
    }
  }

  /** The eight bytes that finish writes from its two counters are those of the message's length in
      bits. */
  lemma LengthField(a: Algorithm, t0: nat, t1: nat, len: nat)
    requires t0 < WORD && t1 < WORD && t0 + WORD * t1 == len % LONG
    ensures var low, high := 8 * t0 % WORD, t0 / 0x2000_0000 + 8 * t1 % WORD;
      Put(a, 8 * len % LONG, 8) ==
        if a.bigEndian then Put(a, high, 4) + Put(a, low, 4) else Put(a, low, 4) + Put(a, high, 4)
  {
    hide LE, Reverse;
    var low, high := 8 * t0 % WORD, t0 / 0x2000_0000 + 8 * t1 % WORD;
    BitsSplit(t0, t1, len);
    assert Pow256(4) == WORD by { assert Pow256(1) == 256 && Pow256(2) == 65536 && Pow256(3) == 16777216; }
    LESplit(low, high, 4, 4);
    ReverseConcat(LE(low, 4), LE(high, 4));
  }

  lemma BitsSplit(t0: nat, t1: nat, len: nat)
    requires t0 < WORD && t1 < WORD && t0 + WORD * t1 == len % LONG
    ensures 8 * len % LONG == 8 * t0 % WORD + WORD * (t0 / 0x2000_0000 + 8 * t1 % WORD)
    ensures t0 / 0x2000_0000 + 8 * t1 % WORD < WORD
  {
    var k := len / LONG;
    assert len == LONG * k + t0 + WORD * t1;
    assert 8 * t0 == WORD * (t0 / 0x2000_0000) + 8 * t0 % WORD;
    assert 8 * t1 == WORD * (t1 / 0x2000_0000) + 8 * t1 % WORD;
    var x := 8 * t0 % WORD + WORD * (t0 / 0x2000_0000 + 8 * t1 % WORD);
    assert 8 * len == LONG * (8 * k + t1 / 0x2000_0000) + x;
    DivIs(8 * len, LONG, 8 * k + t1 / 0x2000_0000, x);
  }

  // ---------- the context ----------

  class Context {
    const a: Algorithm
    var total0: nat
    var total1: nat
    var state: seq<nat>
    const buffer: array<byte>
    ghost var msg: seq<byte>

    /** The context has taken in msg: its counters hold the length modulo 2^64, its state the whole
        blocks, its buffer the rest. */
    ghost predicate Valid()
      reads this, buffer
    {
      && buffer.Length == 64 && total0 < WORD && total1 < WORD && total0 + WORD * total1 == |msg| % LONG
      && Kept(a, msg, |msg| / 64, state, buffer[..])
    }

    /** utils_md5_init and utils_md5_starts, and the same for SHA-1. */
    constructor (alg: Algorithm)
      ensures Valid() && msg == [] && a == alg && fresh(buffer)
    {
      a, total0, total1, state, msg := alg, 0, 0, alg.init, [];
      buffer := new byte[64];
    }

    /** The counters of update: the carry shows as a sum below what was added. */
    method Count(ilen: nat)
      requires total0 < WORD && total1 < WORD && ilen < WORD && total0 + WORD * total1 == |msg| % LONG
      modifies this`total0, this`total1
      ensures total0 < WORD && total1 < WORD && total0 + WORD * total1 == (|msg| + ilen) % LONG
    {
      ghost var t0, t1 := total0, total1;
      total0 := (total0 + ilen) % WORD;
      if total0 < ilen {
        total1 := (total1 + 1) % WORD;
      }
      Carried(t0, t1, ilen, |msg|, total0, total1);
    }

    /** utils_md5_update, utils_sha1_update; a size_t has 32 bits here. */
    method Update(input: seq<byte>)
      requires Valid() && |input| < WORD
      modifies this, buffer
      ensures Valid() && msg == old(msg) + input
    {
      hide Fold, Kept;
      if |input| == 0 {
        assert msg + input == msg;
        return;
      }
      var left := total0 % 64;
      LeftIs(total0, total1, |msg|);
      Count(|input|);
      Absorb(input, left);
      msg := msg + input;
    }

    // update, from the filling of a begun block on.
    method Absorb(input: seq<byte>, left0: nat)
      requires Kept(a, msg, |msg| / 64, state, buffer[..]) && left0 == |msg| % 64
      modifies this`state, buffer
      ensures Kept(a, msg + input, |msg + input| / 64, state, buffer[..])
    {
      hide Fold, Kept, Written;
      ghost var all, q := msg + input, |msg| / 64;
      var left, pos := left0, 0;
      var fill := 64 - left;
      Grow(a, msg, input, q, state, buffer[..]);
      KeptBuffer(a, msg, q, state, buffer[..]);
      assert all[|msg|..] == input && all[64 * q..64 * q + left] == msg[64 * q..];
      if left != 0 && |input| >= fill {
        FillBlock(input, left, all, q);
        q, pos, left := q + 1, fill, 0;
      }
      pos, q := TakeBlocks(input, pos, all, q);
      ghost var before := buffer[..];
      if |input| > pos {
        CopyFrom(left, input, pos, |input| - pos);
      }
      assert input[pos..pos + (|input| - pos)] == input[pos..];
      KeptRest(a, msg, input, q, state, left, pos, before, buffer[..]);
    }

    // A block begun earlier, filled up.
    method FillBlock(input: seq<byte>, left: nat, ghost all: seq<byte>, ghost q: nat)
      requires buffer.Length == 64 && 0 < left < 64 && 64 - left <= |input| && 64 * q + left <= |all|
      requires state == Fold(a, all, q)
      requires all[64 * q + left..] == input && buffer[..left] == all[64 * q..64 * q + left]
      modifies this`state, buffer
      ensures 64 * q + 64 <= |all| && state == Fold(a, all, q + 1)
    {
      hide Fold, Written;
      ghost var before := buffer[..];
      CopyFrom(left, input, 0, 64 - left);
      BlockOf(all, input, q, left, before, buffer[..]);
      FoldNext(a, all, q, state, buffer[..]);
      state := a.compress(state, buffer[..]);
    }

    // The block loop of update.
    method TakeBlocks(input: seq<byte>, pos0: nat, ghost all: seq<byte>, ghost q0: nat) returns (pos: nat, ghost q: nat)
      requires pos0 <= |input| <= |all| && all[|all| - |input|..] == input && 64 * q0 <= |all|
      requires state == Fold(a, all, q0)
      requires |input| - pos0 >= 64 ==> 64 * q0 == |all| - |input| + pos0
      modifies this`state
      ensures pos0 <= pos <= |input| && |input| - pos < 64 && 64 * (q - q0) == pos - pos0 && 64 * q <= |all|
      ensures state == Fold(a, all, q)
    {
      hide Fold;
      pos, q := pos0, q0;
      while |input| - pos >= 64
        invariant pos0 <= pos <= |input| && 64 * (q - q0) == pos - pos0 && 64 * q <= |all| && state == Fold(a, all, q)
      {
        BlockIn(all, input, pos, 64 * q);
        FoldNext(a, all, q, state, input[pos..pos + 64]);
        state := a.compress(state, input[pos..pos + 64]);
        q, pos := q + 1, pos + 64;
      }
    }

    method CopyFrom(at: nat, input: seq<byte>, pos: nat, n: nat)
      requires buffer.Length == 64 && at + n <= 64 && pos + n <= |input|
      modifies buffer
      ensures buffer[..] == Written(old(buffer[..]), at, input[pos..pos + n])
    {
      Copy(buffer, at, input[pos..pos + n]);
    }

    /** utils_md5_finish, utils_sha1_finish. */
    method Finish() returns (output: seq<byte>)
      requires Valid()
      modifies this, buffer
      ensures output == Hash(a, old(msg))
    {
      hide Fold, Kept, Put;
      ghost var m := msg;
      var high, low := total0 / 0x2000_0000 + 8 * total1 % WORD, 8 * total0 % WORD;
      BitsSplit(total0, total1, |msg|);
      var msglen := if a.bigEndian then Put(a, high, 4) + Put(a, low, 4) else Put(a, low, 4) + Put(a, high, 4);
      LengthField(a, total0, total1, |msg|);
      var last := total0 % 64;
      LeftIs(total0, total1, |msg|);
      var padn := if last < 56 then 56 - last else 120 - last;
      Update(Padding(padn));
      Update(msglen);
      KeptState(a, msg, |msg| / 64, state, buffer[..]);
      output := Output(a, state);
    }
  }

  /** state and buffer hold message m of q whole blocks. */
  ghost predicate Kept(a: Algorithm, m: seq<byte>, q: nat, state: seq<nat>, buffer: seq<byte>) {
    |buffer| == 64 && q == |m| / 64 && state == Fold(a, m, q) && buffer[..|m| % 64] == m[64 * q..]
  }

  lemma Carried(t0: nat, t1: nat, ilen: nat, len: nat, t0': nat, t1': nat)
    requires t0 < WORD && t1 < WORD && ilen < WORD && t0 + WORD * t1 == len % LONG
    requires t0' == (t0 + ilen) % WORD && t1' == if t0' < ilen then (t1 + 1) % WORD else t1
    ensures t0' + WORD * t1' == (len + ilen) % LONG
  {
    Wrapped(t0, ilen);
    var c := if t0 + ilen >= WORD then 1 else 0;
    Wrapped(t1, c);
    var d, k := if t1 + c >= WORD then 1 else 0, len / LONG;
    assert t0' + WORD * t1' == t0 + ilen + WORD * t1 - LONG * d;
    DivIs(len + ilen, LONG, k + d, t0' + WORD * t1');
  }

  lemma Wrapped(t: nat, n: nat)
    requires t < WORD && n < WORD
    ensures (t + n) % WORD == if t + n >= WORD then t + n - WORD else t + n
    ensures (t + n) % WORD < n <==> t + n >= WORD
  {}

  lemma LeftIs(t0: nat, t1: nat, len: nat)
    requires t0 + WORD * t1 == len % LONG
    ensures t0 % 64 == len % 64
  {
    var k := len / LONG;
    Low6(LONG / 64 * k + WORD / 64 * t1, t0);
  }

  lemma Low6(k: nat, t: nat)
    ensures (64 * k + t) % 64 == t % 64
  {}

  lemma Grow(a: Algorithm, m: seq<byte>, input: seq<byte>, q: nat, state: seq<nat>, buffer: seq<byte>)
    requires Kept(a, m, q, state, buffer)
    ensures 64 * q + |m| % 64 == |m| && state == Fold(a, m + input, q)
  {
    FoldPrefix(a, m, m + input, q);
  }

  lemma BlockIn(all: seq<byte>, input: seq<byte>, pos: nat, at: nat)
    requires |input| <= |all| && all[|all| - |input|..] == input && pos + 64 <= |input| && at == |all| - |input| + pos
    ensures input[pos..pos + 64] == all[at..at + 64]
  {}

  lemma BlockOf(all: seq<byte>, input: seq<byte>, q: nat, left: nat, before: seq<byte>, block: seq<byte>)
    requires left < 64 && 64 - left <= |input| && |before| == 64 && 64 * q + left <= |all|
    requires all[64 * q + left..] == input && before[..left] == all[64 * q..64 * q + left]
    requires block == Written(before, left, input[0..64 - left])
    ensures 64 * q + 64 <= |all| && block == all[64 * q..64 * q + 64]
  {
    assert block == before[..left] + input[..64 - left];
    assert all[64 * q..64 * q + 64] == all[64 * q..64 * q + left] + all[64 * q + left..][..64 - left];
  }

  lemma FoldNext(a: Algorithm, all: seq<byte>, q: nat, state: seq<nat>, block: seq<byte>)
    requires 64 * q + 64 <= |all| && state == Fold(a, all, q) && block == all[64 * q..64 * q + 64]
    ensures a.compress(state, block) == Fold(a, all, q + 1)
  {}

  // What update leaves behind: the rest of the input, behind what the buffer held if that was not
  // used up.
  lemma KeptRest(a: Algorithm, m: seq<byte>, input: seq<byte>, q: nat, state: seq<nat>, left: nat, pos: nat,
                 before: seq<byte>, after: seq<byte>)
    requires 64 * q + left == |m| + pos && pos <= |input| && left + |input| - pos < 64 && 64 * q <= |m + input|
    requires state == Fold(a, m + input, q)
    requires left == 0 || (pos == 0 && 64 * q <= |m| && |before| == 64 && before[..left] == m[64 * q..])
    requires |before| == 64 && after == if |input| > pos then Written(before, left, input[pos..]) else before
    ensures Kept(a, m + input, |m + input| / 64, state, after)
  {
    hide Fold;
    var n := |input| - pos;
    DivIs(|m + input|, 64, q, left + n);
    if left == 0 {
      TailOf(m, input, 64 * q, pos);
      assert before[..0] + input[pos..] == input[pos..];
    } else {
      assert (m + input)[64 * q..] == m[64 * q..] + input && input[pos..] == input;
    }
    if n > 0 { WrittenFront(before, left, input[pos..]); }
    assert input[pos..] == [] ==> before[..left] + input[pos..] == before[..left];
  }

  lemma TailOf(m: seq<byte>, input: seq<byte>, at: nat, pos: nat)
    requires at == |m| + pos && pos <= |input|
    ensures (m + input)[at..] == input[pos..]
  {}

  lemma WrittenFront(s: seq<byte>, o: nat, b: seq<byte>)
    requires o + |b| <= |s|
    ensures Written(s, o, b)[..o + |b|] == s[..o] + b
  {}

  lemma KeptBuffer(a: Algorithm, m: seq<byte>, q: nat, state: seq<nat>, buffer: seq<byte>)
    requires Kept(a, m, q, state, buffer)
    ensures |buffer| == 64 && 64 * q <= |m| && buffer[..|m| % 64] == m[64 * q..]
  {}

  lemma KeptState(a: Algorithm, m: seq<byte>, q: nat, state: seq<nat>, buffer: seq<byte>)
    requires Kept(a, m, q, state, buffer)
    ensures 64 * q <= |m| && state == Fold(a, m, q)
  {}

  /** However a message is cut into pieces, its digest is that of the whole. */
  method HashPieces(alg: Algorithm, pieces: seq<seq<byte>>) returns (output: seq<byte>)
    requires forall k :: 0 <= k < |pieces| ==> |pieces[k]| < WORD
    ensures output == Hash(alg, Concat(pieces))
  {
    hide Fold, Hash;
    var ctx := new Context(alg);
    for i := 0 to |pieces|
      invariant ctx.Valid() && fresh(ctx) && fresh(ctx.buffer) && ctx.a == alg && ctx.msg == Concat(pieces[..i])
    {
      assert pieces[..i + 1][..i] == pieces[..i];
      ctx.Update(pieces[i]);
    }
    assert pieces[..|pieces|] == pieces;
    output := ctx.Finish();
  }

  // ---------- keyed digests ----------

  const BLOCK := 64

  function Xor(b: byte, c: byte): byte { ((b as bv8) ^ (c as bv8)) as int }

  function XorAll(k: seq<byte>, c: byte): (r: seq<byte>)
    ensures |r| == |k|
  {
    seq(|k|, i requires 0 <= i < |k| => Xor(k[i], c))
  }

  /** Section 2 of RFC 2104, for keys that fit a block. */
  function Hmac(a: Algorithm, key: seq<byte>, text: seq<byte>): seq<byte>
    requires |key| <= BLOCK
  {
    var k := key + Zeros(BLOCK - |key|);
    Hash(a, XorAll(k, 0x5c) + Hash(a, XorAll(k, 0x36) + text))
  }

  /** That section in bytes: the key, filled up with zeros to 64 bytes, with every byte xored with 0x36
      before the text, and with 0x5c before the digest of that. */
  lemma HmacMeans(a: Algorithm, key: seq<byte>, text: seq<byte>) returns (inner: seq<byte>, outer: seq<byte>)
    requires |key| <= 64
    ensures |inner| == |outer| == 64
    ensures forall i :: 0 <= i < 64 ==>
      var b: byte := if i < |key| then key[i] else 0;
      && inner[i] == ((b as bv8) ^ 0x36) as int && outer[i] == ((b as bv8) ^ 0x5c) as int
    ensures Hmac(a, key, text) == Hash(a, outer + Hash(a, inner + text))
  {
    hide Hash;
    var k := key + Zeros(64 - |key|);
    inner, outer := XorAll(k, 0x36), XorAll(k, 0x5c);
    forall i | 0 <= i < 64
      ensures var b: byte := if i < |key| then key[i] else 0;
        inner[i] == Xor(b, 0x36) && outer[i] == Xor(b, 0x5c)
    {
      assert k[i] == if i < |key| then key[i] else 0;
    }
  }

  function HexDigit(n: nat): byte
    requires n < 16
  {
    if n < 10 then 48 + n else 87 + n
  }

  function Hex(b: seq<byte>): (h: seq<byte>)
    ensures |h| == 2 * |b|
  {
    if b == [] then [] else Hex(b[..|b| - 1]) + [HexDigit(b[|b| - 1] / 16), HexDigit(b[|b| - 1] % 16)]
  }

  const HEX := "0123456789abcdef"

  /** Two lower-case digits for each byte, the high one first. */
  lemma {:induction false} HexDigits(b: seq<byte>, i: nat)
    requires i < |b|
    ensures Hex(b)[2 * i] == HEX[b[i] / 16] as int && Hex(b)[2 * i + 1] == HEX[b[i] % 16] as int
    decreases |b|
  {
    if i < |b| - 1 {
      HexDigits(b[..|b| - 1], i);
    } else {
      HexOf(b[i] / 16);
      HexOf(b[i] % 16);
    }
  }

  lemma HexOf(n: nat)
    requires n < 16
    ensures HexDigit(n) == HEX[n] as int
  {}

  /** The number a pair of digits stands for, and so no two digests look the same. */
  function UnHex(h: seq<byte>): seq<byte> {
    if |h| < 2 then [] else UnHex(h[..|h| - 2]) + [Nibble(h[|h| - 2]) * 16 + Nibble(h[|h| - 1])]
  }

  function Nibble(c: byte): (n: nat)
    ensures n < 16
  {
    if 48 <= c < 58 then c - 48 else if 97 <= c < 103 then c - 87 else 0
  }

  lemma {:induction false} HexReadsBack(b: seq<byte>)
    ensures UnHex(Hex(b)) == b
  {
    hide HexDigit, Nibble, UnHex;
    if b == [] {
      assert UnHex([]) == [] by { UnHexSnoc([], 0, 0); }
    } else {
      var n := |b| - 1;
      HexReadsBack(b[..n]);
      DigitsBack(b[n]);
      UnHexSnoc(Hex(b[..n]), HexDigit(b[n] / 16), HexDigit(b[n] % 16));
      assert b == b[..n] + [b[n]];
    }
  }

  lemma UnHexSnoc(h: seq<byte>, x: byte, y: byte)
    ensures UnHex(h + [x, y]) == UnHex(h) + [Nibble(x) * 16 + Nibble(y)] && UnHex([]) == []
  {
    hide Nibble;
    assert (h + [x, y])[..|h|] == h;
  }

  lemma DigitsBack(b: byte)
    ensures Nibble(HexDigit(b / 16)) * 16 + Nibble(HexDigit(b % 16)) == b
  {}

  /** The digest of an algorithm has four bytes for each of its words. */
  ghost predicate Sized(alg: Algorithm) {
    forall s, b :: |s| == |alg.init| ==> |alg.compress(s, b)| == |alg.init|
  }

  lemma {:induction false} HashSize(alg: Algorithm, m: seq<byte>)
    requires Sized(alg)
    ensures |Hash(alg, m)| == 4 * |alg.init|
  {
    hide Padded;
    FoldSize(alg, Padded(alg, m), |Padded(alg, m)| / 64);
  }

  lemma {:induction false} FoldSize(alg: Algorithm, m: seq<byte>, q: nat)
    requires Sized(alg) && 64 * q <= |m|
    ensures |Fold(alg, m, q)| == |alg.init|
  {
    if q > 0 { FoldSize(alg, m, q - 1); }
  }

  method HashTwo(alg: Algorithm, x: seq<byte>, y: seq<byte>) returns (output: seq<byte>)
    requires |x| < WORD && |y| < WORD
    ensures output == Hash(alg, x + y)
  {
    var ctx := new Context(alg);
    ctx.Update(x);
    ctx.Update(y);
    assert [] + x == x;
    output := ctx.Finish();
  }

  method HashOne(alg: Algorithm, x: seq<byte>) returns (output: seq<byte>)
    requires |x| < WORD
    ensures output == Hash(alg, x) && (Sized(alg) ==> |output| == 4 * |alg.init|)
  {
    var ctx := new Context(alg);
    ctx.Update(x);
    assert [] + x == x;
    output := ctx.Finish();
    if Sized(alg) { HashSize(alg, x); }
  }

  /** utils_md5: sixteen bytes, of a compression that keeps four words. */
  method Md5(compress: (seq<nat>, seq<byte>) -> seq<nat>, input: seq<byte>) returns (output: seq<byte>)
    requires |input| < WORD
    ensures output == Hash(MD5(compress), input) && (Sized(MD5(compress)) ==> |output| == 16)
  {
    output := HashOne(MD5(compress), input);
  }

  /** utils_sha1: twenty bytes, of a compression that keeps five words. */
  method Sha1(compress: (seq<nat>, seq<byte>) -> seq<nat>, input: seq<byte>) returns (output: seq<byte>)
    requires |input| < WORD
    ensures output == Hash(SHA1(compress), input) && (Sized(SHA1(compress)) ==> |output| == 20)
  {
    output := HashOne(SHA1(compress), input);
  }

  method KeyBlock(key: seq<byte>) returns (pad: array<byte>)
    requires |key| <= BLOCK
    ensures fresh(pad) && pad.Length == BLOCK && pad[..] == key + Zeros(BLOCK - |key|)
  {
    pad := new byte[BLOCK](_ => 0);
    Copy(pad, 0, key);
  }

  /** The two pads: the key, filled up with zeros, XORed byte by byte in place. */
  method Pads(key: seq<byte>) returns (ipad: array<byte>, opad: array<byte>)
    requires |key| <= BLOCK
    ensures var k := key + Zeros(BLOCK - |key|); ipad[..] == XorAll(k, 0x36) && opad[..] == XorAll(k, 0x5c)
    ensures fresh(ipad) && fresh(opad)
  {
    hide Xor, Zeros;
    ghost var k := key + Zeros(BLOCK - |key|);
    ipad := KeyBlock(key);
    opad := KeyBlock(key);
    for i := 0 to BLOCK
      invariant forall j :: 0 <= j < BLOCK ==> ipad[j] == if j < i then Xor(k[j], 0x36) else k[j]
      invariant forall j :: 0 <= j < BLOCK ==> opad[j] == if j < i then Xor(k[j], 0x5c) else k[j]
    {
      ipad[i] := Xor(ipad[i], 0x36);
      opad[i] := Xor(opad[i], 0x5c);
    }
  }

  /** utils_hmac_md5, utils_hmac_sha1: a longer key leaves the digest unwritten. */
  method HmacHex(alg: Algorithm, msg: seq<byte>, key: seq<byte>, digest: array<byte>)
    requires |msg| < WORD && Sized(alg) && 8 * |alg.init| <= digest.Length && 4 * |alg.init| < WORD
    modifies digest
    ensures |key| > BLOCK ==> digest[..] == old(digest[..])
    ensures |key| <= BLOCK ==>
      |Hmac(alg, key, msg)| == 4 * |alg.init| && digest[..] == Written(old(digest[..]), 0, Hex(Hmac(alg, key, msg)))
  {
    hide Hash, XorAll, Hex, Zeros;
    if |key| > BLOCK { return; }
    var ipad, opad := Pads(key);
    ghost var k := key + Zeros(BLOCK - |key|);
    var out := HashTwo(alg, ipad[..], msg);
    HashSize(alg, ipad[..] + msg);
    ghost var inner := opad[..] + out;
    out := HashTwo(alg, opad[..], out);
    HashSize(alg, inner);
    PutHex(digest, out);
  }

  method PutHex(digest: array<byte>, out: seq<byte>)
    requires 2 * |out| <= digest.Length
    modifies digest
    ensures digest[..] == Written(old(digest[..]), 0, Hex(out))
  {
    hide HexDigit, Written;
    ghost var s := digest[..];
    EmptyHex(s);
    for i := 0 to |out|
      invariant digest[..] == Written(s, 0, Hex(out[..i]))
    {
      assert out[..i + 1][..i] == out[..i];
      PutByte(digest, 2 * i, HexDigit(out[i] / 16));
      PutByte(digest, 2 * i + 1, HexDigit(out[i] % 16));
      WrittenNext(s, 0, Hex(out[..i]), [HexDigit(out[i] / 16)]);
      WrittenNext(s, 0, Hex(out[..i]) + [HexDigit(out[i] / 16)], [HexDigit(out[i] % 16)]);
      assert Hex(out[..i + 1]) == Hex(out[..i]) + [HexDigit(out[i] / 16)] + [HexDigit(out[i] % 16)];
    }
    assert out[..|out|] == out;
  }

  lemma EmptyHex(s: seq<byte>)
    ensures Hex([]) == [] && Written(s, 0, []) == s
  {}
}
