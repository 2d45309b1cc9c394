/** The decryption key schedule and the two block functions of utils_aes.c, proved against the
    rounds of AesRounds. */
module AesBlock {
  import opened AesField
  import opened AesAlgebra
  import opened AesState
  import opened AesTables
  import opened AesKeys
  import AesRounds

  // ---------- one table round ----------

  method FLookup(t: Tables, ghost p: Params, b0: byte, b1: byte, b2: byte, b3: byte)
    returns (f0: word, f1: word, f2: word, f3: word)
    requires t.Hold(p)
    ensures f0 == FT0(p.r, p.sb(b0)) && f1 == FT1(p.r, p.sb(b1)) && f2 == FT2(p.r, p.sb(b2)) && f3 == FT3(p.r, p.sb(b3))
  {
    assert t.RoundsAt(p, b0) && t.RoundsAt(p, b1) && t.RoundsAt(p, b2) && t.RoundsAt(p, b3);
    f0, f1, f2, f3 := t.ft0[b0 as int], t.ft1[b1 as int], t.ft2[b2 as int], t.ft3[b3 as int];
  }

  method RLookup(t: Tables, ghost p: Params, b0: byte, b1: byte, b2: byte, b3: byte)
    returns (f0: word, f1: word, f2: word, f3: word)
    requires t.Hold(p)
    ensures f0 == RT0(p.r, p.rsb(b0)) && f1 == RT1(p.r, p.rsb(b1)) && f2 == RT2(p.r, p.rsb(b2))
    ensures f3 == RT3(p.r, p.rsb(b3))
  {
    assert t.RoundsAt(p, b0) && t.RoundsAt(p, b1) && t.RoundsAt(p, b2) && t.RoundsAt(p, b3);
    f0, f1, f2, f3 := t.rt0[b0 as int], t.rt1[b1 as int], t.rt2[b2 as int], t.rt3[b3 as int];
  }

  lemma MixOfSub(p: Params, f: byte -> byte, b0: byte, b1: byte, b2: byte, b3: byte)
    ensures MixWord(p.r, SubWord(f, b0, b1, b2, b3)) == Pack(Mix(p.r, Col(f(b0), f(b1), f(b2), f(b3))))
    ensures InvMixWord(p.r, SubWord(f, b0, b1, b2, b3)) == Pack(InvMix(p.r, Col(f(b0), f(b1), f(b2), f(b3))))
  {
    WordBytes(f(b0), f(b1), f(b2), f(b3));
  }

  /** One assignment of AES_FROUND. */
  method FColumn(t: Tables, ghost p: Params, k: word, b0: byte, b1: byte, b2: byte, b3: byte) returns (x: word)
    requires t.Hold(p) && Laws(p.r) && AddsByXor(p.r)
    ensures x == AddWord(p.r, MixWord(p.r, SubWord(p.sb, b0, b1, b2, b3)), k)
  {
    var f0, f1, f2, f3 := FLookup(t, p, b0, b1, b2, b3);
    FRows(p.r, p.sb(b0), p.sb(b1), p.sb(b2), p.sb(b3));
    x := Sum5(p.r, k, f0, f1, f2, f3, Mix(p.r, Col(p.sb(b0), p.sb(b1), p.sb(b2), p.sb(b3))));
    MixOfSub(p, p.sb, b0, b1, b2, b3);
  }

  /** One assignment of AES_RROUND. */
  method RColumn(t: Tables, ghost p: Params, k: word, b0: byte, b1: byte, b2: byte, b3: byte) returns (x: word)
    requires t.Hold(p) && AddsByXor(p.r)
    ensures x == AddWord(p.r, InvMixWord(p.r, SubWord(p.rsb, b0, b1, b2, b3)), k)
  {
    var f0, f1, f2, f3 := RLookup(t, p, b0, b1, b2, b3);
    RRows(p.r, p.rsb(b0), p.rsb(b1), p.rsb(b2), p.rsb(b3));
    x := Sum5(p.r, k, f0, f1, f2, f3, InvMix(p.r, Col(p.rsb(b0), p.rsb(b1), p.rsb(b2), p.rsb(b3))));
    MixOfSub(p, p.rsb, b0, b1, b2, b3);
  }

  /** One word of the last encryption round. */
  method FLast(t: Tables, ghost p: Params, k: word, b0: byte, b1: byte, b2: byte, b3: byte) returns (x: word)
    requires t.SboxesHold(p) && AddsByXor(p.r)
    ensures x == AddWord(p.r, SubWord(p.sb, b0, b1, b2, b3), k)
  {
    assert t.SboxAt(p, b0) && t.SboxAt(p, b1) && t.SboxAt(p, b2) && t.SboxAt(p, b3);
    var w := Word(t.fsb[b0 as int], t.fsb[b1 as int], t.fsb[b2 as int], t.fsb[b3 as int]);
    KeyWord(p.r, w, k);
    x := w ^ k;
  }

  /** One word of the last decryption round. */
  method RLast(t: Tables, ghost p: Params, k: word, b0: byte, b1: byte, b2: byte, b3: byte) returns (x: word)
    requires t.SboxesHold(p) && AddsByXor(p.r)
    ensures x == AddWord(p.r, SubWord(p.rsb, b0, b1, b2, b3), k)
  {
    assert t.SboxAt(p, b0) && t.SboxAt(p, b1) && t.SboxAt(p, b2) && t.SboxAt(p, b3);
    var w := Word(t.rsb[b0 as int], t.rsb[b1 as int], t.rsb[b2 as int], t.rsb[b3 as int]);
    KeyWord(p.r, w, k);
    x := w ^ k;
  }

  method AddKey(ghost p: Params, w: word, k: word) returns (x: word)
    requires AddsByXor(p.r)
    ensures x == AddWord(p.r, w, k)
  {
    KeyWord(p.r, w, k);
    x := w ^ k;
  }

  // ---------- round keys ----------

  function RoundKey(w: nat -> word, j: nat): Block { Block(w(4 * j), w(4 * j + 1), w(4 * j + 2), w(4 * j + 3)) }

  function RoundKeys(w: nat -> word, nr: nat): (keys: seq<Block>)
    ensures |keys| == nr + 1
  {
    seq(nr + 1, j requires 0 <= j < nr + 1 => RoundKey(w, j))
  }

  /** Round key j as it stands in a buffer. */
  ghost function KeyOf(rk: array<word>, j: nat): Block
    requires 4 * j + 4 <= rk.Length
    reads rk
  {
    Block(rk[4 * j], rk[4 * j + 1], rk[4 * j + 2], rk[4 * j + 3])
  }

  /** The buffer holds the first m round keys, four words each. */
  ghost predicate HoldsFirst(rk: array<word>, keys: seq<Block>, m: nat)
    reads rk
  {
    m <= |keys| && 4 * |keys| <= rk.Length && forall j {:trigger keys[j]} :: 0 <= j < m ==> KeyOf(rk, j) == keys[j]
  }

  ghost predicate HoldsKeys(rk: array<word>, keys: seq<Block>)
    reads rk
  {
    HoldsFirst(rk, keys, |keys|)
  }

  lemma KeysHeld(w: nat -> word, rk: array<word>, nr: nat)
    requires Agrees(w, rk, 4 * (nr + 1))
    ensures HoldsKeys(rk, RoundKeys(w, nr))
  {
    forall j | 0 <= j < nr + 1 ensures RoundKeys(w, nr)[j] == KeyOf(rk, j) {
      assert RoundKeys(w, nr)[j] == RoundKey(w, j);
    }
  }

  method KeyAt(ghost keys: seq<Block>, rk: array<word>, j: nat) returns (k: Block)
    requires HoldsKeys(rk, keys) && j < |keys|
    ensures k == keys[j]
  {
    assert keys[j] == KeyOf(rk, j);
    k := Block(rk[4 * j], rk[4 * j + 1], rk[4 * j + 2], rk[4 * j + 3]);
  }

  // ---------- rounds ----------

  /** AES_FROUND: four words, the round keys taken at RK. */
  method FRound(t: Tables, ghost p: Params, k: Block, y: Block) returns (x: Block)
    requires t.Hold(p) && Laws(p.r) && AddsByXor(p.r)
    ensures x == AddBlock(p.r, MixBlock(p.r, SubShift(p.sb, y)), k)
  {
    var x0 := FColumn(t, p, k.w0, B0(y.w0), B1(y.w1), B2(y.w2), B3(y.w3));
    var x1 := FColumn(t, p, k.w1, B0(y.w1), B1(y.w2), B2(y.w3), B3(y.w0));
    var x2 := FColumn(t, p, k.w2, B0(y.w2), B1(y.w3), B2(y.w0), B3(y.w1));
    var x3 := FColumn(t, p, k.w3, B0(y.w3), B1(y.w0), B2(y.w1), B3(y.w2));
    x := Block(x0, x1, x2, x3);
  }

  /** AES_RROUND. */
  method RRound(t: Tables, ghost p: Params, k: Block, y: Block) returns (x: Block)
    requires t.Hold(p) && AddsByXor(p.r)
    ensures x == AddBlock(p.r, InvMixBlock(p.r, InvSubShift(p.rsb, y)), k)
  {
    var x0 := RColumn(t, p, k.w0, B0(y.w0), B1(y.w3), B2(y.w2), B3(y.w1));
    var x1 := RColumn(t, p, k.w1, B0(y.w1), B1(y.w0), B2(y.w3), B3(y.w2));
    var x2 := RColumn(t, p, k.w2, B0(y.w2), B1(y.w1), B2(y.w0), B3(y.w3));
    var x3 := RColumn(t, p, k.w3, B0(y.w3), B1(y.w2), B2(y.w1), B3(y.w0));
    x := Block(x0, x1, x2, x3);
  }

  method FinalF(t: Tables, ghost p: Params, k: Block, y: Block) returns (x: Block)
    requires t.SboxesHold(p) && AddsByXor(p.r)
    ensures x == AddBlock(p.r, SubShift(p.sb, y), k)
  {
    var x0 := FLast(t, p, k.w0, B0(y.w0), B1(y.w1), B2(y.w2), B3(y.w3));
    var x1 := FLast(t, p, k.w1, B0(y.w1), B1(y.w2), B2(y.w3), B3(y.w0));
    var x2 := FLast(t, p, k.w2, B0(y.w2), B1(y.w3), B2(y.w0), B3(y.w1));
    var x3 := FLast(t, p, k.w3, B0(y.w3), B1(y.w0), B2(y.w1), B3(y.w2));
    x := Block(x0, x1, x2, x3);
  }

  method FinalR(t: Tables, ghost p: Params, k: Block, y: Block) returns (x: Block)
    requires t.SboxesHold(p) && AddsByXor(p.r)
    ensures x == AddBlock(p.r, InvSubShift(p.rsb, y), k)
  {
    var x0 := RLast(t, p, k.w0, B0(y.w0), B1(y.w3), B2(y.w2), B3(y.w1));
    var x1 := RLast(t, p, k.w1, B0(y.w1), B1(y.w0), B2(y.w3), B3(y.w2));
    var x2 := RLast(t, p, k.w2, B0(y.w2), B1(y.w1), B2(y.w0), B3(y.w3));
    var x3 := RLast(t, p, k.w3, B0(y.w3), B1(y.w2), B2(y.w1), B3(y.w0));
    x := Block(x0, x1, x2, x3);
  }

  method AddFirst(ghost p: Params, k: Block, y: Block) returns (x: Block)
    requires AddsByXor(p.r)
    ensures x == AddBlock(p.r, y, k)
  {
    var x0 := AddKey(p, y.w0, k.w0);
    var x1 := AddKey(p, y.w1, k.w1);
    var x2 := AddKey(p, y.w2, k.w2);
    var x3 := AddKey(p, y.w3, k.w3);
    x := Block(x0, x1, x2, x3);
  }

  // ---------- the rounds as steps of AesRounds ----------

  // The steps of c are those of the cipher with parameters p; fires only where a round asks.
  ghost predicate Matches(c: AesRounds.Steps<Block>, p: Params) {
    && (forall y: Block {:trigger Use1(y)} :: Use1(y) ==>
      && c.sub(y) == SubShift(p.sb, y) && c.inv(y) == InvSubShift(p.rsb, y)
      && c.mix(y) == MixBlock(p.r, y) && c.imix(y) == InvMixBlock(p.r, y))
    && (forall y: Block, k: Block {:trigger Use2(y, k)} :: Use2(y, k) ==> c.add(y, k) == AddBlock(p.r, y, k))
  }

  method WhitenStep(ghost c: AesRounds.Steps<Block>, ghost p: Params, k: Block, y: Block) returns (x: Block)
    requires Matches(c, p) && AddsByXor(p.r)
    ensures x == c.add(y, k)
  {
    x := AddFirst(p, k, y);
    assert Use2(y, k);
  }

  method EncStep(t: Tables, ghost c: AesRounds.Steps<Block>, ghost p: Params, k: Block, y: Block) returns (x: Block)
    requires Matches(c, p) && t.Hold(p) && Laws(p.r) && AddsByXor(p.r)
    ensures x == c.add(c.mix(c.sub(y)), k)
  {
    x := FRound(t, p, k, y);
    ghost var s := SubShift(p.sb, y);
    assert Use1(y) && Use1(s) && Use2(MixBlock(p.r, s), k);
  }

  method DecStep(t: Tables, ghost c: AesRounds.Steps<Block>, ghost p: Params, k: Block, y: Block) returns (x: Block)
    requires Matches(c, p) && t.Hold(p) && AddsByXor(p.r)
    ensures x == c.add(c.imix(c.inv(y)), k)
  {
    x := RRound(t, p, k, y);
    ghost var s := InvSubShift(p.rsb, y);
    assert Use1(y) && Use1(s) && Use2(InvMixBlock(p.r, s), k);
  }

  method LastEncStep(t: Tables, ghost c: AesRounds.Steps<Block>, ghost p: Params, k: Block, y: Block) returns (x: Block)
    requires Matches(c, p) && t.SboxesHold(p) && AddsByXor(p.r)
    ensures x == c.add(c.sub(y), k)
  {
    x := FinalF(t, p, k, y);
    assert Use1(y) && Use2(SubShift(p.sb, y), k);
  }

  method LastDecStep(t: Tables, ghost c: AesRounds.Steps<Block>, ghost p: Params, k: Block, y: Block) returns (x: Block)
    requires Matches(c, p) && t.SboxesHold(p) && AddsByXor(p.r)
    ensures x == c.add(c.inv(y), k)
  {
    x := FinalR(t, p, k, y);
    assert Use1(y) && Use2(InvSubShift(p.rsb, y), k);
  }

  method EncRoundAt(t: Tables, ghost c: AesRounds.Steps<Block>, ghost p: Params, ghost keys: seq<Block>,
                    rk: array<word>, n: nat,
                     ghost s: Block, y: Block)
    returns (x: Block)
    requires Matches(c, p) && t.Hold(p) && Laws(p.r) && AddsByXor(p.r)
    requires HoldsKeys(rk, keys) && n + 1 < |keys| && y == AesRounds.EncRounds(c, keys, n, s)
    ensures x == AesRounds.EncRounds(c, keys, n + 1, s)
  {
    var k := KeyAt(keys, rk, n + 1);
    x := EncStep(t, c, p, k, y);
  }

  method EncTwoRounds(t: Tables, ghost c: AesRounds.Steps<Block>, ghost p: Params, ghost keys: seq<Block>,
                      rk: array<word>, n: nat,
                      ghost s: Block, y: Block)
    returns (x: Block)
    requires Matches(c, p) && t.Hold(p) && Laws(p.r) && AddsByXor(p.r)
    requires HoldsKeys(rk, keys) && n + 2 < |keys| && y == AesRounds.EncRounds(c, keys, n, s)
    ensures x == AesRounds.EncRounds(c, keys, n + 2, s)
  {
    x := EncRoundAt(t, c, p, keys, rk, n, s, y);
    x := EncRoundAt(t, c, p, keys, rk, n + 1, s, x);
  }

  /** The loop of utils_internal_aes_encrypt: two rounds at each turn. */
  method EncLoop(t: Tables, ghost c: AesRounds.Steps<Block>, ghost p: Params, ghost keys: seq<Block>, rk: array<word>,
                 nr: nat,
                 ghost s: Block, y: Block)
    returns (x: Block)
    requires Matches(c, p) && t.Hold(p) && Laws(p.r) && AddsByXor(p.r)
    requires nr % 2 == 0 && 4 <= nr && |keys| == nr + 1 && HoldsKeys(rk, keys)
    requires y == AesRounds.EncRounds(c, keys, 0, s)
    ensures x == AesRounds.EncRounds(c, keys, nr - 2, s)
  {
    x := y;
    var i, n := nr / 2 - 1, 0;
    while i > 0
      invariant 0 <= i && 2 * i + n == nr - 2
      invariant x == AesRounds.EncRounds(c, keys, n, s)
      decreases i
    {
      x := EncTwoRounds(t, c, p, keys, rk, n, s, x);
      n := n + 2;
      i := i - 1;
    }
  }

  method EncInner(t: Tables, ghost c: AesRounds.Steps<Block>, ghost p: Params, ghost keys: seq<Block>, rk: array<word>,
                  nr: nat,
                  ghost s: Block, y: Block)
    returns (x: Block)
    requires Matches(c, p) && t.Hold(p) && Laws(p.r) && AddsByXor(p.r)
    requires nr % 2 == 0 && 4 <= nr && |keys| == nr + 1 && HoldsKeys(rk, keys)
    requires y == AesRounds.EncRounds(c, keys, 0, s)
    ensures x == AesRounds.EncRounds(c, keys, nr - 1, s)
  {
    x := EncLoop(t, c, p, keys, rk, nr, s, y);
    x := EncRoundAt(t, c, p, keys, rk, nr - 2, s, x);
  }

  method EncFirst(ghost c: AesRounds.Steps<Block>, ghost p: Params, ghost keys: seq<Block>, rk: array<word>, s: Block)
    returns (x: Block)
    requires Matches(c, p) && AddsByXor(p.r) && |keys| > 0 && HoldsKeys(rk, keys)
    ensures x == AesRounds.EncRounds(c, keys, 0, s)
  {
    var k := KeyAt(keys, rk, 0);
    x := WhitenStep(c, p, k, s);
  }

  method EncLast(t: Tables, ghost c: AesRounds.Steps<Block>, ghost p: Params, ghost keys: seq<Block>, rk: array<word>,
                 nr: nat,
                 ghost s: Block, y: Block)
    returns (x: Block)
    requires Matches(c, p) && t.SboxesHold(p) && AddsByXor(p.r) && HoldsKeys(rk, keys)
    requires nr > 0 && |keys| == nr + 1 && y == AesRounds.EncRounds(c, keys, nr - 1, s)
    ensures x == AesRounds.Encrypt(c, keys, s)
  {
    var k := KeyAt(keys, rk, nr);
    x := LastEncStep(t, c, p, k, y);
  }

  /** utils_internal_aes_encrypt between loading and storing. */
  method EncryptState(t: Tables, ghost c: AesRounds.Steps<Block>, ghost p: Params, ghost keys: seq<Block>,
                      rk: array<word>, nr: nat, s: Block)
    returns (x: Block)
    requires Matches(c, p) && t.Hold(p) && Laws(p.r) && AddsByXor(p.r)
    requires nr % 2 == 0 && 4 <= nr && |keys| == nr + 1 && HoldsKeys(rk, keys)
    ensures x == AesRounds.Encrypt(c, keys, s)
  {
    x := EncFirst(c, p, keys, rk, s);
    x := EncInner(t, c, p, keys, rk, nr, s, x);
    x := EncLast(t, c, p, keys, rk, nr, s, x);
  }

  method DecRoundAt(t: Tables, ghost c: AesRounds.Steps<Block>, ghost p: Params, ghost keys: seq<Block>,
                    rk: array<word>, n: nat,
                     ghost s: Block, y: Block)
    returns (x: Block)
    requires Matches(c, p) && t.Hold(p) && AddsByXor(p.r)
    requires HoldsKeys(rk, keys) && n + 1 < |keys| && y == AesRounds.DecRounds(c, keys, n, s)
    ensures x == AesRounds.DecRounds(c, keys, n + 1, s)
  {
    var k := KeyAt(keys, rk, n + 1);
    x := DecStep(t, c, p, k, y);
  }

  method DecTwoRounds(t: Tables, ghost c: AesRounds.Steps<Block>, ghost p: Params, ghost keys: seq<Block>,
                      rk: array<word>, n: nat,
                      ghost s: Block, y: Block)
    returns (x: Block)
    requires Matches(c, p) && t.Hold(p) && AddsByXor(p.r)
    requires HoldsKeys(rk, keys) && n + 2 < |keys| && y == AesRounds.DecRounds(c, keys, n, s)
    ensures x == AesRounds.DecRounds(c, keys, n + 2, s)
  {
    x := DecRoundAt(t, c, p, keys, rk, n, s, y);
    x := DecRoundAt(t, c, p, keys, rk, n + 1, s, x);
  }

  /** The loop of utils_internal_aes_decrypt: two rounds at each turn. */
  method DecLoop(t: Tables, ghost c: AesRounds.Steps<Block>, ghost p: Params, ghost keys: seq<Block>, rk: array<word>,
                 nr: nat,
                 ghost s: Block, y: Block)
    returns (x: Block)
    requires Matches(c, p) && t.Hold(p) && AddsByXor(p.r)
    requires nr % 2 == 0 && 4 <= nr && |keys| == nr + 1 && HoldsKeys(rk, keys)
    requires y == AesRounds.DecRounds(c, keys, 0, s)
    ensures x == AesRounds.DecRounds(c, keys, nr - 2, s)
  {
    x := y;
    var i, n := nr / 2 - 1, 0;
    while i > 0
      invariant 0 <= i && 2 * i + n == nr - 2
      invariant x == AesRounds.DecRounds(c, keys, n, s)
      decreases i
    {
      x := DecTwoRounds(t, c, p, keys, rk, n, s, x);
      n := n + 2;
      i := i - 1;
    }
  }

  method DecInner(t: Tables, ghost c: AesRounds.Steps<Block>, ghost p: Params, ghost keys: seq<Block>, rk: array<word>,
                  nr: nat,
                  ghost s: Block, y: Block)
    returns (x: Block)
    requires Matches(c, p) && t.Hold(p) && AddsByXor(p.r)
    requires nr % 2 == 0 && 4 <= nr && |keys| == nr + 1 && HoldsKeys(rk, keys)
    requires y == AesRounds.DecRounds(c, keys, 0, s)
    ensures x == AesRounds.DecRounds(c, keys, nr - 1, s)
  {
    x := DecLoop(t, c, p, keys, rk, nr, s, y);
    x := DecRoundAt(t, c, p, keys, rk, nr - 2, s, x);
  }

  method DecFirst(ghost c: AesRounds.Steps<Block>, ghost p: Params, ghost keys: seq<Block>, rk: array<word>, s: Block)
    returns (x: Block)
    requires Matches(c, p) && AddsByXor(p.r) && |keys| > 0 && HoldsKeys(rk, keys)
    ensures x == AesRounds.DecRounds(c, keys, 0, s)
  {
    var k := KeyAt(keys, rk, 0);
    x := WhitenStep(c, p, k, s);
  }

  method DecLast(t: Tables, ghost c: AesRounds.Steps<Block>, ghost p: Params, ghost keys: seq<Block>, rk: array<word>,
                 nr: nat,
                 ghost s: Block, y: Block)
    returns (x: Block)
    requires Matches(c, p) && t.SboxesHold(p) && AddsByXor(p.r) && HoldsKeys(rk, keys)
    requires nr > 0 && |keys| == nr + 1 && y == AesRounds.DecRounds(c, keys, nr - 1, s)
    ensures x == AesRounds.Decrypt(c, keys, s)
  {
    var k := KeyAt(keys, rk, nr);
    x := LastDecStep(t, c, p, k, y);
  }

  /** utils_internal_aes_decrypt between loading and storing. */
  method DecryptState(t: Tables, ghost c: AesRounds.Steps<Block>, ghost p: Params, ghost keys: seq<Block>,
                      rk: array<word>, nr: nat, s: Block)
    returns (x: Block)
    requires Matches(c, p) && t.Hold(p) && AddsByXor(p.r)
    requires nr % 2 == 0 && 4 <= nr && |keys| == nr + 1 && HoldsKeys(rk, keys)
    ensures x == AesRounds.Decrypt(c, keys, s)
  {
    x := DecFirst(c, p, keys, rk, s);
    x := DecInner(t, c, p, keys, rk, nr, s, x);
    x := DecLast(t, c, p, keys, rk, nr, s, x);
  }

  // ---------- the decryption key schedule ----------

  // imix of c taken word by word; f is InvMixColumns on one word.
  ghost predicate WordWise(c: AesRounds.Steps<Block>, f: word -> word) {
    forall k: Block {:trigger c.imix(k)} :: c.imix(k) == Block(f(k.w0), f(k.w1), f(k.w2), f(k.w3))
  }

  ghost predicate InvMixes(f: word -> word, r: Ring<byte>) {
    forall w {:trigger Use1(w)} :: Use1(w) ==> f(w) == InvMixWord(r, w)
  }

  method InvLookup(t: Tables, ghost p: Params, b0: byte, b1: byte, b2: byte, b3: byte)
    returns (f0: word, f1: word, f2: word, f3: word)
    requires t.Hold(p) && Good(p)
    ensures f0 == RT0(p.r, b0) && f1 == RT1(p.r, b1) && f2 == RT2(p.r, b2) && f3 == RT3(p.r, b3)
  {
    assert t.SboxAt(p, b0) && t.SboxAt(p, b1) && t.SboxAt(p, b2) && t.SboxAt(p, b3);
    f0, f1, f2, f3 := RLookup(t, p, t.fsb[b0 as int], t.fsb[b1 as int], t.fsb[b2 as int], t.fsb[b3 as int]);
  }

  /** One word of an inner round key: RT applied to FSb of each byte is InvMixColumns. */
  method InvMixOf(t: Tables, ghost p: Params, ghost f: word -> word, w: word) returns (x: word)
    requires t.Hold(p) && Good(p) && AddsByXor(p.r) && InvMixes(f, p.r)
    ensures x == f(w)
  {
    var f0, f1, f2, f3 := InvLookup(t, p, B0(w), B1(w), B2(w), B3(w));
    RRows(p.r, B0(w), B1(w), B2(w), B3(w));
    x := Sum4Words(p.r, f0, f1, f2, f3, InvMix(p.r, Col(B0(w), B1(w), B2(w), B3(w))));
    assert Use1(w);
  }

  method CopyKey(rk: array<word>, j: nat, sk: array<word>, i: nat)
    requires rk != sk && 4 * j + 4 <= rk.Length && 4 * i + 4 <= sk.Length
    modifies rk
    ensures KeyOf(rk, j) == KeyOf(sk, i)
    ensures forall m: nat :: m != j && 4 * m + 4 <= rk.Length ==> KeyOf(rk, m) == old(KeyOf(rk, m))
  {
    rk[4 * j], rk[4 * j + 1], rk[4 * j + 2], rk[4 * j + 3] := sk[4 * i], sk[4 * i + 1], sk[4 * i + 2], sk[4 * i + 3];
  }

  method InvMixKey(t: Tables, ghost p: Params, ghost f: word -> word, rk: array<word>, j: nat, sk: array<word>, i: nat)
    requires t.Hold(p) && Good(p) && AddsByXor(p.r) && InvMixes(f, p.r) && rk !in t.Words()
    requires rk != sk && 4 * j + 4 <= rk.Length && 4 * i + 4 <= sk.Length
    modifies rk
    ensures var k := KeyOf(sk, i); KeyOf(rk, j) == Block(f(k.w0), f(k.w1), f(k.w2), f(k.w3))
    ensures forall m: nat :: m != j && 4 * m + 4 <= rk.Length ==> KeyOf(rk, m) == old(KeyOf(rk, m))
  {
    for q := 0 to 4
      invariant forall z :: 4 * j <= z < 4 * j + q ==> rk[z] == f(sk[4 * i + (z - 4 * j)])
      invariant forall m :: 0 <= m < rk.Length && !(4 * j <= m < 4 * j + 4) ==> rk[m] == old(rk[m])
    {
      var x := InvMixOf(t, p, f, sk[4 * i + q]);
      rk[4 * j + q] := x;
    }
  }

  /** The body of utils_aes_setkey_dec after the encryption key schedule. */
  method InvertKeys(t: Tables, ghost c: AesRounds.Steps<Block>, ghost p: Params, ghost f: word -> word,
                    ghost keys: seq<Block>,
                    rk: array<word>, sk: array<word>, nr: nat)
    requires t.Hold(p) && Good(p) && AddsByXor(p.r) && InvMixes(f, p.r) && rk !in t.Words()
    requires WordWise(c, f) && nr > 0 && |keys| == nr + 1 && HoldsKeys(sk, keys) && rk != sk && 4 * nr + 4 <= rk.Length
    modifies rk
    ensures HoldsKeys(rk, AesRounds.DecKeys(c, keys))
  {
    hide InvMixes, Good, AddsByXor;
    ghost var dk := AesRounds.DecKeys(c, keys);
    assert keys[nr] == dk[0];
    CopyKey(rk, 0, sk, nr);
    var i, j := nr - 1, 1;
    while i > 0
      invariant 0 <= i && i + j == nr
      invariant HoldsFirst(rk, dk, j)
      decreases i
    {
      assert dk[j] == c.imix(keys[i]);
      InvMixKey(t, p, f, rk, j, sk, i);
      i, j := i - 1, j + 1;
    }
    assert dk[nr] == keys[0];
    CopyKey(rk, nr, sk, 0);
  }

  lemma InvMixByWords(c: AesRounds.Steps<Block>, p: Params) returns (f: word -> word)
    requires Matches(c, p)
    ensures InvMixes(f, p.r) && WordWise(c, f)
  {
    f := w => InvMixWord(p.r, w);
    forall k: Block {:trigger c.imix(k)} ensures c.imix(k) == Block(f(k.w0), f(k.w1), f(k.w2), f(k.w3)) {
      assert Use1(k);
    }
  }

  ghost predicate KeyBits(keybits: nat) { keybits in {128, 192, 256} }

  ghost function EncKeys(p: Params, key: seq<byte>): (keys: seq<Block>)
    requires |key| in {16, 24, 32}
    ensures |keys| == |key| / 4 + 7
  {
    RoundKeys(KeySchedule(p, key), |key| / 4 + 6)
  }

  /** utils_aes_setkey_dec: the buffer holds the schedule of section 5.3.5 of FIPS 197; a refused
      key size leaves the context's rounds as they were. */
  method SetkeyDec(t: Tables, ghost c: AesRounds.Steps<Block>, ghost p: Params, ctx: Context, key: array<byte>,
                   keybits: nat)
    returns (ret: int)
    requires t.Hold(p) && Good(p) && AddsByXor(p.r) && Matches(c, p) && ctx.buf !in t.Words() && ctx.buf.Length == 68
    requires KeyBits(keybits) ==> key.Length == keybits / 8
    modifies ctx, ctx.buf
    ensures !KeyBits(keybits) ==> ret == INVALID_KEY_LENGTH && ctx.nr == old(ctx.nr) && ctx.buf[..] == old(ctx.buf[..])
    ensures KeyBits(keybits) ==> ret == 0 && ctx.nr == keybits / 32 + 6
    ensures KeyBits(keybits) ==> HoldsKeys(ctx.buf, AesRounds.DecKeys(c, EncKeys(p, key[..])))
  {
    hide KeySchedule, AesRounds.DecKeys;
    var cty := new Context();
    ret := SetkeyEnc(t, p, cty, key, keybits);
    if ret != 0 {
      return;
    }
    ctx.nr := cty.nr;
    KeysHeld(KeySchedule(p, key[..]), cty.buf, ctx.nr);
    ghost var f := InvMixByWords(c, p);
    InvertKeys(t, c, p, f, EncKeys(p, key[..]), ctx.buf, cty.buf, ctx.nr);
  }
}
