/** The static tables of utils_aes.c and its encryption key schedule (section 5.2 of FIPS 197). */
module AesKeys {
  import opened Orbit
  import opened AesField
  import opened AesAlgebra
  import opened AesState
  import opened AesTables
  import AesRounds

  const INVALID_KEY_LENGTH: int := -0x0020

  /** The static tables of the C file. */
  class Tables {
    const fsb: array<byte>
    const rsb: array<byte>
    const ft0: array<word>
    const ft1: array<word>
    const ft2: array<word>
    const ft3: array<word>
    const rt0: array<word>
    const rt1: array<word>
    const rt2: array<word>
    const rt3: array<word>
    const rcon: array<word>

    constructor ()
      ensures Shaped() && fresh(Bytes()) && fresh(Words())
    {
      fsb := new byte[256]; rsb := new byte[256];
      ft0 := new word[256]; ft1 := new word[256]; ft2 := new word[256]; ft3 := new word[256];
      rt0 := new word[256]; rt1 := new word[256]; rt2 := new word[256]; rt3 := new word[256];
      rcon := new word[10];
    }

    ghost function Bytes(): set<array<byte>> { {fsb, rsb} }
    ghost function Words(): set<array<word>> { {ft0, ft1, ft2, ft3, rt0, rt1, rt2, rt3, rcon} }

    ghost predicate Shaped() {
      && fsb.Length == rsb.Length == 256 && rcon.Length == 10 && fsb != rsb
      && ft0.Length == ft1.Length == ft2.Length == ft3.Length == 256
      && rt0.Length == rt1.Length == rt2.Length == rt3.Length == 256
      && ft0 !in {ft1, ft2, ft3, rt0, rt1, rt2, rt3, rcon} && ft1 !in {ft2, ft3, rt0, rt1, rt2, rt3, rcon}
      && ft2 !in {ft3, rt0, rt1, rt2, rt3, rcon} && ft3 !in {rt0, rt1, rt2, rt3, rcon}
      && rt0 !in {rt1, rt2, rt3, rcon} && rt1 !in {rt2, rt3, rcon} && rt2 !in {rt3, rcon} && rt3 != rcon
    }

    ghost predicate SboxAt(p: Params, x: byte)
      requires Shaped()
      reads fsb, rsb
    {
      fsb[x as int] == p.sb(x) && rsb[x as int] == p.rsb(x)
    }

    ghost predicate RoundsAt(p: Params, x: byte)
      requires Shaped()
      reads ft0, ft1, ft2, ft3, rt0, rt1, rt2, rt3
    {
      && ft0[x as int] == FT0(p.r, p.sb(x)) && ft1[x as int] == FT1(p.r, p.sb(x))
      && ft2[x as int] == FT2(p.r, p.sb(x)) && ft3[x as int] == FT3(p.r, p.sb(x))
      && rt0[x as int] == RT0(p.r, p.rsb(x)) && rt1[x as int] == RT1(p.r, p.rsb(x))
      && rt2[x as int] == RT2(p.r, p.rsb(x)) && rt3[x as int] == RT3(p.r, p.rsb(x))
    }

    ghost predicate SboxesHold(p: Params)
      reads fsb, rsb, rcon
    {
      Shaped() && (forall x: byte :: SboxAt(p, x)) && (forall i :: 0 <= i < 10 ==> rcon[i] == Rcon(p.r, i))
    }

    ghost predicate Hold(p: Params)
      reads fsb, rsb, ft0, ft1, ft2, ft3, rt0, rt1, rt2, rt3, rcon
    {
      SboxesHold(p) && forall x: byte :: RoundsAt(p, x)
    }
  }

  function Rcon(r: Ring<byte>, i: nat): word { Iter(r.dbl, 1, i) as word }

  // ---------- key expansion (section 5.2 of FIPS 197) ----------

  /** What the expansion needs to know of words: their addition, SubWord after RotWord,
      SubWord, and the round constants. */
  datatype KeySteps = KeySteps(add: (word, word) -> word, subRot: word -> word, sub: word -> word, rcon: nat -> word)

  /** Word i of the expanded key. */
  function ExpandedWord(ks: KeySteps, kw: seq<word>, i: nat): word
    requires |kw| > 0
  {
    var nk := |kw|;
    if i < nk then kw[i]
    else if i % nk == 0 then
      ks.add(ks.add(ExpandedWord(ks, kw, i - nk), ks.rcon(i / nk - 1)), ks.subRot(ExpandedWord(ks, kw, i - 1)))
    else if nk > 6 && i % nk == 4 then
      ks.add(ExpandedWord(ks, kw, i - nk), ks.sub(ExpandedWord(ks, kw, i - 1)))
    else ks.add(ExpandedWord(ks, kw, i - nk), ExpandedWord(ks, kw, i - 1))
  }

  function SubRot(f: byte -> byte, w: word): word { Word(f(B1(w)), f(B2(w)), f(B3(w)), f(B0(w))) }
  function Sub(f: byte -> byte, w: word): word { Word(f(B0(w)), f(B1(w)), f(B2(w)), f(B3(w))) }

  ghost function KeyStepsOf(p: Params): KeySteps {
    KeySteps((a, b) => a ^ b, w => SubRot(p.sb, w), w => Sub(p.sb, w), (i: nat) => Rcon(p.r, i))
  }

  // GET_UINT32_LE
  function LoadLE(b: seq<byte>, i: nat): word
    requires i + 4 <= |b|
  {
    Word(b[i], b[i + 1], b[i + 2], b[i + 3])
  }

  ghost function KeyWords(key: seq<byte>): seq<word> {
    seq(|key| / 4, i requires 0 <= i < |key| / 4 => LoadLE(key, 4 * i))
  }

  /** The first n words of the buffer are those of w. */
  ghost predicate Agrees(w: nat -> word, rk: array<word>, n: nat)
    reads rk
  {
    n <= rk.Length && forall j: nat {:trigger w(j)} :: j < n ==> rk[j] == w(j)
  }

  // What the key schedule loops need to know of word i: how it comes from earlier words.
  ghost predicate FirstStep(ks: KeySteps, w: nat -> word, nk: nat, g: nat, i: nat)
    requires 0 < nk <= i && g > 0
  {
    w(i) == ks.add(ks.add(w(i - nk), ks.rcon(g - 1)), ks.subRot(w(i - 1)))
  }
  ghost predicate XorStep(ks: KeySteps, w: nat -> word, nk: nat, i: nat)
    requires 0 < nk <= i
  {
    w(i) == ks.add(w(i - nk), w(i - 1))
  }
  ghost predicate SubStep(ks: KeySteps, w: nat -> word, nk: nat, i: nat)
    requires 0 < nk <= i
  {
    w(i) == ks.add(w(i - nk), ks.sub(w(i - 1)))
  }

  // Fires the recursion at word i only where a step asks for it.
  ghost predicate At(i: int) { true }

  ghost predicate Steps(ks: KeySteps, w: nat -> word, nk: nat)
    requires nk > 0
  {
    forall i: nat {:trigger At(i)} :: At(i) && nk <= i ==>
      if i % nk == 0 then i / nk > 0 && FirstStep(ks, w, nk, i / nk, i)
      else if nk > 6 && i % nk == 4 then SubStep(ks, w, nk, i)
      else XorStep(ks, w, nk, i)
  }

  class Context {
    var nr: nat
    const buf: array<word>

    constructor ()
      ensures fresh(buf) && buf.Length == 68 && nr == 0
    {
      nr := 0;
      buf := new word[68];
    }
  }

  // KeySteps as the tables give them; fires only where a lookup asks for it.
  ghost predicate Fits(ks: KeySteps, p: Params) {
    && (forall a, b {:trigger Use2(a, b)} :: Use2(a, b) ==> ks.add(a, b) == a ^ b)
    && (forall w {:trigger Use1(w)} :: Use1(w) ==> ks.subRot(w) == SubRot(p.sb, w) && ks.sub(w) == Sub(p.sb, w))
    && (forall i: nat {:trigger At(i)} :: At(i) ==> ks.rcon(i) == Rcon(p.r, i))
  }

  method SubRotOf(t: Tables, ghost p: Params, ghost ks: KeySteps, w: word) returns (r: word)
    requires t.SboxesHold(p) && Fits(ks, p)
    ensures r == ks.subRot(w)
  {
    assert t.SboxAt(p, B0(w)) && t.SboxAt(p, B1(w)) && t.SboxAt(p, B2(w)) && t.SboxAt(p, B3(w));
    assert Use1(w);
    r := Word(t.fsb[B1(w) as int], t.fsb[B2(w) as int], t.fsb[B3(w) as int], t.fsb[B0(w) as int]);
  }

  method SubOf(t: Tables, ghost p: Params, ghost ks: KeySteps, w: word) returns (r: word)
    requires t.SboxesHold(p) && Fits(ks, p)
    ensures r == ks.sub(w)
  {
    assert t.SboxAt(p, B0(w)) && t.SboxAt(p, B1(w)) && t.SboxAt(p, B2(w)) && t.SboxAt(p, B3(w));
    assert Use1(w);
    r := Word(t.fsb[B0(w) as int], t.fsb[B1(w) as int], t.fsb[B2(w) as int], t.fsb[B3(w) as int]);
  }

  ghost function Schedule(ks: KeySteps, kw: seq<word>): nat -> word
    requires |kw| > 0
  {
    (i: nat) => ExpandedWord(ks, kw, i)
  }

  lemma ScheduleSteps(ks: KeySteps, kw: seq<word>)
    requires |kw| > 0
    ensures Steps(ks, Schedule(ks, kw), |kw|)
  {}

  method XorWords(ghost p: Params, ghost ks: KeySteps, a: word, b: word) returns (r: word)
    requires Fits(ks, p)
    ensures r == ks.add(a, b)
  {
    assert Use2(a, b);
    r := a ^ b;
  }

  method RconOf(t: Tables, ghost p: Params, ghost ks: KeySteps, i: nat) returns (r: word)
    requires t.SboxesHold(p) && Fits(ks, p) && i < 10
    ensures r == ks.rcon(i)
  {
    assert At(i);
    r := t.rcon[i];
  }

  /** RK[o] = RK[o - nk] ^ RCON[g - 1] ^ the rotated and substituted RK[o - 1]. */
  method PutFirst(t: Tables, ghost p: Params, ghost ks: KeySteps, ghost w: nat -> word, rk: array<word>, nk: nat,
                  g: nat, o: nat)
    requires t.SboxesHold(p) && Fits(ks, p) && rk !in t.Words()
    requires 0 < nk <= o < rk.Length && 0 < g <= 10 && Agrees(w, rk, o) && FirstStep(ks, w, nk, g, o)
    modifies rk
    ensures Agrees(w, rk, o + 1)
  {
    var s := SubRotOf(t, p, ks, rk[o - 1]);
    var rc := RconOf(t, p, ks, g - 1);
    var e := XorWords(p, ks, rk[o - nk], rc);
    var x := XorWords(p, ks, e, s);
    rk[o] := x;
  }

  /** RK[i] = RK[i - nk] ^ RK[i - 1]. */
  method PutXor(ghost p: Params, ghost ks: KeySteps, ghost w: nat -> word, rk: array<word>, nk: nat, i: nat)
    requires Fits(ks, p)
    requires 0 < nk <= i < rk.Length && Agrees(w, rk, i) && XorStep(ks, w, nk, i)
    modifies rk
    ensures Agrees(w, rk, i + 1)
  {
    var x := XorWords(p, ks, rk[i - nk], rk[i - 1]);
    rk[i] := x;
  }

  /** RK[i] = RK[i - nk] ^ the substituted RK[i - 1]; only 256-bit keys do this. */
  method PutSub(t: Tables, ghost p: Params, ghost ks: KeySteps, ghost w: nat -> word, rk: array<word>, nk: nat, i: nat)
    requires t.SboxesHold(p) && Fits(ks, p) && rk !in t.Words()
    requires 0 < nk <= i < rk.Length && Agrees(w, rk, i) && SubStep(ks, w, nk, i)
    modifies rk
    ensures Agrees(w, rk, i + 1)
  {
    var s := SubOf(t, p, ks, rk[i - 1]);
    var x := XorWords(p, ks, rk[i - nk], s);
    rk[i] := x;
  }

  lemma FirstAt(ks: KeySteps, w: nat -> word, nk: nat, g: nat)
    requires nk in {4, 6, 8} && Steps(ks, w, nk) && g > 0
    ensures nk <= nk * g && FirstStep(ks, w, nk, g, nk * g)
  {
    Remainders(nk, g, nk * g, 0);
    assert At(nk * g);
  }

  lemma XorAt(ks: KeySteps, w: nat -> word, nk: nat, g: nat, o: nat, j: nat)
    requires nk in {4, 6, 8} && Steps(ks, w, nk) && g > 0 && o == nk * g && 0 < j < nk
    requires nk == 8 ==> j != 4
    ensures nk <= o + j && XorStep(ks, w, nk, o + j)
  {
    Remainders(nk, g, o, j);
    assert At(o + j);
  }

  lemma FirstFour(ks: KeySteps, w: nat -> word, nk: nat, g: nat, o: nat)
    requires nk in {4, 6, 8} && Steps(ks, w, nk) && g > 0 && o == nk * g
    ensures nk <= o && FirstStep(ks, w, nk, g, o) && XorStep(ks, w, nk, o + 1)
    ensures XorStep(ks, w, nk, o + 2) && XorStep(ks, w, nk, o + 3)
  {
    FirstAt(ks, w, nk, g);
    XorAt(ks, w, nk, g, o, 1); XorAt(ks, w, nk, g, o, 2); XorAt(ks, w, nk, g, o, 3);
  }

  lemma Remainders(nk: nat, g: nat, o: nat, j: nat)
    requires nk in {4, 6, 8} && g > 0 && o == nk * g && j < nk
    ensures nk <= o && (o + j) % nk == j && (o + j) / nk == g
  {
    if nk == 4 {} else if nk == 6 {} else {}
  }

  lemma LastTwo(ks: KeySteps, w: nat -> word, g: nat)
    requires Steps(ks, w, 6) && g > 0
    ensures XorStep(ks, w, 6, 6 * g + 4) && XorStep(ks, w, 6, 6 * g + 5)
  {
    assert At(6 * g + 4) && At(6 * g + 5);
  }

  lemma LastFour(ks: KeySteps, w: nat -> word, g: nat)
    requires Steps(ks, w, 8) && g > 0
    ensures SubStep(ks, w, 8, 8 * g + 4) && XorStep(ks, w, 8, 8 * g + 5)
    ensures XorStep(ks, w, 8, 8 * g + 6) && XorStep(ks, w, 8, 8 * g + 7)
  {
    assert At(8 * g + 4) && At(8 * g + 5) && At(8 * g + 6) && At(8 * g + 7);
  }

  method PutThree(ghost p: Params, ghost ks: KeySteps, ghost w: nat -> word, rk: array<word>, nk: nat, i: nat)
    requires Fits(ks, p)
    requires 0 < nk <= i && i + 3 <= rk.Length && Agrees(w, rk, i)
    requires XorStep(ks, w, nk, i) && XorStep(ks, w, nk, i + 1) && XorStep(ks, w, nk, i + 2)
    modifies rk
    ensures Agrees(w, rk, i + 3)
  {
    PutXor(p, ks, w, rk, nk, i);
    PutXor(p, ks, w, rk, nk, i + 1);
    PutXor(p, ks, w, rk, nk, i + 2);
  }

  /** RK[nk] to RK[nk + 3], alike for every key size. */
  method PutFour(t: Tables, ghost p: Params, ghost ks: KeySteps, ghost w: nat -> word, rk: array<word>, nk: nat, g: nat,
                 o: nat)
    requires t.SboxesHold(p) && Fits(ks, p) && rk !in t.Words()
    requires nk in {4, 6, 8} && 0 < g <= 10 && o == nk * g && o + 4 <= rk.Length
    requires Agrees(w, rk, o) && Steps(ks, w, nk)
    modifies rk
    ensures Agrees(w, rk, o + 4)
  {
    FirstFour(ks, w, nk, g, o);
    PutFirst(t, p, ks, w, rk, nk, g, o);
    PutThree(p, ks, w, rk, nk, o + 1);
  }

  method PutLastTwo(ghost p: Params, ghost ks: KeySteps, ghost w: nat -> word, rk: array<word>, g: nat)
    requires Fits(ks, p)
    requires 0 < g && 6 * g + 6 <= rk.Length && Agrees(w, rk, 6 * g + 4) && Steps(ks, w, 6)
    modifies rk
    ensures Agrees(w, rk, 6 * g + 6)
  {
    LastTwo(ks, w, g);
    PutXor(p, ks, w, rk, 6, 6 * g + 4);
    PutXor(p, ks, w, rk, 6, 6 * g + 5);
  }

  method PutLastFour(t: Tables, ghost p: Params, ghost ks: KeySteps, ghost w: nat -> word, rk: array<word>, g: nat)
    requires t.SboxesHold(p) && Fits(ks, p) && rk !in t.Words()
    requires 0 < g && 8 * g + 8 <= rk.Length && Agrees(w, rk, 8 * g + 4) && Steps(ks, w, 8)
    modifies rk
    ensures Agrees(w, rk, 8 * g + 8)
  {
    LastFour(ks, w, g);
    PutSub(t, p, ks, w, rk, 8, 8 * g + 4);
    PutThree(p, ks, w, rk, 8, 8 * g + 5);
  }

  // The three loops of the switch over the number of rounds.
  method Expand128(t: Tables, ghost p: Params, ghost ks: KeySteps, ghost w: nat -> word, rk: array<word>)
    requires t.SboxesHold(p) && Fits(ks, p) && rk !in t.Words() && rk.Length == 68
    requires Steps(ks, w, 4) && Agrees(w, rk, 4)
    modifies rk
    ensures Agrees(w, rk, 44)
  {
    for i := 0 to 10
      invariant Agrees(w, rk, 4 * i + 4)
    {
      PutFour(t, p, ks, w, rk, 4, i + 1, 4 * i + 4);
    }
  }

  method Expand192(t: Tables, ghost p: Params, ghost ks: KeySteps, ghost w: nat -> word, rk: array<word>)
    requires t.SboxesHold(p) && Fits(ks, p) && rk !in t.Words() && rk.Length == 68
    requires Steps(ks, w, 6) && Agrees(w, rk, 6)
    modifies rk
    ensures Agrees(w, rk, 54)
  {
    for i := 0 to 8
      invariant Agrees(w, rk, 6 * i + 6)
    {
      PutFour(t, p, ks, w, rk, 6, i + 1, 6 * i + 6);
      PutLastTwo(p, ks, w, rk, i + 1);
    }
  }

  method Expand256(t: Tables, ghost p: Params, ghost ks: KeySteps, ghost w: nat -> word, rk: array<word>)
    requires t.SboxesHold(p) && Fits(ks, p) && rk !in t.Words() && rk.Length == 68
    requires Steps(ks, w, 8) && Agrees(w, rk, 8)
    modifies rk
    ensures Agrees(w, rk, 64)
  {
    for i := 0 to 7
      invariant Agrees(w, rk, 8 * i + 8)
    {
      PutFour(t, p, ks, w, rk, 8, i + 1, 8 * i + 8);
      PutLastFour(t, p, ks, w, rk, i + 1);
    }
  }

  lemma KeyStepsFit(p: Params)
    ensures Fits(KeyStepsOf(p), p)
  {}

  /** The key schedule of a usable key size. */
  ghost function KeySchedule(p: Params, key: seq<byte>): nat -> word
    requires |key| in {16, 24, 32}
  {
    Schedule(KeyStepsOf(p), KeyWords(key))
  }

  // GET_UINT32_LE over an array.
  method LoadWord(b: array<byte>, i: nat) returns (w: word)
    requires i + 4 <= b.Length
    ensures w == LoadLE(b[..], i)
  {
    w := Word(b[i], b[i + 1], b[i + 2], b[i + 3]);
  }

  // The first words of the schedule are those of the key.
  ghost predicate Starts(w: nat -> word, nk: nat, key: seq<byte>) {
    4 * nk <= |key| && forall i: nat {:trigger At(i)} :: At(i) && i < nk ==> w(i) == LoadLE(key, 4 * i)
  }

  // for (i = 0; i < keybits >> 5; i++) GET_UINT32_LE(RK[i], key, i << 2)
  method LoadKey(ghost w: nat -> word, rk: array<word>, nk: nat, key: array<byte>)
    requires nk <= rk.Length && Starts(w, nk, key[..])
    modifies rk
    ensures Agrees(w, rk, nk)
  {
    for i := 0 to nk
      invariant Agrees(w, rk, i)
    {
      assert At(i);
      var x := LoadWord(key, 4 * i);
      rk[i] := x;
    }
  }

  method ExpandAll(t: Tables, ghost p: Params, ghost ks: KeySteps, ghost w: nat -> word, rk: array<word>, nr: nat,
                   nk: nat)
    requires t.SboxesHold(p) && Fits(ks, p) && rk !in t.Words() && rk.Length == 68
    requires nr in {10, 12, 14} && nk == nr - 6 && Steps(ks, w, nk) && Agrees(w, rk, nk)
    modifies rk
    ensures Agrees(w, rk, 4 * (nr + 1))
  {
    if nr == 10 {
      Expand128(t, p, ks, w, rk);
    } else if nr == 12 {
      Expand192(t, p, ks, w, rk);
    } else {
      Expand256(t, p, ks, w, rk);
    }
  }

  lemma KeyScheduleStart(p: Params, key: seq<byte>)
    requires |key| in {16, 24, 32}
    ensures Starts(KeySchedule(p, key), |key| / 4, key)
  {}

  lemma KeyScheduleSteps(p: Params, key: seq<byte>)
    requires |key| in {16, 24, 32}
    ensures Steps(KeyStepsOf(p), KeySchedule(p, key), |key| / 4)
  {
    ScheduleSteps(KeyStepsOf(p), KeyWords(key));
  }

  method Setkey(t: Tables, ghost p: Params, ghost ks: KeySteps, ghost w: nat -> word, ctx: Context, key: array<byte>,
                keybits: nat)
    returns (ret: int)
    requires t.SboxesHold(p) && Fits(ks, p) && ctx.buf !in t.Words() && ctx.buf.Length == 68
    requires keybits in {128, 192, 256} ==> key.Length == keybits / 8 && Steps(ks, w, keybits / 32)
    requires keybits in {128, 192, 256} ==> Starts(w, keybits / 32, key[..])
    modifies ctx, ctx.buf
    ensures keybits !in {128, 192, 256} ==> ret == INVALID_KEY_LENGTH && ctx.nr == old(ctx.nr)
    ensures keybits in {128, 192, 256} ==> ret == 0 && ctx.nr == keybits / 32 + 6
    ensures keybits in {128, 192, 256} ==> Agrees(w, ctx.buf, 4 * (ctx.nr + 1))
  {
    if keybits == 128 {
      ctx.nr := 10;
    } else if keybits == 192 {
      ctx.nr := 12;
    } else if keybits == 256 {
      ctx.nr := 14;
    } else {
      return INVALID_KEY_LENGTH;
    }
    var nk := keybits / 32;
    LoadKey(w, ctx.buf, nk, key);
    ExpandAll(t, p, ks, w, ctx.buf, ctx.nr, nk);
    ret := 0;
  }

  /** utils_aes_setkey_enc: the buffer holds the expanded key of FIPS 197, or the key size is refused. */
  method SetkeyEnc(t: Tables, ghost p: Params, ctx: Context, key: array<byte>, keybits: nat) returns (ret: int)
    requires t.SboxesHold(p) && ctx.buf !in t.Words() && ctx.buf.Length == 68
    requires keybits in {128, 192, 256} ==> key.Length == keybits / 8
    modifies ctx, ctx.buf
    ensures keybits !in {128, 192, 256} ==> ret == INVALID_KEY_LENGTH && ctx.nr == old(ctx.nr)
    ensures keybits in {128, 192, 256} ==> ret == 0 && ctx.nr == keybits / 32 + 6
    ensures keybits in {128, 192, 256} ==> Agrees(KeySchedule(p, key[..]), ctx.buf, 4 * (ctx.nr + 1))
  {
    KeyStepsFit(p);
    if keybits in {128, 192, 256} {
      ghost var nk := keybits / 32;
      ghost var w := KeySchedule(p, key[..]);
      assert |key[..]| / 4 == nk;
      KeyScheduleStart(p, key[..]);
      KeyScheduleSteps(p, key[..]);
      assert Starts(w, nk, key[..]) && Steps(KeyStepsOf(p), w, nk);
      ret := Setkey(t, p, KeyStepsOf(p), w, ctx, key, keybits);
    } else {
      ret := Setkey(t, p, KeyStepsOf(p), (i: nat) => 0, ctx, key, keybits);
    }
  }
}
