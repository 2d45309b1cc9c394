/** FIPS 197 on bytes, as its sections 4 and 5 write it, and the proof that the words and tables of
    utils_aes.c compute it.  Nothing in the definitions here is shared with the model of the code. */
module AesFips {
  import opened AesField
  import opened AesSpec
  import opened AesState
  import opened AesKeys
  import opened AesBlock
  import opened AesGen
  import opened AesCrypt
  import Cbc
  import opened AesAlgebra
  import AesRounds
  import Orbit

  type State = s: seq<byte> | |s| == 16 witness seq(16, _ => 0)

  // ---------- the standard ----------

  /** Section 4.2.1: multiplication by x. */
  function Doubled(b: byte): byte { if b & 0x80 == 0 then b << 1 else (b << 1) ^ 0x1B }

  function Tripled(b: byte): byte { Xor(Doubled(b), b) }

  /** Section 5.1.1; sb is the S-box. */
  function SubBytes(sb: byte -> byte, s: State): State { seq(16, i requires 0 <= i < 16 => sb(s[i])) }

  /** Section 5.1.2: byte r + 4c of the state is in row r and column c, and row r moves r columns to
      the left. */
  function ShiftRows(s: State): State {
    [s[0], s[5], s[10], s[15], s[4], s[9], s[14], s[3], s[8], s[13], s[2], s[7], s[12], s[1], s[6], s[11]]
  }

  lemma RowsShifted(s: State, r: nat, c: nat)
    requires r < 4 && c < 4
    ensures ShiftRows(s)[r + 4 * c] == s[r + 4 * ((c + r) % 4)]
  {}

  function Sum(a: byte, b: byte, c: byte, d: byte): byte { a ^ b ^ c ^ d }

  /** Section 5.1.3: a column times the matrix of that section. */
  function MixColumn(a: byte, b: byte, c: byte, d: byte): (m: seq<byte>)
    ensures |m| == 4
  {
    [Sum(Doubled(a), Tripled(b), c, d), Sum(a, Doubled(b), Tripled(c), d),
     Sum(a, b, Doubled(c), Tripled(d)), Sum(Tripled(a), b, c, Doubled(d))]
  }

  function MixColumns(s: State): State {
    MixColumn(s[0], s[1], s[2], s[3]) + MixColumn(s[4], s[5], s[6], s[7])
    + MixColumn(s[8], s[9], s[10], s[11]) + MixColumn(s[12], s[13], s[14], s[15])
  }

  function XorAll(a: seq<byte>, b: seq<byte>): (r: seq<byte>)
    requires |a| == |b|
    ensures |r| == |a|
  {
    seq(|a|, i requires 0 <= i < |a| => Xor(a[i], b[i]))
  }

  /** Section 5.1.4. */
  function AddRoundKey(s: State, k: State): State { XorAll(s, k) }

  /** Section 5.2: the first byte of round constant j, counted from one. */
  function RoundConstant(j: nat): byte { if j <= 1 then 1 else Doubled(RoundConstant(j - 1)) }

  /** Section 5.2: word i of the expanded key, for a key of nk words. */
  function KeyWord(sb: byte -> byte, key: seq<byte>, i: nat): (w: seq<byte>)
    requires |key| in {16, 24, 32}
    ensures |w| == 4
  {
    var nk := |key| / 4;
    if i < nk then key[4 * i..4 * i + 4]
    else
      var t := KeyWord(sb, key, i - 1);
      XorAll(KeyWord(sb, key, i - nk),
        if i % nk == 0 then [Xor(sb(t[1]), RoundConstant(i / nk)), sb(t[2]), sb(t[3]), sb(t[0])]
        else if nk == 8 && i % 8 == 4 then [sb(t[0]), sb(t[1]), sb(t[2]), sb(t[3])]
        else t)
  }

  function RoundKeyOf(sb: byte -> byte, key: seq<byte>, j: nat): State
    requires |key| in {16, 24, 32}
  {
    KeyWord(sb, key, 4 * j) + KeyWord(sb, key, 4 * j + 1) + KeyWord(sb, key, 4 * j + 2) + KeyWord(sb, key, 4 * j + 3)
  }

  /** Section 5.1: the state after n full rounds. */
  function Rounds(sb: byte -> byte, key: seq<byte>, n: nat, s: State): State
    requires |key| in {16, 24, 32}
  {
    if n == 0 then AddRoundKey(s, RoundKeyOf(sb, key, 0))
    else AddRoundKey(MixColumns(ShiftRows(SubBytes(sb, Rounds(sb, key, n - 1, s)))), RoundKeyOf(sb, key, n))
  }

  /** Section 5.1: 10, 12 or 14 rounds, the last without MixColumns. */
  function Cipher(sb: byte -> byte, key: seq<byte>, s: State): State
    requires |key| in {16, 24, 32}
  {
    var nr := |key| / 4 + 6;
    AddRoundKey(ShiftRows(SubBytes(sb, Rounds(sb, key, nr - 1, s))), RoundKeyOf(sb, key, nr))
  }

  // ---------- bytes and constants ----------

  lemma DoubledIs(b: byte)
    ensures Doubled(b) == XTime(b)
  {}

  /** The ten round constants of the standard. */
  lemma RoundConstants()
    ensures RoundConstant(1) == 0x01 && RoundConstant(2) == 0x02 && RoundConstant(3) == 0x04 && RoundConstant(4) == 0x08
    ensures RoundConstant(5) == 0x10 && RoundConstant(6) == 0x20 && RoundConstant(7) == 0x40 && RoundConstant(8) == 0x80
    ensures RoundConstant(9) == 0x1B && RoundConstant(10) == 0x36
  {}

  function BitOf(b: byte, i: nat): byte
    requires i < 8
  {
    (b >> i) & 1
  }

  /** Section 5.1.1: bit i of the S-box at x is that of the inverse of x, plus its bits i + 4 to i + 7
      modulo 8, plus that of 0x63. */
  lemma SboxBits(x: byte, i: nat)
    requires i < 8
    ensures var b := Inv(x);
      BitOf(FSb(x), i) == BitOf(b, i) ^ BitOf(b, (i + 4) % 8) ^ BitOf(b, (i + 5) % 8) ^ BitOf(b, (i + 6) % 8)
                          ^ BitOf(b, (i + 7) % 8) ^ BitOf(0x63, i)
  {
    AffineBits(Inv(x), i);
  }

  lemma AffineBits(b: byte, i: nat)
    requires i < 8
    ensures BitOf(Affine(b), i) == BitOf(b, i) ^ BitOf(b, (i + 4) % 8) ^ BitOf(b, (i + 5) % 8) ^ BitOf(b, (i + 6) % 8)
                                   ^ BitOf(b, (i + 7) % 8) ^ BitOf(0x63, i)
  {
    if i == 0 {} else if i == 1 {} else if i == 2 {} else if i == 3 {}
    else if i == 4 {} else if i == 5 {} else if i == 6 {} else {}
  }

  // ---------- the key schedule ----------

  lemma XorByte0(a: word, b: word) ensures B0(Plus(a, b)) == Xor(B0(a), B0(b)) {}
  lemma XorByte1(a: word, b: word) ensures B1(Plus(a, b)) == Xor(B1(a), B1(b)) {}
  lemma XorByte2(a: word, b: word) ensures B2(Plus(a, b)) == Xor(B2(a), B2(b)) {}
  lemma XorByte3(a: word, b: word) ensures B3(Plus(a, b)) == Xor(B3(a), B3(b)) {}

  function Wide(b: byte): word { b as word }

  lemma LowByte(b: byte)
    ensures B0(Wide(b)) == b && B1(Wide(b)) == 0 && B2(Wide(b)) == 0 && B3(Wide(b)) == 0
  {}

  lemma XorZero(b: byte)
    ensures Xor(b, 0) == b
  {}

  lemma XorSwap(a: byte, b: byte, c: byte)
    ensures Xor(Xor(a, b), c) == Xor(a, Xor(c, b))
  {}

  lemma {:induction false} ConstantsAgree(j: nat)
    ensures Orbit.Iter(F8.dbl, 1, j) == RoundConstant(j + 1)
  {
    if j > 0 {
      ConstantsAgree(j - 1);
      DoubledIs(RoundConstant(j));
    }
  }

  lemma XorFourBytes(a: seq<byte>, b: seq<byte>)
    requires |a| == |b| == 4
    ensures XorAll(a, b) == [Xor(a[0], b[0]), Xor(a[1], b[1]), Xor(a[2], b[2]), Xor(a[3], b[3])]
  {
    hide Xor;
  }

  function Plus(a: word, b: word): word { a ^ b }

  lemma StoreXor(a: word, b: word)
    ensures StoreLE(Plus(a, b)) == XorAll(StoreLE(a), StoreLE(b))
  {
    hide B0, B1, B2, B3, Xor, Plus;
    XorByte0(a, b); XorByte1(a, b); XorByte2(a, b); XorByte3(a, b);
    XorFourBytes(StoreLE(a), StoreLE(b));
  }

  lemma StoreSub(f: byte -> byte, w: word)
    ensures var t := StoreLE(w); StoreLE(Sub(f, w)) == [f(t[0]), f(t[1]), f(t[2]), f(t[3])]
  {
    hide B0, B1, B2, B3, Word;
    WordBytes(f(B0(w)), f(B1(w)), f(B2(w)), f(B3(w)));
  }

  lemma StoreSubRot(f: byte -> byte, w: word)
    ensures var t := StoreLE(w); StoreLE(SubRot(f, w)) == [f(t[1]), f(t[2]), f(t[3]), f(t[0])]
  {
    hide B0, B1, B2, B3, Word;
    WordBytes(f(B1(w)), f(B2(w)), f(B3(w)), f(B0(w)));
  }

  // The first of nk words: the word nk before it, the round constant, and the rotated bytes.
  lemma StoreFirst(sb: byte -> byte, a: word, rc: byte, t: word)
    ensures var u := StoreLE(t);
      && StoreLE(Plus(Plus(a, Wide(rc)), SubRot(sb, t)))
      == XorAll(StoreLE(a), [Xor(sb(u[1]), rc), sb(u[2]), sb(u[3]), sb(u[0])])
  {
    hide B0, B1, B2, B3, SubRot, Plus, Xor, Wide;
    var u := StoreLE(t);
    StoreXor(Plus(a, Wide(rc)), SubRot(sb, t));
    StoreXor(a, Wide(rc));
    StoreSubRot(sb, t);
    LowByte(rc);
    XorSwap(B0(a), rc, sb(u[1]));
    XorZero(B1(a)); XorZero(B2(a)); XorZero(B3(a));
    XorFourBytes(StoreLE(a), StoreLE(Wide(rc)));
    XorFourBytes(XorAll(StoreLE(a), StoreLE(Wide(rc))), StoreLE(SubRot(sb, t)));
    XorFourBytes(StoreLE(a), [Xor(sb(u[1]), rc), sb(u[2]), sb(u[3]), sb(u[0])]);
  }

  lemma StepsNamed(p: Params, a: word, b: word, j: nat)
    ensures KeyStepsOf(p).add(a, b) == Plus(a, b) && KeyStepsOf(p).rcon(j) == Wide(Orbit.Iter(p.r.dbl, 1, j))
    ensures KeyStepsOf(p).subRot(a) == SubRot(p.sb, a) && KeyStepsOf(p).sub(a) == Sub(p.sb, a)
  {
    hide SubRot, Sub;
  }

  // How a word of the schedule comes from earlier ones, with the sums named.
  lemma ScheduleAt(p: Params, key: seq<byte>, i: nat)
    requires |key| in {16, 24, 32} && p.r == F8
    ensures var w, nk := KeySchedule(p, key), |key| / 4;
      if i < nk then 4 * i + 4 <= |key| && w(i) == LoadLE(key, 4 * i)
      else if i % nk == 0 then
        i / nk > 0 && w(i) == Plus(Plus(w(i - nk), Wide(Orbit.Iter(F8.dbl, 1, i / nk - 1))), SubRot(p.sb, w(i - 1)))
      else if nk > 6 && i % nk == 4 then w(i) == Plus(w(i - nk), Sub(p.sb, w(i - 1)))
      else w(i) == Plus(w(i - nk), w(i - 1))
  {
    hide SubRot, Sub, LoadLE, KeySchedule, KeyStepsOf, Plus, Wide, Orbit.Iter;
    KeyScheduleStart(p, key);
    KeyScheduleSteps(p, key);
    assert At(i);
    var w, nk := KeySchedule(p, key), |key| / 4;
    if i >= nk {
      var a, t := w(i - nk), w(i - 1);
      if i % nk == 0 {
        StepsNamed(p, a, Wide(Orbit.Iter(F8.dbl, 1, i / nk - 1)), i / nk - 1);
        StepsNamed(p, t, t, 0);
        StepsNamed(p, Plus(a, Wide(Orbit.Iter(F8.dbl, 1, i / nk - 1))), SubRot(p.sb, t), 0);
      } else {
        StepsNamed(p, a, t, 0);
        StepsNamed(p, t, t, 0);
        StepsNamed(p, a, Sub(p.sb, t), 0);
      }
    }
  }

  /** Word i of the schedule in utils_aes.c from earlier ones, byte by byte, where u and t are word
      i - 1 and word i - nk: at a multiple of nk the bytes of u move one place, pass through the S-box
      and meet the round constant; halfway between two multiples of eight they only pass through the
      S-box; elsewhere the words are added. */
  lemma KeyStep(p: Params, key: seq<byte>, i: nat)
    requires |key| in {16, 24, 32} && p.r == F8 && i >= |key| / 4
    ensures var w, nk := KeySchedule(p, key), |key| / 4;
      var t, u := StoreLE(w(i - nk)), StoreLE(w(i - 1));
      StoreLE(w(i)) == XorAll(t,
        if i % nk == 0 then [Xor(p.sb(u[1]), RoundConstant(i / nk)), p.sb(u[2]), p.sb(u[3]), p.sb(u[0])]
        else if nk == 8 && i % 8 == 4 then [p.sb(u[0]), p.sb(u[1]), p.sb(u[2]), p.sb(u[3])]
        else u)
  {
    hide Plus, Wide, Xor, XorAll, SubRot, Sub, B0, B1, B2, B3, LoadLE, KeySchedule, RoundConstant, Orbit.Iter;
    var w, nk := KeySchedule(p, key), |key| / 4;
    ScheduleAt(p, key, i);
    if i % nk == 0 {
      ConstantsAgree(i / nk - 1);
      StoreFirst(p.sb, w(i - nk), RoundConstant(i / nk), w(i - 1));
    } else if nk > 6 && i % nk == 4 {
      StoreXor(w(i - nk), Sub(p.sb, w(i - 1)));
      StoreSub(p.sb, w(i - 1));
    } else {
      StoreXor(w(i - nk), w(i - 1));
    }
  }

  /** So the words of the expanded key are those of the standard. */
  lemma {:induction false} KeyExpansion(p: Params, key: seq<byte>, i: nat)
    requires |key| in {16, 24, 32} && p.r == F8
    ensures StoreLE(KeySchedule(p, key)(i)) == KeyWord(p.sb, key, i)
    decreases i
  {
    hide Xor, XorAll, B0, B1, B2, B3, LoadLE, KeySchedule, RoundConstant;
    var nk := |key| / 4;
    if i < nk {
      FirstWords(p, key, i);
    } else {
      KeyExpansion(p, key, i - 1);
      KeyExpansion(p, key, i - nk);
      KeyStep(p, key, i);
    }
  }

  lemma FirstWords(p: Params, key: seq<byte>, i: nat)
    requires |key| in {16, 24, 32} && i < |key| / 4
    ensures StoreLE(KeySchedule(p, key)(i)) == key[4 * i..4 * i + 4]
  {
    hide B0, B1, B2, B3, LoadLE, KeySchedule, StoreLE;
    KeyScheduleStart(p, key);
    assert At(i);
    StoreLoadWord(key, 4 * i);
  }

  lemma RoundKeyIs(p: Params, key: seq<byte>, j: nat)
    requires |key| in {16, 24, 32} && p.r == F8 && j < |EncKeys(p, key)|
    ensures StoreBlock(EncKeys(p, key)[j]) == RoundKeyOf(p.sb, key, j)
  {
    hide KeyWord, StoreLE;
    KeyExpansion(p, key, 4 * j); KeyExpansion(p, key, 4 * j + 1);
    KeyExpansion(p, key, 4 * j + 2); KeyExpansion(p, key, 4 * j + 3);
  }

  // ---------- the rounds ----------

  lemma Joined(a: seq<byte>, b: seq<byte>, c: seq<byte>, d: seq<byte>)
    requires |a| == |b| == |c| == |d| == 4
    ensures a + b + c + d == [a[0], a[1], a[2], a[3], b[0], b[1], b[2], b[3],
                              c[0], c[1], c[2], c[3], d[0], d[1], d[2], d[3]]
  {}

  lemma StoreBytes(s: Block)
    ensures StoreBlock(s) == [B0(s.w0), B1(s.w0), B2(s.w0), B3(s.w0), B0(s.w1), B1(s.w1), B2(s.w1), B3(s.w1),
                              B0(s.w2), B1(s.w2), B2(s.w2), B3(s.w2), B0(s.w3), B1(s.w3), B2(s.w3), B3(s.w3)]
  {
    hide B0, B1, B2, B3;
    Joined(StoreLE(s.w0), StoreLE(s.w1), StoreLE(s.w2), StoreLE(s.w3));
  }

  lemma StoreWord(a: byte, b: byte, c: byte, d: byte)
    ensures StoreLE(Word(a, b, c, d)) == [a, b, c, d]
  {
    hide B0, B1, B2, B3, Word;
    WordBytes(a, b, c, d);
  }

  lemma SubShiftIs(sb: byte -> byte, s: Block)
    ensures StoreBlock(SubShift(sb, s)) == ShiftRows(SubBytes(sb, StoreBlock(s)))
  {
    hide B0, B1, B2, B3, Word, StoreLE;
    StoreBytes(s);
    StoreWord(sb(B0(s.w0)), sb(B1(s.w1)), sb(B2(s.w2)), sb(B3(s.w3)));
    StoreWord(sb(B0(s.w1)), sb(B1(s.w2)), sb(B2(s.w3)), sb(B3(s.w0)));
    StoreWord(sb(B0(s.w2)), sb(B1(s.w3)), sb(B2(s.w0)), sb(B3(s.w1)));
    StoreWord(sb(B0(s.w3)), sb(B1(s.w0)), sb(B2(s.w1)), sb(B3(s.w2)));
    var t := SubShift(sb, s);
    Joined(StoreLE(t.w0), StoreLE(t.w1), StoreLE(t.w2), StoreLE(t.w3));
  }

  lemma TimesTwoThree(x: byte)
    ensures Times(F8, 1, x) == x && Times(F8, 2, x) == Doubled(x)
    ensures Times(F8, 3, x) == Tripled(x)
  {
    MulIsTimes(1, x); MulIsTimes(2, x); MulIsTimes(3, x);
    MulOneAndThree(x); MulTwo(x); DoubledIs(x);
    assert Mul3(x) == Xor(XTime(x), x);
  }

  lemma XorFour(a: byte, b: byte, c: byte, d: byte)
    ensures Xor(Xor(a, b), Xor(c, d)) == Sum(a, b, c, d)
  {}

  lemma MixWordIs(w: word)
    ensures StoreLE(MixWord(F8, w)) == MixColumn(B0(w), B1(w), B2(w), B3(w))
  {
    hide B0, B1, B2, B3, Word, Doubled, Tripled, Times, Xor, Sum;
    var a, b, c, d := B0(w), B1(w), B2(w), B3(w);
    TimesTwoThree(a); TimesTwoThree(b); TimesTwoThree(c); TimesTwoThree(d);
    XorFour(Doubled(a), Tripled(b), c, d); XorFour(a, Doubled(b), Tripled(c), d);
    XorFour(a, b, Doubled(c), Tripled(d)); XorFour(Tripled(a), b, c, Doubled(d));
    var m := Mix(F8, Bytes(w));
    StoreWord(m.a, m.b, m.c, m.d);
  }

  lemma MixBlockIs(s: Block)
    ensures StoreBlock(MixBlock(F8, s)) == MixColumns(StoreBlock(s))
  {
    hide B0, B1, B2, B3, StoreLE, MixWord, MixColumn;
    StoreBytes(s);
    MixWordIs(s.w0); MixWordIs(s.w1); MixWordIs(s.w2); MixWordIs(s.w3);
  }

  lemma AddWordIs(w: word, k: word)
    ensures StoreLE(AddWord(F8, w, k)) == XorAll(StoreLE(w), StoreLE(k))
  {
    hide B0, B1, B2, B3, Word, Xor;
    StoreWord(Xor(B0(w), B0(k)), Xor(B1(w), B1(k)), Xor(B2(w), B2(k)), Xor(B3(w), B3(k)));
    XorFourBytes(StoreLE(w), StoreLE(k));
  }

  lemma XorJoined(a: seq<byte>, b: seq<byte>, x: seq<byte>, y: seq<byte>)
    requires |a| == |x| && |b| == |y|
    ensures XorAll(a + b, x + y) == XorAll(a, x) + XorAll(b, y)
  {
    hide Xor;
  }

  lemma AddBlockIs(s: Block, k: Block)
    ensures StoreBlock(AddBlock(F8, s, k)) == AddRoundKey(StoreBlock(s), StoreBlock(k))
  {
    hide B0, B1, B2, B3, AddWord, Xor, XorAll;
    AddWordIs(s.w0, k.w0); AddWordIs(s.w1, k.w1); AddWordIs(s.w2, k.w2); AddWordIs(s.w3, k.w3);
    var a, b, c, d := StoreLE(s.w0), StoreLE(s.w1), StoreLE(s.w2), StoreLE(s.w3);
    var x, y, z, u := StoreLE(k.w0), StoreLE(k.w1), StoreLE(k.w2), StoreLE(k.w3);
    XorJoined(a, b, x, y);
    XorJoined(a + b, c, x + y, z);
    XorJoined(a + b + c, d, x + y + z, u);
  }

  lemma RoundIs(c: AesRounds.Steps<Block>, p: Params, t: Block, k: Block)
    requires Matches(c, p) && p.r == F8
    ensures StoreBlock(c.add(c.mix(c.sub(t)), k))
         == AddRoundKey(MixColumns(ShiftRows(SubBytes(p.sb, StoreBlock(t)))), StoreBlock(k))
    ensures StoreBlock(c.add(c.sub(t), k)) == AddRoundKey(ShiftRows(SubBytes(p.sb, StoreBlock(t))), StoreBlock(k))
    ensures StoreBlock(c.add(t, k)) == AddRoundKey(StoreBlock(t), StoreBlock(k))
  {
    hide SubShift, MixBlock, AddBlock, StoreBlock, SubBytes, ShiftRows, MixColumns, AddRoundKey;
    var u := SubShift(p.sb, t);
    var v := MixBlock(p.r, u);
    assert Use1(t) && Use1(u) && Use2(v, k) && Use2(u, k) && Use2(t, k);
    SubShiftIs(p.sb, t);
    MixBlockIs(u);
    AddBlockIs(v, k); AddBlockIs(u, k); AddBlockIs(t, k);
  }

  lemma {:induction false} RoundsAre(c: AesRounds.Steps<Block>, p: Params, key: seq<byte>, n: nat, s: Block)
    requires Matches(c, p) && p.r == F8 && |key| in {16, 24, 32} && n < |EncKeys(p, key)|
    ensures StoreBlock(AesRounds.EncRounds(c, EncKeys(p, key), n, s)) == Rounds(p.sb, key, n, StoreBlock(s))
  {
    hide Matches, EncKeys, StoreBlock, SubBytes, ShiftRows, MixColumns, AddRoundKey, RoundKeyOf;
    var keys := EncKeys(p, key);
    RoundKeyIs(p, key, n);
    if n == 0 {
      RoundIs(c, p, s, keys[0]);
    } else {
      RoundsAre(c, p, key, n - 1, s);
      RoundIs(c, p, AesRounds.EncRounds(c, keys, n - 1, s), keys[n]);
    }
  }

  /** What utils_aes.c computes with the encryption schedule is the cipher of the standard, for every key
      of 128, 192 or 256 bits and every block. */
  lemma CipherIs(c: AesRounds.Steps<Block>, p: Params, key: seq<byte>, e: Cbc.Cipher, b: State)
    requires Matches(c, p) && p.r == F8 && |key| in {16, 24, 32} && Does(e, ENCRYPT, c, EncKeys(p, key)) == YES
    ensures e(b) == Cipher(p.sb, key, b)
  {
    hide Matches, EncKeys, StoreBlock, SubBytes, ShiftRows, AddRoundKey, RoundKeyOf, LoadBlock, Rounds;
    var keys, s := EncKeys(p, key), LoadBlock(b);
    var nr := |key| / 4 + 6;
    assert UseBytes(b) && |keys| == nr + 1;
    RoundsAre(c, p, key, nr - 1, s);
    StoreLoad(b);
    RoundKeyIs(p, key, nr);
    RoundIs(c, p, AesRounds.EncRounds(c, keys, nr - 1, s), keys[nr]);
  }

  /** And what it computes with the decryption schedule undoes the cipher of the standard. */
  lemma DecipherIs(c: AesRounds.Steps<Block>, p: Params, key: seq<byte>, e: Cbc.Cipher, d: Cbc.Cipher, b: State)
    requires AesRounds.Laws(c) && Matches(c, p) && p.r == F8 && |key| in {16, 24, 32}
    requires Does(e, ENCRYPT, c, EncKeys(p, key)) == YES && Does(d, DECRYPT, c, DecKeys(c, p, key)) == YES
    ensures d(Cipher(p.sb, key, b)) == b
  {
    hide Matches, EncKeys, DecKeys, Does, Cipher, AesRounds.Laws;
    CipherIs(c, p, key, e, b);
    AesRoundTrip(c, p, key, e, d);
    assert d(e(b)) == b;
  }
}
