/** What the eight round tables hold and why a table round is a round of FIPS 197. */
module AesTables {
  import opened AesField
  import opened AesAlgebra
  import opened AesState

  // Columns of the MixColumns matrix, one table per row a byte comes from.
  function FT0(r: Ring<byte>, s: byte): word { Word(Times(r, 2, s), s, s, Times(r, 3, s)) }
  function FT1(r: Ring<byte>, s: byte): word { Word(Times(r, 3, s), Times(r, 2, s), s, s) }
  function FT2(r: Ring<byte>, s: byte): word { Word(s, Times(r, 3, s), Times(r, 2, s), s) }
  function FT3(r: Ring<byte>, s: byte): word { Word(s, s, Times(r, 3, s), Times(r, 2, s)) }

  // Columns of the inverse matrix.
  function RT0(r: Ring<byte>, x: byte): word { Word(Times(r, 14, x), Times(r, 9, x), Times(r, 13, x), Times(r, 11, x)) }
  function RT1(r: Ring<byte>, x: byte): word { Word(Times(r, 11, x), Times(r, 14, x), Times(r, 9, x), Times(r, 13, x)) }
  function RT2(r: Ring<byte>, x: byte): word { Word(Times(r, 13, x), Times(r, 11, x), Times(r, 14, x), Times(r, 9, x)) }
  function RT3(r: Ring<byte>, x: byte): word { Word(Times(r, 9, x), Times(r, 13, x), Times(r, 11, x), Times(r, 14, x)) }

  /** The ROTL8 macro of the generator. */
  function RotL8(w: word): word { (w << 8) | (w >> 24) }

  lemma RotatedWord(a: byte, b: byte, c: byte, d: byte)
    ensures RotL8(Word(a, b, c, d)) == Word(d, a, b, c)
  {}

  ghost predicate AddsByXor(r: Ring<byte>) {
    forall x, y {:trigger Use2(x, y)} :: Use2(x, y) ==> r.add(x, y) == x ^ y
  }

  lemma XorByte0(k: word, f0: word, f1: word, f2: word, f3: word)
    ensures B0(k ^ f0 ^ f1 ^ f2 ^ f3) == (B0(f0) ^ B0(f1)) ^ (B0(f2) ^ B0(f3)) ^ B0(k)
  {}

  lemma XorByte1(k: word, f0: word, f1: word, f2: word, f3: word)
    ensures B1(k ^ f0 ^ f1 ^ f2 ^ f3) == (B1(f0) ^ B1(f1)) ^ (B1(f2) ^ B1(f3)) ^ B1(k)
  {}

  lemma XorByte2(k: word, f0: word, f1: word, f2: word, f3: word)
    ensures B2(k ^ f0 ^ f1 ^ f2 ^ f3) == (B2(f0) ^ B2(f1)) ^ (B2(f2) ^ B2(f3)) ^ B2(k)
  {}

  lemma XorByte3(k: word, f0: word, f1: word, f2: word, f3: word)
    ensures B3(k ^ f0 ^ f1 ^ f2 ^ f3) == (B3(f0) ^ B3(f1)) ^ (B3(f2) ^ B3(f3)) ^ B3(k)
  {}

  lemma TimesOne(r: Ring<byte>, x: byte)
    requires Laws(r)
    ensures Times(r, 1, x) == x
  {
    TimesUnfold(r, 1, x);
    Zero(r, x);
  }

  lemma Sum4Xor(r: Ring<byte>, a: byte, b: byte, c: byte, d: byte, k: byte)
    requires AddsByXor(r)
    ensures r.add(Sum4(r, a, b, c, d), k) == (a ^ b) ^ (c ^ d) ^ k
  {
    assert Use2(a, b) && Use2(c, d) && Use2(r.add(a, b), r.add(c, d)) && Use2(Sum4(r, a, b, c, d), k);
  }

  lemma AddWordOf(r: Ring<byte>, m: Col<byte>, k: word)
    ensures AddWord(r, Pack(m), k) == Word(r.add(m.a, B0(k)), r.add(m.b, B1(k)), r.add(m.c, B2(k)), r.add(m.d, B3(k)))
  {
    PackBytes(m, k);
  }

  lemma MixRows(r: Ring<byte>, x: Col<byte>)
    requires Laws(r)
    ensures Mix(r, x).a == Sum4(r, Times(r, 2, x.a), Times(r, 3, x.b), x.c, x.d)
    ensures Mix(r, x).b == Sum4(r, x.a, Times(r, 2, x.b), Times(r, 3, x.c), x.d)
    ensures Mix(r, x).c == Sum4(r, x.a, x.b, Times(r, 2, x.c), Times(r, 3, x.d))
    ensures Mix(r, x).d == Sum4(r, Times(r, 3, x.a), x.b, x.c, Times(r, 2, x.d))
  {
    TimesOne(r, x.a); TimesOne(r, x.b); TimesOne(r, x.c); TimesOne(r, x.d);
  }

  lemma Lane0(r: Ring<byte>, k: word, f0: word, f1: word, f2: word, f3: word)
    requires AddsByXor(r)
    ensures B0(k ^ f0 ^ f1 ^ f2 ^ f3) == r.add(Sum4(r, B0(f0), B0(f1), B0(f2), B0(f3)), B0(k))
  {
    XorByte0(k, f0, f1, f2, f3);
    Sum4Xor(r, B0(f0), B0(f1), B0(f2), B0(f3), B0(k));
  }

  lemma Lane1(r: Ring<byte>, k: word, f0: word, f1: word, f2: word, f3: word)
    requires AddsByXor(r)
    ensures B1(k ^ f0 ^ f1 ^ f2 ^ f3) == r.add(Sum4(r, B1(f0), B1(f1), B1(f2), B1(f3)), B1(k))
  {
    XorByte1(k, f0, f1, f2, f3);
    Sum4Xor(r, B1(f0), B1(f1), B1(f2), B1(f3), B1(k));
  }

  lemma Lane2(r: Ring<byte>, k: word, f0: word, f1: word, f2: word, f3: word)
    requires AddsByXor(r)
    ensures B2(k ^ f0 ^ f1 ^ f2 ^ f3) == r.add(Sum4(r, B2(f0), B2(f1), B2(f2), B2(f3)), B2(k))
  {
    XorByte2(k, f0, f1, f2, f3);
    Sum4Xor(r, B2(f0), B2(f1), B2(f2), B2(f3), B2(k));
  }

  lemma Lane3(r: Ring<byte>, k: word, f0: word, f1: word, f2: word, f3: word)
    requires AddsByXor(r)
    ensures B3(k ^ f0 ^ f1 ^ f2 ^ f3) == r.add(Sum4(r, B3(f0), B3(f1), B3(f2), B3(f3)), B3(k))
  {
    XorByte3(k, f0, f1, f2, f3);
    Sum4Xor(r, B3(f0), B3(f1), B3(f2), B3(f3), B3(k));
  }

  /** Four table words and a round key added up are a MixColumns column plus the key. */
  lemma ColumnsAdd(r: Ring<byte>, k: word, f0: word, f1: word, f2: word, f3: word, m: Col<byte>)
    requires AddsByXor(r)
    requires m.a == Sum4(r, B0(f0), B0(f1), B0(f2), B0(f3)) && m.b == Sum4(r, B1(f0), B1(f1), B1(f2), B1(f3))
    requires m.c == Sum4(r, B2(f0), B2(f1), B2(f2), B2(f3)) && m.d == Sum4(r, B3(f0), B3(f1), B3(f2), B3(f3))
    ensures k ^ f0 ^ f1 ^ f2 ^ f3 == AddWord(r, Pack(m), k)
  {
    Lane0(r, k, f0, f1, f2, f3); Lane1(r, k, f0, f1, f2, f3);
    Lane2(r, k, f0, f1, f2, f3); Lane3(r, k, f0, f1, f2, f3);
    SameBytes(r, m, k, k ^ f0 ^ f1 ^ f2 ^ f3);
  }

  lemma SameBytes(r: Ring<byte>, m: Col<byte>, k: word, w: word)
    requires B0(w) == r.add(m.a, B0(k)) && B1(w) == r.add(m.b, B1(k))
    requires B2(w) == r.add(m.c, B2(k)) && B3(w) == r.add(m.d, B3(k))
    ensures w == AddWord(r, Pack(m), k)
  {
    AddWordOf(r, m, k);
    BytesWord(w);
  }

  lemma TableBytes(r: Ring<byte>, s: byte)
    ensures Bytes(FT0(r, s)) == Col(Times(r, 2, s), s, s, Times(r, 3, s))
    ensures Bytes(FT1(r, s)) == Col(Times(r, 3, s), Times(r, 2, s), s, s)
    ensures Bytes(FT2(r, s)) == Col(s, Times(r, 3, s), Times(r, 2, s), s)
    ensures Bytes(FT3(r, s)) == Col(s, s, Times(r, 3, s), Times(r, 2, s))
  {
    var d, t := Times(r, 2, s), Times(r, 3, s);
    WordBytes(d, s, s, t); WordBytes(t, d, s, s); WordBytes(s, t, d, s); WordBytes(s, s, t, d);
  }

  lemma InvTableBytes(r: Ring<byte>, x: byte)
    ensures Bytes(RT0(r, x)) == Col(Times(r, 14, x), Times(r, 9, x), Times(r, 13, x), Times(r, 11, x))
    ensures Bytes(RT1(r, x)) == Col(Times(r, 11, x), Times(r, 14, x), Times(r, 9, x), Times(r, 13, x))
    ensures Bytes(RT2(r, x)) == Col(Times(r, 13, x), Times(r, 11, x), Times(r, 14, x), Times(r, 9, x))
    ensures Bytes(RT3(r, x)) == Col(Times(r, 9, x), Times(r, 13, x), Times(r, 11, x), Times(r, 14, x))
  {
    var (e, n, d, b) := (Times(r, 14, x), Times(r, 9, x), Times(r, 13, x), Times(r, 11, x));
    WordBytes(e, n, d, b); WordBytes(b, e, n, d); WordBytes(d, b, e, n); WordBytes(n, d, b, e);
  }

  ghost predicate Rows(r: Ring<byte>, f0: word, f1: word, f2: word, f3: word, m: Col<byte>) {
    && m.a == Sum4(r, B0(f0), B0(f1), B0(f2), B0(f3)) && m.b == Sum4(r, B1(f0), B1(f1), B1(f2), B1(f3))
    && m.c == Sum4(r, B2(f0), B2(f1), B2(f2), B2(f3)) && m.d == Sum4(r, B3(f0), B3(f1), B3(f2), B3(f3))
  }

  lemma FRows(r: Ring<byte>, a: byte, b: byte, c: byte, d: byte)
    requires Laws(r)
    ensures Rows(r, FT0(r, a), FT1(r, b), FT2(r, c), FT3(r, d), Mix(r, Col(a, b, c, d)))
  {
    MixRows(r, Col(a, b, c, d));
    TableBytes(r, a); TableBytes(r, b); TableBytes(r, c); TableBytes(r, d);
  }

  lemma RRows(r: Ring<byte>, a: byte, b: byte, c: byte, d: byte)
    ensures Rows(r, RT0(r, a), RT1(r, b), RT2(r, c), RT3(r, d), InvMix(r, Col(a, b, c, d)))
  {
    InvTableBytes(r, a); InvTableBytes(r, b); InvTableBytes(r, c); InvTableBytes(r, d);
  }

  /** Four table words and a round key, added by exclusive or as AES_FROUND, AES_RROUND and the
      decryption key schedule add them. */
  method Sum5(ghost r: Ring<byte>, k: word, f0: word, f1: word, f2: word, f3: word, ghost m: Col<byte>)
    returns (x: word)
    requires AddsByXor(r) && Rows(r, f0, f1, f2, f3, m)
    ensures x == AddWord(r, Pack(m), k)
  {
    x := k ^ f0 ^ f1 ^ f2 ^ f3;
    ColumnsAdd(r, k, f0, f1, f2, f3, m);
  }

  method Sum4Words(ghost r: Ring<byte>, f0: word, f1: word, f2: word, f3: word, ghost m: Col<byte>) returns (x: word)
    requires AddsByXor(r) && Rows(r, f0, f1, f2, f3, m)
    ensures x == Pack(m)
  {
    x := f0 ^ f1 ^ f2 ^ f3;
    ColumnsAdd(r, 0, f0, f1, f2, f3, m);
    KeyWord(r, Pack(m), 0);
  }

  lemma XorWord(a0: byte, a1: byte, a2: byte, a3: byte, k: word)
    ensures Word(a0, a1, a2, a3) ^ k == Word(a0 ^ B0(k), a1 ^ B1(k), a2 ^ B2(k), a3 ^ B3(k))
  {
    BytesWord(k);
  }

  /** Adding a round key is exclusive or of words. */
  lemma KeyWord(r: Ring<byte>, w: word, k: word)
    requires AddsByXor(r)
    ensures w ^ k == AddWord(r, w, k)
  {
    BytesWord(w);
    XorWord(B0(w), B1(w), B2(w), B3(w), k);
    assert Use2(B0(w), B0(k)) && Use2(B1(w), B1(k)) && Use2(B2(w), B2(k)) && Use2(B3(w), B3(k));
  }
}
