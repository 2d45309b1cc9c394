/** The rounds of section 5 of FIPS 197 over an arbitrary state, and the equivalent inverse
    cipher of its section 5.3.5: decryption in the order of encryption, with InvMixColumns
    applied to the inner round keys. */
module AesRounds {
  // sub is ShiftRows after SubBytes, inv undoes it.
  datatype Steps<!S> = Steps(sub: S -> S, inv: S -> S, mix: S -> S, imix: S -> S, add: (S, S) -> S)

  ghost predicate Laws<S(!new)>(c: Steps<S>) {
    && (forall s :: c.inv(c.sub(s)) == s)
    && (forall s :: c.imix(c.mix(s)) == s)
    && (forall s, k :: c.imix(c.add(s, k)) == c.add(c.imix(s), c.imix(k)))
    && (forall s, k :: c.add(c.add(s, k), k) == s)
  }

  /** The state after the initial key addition and n full encryption rounds. */
  function EncRounds<S>(c: Steps<S>, keys: seq<S>, n: nat, s: S): S
    requires n < |keys|
  {
    if n == 0 then c.add(s, keys[0])
    else c.add(c.mix(c.sub(EncRounds(c, keys, n - 1, s))), keys[n])
  }

  function Encrypt<S>(c: Steps<S>, keys: seq<S>, s: S): S
    requires |keys| >= 2
  {
    c.add(c.sub(EncRounds(c, keys, |keys| - 2, s)), keys[|keys| - 1])
  }

  /** The same order of steps with each step inverted. */
  function DecRounds<S>(c: Steps<S>, keys: seq<S>, n: nat, s: S): S
    requires n < |keys|
  {
    if n == 0 then c.add(s, keys[0])
    else c.add(c.imix(c.inv(DecRounds(c, keys, n - 1, s))), keys[n])
  }

  function Decrypt<S>(c: Steps<S>, keys: seq<S>, s: S): S
    requires |keys| >= 2
  {
    c.add(c.inv(DecRounds(c, keys, |keys| - 2, s)), keys[|keys| - 1])
  }

  /** The decryption key schedule: reversed, the inner keys through InvMixColumns. */
  function DecKeys<S>(c: Steps<S>, keys: seq<S>): (dk: seq<S>)
    requires |keys| >= 2
    ensures |dk| == |keys|
  {
    seq(|keys|, i requires 0 <= i < |keys| =>
      var k := keys[|keys| - 1 - i];
      if 0 < i < |keys| - 1 then c.imix(k) else k)
  }

  lemma {:induction false} Unwinds<S(!new)>(c: Steps<S>, keys: seq<S>, s: S, n: nat)
    requires Laws(c) && n + 2 <= |keys|
    ensures DecRounds(c, DecKeys(c, keys), n, Encrypt(c, keys, s))
         == c.sub(EncRounds(c, keys, |keys| - 2 - n, s))
  {
    if n > 0 {
      Unwinds(c, keys, s, n - 1);
    }
  }

  /** Decryption undoes encryption, for every state and every list of round keys. */
  lemma DecryptEncrypt<S(!new)>(c: Steps<S>, keys: seq<S>, s: S)
    requires Laws(c) && |keys| >= 2
    ensures Decrypt(c, DecKeys(c, keys), Encrypt(c, keys, s)) == s
  {
    Unwinds(c, keys, s, |keys| - 2);
  }
}

/** The state as utils_aes.c holds it, four 32-bit words with byte 0 of a column in the low
    byte (GET_UINT32_LE), and the steps of the cipher on it. */
module AesState {
  import opened AesField
  import opened AesAlgebra
  import AesRounds

  type word = bv32

  datatype Block = Block(w0: word, w1: word, w2: word, w3: word)

  function B0(w: word): byte { (w & 0xFF) as byte }
  function B1(w: word): byte { ((w >> 8) & 0xFF) as byte }
  function B2(w: word): byte { ((w >> 16) & 0xFF) as byte }
  function B3(w: word): byte { ((w >> 24) & 0xFF) as byte }

  function Word(b0: byte, b1: byte, b2: byte, b3: byte): word {
    (b0 as word) ^ (b1 as word << 8) ^ (b2 as word << 16) ^ (b3 as word << 24)
  }

  lemma WordBytes(b0: byte, b1: byte, b2: byte, b3: byte)
    ensures B0(Word(b0, b1, b2, b3)) == b0 && B1(Word(b0, b1, b2, b3)) == b1
    ensures B2(Word(b0, b1, b2, b3)) == b2 && B3(Word(b0, b1, b2, b3)) == b3
  {}

  lemma BytesWord(w: word)
    ensures Word(B0(w), B1(w), B2(w), B3(w)) == w
  {}

  function Bytes(w: word): Col<byte> { Col(B0(w), B1(w), B2(w), B3(w)) }
  function Pack(x: Col<byte>): word { Word(x.a, x.b, x.c, x.d) }

  lemma PackBytes(x: Col<byte>, w: word)
    ensures Bytes(Pack(x)) == x && Pack(Bytes(w)) == w
  {
    WordBytes(x.a, x.b, x.c, x.d);
    BytesWord(w);
  }

  /** The parameters of the cipher: the ring of bytes and the two S-boxes. */
  datatype Params = Params(r: Ring<byte>, sb: byte -> byte, rsb: byte -> byte)

  ghost predicate Good(p: Params) {
    Laws(p.r) && forall x :: p.rsb(p.sb(x)) == x
  }

  function SubWord(f: byte -> byte, b0: byte, b1: byte, b2: byte, b3: byte): word {
    Word(f(b0), f(b1), f(b2), f(b3))
  }

  /** ShiftRows after SubBytes: row i of a column comes from the column i to the right. */
  function SubShift(f: byte -> byte, s: Block): Block {
    Block(SubWord(f, B0(s.w0), B1(s.w1), B2(s.w2), B3(s.w3)), SubWord(f, B0(s.w1), B1(s.w2), B2(s.w3), B3(s.w0)),
          SubWord(f, B0(s.w2), B1(s.w3), B2(s.w0), B3(s.w1)), SubWord(f, B0(s.w3), B1(s.w0), B2(s.w1), B3(s.w2)))
  }

  function InvSubShift(f: byte -> byte, s: Block): Block {
    Block(SubWord(f, B0(s.w0), B1(s.w3), B2(s.w2), B3(s.w1)), SubWord(f, B0(s.w1), B1(s.w0), B2(s.w3), B3(s.w2)),
          SubWord(f, B0(s.w2), B1(s.w1), B2(s.w0), B3(s.w3)), SubWord(f, B0(s.w3), B1(s.w2), B2(s.w1), B3(s.w0)))
  }

  function MixWord(r: Ring<byte>, w: word): word { Pack(Mix(r, Bytes(w))) }
  function InvMixWord(r: Ring<byte>, w: word): word { Pack(InvMix(r, Bytes(w))) }
  function AddWord(r: Ring<byte>, w: word, k: word): word { Pack(AddCol(r, Bytes(w), Bytes(k))) }

  function MixBlock(r: Ring<byte>, s: Block): Block {
    Block(MixWord(r, s.w0), MixWord(r, s.w1), MixWord(r, s.w2), MixWord(r, s.w3))
  }
  function InvMixBlock(r: Ring<byte>, s: Block): Block {
    Block(InvMixWord(r, s.w0), InvMixWord(r, s.w1), InvMixWord(r, s.w2), InvMixWord(r, s.w3))
  }
  function AddBlock(r: Ring<byte>, s: Block, k: Block): Block {
    Block(AddWord(r, s.w0, k.w0), AddWord(r, s.w1, k.w1), AddWord(r, s.w2, k.w2), AddWord(r, s.w3, k.w3))
  }

  lemma SubShiftInverse(p: Params, s: Block)
    requires Good(p)
    ensures InvSubShift(p.rsb, SubShift(p.sb, s)) == s
  {
    var t := SubShift(p.sb, s);
    WordBytes(p.sb(B0(s.w0)), p.sb(B1(s.w1)), p.sb(B2(s.w2)), p.sb(B3(s.w3)));
    WordBytes(p.sb(B0(s.w1)), p.sb(B1(s.w2)), p.sb(B2(s.w3)), p.sb(B3(s.w0)));
    WordBytes(p.sb(B0(s.w2)), p.sb(B1(s.w3)), p.sb(B2(s.w0)), p.sb(B3(s.w1)));
    WordBytes(p.sb(B0(s.w3)), p.sb(B1(s.w0)), p.sb(B2(s.w1)), p.sb(B3(s.w2)));
    BytesWord(s.w0); BytesWord(s.w1); BytesWord(s.w2); BytesWord(s.w3);
  }

  lemma MixWordInverse(r: Ring<byte>, w: word)
    requires Laws(r)
    ensures InvMixWord(r, MixWord(r, w)) == w
  {
    PackBytes(Mix(r, Bytes(w)), w);
    MixInverse(r, Bytes(w));
  }

  lemma InvMixWordAdds(r: Ring<byte>, w: word, k: word)
    requires Laws(r)
    ensures InvMixWord(r, AddWord(r, w, k)) == AddWord(r, InvMixWord(r, w), InvMixWord(r, k))
  {
    PackBytes(AddCol(r, Bytes(w), Bytes(k)), w);
    PackBytes(InvMix(r, Bytes(w)), w); PackBytes(InvMix(r, Bytes(k)), k);
    InvMixAdds(r, Bytes(w), Bytes(k));
  }

  lemma AddTwice(r: Ring<byte>, x: byte, k: byte)
    requires Laws(r)
    ensures r.add(r.add(x, k), k) == x
  {
    assert Use3(x, k, k);
    Zero(r, k); Zero(r, x);
  }

  lemma AddWordTwice(r: Ring<byte>, w: word, k: word)
    requires Laws(r)
    ensures AddWord(r, AddWord(r, w, k), k) == w
  {
    var (x, y) := (Bytes(w), Bytes(k));
    PackBytes(AddCol(r, x, y), w);
    AddTwice(r, x.a, y.a); AddTwice(r, x.b, y.b); AddTwice(r, x.c, y.c); AddTwice(r, x.d, y.d);
  }

  function StepsOf(p: Params): AesRounds.Steps<Block> {
    AesRounds.Steps((s: Block) => SubShift(p.sb, s), (s: Block) => InvSubShift(p.rsb, s),
                    (s: Block) => MixBlock(p.r, s), (s: Block) => InvMixBlock(p.r, s),
                    (s: Block, k: Block) => AddBlock(p.r, s, k))
  }

  lemma StepsLaws(p: Params)
    requires Good(p)
    ensures AesRounds.Laws(StepsOf(p))
  {
    forall s: Block ensures InvSubShift(p.rsb, SubShift(p.sb, s)) == s { SubShiftInverse(p, s); }
    forall s: Block ensures InvMixBlock(p.r, MixBlock(p.r, s)) == s {
      MixWordInverse(p.r, s.w0); MixWordInverse(p.r, s.w1); MixWordInverse(p.r, s.w2); MixWordInverse(p.r, s.w3);
    }
    forall s: Block, k: Block
      ensures InvMixBlock(p.r, AddBlock(p.r, s, k)) == AddBlock(p.r, InvMixBlock(p.r, s), InvMixBlock(p.r, k))
    {
      InvMixWordAdds(p.r, s.w0, k.w0); InvMixWordAdds(p.r, s.w1, k.w1);
      InvMixWordAdds(p.r, s.w2, k.w2); InvMixWordAdds(p.r, s.w3, k.w3);
    }
    forall s: Block, k: Block ensures AddBlock(p.r, AddBlock(p.r, s, k), k) == s {
      AddWordTwice(p.r, s.w0, k.w0); AddWordTwice(p.r, s.w1, k.w1);
      AddWordTwice(p.r, s.w2, k.w2); AddWordTwice(p.r, s.w3, k.w3);
    }
  }
}
