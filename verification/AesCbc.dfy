/** Cipher block chaining (section 6.2 of NIST SP 800-38A) over any block cipher on 16 bytes. */
module Cbc {
  import opened AesField

  type Cipher = seq<byte> -> seq<byte>

  ghost predicate OnBlocks(e: Cipher) {
    forall b: seq<byte> {:trigger e(b)} :: |b| == 16 ==> |e(b)| == 16
  }

  ghost predicate Undoes(d: Cipher, e: Cipher) {
    forall b: seq<byte> {:trigger e(b)} :: |b| == 16 ==> d(e(b)) == b
  }

  function XorByte(x: byte, y: byte): byte { x ^ y }

  function XorBytes(a: seq<byte>, b: seq<byte>): (r: seq<byte>)
    requires |a| == |b|
    ensures |r| == |a|
  {
    seq(|a|, i requires 0 <= i < |a| => XorByte(a[i], b[i]))
  }

  lemma XorTwice(a: seq<byte>, b: seq<byte>)
    requires |a| == |b|
    ensures XorBytes(XorBytes(a, b), b) == a
  {
    hide XorByte;
    forall i | 0 <= i < |a| ensures XorBytes(XorBytes(a, b), b)[i] == a[i] {
      XorByteTwice(a[i], b[i]);
    }
  }

  lemma XorByteTwice(x: byte, y: byte)
    ensures XorByte(XorByte(x, y), y) == x
  {}

  function Encrypt(e: Cipher, iv: seq<byte>, x: seq<byte>): seq<byte>
    requires OnBlocks(e) && |iv| == 16
    decreases |x|
  {
    if |x| < 16 then [] else
    var c := e(XorBytes(x[..16], iv));
    c + Encrypt(e, c, x[16..])
  }

  function Decrypt(d: Cipher, iv: seq<byte>, y: seq<byte>): seq<byte>
    requires OnBlocks(d) && |iv| == 16
    decreases |y|
  {
    if |y| < 16 then [] else XorBytes(d(y[..16]), iv) + Decrypt(d, y[..16], y[16..])
  }

  /** The vector left behind: the last block of ciphertext. */
  function LastBlock(iv: seq<byte>, y: seq<byte>): (v: seq<byte>)
    requires |iv| == 16
    ensures |v| == 16
  {
    if |y| < 16 then iv else y[|y| - 16..]
  }

  lemma {:induction false} Lengths(e: Cipher, iv: seq<byte>, x: seq<byte>)
    requires OnBlocks(e) && |iv| == 16 && |x| % 16 == 0
    ensures |Encrypt(e, iv, x)| == |x| && |Decrypt(e, iv, x)| == |x|
    decreases |x|
  {
    if |x| >= 16 {
      Lengths(e, e(XorBytes(x[..16], iv)), x[16..]);
      Lengths(e, x[..16], x[16..]);
    }
  }

  /** Decryption undoes encryption, whatever the initial vector. */
  lemma {:induction false} DecryptEncrypt(e: Cipher, d: Cipher, iv: seq<byte>, x: seq<byte>)
    requires OnBlocks(e) && OnBlocks(d) && Undoes(d, e) && |iv| == 16 && |x| % 16 == 0
    ensures Decrypt(d, iv, Encrypt(e, iv, x)) == x
    decreases |x|
  {
    if |x| >= 16 {
      var b := XorBytes(x[..16], iv);
      var c := e(b);
      var y := Encrypt(e, iv, x);
      assert y[..16] == c && y[16..] == Encrypt(e, c, x[16..]);
      XorTwice(x[..16], iv);
      DecryptEncrypt(e, d, c, x[16..]);
      assert d(c) == b;
      assert x == x[..16] + x[16..];
    }
  }

  /** Two buffers in turn, the second with the vector the first left, are one buffer. */
  lemma {:induction false} EncryptConcat(e: Cipher, iv: seq<byte>, x: seq<byte>, z: seq<byte>)
    requires OnBlocks(e) && |iv| == 16 && |x| % 16 == 0
    ensures Encrypt(e, iv, x + z) == Encrypt(e, iv, x) + Encrypt(e, LastBlock(iv, Encrypt(e, iv, x)), z)
    decreases |x|
  {
    if |x| >= 16 {
      var c := e(XorBytes(x[..16], iv));
      assert (x + z)[..16] == x[..16] && (x + z)[16..] == x[16..] + z;
      EncryptConcat(e, c, x[16..], z);
      var t := Encrypt(e, c, x[16..]);
      Lengths(e, c, x[16..]);
      assert LastBlock(iv, c + t) == LastBlock(c, t);
      assert Encrypt(e, iv, x + z) == c + (t + Encrypt(e, LastBlock(c, t), z));
    } else {
      assert x + z == z;
    }
  }

  lemma {:induction false} DecryptConcat(d: Cipher, iv: seq<byte>, y: seq<byte>, z: seq<byte>)
    requires OnBlocks(d) && |iv| == 16 && |y| % 16 == 0
    ensures Decrypt(d, iv, y + z) == Decrypt(d, iv, y) + Decrypt(d, LastBlock(iv, y), z)
    decreases |y|
  {
    hide XorBytes;
    if |y| >= 16 {
      var p := XorBytes(d(y[..16]), iv);
      assert (y + z)[..16] == y[..16] && (y + z)[16..] == y[16..] + z;
      DecryptConcat(d, y[..16], y[16..], z);
      assert LastBlock(iv, y) == LastBlock(y[..16], y[16..]);
      var t := Decrypt(d, y[..16], y[16..]);
      assert Decrypt(d, iv, y + z) == p + (t + Decrypt(d, LastBlock(iv, y), z));
    } else {
      assert y + z == z;
    }
  }

  /** One more block at the end, as the loops append it. */
  lemma EncryptSnoc(e: Cipher, iv: seq<byte>, x: seq<byte>, b: seq<byte>)
    requires OnBlocks(e) && |iv| == 16 && |x| % 16 == 0 && |b| == 16
    ensures var y := Encrypt(e, iv, x);
      Encrypt(e, iv, x + b) == y + e(XorBytes(b, LastBlock(iv, y)))
  {
    EncryptConcat(e, iv, x, b);
    OneBlock(e, LastBlock(iv, Encrypt(e, iv, x)), b);
  }

  lemma DecryptSnoc(d: Cipher, iv: seq<byte>, y: seq<byte>, b: seq<byte>)
    requires OnBlocks(d) && |iv| == 16 && |y| % 16 == 0 && |b| == 16
    ensures Decrypt(d, iv, y + b) == Decrypt(d, iv, y) + XorBytes(d(b), LastBlock(iv, y))
  {
    DecryptConcat(d, iv, y, b);
    OneBlock(d, LastBlock(iv, y), b);
  }

  lemma OneBlock(e: Cipher, iv: seq<byte>, b: seq<byte>)
    requires OnBlocks(e) && |iv| == 16 && |b| == 16
    ensures Encrypt(e, iv, b) == e(XorBytes(b, iv))
    ensures Decrypt(e, iv, b) == XorBytes(e(b), iv)
  {
    assert b[..16] == b && b[16..] == [];
    assert Encrypt(e, e(XorBytes(b, iv)), []) == [] && Decrypt(e, b, []) == [];
  }

  /** Block j of a buffer. */
  function At(s: seq<byte>, j: nat): (b: seq<byte>)
    requires 16 * j + 16 <= |s|
    ensures |b| == 16
  {
    s[16 * j..16 * j + 16]
  }

  lemma AtNext(c: seq<byte>, t: seq<byte>, j: nat)
    requires |c| == 16 && 16 * j + 16 <= |t|
    ensures At(c + t, j + 1) == At(t, j) && At(c + t, 0) == c
  {}

  /** Section 6.2 of NIST SP 800-38A, block by block: C_1 = E(P_1 + IV), C_j = E(P_j + C_j-1). */
  lemma {:induction false} EncryptBlock(e: Cipher, iv: seq<byte>, x: seq<byte>, j: nat)
    requires OnBlocks(e) && |iv| == 16 && |x| % 16 == 0 && 16 * j + 16 <= |x|
    ensures |Encrypt(e, iv, x)| == |x|
    ensures At(Encrypt(e, iv, x), j) == e(XorBytes(At(x, j), if j == 0 then iv else At(Encrypt(e, iv, x), j - 1)))
    decreases j
  {
    Lengths(e, iv, x);
    var c := e(XorBytes(x[..16], iv));
    var t := Encrypt(e, c, x[16..]);
    assert x[..16] + x[16..] == x && x[..16] == At(x, 0);
    if j > 0 {
      EncryptBlock(e, c, x[16..], j - 1);
      AtNext(x[..16], x[16..], j - 1);
      AtNext(c, t, j - 1);
      if j > 1 {
        AtNext(c, t, j - 2);
      }
    } else {
      assert At(c + t, 0) == c;
    }
  }
}

/** The block functions of utils_aes.c on byte buffers, and its two CBC entry points. */
module AesCrypt {
  import opened Buffers
  import opened AesField
  import opened AesAlgebra
  import opened AesState
  import opened AesTables
  import opened AesKeys
  import opened AesBlock
  import AesRounds
  import AesGen
  import Cbc

  const INVALID_INPUT_LENGTH: int := -0x0022
  const FAILURE: int := -1001

  datatype Mode = ENCRYPT | DECRYPT

  function LoadBlock(b: seq<byte>): Block
    requires |b| == 16
  {
    Block(LoadLE(b, 0), LoadLE(b, 4), LoadLE(b, 8), LoadLE(b, 12))
  }

  function StoreLE(w: word): seq<byte> { [B0(w), B1(w), B2(w), B3(w)] }

  function StoreBlock(s: Block): (b: seq<byte>)
    ensures |b| == 16
  {
    StoreLE(s.w0) + StoreLE(s.w1) + StoreLE(s.w2) + StoreLE(s.w3)
  }

  lemma LoadStoreWord(pre: seq<byte>, w: word, post: seq<byte>)
    ensures LoadLE(pre + StoreLE(w) + post, |pre|) == w
  {
    BytesWord(w);
  }

  lemma LoadStore(s: Block)
    ensures LoadBlock(StoreBlock(s)) == s
  {
    var (a, b, c, d) := (StoreLE(s.w0), StoreLE(s.w1), StoreLE(s.w2), StoreLE(s.w3));
    assert StoreBlock(s) == [] + a + (b + c + d) == a + b + (c + d) == (a + b) + c + d == (a + b + c) + d + [];
    LoadStoreWord([], s.w0, b + c + d);
    LoadStoreWord(a, s.w1, c + d);
    LoadStoreWord(a + b, s.w2, d);
    LoadStoreWord(a + b + c, s.w3, []);
  }

  lemma StoreLoadWord(b: seq<byte>, i: nat)
    requires i + 4 <= |b|
    ensures StoreLE(LoadLE(b, i)) == b[i..i + 4]
  {
    WordBytes(b[i], b[i + 1], b[i + 2], b[i + 3]);
  }

  lemma StoreLoad(b: seq<byte>)
    requires |b| == 16
    ensures StoreBlock(LoadBlock(b)) == b
  {
    StoreLoadWord(b, 0); StoreLoadWord(b, 4); StoreLoadWord(b, 8); StoreLoadWord(b, 12);
    assert b == b[0..4] + b[4..8] + b[8..12] + b[12..16];
  }

  // The block cipher and its inverse on sixteen bytes.
  function EncryptBytes(c: AesRounds.Steps<Block>, keys: seq<Block>, b: seq<byte>): seq<byte>
    requires |keys| >= 2 && |b| == 16
  {
    StoreBlock(AesRounds.Encrypt(c, keys, LoadBlock(b)))
  }

  function DecryptBytes(c: AesRounds.Steps<Block>, keys: seq<Block>, b: seq<byte>): seq<byte>
    requires |keys| >= 2 && |b| == 16
  {
    StoreBlock(AesRounds.Decrypt(c, keys, LoadBlock(b)))
  }

  /** The equivalent inverse cipher on bytes: for every list of round keys and every block. */
  lemma BytesRoundTrip(c: AesRounds.Steps<Block>, keys: seq<Block>, b: seq<byte>)
    requires AesRounds.Laws(c) && |keys| >= 2 && |b| == 16
    ensures DecryptBytes(c, AesRounds.DecKeys(c, keys), EncryptBytes(c, keys, b)) == b
  {
    LoadStore(AesRounds.Encrypt(c, keys, LoadBlock(b)));
    AesRounds.DecryptEncrypt(c, keys, LoadBlock(b));
    StoreLoad(b);
  }

  // ---------- buffers ----------

  // PUT_UINT32_LE
  method PutWord(w: word, output: array<byte>, o: nat)
    requires o + 4 <= output.Length
    modifies output
    ensures output[..] == Written(old(output[..]), o, StoreLE(w))
  {
    output[o] := (w & 0xFF) as byte;
    output[o + 1] := ((w >> 8) & 0xFF) as byte;
    output[o + 2] := ((w >> 16) & 0xFF) as byte;
    output[o + 3] := ((w >> 24) & 0xFF) as byte;
  }

  method PutBlock(x: Block, output: array<byte>, o: nat)
    requires o + 16 <= output.Length
    modifies output
    ensures output[..] == Written(old(output[..]), o, StoreBlock(x))
  {
    PutWord(x.w0, output, o);
    PutWord(x.w1, output, o + 4);
    PutWord(x.w2, output, o + 8);
    PutWord(x.w3, output, o + 12);
    ghost var (s, a, b, d) := (old(output[..]), StoreLE(x.w0), StoreLE(x.w1), StoreLE(x.w2));
    WrittenNext(s, o, a, b);
    WrittenNext(s, o, a + b, d);
    WrittenNext(s, o, a + b + d, StoreLE(x.w3));
  }

  method GetWord(input: array<byte>, i: nat) returns (w: word)
    requires i + 4 <= input.Length
    ensures w == LoadLE(input[..], i)
  {
    w := Word(input[i], input[i + 1], input[i + 2], input[i + 3]);
  }

  method GetBlock(input: array<byte>, i: nat) returns (s: Block)
    requires i + 16 <= input.Length
    ensures s == LoadBlock(input[i..i + 16])
  {
    var w0 := GetWord(input, i);
    var w1 := GetWord(input, i + 4);
    var w2 := GetWord(input, i + 8);
    var w3 := GetWord(input, i + 12);
    s := Block(w0, w1, w2, w3);
    LoadSlice(input[..], i, 0); LoadSlice(input[..], i, 4); LoadSlice(input[..], i, 8); LoadSlice(input[..], i, 12);
  }

  lemma LoadSlice(b: seq<byte>, i: nat, q: nat)
    requires i + 16 <= |b| && q <= 12
    ensures LoadLE(b[i..i + 16], q) == LoadLE(b, i + q)
  {
    var d := b[i..i + 16];
    assert d[q] == b[i + q] && d[q + 1] == b[i + q + 1] && d[q + 2] == b[i + q + 2] && d[q + 3] == b[i + q + 3];
  }

  // ---------- one block ----------

  ghost function TableObjects(t: Tables): set<object> {
    (set a | a in t.Bytes() :: a as object) + (set a | a in t.Words() :: a as object)
  }

  ghost function Objects(t: Tables, ctx: Context): set<object> { TableObjects(t) + {ctx, ctx.buf} }

  // An answer that is a value: a contract that mentions one is used whole, never unfolded.
  datatype Verdict = NO | YES

  ghost predicate UseBytes(b: seq<byte>) { true }

  /** f is what a call in this mode does to a block; fires only where a call asks for it. */
  ghost function Does(f: Cbc.Cipher, mode: Mode, c: AesRounds.Steps<Block>, keys: seq<Block>): Verdict
    requires |keys| >= 2
  {
    if
      && Cbc.OnBlocks(f)
      && forall b {:trigger UseBytes(b)} :: UseBytes(b) && |b| == 16 ==>
        f(b) == if mode == ENCRYPT then EncryptBytes(c, keys, b) else DecryptBytes(c, keys, b)
    then YES else NO
  }

  lemma CipherOf(mode: Mode, c: AesRounds.Steps<Block>, keys: seq<Block>) returns (f: Cbc.Cipher)
    requires |keys| >= 2
    ensures Does(f, mode, c, keys) == YES && Cbc.OnBlocks(f)
  {
    f := if mode == ENCRYPT then (b: seq<byte>) => if |b| == 16 then EncryptBytes(c, keys, b) else b
         else (b: seq<byte>) => if |b| == 16 then DecryptBytes(c, keys, b) else b;
  }


  /** Whether the tables are those of p and the context is ready for f on blocks in this mode. */
  ghost function StateOf(t: Tables, c: AesRounds.Steps<Block>, p: Params, ctx: Context, keys: seq<Block>, mode: Mode,
                         f: Cbc.Cipher): Verdict
    reads ctx, ctx.buf, t.fsb, t.rsb, t.ft0, t.ft1, t.ft2, t.ft3, t.rt0, t.rt1, t.rt2, t.rt3, t.rcon
  {
    if
      && Matches(c, p) && Good(p) && AddsByXor(p.r) && t.Hold(p)
      && ctx.nr % 2 == 0 && 4 <= ctx.nr && |keys| == ctx.nr + 1 && HoldsKeys(ctx.buf, keys)
      && Does(f, mode, c, keys) == YES
    then YES else NO
  }

  // The sixteen bytes at i, through the cipher.
  method CryptState(t: Tables, ghost c: AesRounds.Steps<Block>, ghost p: Params, ghost keys: seq<Block>, ctx: Context,
                    mode: Mode,
                    ghost f: Cbc.Cipher, input: array<byte>, i: nat) returns (x: Block)
    requires StateOf(t, c, p, ctx, keys, mode, f) == YES && i + 16 <= input.Length
    ensures StoreBlock(x) == f(input[i..i + 16])
  {
    var s := GetBlock(input, i);
    if mode == ENCRYPT {
      x := EncryptState(t, c, p, keys, ctx.buf, ctx.nr, s);
    } else {
      x := DecryptState(t, c, p, keys, ctx.buf, ctx.nr, s);
    }
    assert UseBytes(input[i..i + 16]);
  }

  /** utils_aes_crypt_ecb: input and output may be the same sixteen bytes. */
  method CryptEcb(t: Tables, ghost c: AesRounds.Steps<Block>, ghost p: Params, ghost keys: seq<Block>, ctx: Context,
                  mode: Mode,
                  ghost f: Cbc.Cipher, input: array<byte>, i: nat, output: array<byte>, o: nat)
    requires StateOf(t, c, p, ctx, keys, mode, f) == YES && Cbc.OnBlocks(f) && (output as object) !in Objects(t, ctx)
    requires i + 16 <= input.Length && o + 16 <= output.Length
    modifies output
    ensures |f(old(input[i..i + 16]))| == 16
    ensures output[..] == Written(old(output[..]), o, f(old(input[i..i + 16])))
  {
    hide Written;
    var x := CryptState(t, c, p, keys, ctx, mode, f, input, i);
    PutBlock(x, output, o);
  }

  // ---------- CBC ----------

  /** output[i] = a[i] ^ iv[i] for the sixteen bytes of a block; a may be the output itself. */
  method XorBlock(a: array<byte>, i: nat, iv: array<byte>, output: array<byte>)
    requires iv.Length == 16 && iv != output && i + 16 <= a.Length && i + 16 <= output.Length
    modifies output
    ensures output[..] == Written(old(output[..]), i, Cbc.XorBytes(old(a[i..i + 16]), iv[..]))
  {
    hide Written, Cbc.XorByte;
    ghost var s, block := output[..], a[i..i + 16];
    for q := 0 to 16
      invariant forall z {:trigger output[z]} :: i <= z < i + q ==> output[z] == Cbc.XorByte(old(a[z]), iv[z - i])
      invariant forall z {:trigger output[z]} ::
        0 <= z < output.Length && !(i <= z < i + q) ==> output[z] == old(output[z])
    {
      output[i + q] := Cbc.XorByte(a[i + q], iv[q]);
    }
    IsWritten(s, i, Cbc.XorBytes(block, iv[..]), output[..]);
  }

  method CopyBlock(a: array<byte>, i: nat, iv: array<byte>)
    requires iv.Length == 16 && i + 16 <= a.Length && a != iv
    modifies iv
    ensures iv[..] == a[i..i + 16]
  {
    for q := 0 to 16
      invariant forall z :: 0 <= z < q ==> iv[z] == a[i + z]
    {
      iv[q] := a[i + q];
    }
  }

  /** One turn of the encryption loop. */
  method EncryptTurn(t: Tables, ghost c: AesRounds.Steps<Block>, ghost p: Params, ghost keys: seq<Block>, ctx: Context,
                     ghost f: Cbc.Cipher, k: nat, iv: array<byte>, input: array<byte>, output: array<byte>)
    requires StateOf(t, c, p, ctx, keys, ENCRYPT, f) == YES && Cbc.OnBlocks(f)
    requires (output as object) !in Objects(t, ctx) && (iv as object) !in Objects(t, ctx)
    requires iv.Length == 16 && iv != output && k + 16 <= input.Length && k + 16 <= output.Length
    modifies output, iv
    ensures var y := f(Cbc.XorBytes(old(input[k..k + 16]), old(iv[..])));
      |y| == 16 && iv[..] == y && output[..] == Written(old(output[..]), k, y)
  {
    ghost var x := Cbc.XorBytes(input[k..k + 16], iv[..]);
    ghost var y := f(x);
    XorBlock(input, k, iv, output);
    WrittenBack(old(output[..]), k, x, y);
    CryptEcb(t, c, p, keys, ctx, ENCRYPT, f, output, k, output, k);
    WrittenBack(old(output[..]), k, y, y);
    CopyBlock(output, k, iv);
  }

  lemma WrittenBack(s: seq<byte>, o: nat, a: seq<byte>, b: seq<byte>)
    requires o + |a| <= |s| && |b| == |a|
    ensures Written(s, o, a)[o..o + |a|] == a
    ensures Written(Written(s, o, a), o, b) == Written(s, o, b)
  {}

  /** One turn of the decryption loop: temp keeps the ciphertext block an in-place call overwrites. */
  method DecryptTurn(t: Tables, ghost c: AesRounds.Steps<Block>, ghost p: Params, ghost keys: seq<Block>, ctx: Context,
                     ghost f: Cbc.Cipher, k: nat, iv: array<byte>, input: array<byte>, output: array<byte>)
    requires StateOf(t, c, p, ctx, keys, DECRYPT, f) == YES && Cbc.OnBlocks(f)
    requires (output as object) !in Objects(t, ctx) && (iv as object) !in Objects(t, ctx)
    requires iv.Length == 16 && iv != output && iv != input && k + 16 <= input.Length && k + 16 <= output.Length
    modifies output, iv
    ensures var b := f(old(input[k..k + 16]));
      && |b| == 16 && iv[..] == old(input[k..k + 16])
      && output[..] == Written(old(output[..]), k, Cbc.XorBytes(b, old(iv[..])))
  {
    ghost var b := f(input[k..k + 16]);
    ghost var x := Cbc.XorBytes(b, iv[..]);
    var temp := new byte[16];
    CopyBlock(input, k, temp);
    CryptEcb(t, c, p, keys, ctx, DECRYPT, f, input, k, output, k);
    WrittenBack(old(output[..]), k, b, x);
    XorBlock(output, k, iv, output);
    CopyBlock(temp, 0, iv);
  }

  // The first k bytes of x have been chained into out, and iv is the block they end with.
  ghost predicate Encrypted(f: Cbc.Cipher, iv0: seq<byte>, x: seq<byte>, k: nat, out0: seq<byte>, out: seq<byte>,
                            iv: seq<byte>)
    requires Cbc.OnBlocks(f) && |iv0| == 16
  {
    && k % 16 == 0 && k <= |x| && k <= |out0|
    && var y := Cbc.Encrypt(f, iv0, x[..k]);
       |y| == k && out == Written(out0, 0, y) && iv == Cbc.LastBlock(iv0, y)
  }

  ghost predicate Decrypted(f: Cbc.Cipher, iv0: seq<byte>, y: seq<byte>, k: nat, out0: seq<byte>, out: seq<byte>,
                            iv: seq<byte>)
    requires Cbc.OnBlocks(f) && |iv0| == 16
  {
    && k % 16 == 0 && k <= |y| && k <= |out0|
    && var x := Cbc.Decrypt(f, iv0, y[..k]);
       |x| == k && out == Written(out0, 0, x) && iv == Cbc.LastBlock(iv0, y[..k])
  }

  lemma NoneYet(f: Cbc.Cipher, iv: seq<byte>, x: seq<byte>, out: seq<byte>)
    requires Cbc.OnBlocks(f) && |iv| == 16
    ensures Encrypted(f, iv, x, 0, out, out, iv) && Decrypted(f, iv, x, 0, out, out, iv)
  {
    assert x[..0] == [];
  }

  lemma EncryptStep(f: Cbc.Cipher, iv0: seq<byte>, x: seq<byte>, k: nat, out0: seq<byte>, out: seq<byte>, iv: seq<byte>)
    requires Cbc.OnBlocks(f) && |iv0| == 16 && Encrypted(f, iv0, x, k, out0, out, iv)
    requires k + 16 <= |x| && k + 16 <= |out0|
    ensures var z := f(Cbc.XorBytes(x[k..k + 16], iv));
      |z| == 16 && Encrypted(f, iv0, x, k + 16, out0, Written(out, k, z), z)
  {
    var y := Cbc.Encrypt(f, iv0, x[..k]);
    var z := f(Cbc.XorBytes(x[k..k + 16], iv));
    Cbc.EncryptSnoc(f, iv0, x[..k], x[k..k + 16]);
    assert x[..k + 16] == x[..k] + x[k..k + 16];
    WrittenNext(out0, 0, y, z);
    assert Cbc.LastBlock(iv0, y + z) == z;
  }

  lemma DecryptStep(f: Cbc.Cipher, iv0: seq<byte>, y: seq<byte>, k: nat, out0: seq<byte>, out: seq<byte>, iv: seq<byte>)
    requires Cbc.OnBlocks(f) && |iv0| == 16 && Decrypted(f, iv0, y, k, out0, out, iv)
    requires k + 16 <= |y| && k + 16 <= |out0|
    ensures var z := Cbc.XorBytes(f(y[k..k + 16]), iv);
      Decrypted(f, iv0, y, k + 16, out0, Written(out, k, z), y[k..k + 16])
  {
    var x := Cbc.Decrypt(f, iv0, y[..k]);
    var z := Cbc.XorBytes(f(y[k..k + 16]), iv);
    Cbc.DecryptSnoc(f, iv0, y[..k], y[k..k + 16]);
    assert y[..k + 16] == y[..k] + y[k..k + 16];
    WrittenNext(out0, 0, x, z);
  }

  lemma TailKept(s: seq<byte>, x: seq<byte>, k: nat, z: seq<byte>)
    requires |z| == 16 && k + 16 <= |s| && |s| == |x| && s[k..] == x[k..]
    ensures Written(s, k, z)[k + 16..] == x[k + 16..] && s[k..k + 16] == x[k..k + 16] && s[k + 16..] == x[k + 16..]
  {
    assert s[k..k + 16] == s[k..][..16] && s[k + 16..] == s[k..][16..] && x[k + 16..] == x[k..][16..];
  }

  method EncryptNext(t: Tables, ghost c: AesRounds.Steps<Block>, ghost p: Params, ghost keys: seq<Block>, ctx: Context,
                     ghost f: Cbc.Cipher, k: nat, iv: array<byte>, input: array<byte>, output: array<byte>,
                     ghost x: seq<byte>, ghost iv0: seq<byte>, ghost out0: seq<byte>)
    requires StateOf(t, c, p, ctx, keys, ENCRYPT, f) == YES && Cbc.OnBlocks(f)
    requires (output as object) !in Objects(t, ctx) && (iv as object) !in Objects(t, ctx)
    requires iv.Length == 16 && iv != output && iv != input && |iv0| == 16
    requires k + 16 <= input.Length == |x| && k + 16 <= output.Length == |out0| && input[k..] == x[k..]
    requires Encrypted(f, iv0, x, k, out0, output[..], iv[..])
    modifies output, iv
    ensures StateOf(t, c, p, ctx, keys, ENCRYPT, f) == YES && input[k + 16..] == x[k + 16..]
    ensures Encrypted(f, iv0, x, k + 16, out0, output[..], iv[..])
  {
    EncryptStep(f, iv0, x, k, out0, output[..], iv[..]);
    TailKept(input[..], x, k, f(Cbc.XorBytes(x[k..k + 16], iv[..])));
    EncryptTurn(t, c, p, keys, ctx, f, k, iv, input, output);
  }

  method EncryptLoop(t: Tables, ghost c: AesRounds.Steps<Block>, ghost p: Params, ghost keys: seq<Block>, ctx: Context,
                     ghost f: Cbc.Cipher, length: nat, iv: array<byte>, input: array<byte>, output: array<byte>)
    requires StateOf(t, c, p, ctx, keys, ENCRYPT, f) == YES && Cbc.OnBlocks(f)
    requires (output as object) !in Objects(t, ctx) && (iv as object) !in Objects(t, ctx)
    requires iv.Length == 16 && iv != output && iv != input && length % 16 == 0 && length <= input.Length
    requires length <= output.Length
    modifies output, iv
    ensures Encrypted(f, old(iv[..]), old(input[..]), length, old(output[..]), output[..], iv[..])
  {
    hide Cbc.Encrypt, Cbc.LastBlock, Written, StateOf, Does;
    ghost var x, iv0, out0 := input[..], iv[..], output[..];
    var k := 0;
    NoneYet(f, iv0, x, out0);
    while k < length
      invariant k <= length && StateOf(t, c, p, ctx, keys, ENCRYPT, f) == YES
      invariant Encrypted(f, iv0, x, k, out0, output[..], iv[..])
      invariant input[k..] == x[k..]
    {
      assert k + 16 <= length;
      EncryptNext(t, c, p, keys, ctx, f, k, iv, input, output, x, iv0, out0);
      k := k + 16;
    }
  }

  method DecryptNext(t: Tables, ghost c: AesRounds.Steps<Block>, ghost p: Params, ghost keys: seq<Block>, ctx: Context,
                     ghost f: Cbc.Cipher, k: nat, iv: array<byte>, input: array<byte>, output: array<byte>,
                     ghost x: seq<byte>, ghost iv0: seq<byte>, ghost out0: seq<byte>)
    requires StateOf(t, c, p, ctx, keys, DECRYPT, f) == YES && Cbc.OnBlocks(f)
    requires (output as object) !in Objects(t, ctx) && (iv as object) !in Objects(t, ctx)
    requires iv.Length == 16 && iv != output && iv != input && |iv0| == 16
    requires k + 16 <= input.Length == |x| && k + 16 <= output.Length == |out0| && input[k..] == x[k..]
    requires Decrypted(f, iv0, x, k, out0, output[..], iv[..])
    modifies output, iv
    ensures StateOf(t, c, p, ctx, keys, DECRYPT, f) == YES && input[k + 16..] == x[k + 16..]
    ensures Decrypted(f, iv0, x, k + 16, out0, output[..], iv[..])
  {
    DecryptStep(f, iv0, x, k, out0, output[..], iv[..]);
    TailKept(input[..], x, k, Cbc.XorBytes(f(x[k..k + 16]), iv[..]));
    DecryptTurn(t, c, p, keys, ctx, f, k, iv, input, output);
  }

  method DecryptLoop(t: Tables, ghost c: AesRounds.Steps<Block>, ghost p: Params, ghost keys: seq<Block>, ctx: Context,
                     ghost f: Cbc.Cipher, length: nat, iv: array<byte>, input: array<byte>, output: array<byte>)
    requires StateOf(t, c, p, ctx, keys, DECRYPT, f) == YES && Cbc.OnBlocks(f)
    requires (output as object) !in Objects(t, ctx) && (iv as object) !in Objects(t, ctx)
    requires iv.Length == 16 && iv != output && iv != input && length % 16 == 0 && length <= input.Length
    requires length <= output.Length
    modifies output, iv
    ensures Decrypted(f, old(iv[..]), old(input[..]), length, old(output[..]), output[..], iv[..])
  {
    hide Cbc.Decrypt, Cbc.LastBlock, Written, StateOf, Does;
    ghost var x, iv0, out0 := input[..], iv[..], output[..];
    var k := 0;
    NoneYet(f, iv0, x, out0);
    while k < length
      invariant k <= length && StateOf(t, c, p, ctx, keys, DECRYPT, f) == YES
      invariant Decrypted(f, iv0, x, k, out0, output[..], iv[..])
      invariant input[k..] == x[k..]
    {
      assert k + 16 <= length;
      DecryptNext(t, c, p, keys, ctx, f, k, iv, input, output, x, iv0, out0);
      k := k + 16;
    }
  }

  // ---------- the two entry points ----------

  /** utils_aes_crypt_cbc. */
  method CryptCbc(t: Tables, ghost c: AesRounds.Steps<Block>, ghost p: Params, ghost keys: seq<Block>, ctx: Context,
                  ghost f: Cbc.Cipher, mode: Mode, length: nat, iv: array<byte>, input: array<byte>,
                  output: array<byte>)
    returns (ret: int)
    requires StateOf(t, c, p, ctx, keys, mode, f) == YES && Cbc.OnBlocks(f)
    requires (output as object) !in Objects(t, ctx) && (iv as object) !in Objects(t, ctx)
    requires iv.Length == 16 && iv != output && iv != input && length <= input.Length && length <= output.Length
    modifies output, iv
    ensures ret == if length % 16 != 0 then INVALID_INPUT_LENGTH else 0
    ensures ret != 0 ==> output[..] == old(output[..]) && iv[..] == old(iv[..])
    ensures ret == 0 && mode == ENCRYPT ==>
      Encrypted(f, old(iv[..]), old(input[..]), length, old(output[..]), output[..], iv[..])
    ensures ret == 0 && mode == DECRYPT ==>
      Decrypted(f, old(iv[..]), old(input[..]), length, old(output[..]), output[..], iv[..])
  {
    if length % 16 != 0 {
      return INVALID_INPUT_LENGTH;
    }
    if mode == DECRYPT {
      DecryptLoop(t, c, p, keys, ctx, f, length, iv, input, output);
    } else {
      EncryptLoop(t, c, p, keys, ctx, f, length, iv, input, output);
    }
    return 0;
  }

  ghost predicate KeySize(key: seq<byte>) { |key| in {16, 24, 32} }

  ghost function DecKeys(c: AesRounds.Steps<Block>, p: Params, key: seq<byte>): (keys: seq<Block>)
    requires KeySize(key)
    ensures |keys| == |key| / 4 + 7
  {
    AesRounds.DecKeys(c, EncKeys(p, key))
  }

  lemma MatchedLaws(p: Params) returns (c: AesRounds.Steps<Block>)
    requires Good(p)
    ensures Matches(c, p) && AesRounds.Laws(c)
  {
    c := StepsOf(p);
    StepsLaws(p);
  }

  lemma InverseAt(c: AesRounds.Steps<Block>, keys: seq<Block>, e: Cbc.Cipher, d: Cbc.Cipher, b: seq<byte>)
    requires AesRounds.Laws(c) && |b| == 16 && |keys| >= 2
    requires Does(e, ENCRYPT, c, keys) == YES && Does(d, DECRYPT, c, AesRounds.DecKeys(c, keys)) == YES
    ensures d(e(b)) == b
  {
    assert UseBytes(b) && UseBytes(EncryptBytes(c, keys, b));
    BytesRoundTrip(c, keys, b);
  }

  /** For every key of 128, 192 or 256 bits, decryption with the setkey_dec schedule undoes
      encryption with the setkey_enc schedule on every block. */
  lemma AesRoundTrip(c: AesRounds.Steps<Block>, p: Params, key: seq<byte>, e: Cbc.Cipher, d: Cbc.Cipher)
    requires AesRounds.Laws(c) && KeySize(key)
    requires Does(e, ENCRYPT, c, EncKeys(p, key)) == YES && Does(d, DECRYPT, c, DecKeys(c, p, key)) == YES
    ensures Cbc.Undoes(d, e)
  {
    var keys := EncKeys(p, key);
    forall b: seq<byte> {:trigger e(b)} | |b| == 16 ensures d(e(b)) == b {
      InverseAt(c, keys, e, d, b);
    }
  }

  function Zeros(n: nat): (z: seq<byte>)
    ensures |z| == n
  {
    seq(n, _ => 0)
  }

  /** One to sixteen zeros, up to the next multiple of sixteen. */
  function Padded(b: seq<byte>): (r: seq<byte>)
    ensures |r| % 16 == 0 && |b| < |r| <= |b| + 16 && r[..|b|] == b
  {
    b + Zeros(16 - |b| % 16)
  }

  /** Reading back what was encrypted gives the padded data exactly when the bytes that were
      encrypted after the data were zeros. */
  lemma PaddingReadBack(e: Cbc.Cipher, d: Cbc.Cipher, iv: seq<byte>, data: seq<byte>, x: seq<byte>)
    requires Cbc.OnBlocks(e) && Cbc.OnBlocks(d) && Cbc.Undoes(d, e)
    requires |iv| == 16 && |x| == |Padded(data)| && x[..|data|] == data
    ensures Cbc.Decrypt(d, iv, Cbc.Encrypt(e, iv, x)) == Padded(data)
       <==> forall i :: |data| <= i < |x| ==> x[i] == 0
  {
    Cbc.DecryptEncrypt(e, d, iv, x);
    if forall i :: |data| <= i < |x| ==> x[i] == 0 {
      assert x == data + x[|data|..];
      assert x[|data|..] == Zeros(16 - |data| % 16);
    }
  }

  /** memcpy and memset: the data, then padlen zeros. */
  method Pad(pInData: array<byte>, datalen: nat, pOutData: array<byte>, padlen: nat)
    requires datalen <= pInData.Length && datalen + padlen <= pOutData.Length
    modifies pOutData
    ensures pOutData[..] == Written(old(pOutData[..]), 0, old(pInData[..datalen]) + Zeros(padlen))
  {
    ghost var out0, in0 := pOutData[..], pInData[..];
    for i := 0 to datalen
      invariant forall j :: 0 <= j < i ==> pOutData[j] == in0[j]
      invariant forall j :: i <= j < pOutData.Length ==> pOutData[j] == out0[j]
      invariant forall j :: i <= j < pInData.Length ==> pInData[j] == in0[j]
    {
      pOutData[i] := pInData[i];
    }
    for i := 0 to padlen
      invariant pOutData[..datalen] == in0[..datalen]
      invariant forall j :: datalen <= j < datalen + i ==> pOutData[j] == 0
      invariant forall j :: datalen + i <= j < pOutData.Length ==> pOutData[j] == out0[j]
    {
      pOutData[datalen + i] := 0;
    }
  }

  // The bytes utils_aes_cbc encrypts: the padding goes to the output buffer, the input buffer is
  // encrypted, so the padding takes part only where the two are one.
  function Taken(inPlace: bool, input: seq<byte>, datalen: nat): seq<byte>
    requires datalen <= |input| && (inPlace || |Padded(input[..datalen])| <= |input|)
  {
    var x := Padded(input[..datalen]);
    if inPlace then x else input[..|x|]
  }

  method KeyForEncryption(t: Tables, ghost c: AesRounds.Steps<Block>, ghost p: Params, ghost f: Cbc.Cipher,
                          ctx: Context, key: array<byte>, keybits: nat)
    returns (ret: int)
    requires t.Hold(p) && Good(p) && AddsByXor(p.r) && Matches(c, p) && ctx.buf !in t.Words() && ctx.buf.Length == 68
    requires KeyBits(keybits) ==>
      key.Length == keybits / 8 && KeySize(key[..]) && Does(f, ENCRYPT, c, EncKeys(p, key[..])) == YES
    modifies ctx, ctx.buf
    ensures ret == 0 <==> KeyBits(keybits)
    ensures ret == 0 ==> StateOf(t, c, p, ctx, EncKeys(p, key[..]), ENCRYPT, f) == YES
  {
    ret := SetkeyEnc(t, p, ctx, key, keybits);
    if ret == 0 {
      KeysHeld(KeySchedule(p, key[..]), ctx.buf, ctx.nr);
    }
  }

  method KeyForDecryption(t: Tables, ghost c: AesRounds.Steps<Block>, ghost p: Params, ghost f: Cbc.Cipher,
                          ctx: Context, key: array<byte>, keybits: nat)
    returns (ret: int)
    requires t.Hold(p) && Good(p) && AddsByXor(p.r) && Matches(c, p) && ctx.buf !in t.Words() && ctx.buf.Length == 68
    requires KeyBits(keybits) ==>
      key.Length == keybits / 8 && KeySize(key[..]) && Does(f, DECRYPT, c, DecKeys(c, p, key[..])) == YES
    modifies ctx, ctx.buf
    ensures ret == 0 <==> KeyBits(keybits)
    ensures ret == 0 ==> StateOf(t, c, p, ctx, DecKeys(c, p, key[..]), DECRYPT, f) == YES
  {
    ret := SetkeyDec(t, c, p, ctx, key, keybits);
  }

  ghost predicate Apart(t: Tables, input: array<byte>, output: array<byte>, iv: array<byte>) {
    && iv.Length == 16 && iv != output && iv != input
    && (output as object) !in TableObjects(t) && (iv as object) !in TableObjects(t)
  }

  /** The zero padding of utils_aes_cbc, seen from the buffer that is encrypted next. */
  method PadOutput(pInData: array<byte>, datalen: nat, pOutData: array<byte>) returns (n: nat)
    requires datalen <= pInData.Length && datalen + 16 <= pOutData.Length
    requires |Padded(pInData[..datalen])| <= pInData.Length
    modifies pOutData
    ensures n == |Padded(old(pInData[..datalen]))| <= pInData.Length && n <= pOutData.Length
    ensures pInData[..n] == Taken(pInData == pOutData, old(pInData[..]), datalen)
  {
    var padlen := 16 - datalen % 16;
    ghost var in0 := pInData[..];
    assert in0[..datalen] == pInData[..datalen];
    Pad(pInData, datalen, pOutData, padlen);
    n := datalen + padlen;
    assert pInData != pOutData ==> pInData[..] == in0;
  }

  lemma EncryptedPrefix(f: Cbc.Cipher, iv0: seq<byte>, x: seq<byte>, n: nat, out0: seq<byte>, out: seq<byte>,
                        iv: seq<byte>)
    requires Cbc.OnBlocks(f) && |iv0| == 16 && Encrypted(f, iv0, x, n, out0, out, iv)
    ensures var y := Cbc.Encrypt(f, iv0, x[..n]); |y| == n <= |out| && out[..n] == y && iv == Cbc.LastBlock(iv0, y)
  {}

  lemma DecryptedPrefix(f: Cbc.Cipher, iv0: seq<byte>, y: seq<byte>, n: nat, out0: seq<byte>, out: seq<byte>,
                        iv: seq<byte>)
    requires Cbc.OnBlocks(f) && |iv0| == 16 && Decrypted(f, iv0, y, n, out0, out, iv)
    ensures var x := Cbc.Decrypt(f, iv0, y[..n]); |x| == n <= |out| && out[..n] == x && iv == Cbc.LastBlock(iv0, y[..n])
  {}

  method RunEncrypt(t: Tables, ghost c: AesRounds.Steps<Block>, ghost p: Params, ghost keys: seq<Block>, ctx: Context,
                    ghost e: Cbc.Cipher,
                    n: nat, iv: array<byte>, input: array<byte>, output: array<byte>)
    requires StateOf(t, c, p, ctx, keys, ENCRYPT, e) == YES && Cbc.OnBlocks(e)
    requires (output as object) !in Objects(t, ctx) && (iv as object) !in Objects(t, ctx) && n % 16 == 0
    requires iv.Length == 16 && iv != output && iv != input && n <= input.Length && n <= output.Length
    modifies output, iv
    ensures var y := Cbc.Encrypt(e, old(iv[..]), old(input[..n]));
      |y| == n && output[..n] == y && iv[..] == Cbc.LastBlock(old(iv[..]), y)
  {
    ghost var iv0, x, out0 := iv[..], input[..], output[..];
    var ret := CryptCbc(t, c, p, keys, ctx, e, ENCRYPT, n, iv, input, output);
    EncryptedPrefix(e, iv0, x, n, out0, output[..], iv[..]);
    assert x[..n] == old(input[..n]);
  }

  /** The encrypting half of utils_aes_cbc. */
  method EncryptPadded(t: Tables, ghost c: AesRounds.Steps<Block>, ghost p: Params, ghost e: Cbc.Cipher,
                       pInData: array<byte>, datalen: nat, pOutData: array<byte>,
                       outBuffLen: nat, pKey: array<byte>, keybits: nat, iv: array<byte>)
    returns (ret: int)
    requires t.Hold(p) && Good(p) && AddsByXor(p.r) && Matches(c, p) && Apart(t, pInData, pOutData, iv)
    requires Cbc.OnBlocks(e)
    requires KeyBits(keybits) ==>
      pKey.Length == keybits / 8 && KeySize(pKey[..]) && Does(e, ENCRYPT, c, EncKeys(p, pKey[..])) == YES
    requires pKey != pOutData && pKey != iv
    requires datalen <= pInData.Length && outBuffLen <= pOutData.Length
    requires KeyBits(keybits) && datalen + 16 <= outBuffLen ==> |Padded(pInData[..datalen])| <= pInData.Length
    modifies pOutData, iv
    ensures ret == if KeyBits(keybits) && datalen + 16 <= outBuffLen then 0 else FAILURE
    ensures ret != 0 ==> pOutData[..] == old(pOutData[..]) && iv[..] == old(iv[..])
    ensures ret == 0 ==> var x := Taken(pInData == pOutData, old(pInData[..]), datalen);
      var y := Cbc.Encrypt(e, old(iv[..]), x);
      |y| == |x| <= pOutData.Length && pOutData[..|x|] == y && iv[..] == Cbc.LastBlock(old(iv[..]), y)
  {
    hide Cbc.Encrypt, Cbc.LastBlock, Does, StateOf;
    var ctx := new Context();
    ret := KeyForEncryption(t, c, p, e, ctx, pKey, keybits);
    if ret != 0 {
      return FAILURE;
    }
    if outBuffLen < datalen + 16 {
      return FAILURE;
    }
    ghost var keys := EncKeys(p, pKey[..]);
    var n := PadOutput(pInData, datalen, pOutData);
    RunEncrypt(t, c, p, keys, ctx, e, n, iv, pInData, pOutData);
    ret := 0;
  }

  method RunDecrypt(t: Tables, ghost c: AesRounds.Steps<Block>, ghost p: Params, ghost keys: seq<Block>, ctx: Context,
                    ghost d: Cbc.Cipher,
                    n: nat, iv: array<byte>, input: array<byte>, output: array<byte>)
    returns (ret: int)
    requires StateOf(t, c, p, ctx, keys, DECRYPT, d) == YES && Cbc.OnBlocks(d)
    requires (output as object) !in Objects(t, ctx) && (iv as object) !in Objects(t, ctx)
    requires iv.Length == 16 && iv != output && iv != input && n <= input.Length && n <= output.Length
    modifies output, iv
    ensures ret == 0 <==> n % 16 == 0
    ensures ret != 0 ==> output[..] == old(output[..]) && iv[..] == old(iv[..])
    ensures ret == 0 ==> var x := Cbc.Decrypt(d, old(iv[..]), old(input[..n]));
      |x| == n && output[..n] == x && iv[..] == Cbc.LastBlock(old(iv[..]), old(input[..n]))
  {
    ghost var iv0, y, out0 := iv[..], input[..], output[..];
    ret := CryptCbc(t, c, p, keys, ctx, d, DECRYPT, n, iv, input, output);
    if ret == 0 {
      DecryptedPrefix(d, iv0, y, n, out0, output[..], iv[..]);
      assert y[..n] == old(input[..n]);
    }
  }

  /** The decrypting half of utils_aes_cbc; outBuffLen plays no part in it. */
  method DecryptData(t: Tables, ghost c: AesRounds.Steps<Block>, ghost p: Params, ghost d: Cbc.Cipher,
                     pInData: array<byte>, datalen: nat, pOutData: array<byte>, pKey: array<byte>, keybits: nat,
                     iv: array<byte>)
    returns (ret: int)
    requires t.Hold(p) && Good(p) && AddsByXor(p.r) && Matches(c, p) && Apart(t, pInData, pOutData, iv)
    requires Cbc.OnBlocks(d)
    requires KeyBits(keybits) ==>
      pKey.Length == keybits / 8 && KeySize(pKey[..]) && Does(d, DECRYPT, c, DecKeys(c, p, pKey[..])) == YES
    requires pKey != pOutData && pKey != iv && datalen <= pInData.Length && datalen <= pOutData.Length
    modifies pOutData, iv
    ensures ret == if KeyBits(keybits) && datalen % 16 == 0 then 0 else FAILURE
    ensures ret != 0 ==> pOutData[..] == old(pOutData[..]) && iv[..] == old(iv[..])
    ensures ret == 0 ==> var x := Cbc.Decrypt(d, old(iv[..]), old(pInData[..datalen]));
      |x| == datalen && pOutData[..datalen] == x && iv[..] == Cbc.LastBlock(old(iv[..]), old(pInData[..datalen]))
  {
    hide Cbc.Decrypt, Cbc.LastBlock, Does, StateOf;
    var ctx := new Context();
    ret := KeyForDecryption(t, c, p, d, ctx, pKey, keybits);
    if ret != 0 {
      return FAILURE;
    }
    ghost var keys := DecKeys(c, p, pKey[..]);
    ret := RunDecrypt(t, c, p, keys, ctx, d, datalen, iv, pInData, pOutData);
    if ret != 0 {
      return FAILURE;
    }
  }

  /** From an empty table memory to the data again: aes_gen_tables, both key schedules, in-place
      CBC encryption and in-place decryption with the same vector give the data and its zeros. */
  method SealAndOpen(buf: array<byte>, datalen: nat, key: array<byte>, keybits: nat, iv1: array<byte>, iv2: array<byte>)
    requires KeyBits(keybits) && key.Length == keybits / 8 && iv1.Length == iv2.Length == 16 && iv1[..] == iv2[..]
    requires buf !in {key, iv1, iv2} && key !in {iv1, iv2} && iv1 != iv2 && datalen + 16 <= buf.Length
    modifies buf, iv1, iv2
    ensures var x := Padded(old(buf[..datalen])); buf[..|x|] == x
    ensures iv1[..] == iv2[..]
  {
    hide Cbc.Encrypt, Cbc.Decrypt, Cbc.LastBlock, Does;
    var t, p := AesGen.InitTables();
    ghost var c := MatchedLaws(p);
    ghost var e := CipherOf(ENCRYPT, c, EncKeys(p, key[..]));
    ghost var d := CipherOf(DECRYPT, c, DecKeys(c, p, key[..]));
    ghost var x := Padded(buf[..datalen]);
    var n := datalen + (16 - datalen % 16);
    ghost var iv := iv1[..];
    var r := EncryptPadded(t, c, p, e, buf, datalen, buf, buf.Length, key, keybits, iv1);
    r := DecryptData(t, c, p, d, buf, n, buf, key, keybits, iv2);
    ReadBack(c, p, key[..], e, d, iv, x);
  }

  lemma ReadBack(c: AesRounds.Steps<Block>, p: Params, key: seq<byte>, e: Cbc.Cipher, d: Cbc.Cipher, iv: seq<byte>,
                 x: seq<byte>)
    requires AesRounds.Laws(c) && KeySize(key) && Cbc.OnBlocks(e) && Cbc.OnBlocks(d) && |iv| == 16 && |x| % 16 == 0
    requires Does(e, ENCRYPT, c, EncKeys(p, key)) == YES && Does(d, DECRYPT, c, DecKeys(c, p, key)) == YES
    ensures Cbc.Decrypt(d, iv, Cbc.Encrypt(e, iv, x)) == x && |Cbc.Encrypt(e, iv, x)| == |x|
  {
    AesRoundTrip(c, p, key, e, d);
    Cbc.Lengths(e, iv, x);
    Cbc.DecryptEncrypt(e, d, iv, x);
  }
}
