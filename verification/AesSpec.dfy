/** What the logarithm tables of utils_aes.c compute: multiplication in GF(2^8), the inverse
    in it, and the two S-boxes of sections 5.1.1 and 5.3.2 of FIPS 197. */
module AesSpec {
  import opened Orbit
  import opened AesField
  import opened AesAlgebra

  // ---------- multiplication by logarithms ----------

  /** The MUL macro of the table generator. */
  ghost function Mul(x: byte, y: byte): byte {
    if x != 0 && y != 0 then Exp((Log(x) + Log(y)) % 255) else 0
  }

  lemma {:induction false} IterZero(n: nat)
    ensures Iter(Mul3, 0, n) == 0
  {
    if n > 0 {
      IterZero(n - 1);
    }
  }

  /** Multiplying by the j-th power of three is j multiplications by three. */
  lemma MulIsIter(x: byte, y: byte)
    requires x != 0
    ensures Mul(x, y) == Iter(Mul3, y, Log(x))
  {
    if y == 0 {
      IterZero(Log(x));
    } else {
      IterAdd(Mul3, 1, Log(y), Log(x));
      ExpWraps(Log(x) + Log(y));
    }
  }

  lemma {:induction false} IterLinear(f: byte -> byte, x: byte, y: byte, n: nat)
    requires Linear(f)
    ensures Iter(f, x ^ y, n) == Iter(f, x, n) ^ Iter(f, y, n)
  {
    if n > 0 {
      IterLinear(f, x, y, n - 1);
    }
  }

  lemma MulCommutes(x: byte, y: byte)
    ensures Mul(x, y) == Mul(y, x)
  {}

  /** The logarithm tables multiply in the field: MUL distributes over exclusive or. */
  lemma MulDistributes(x: byte, y: byte, z: byte)
    ensures Mul(x, y ^ z) == Mul(x, y) ^ Mul(x, z)
  {
    if x != 0 {
      MulIsIter(x, y); MulIsIter(x, z); MulIsIter(x, y ^ z);
      Mul3IsLinear();
      IterLinear(Mul3, y, z, Log(x));
    }
  }

  lemma MulSum(y: byte, z: byte, x: byte)
    ensures Mul(y ^ z, x) == Mul(y, x) ^ Mul(z, x)
  {
    MulDistributes(x, y, z);
    MulCommutes(x, y); MulCommutes(x, z); MulCommutes(x, y ^ z);
  }

  lemma MulOneAndThree(x: byte)
    ensures Mul(1, x) == x && Mul(3, x) == Mul3(x)
  {
    Exp255();
    LogUnique(1, 255);
    assert Exp(1) == 3;
    LogUnique(3, 1);
    MulIsIter(1, x); MulIsIter(3, x);
    if x != 0 {
      ExpWraps(Log(x));
    }
  }

  lemma MulTwo(x: byte)
    ensures Mul(2, x) == XTime(x)
  {
    MulOneAndThree(x);
    MulSum(1, 3, x);
    assert (1 as byte) ^ 3 == 2;
    assert x ^ Mul3(x) == XTime(x);
  }

  lemma MulAssociates(x: byte, y: byte, z: byte)
    requires x != 0 && y != 0
    ensures Mul(Mul(x, y), z) == Mul(x, Mul(y, z))
  {
    MulIsIter(x, Mul(y, z)); MulIsIter(y, z);
    IterAdd(Mul3, z, Log(y), Log(x));
    MulLog(x, y);
    if z == 0 {
      IterZero(Log(y) + Log(x));
    } else {
      IterAdd(Mul3, 1, Log(z), Log(y) + Log(x));
      ExpWraps(Log(Mul(x, y)) + Log(z));
      ExpCongruent(Log(Mul(x, y)), Log(x) + Log(y), Log(z));
    }
  }

  lemma MulLog(x: byte, y: byte)
    requires x != 0 && y != 0
    ensures Mul(x, y) != 0 && Exp(Log(Mul(x, y))) == Exp(Log(x) + Log(y))
  {
    ExpWraps(Log(x) + Log(y));
    ExpNonZero(Log(x) + Log(y));
  }

  lemma ExpCongruent(i: nat, j: nat, k: nat)
    requires Exp(i) == Exp(j)
    ensures Exp(k + i) == Exp(k + j)
  {
    IterAdd(Mul3, 1, i, k);
    IterAdd(Mul3, 1, j, k);
  }

  // ---------- the ring of bytes ----------

  function Xor(x: byte, y: byte): byte { x ^ y }

  const F8: Ring<byte> := Ring(Xor, 0, XTime)

  lemma XorAssociates(x: byte, y: byte, z: byte)
    ensures Xor(Xor(x, y), z) == Xor(x, Xor(y, z))
  {}

  lemma XorCommutes(x: byte, y: byte)
    ensures Xor(x, y) == Xor(y, x) && Xor(x, 0) == x && Xor(x, x) == 0
  {}

  lemma XTimeOfXor(x: byte, y: byte)
    ensures XTime(Xor(x, y)) == Xor(XTime(x), XTime(y))
  {
    XTimeLinear(x, y);
  }

  lemma F8Laws()
    ensures Laws(F8)
  {
    assert Associative(F8) by {
      forall x, y, z {:trigger Use3(x, y, z)} ensures F8.add(F8.add(x, y), z) == F8.add(x, F8.add(y, z)) {
        XorAssociates(x, y, z);
      }
    }
    assert Additive(F8) by {
      forall x, y {:trigger Use2(x, y)}
        ensures F8.add(x, y) == F8.add(y, x) && F8.dbl(F8.add(x, y)) == F8.add(F8.dbl(x), F8.dbl(y))
      {
        XorCommutes(x, y);
        XTimeOfXor(x, y);
      }
    }
    assert SelfInverse(F8) by {
      forall x {:trigger Use1(x)} ensures F8.add(x, F8.zero) == x && F8.add(x, x) == F8.zero { XorCommutes(x, x); }
    }
  }

  lemma TopAndLow(k: byte)
    ensures k == (k & 1) ^ XTime(k >> 1)
    ensures k & 1 == 1 || k & 1 == 0
  {}

  /** Adding logarithms multiplies polynomials modulo x^8 + x^4 + x^3 + x + 1: for every pair of
      operands the MUL macro is repeated doubling and adding. */
  lemma {:induction false} MulIsTimes(k: byte, x: byte)
    ensures Mul(k, x) == Times(F8, k, x)
    decreases k
  {
    if k != 0 {
      Halves(k, k);
      var h := k >> 1;
      MulIsTimes(h, XTime(x));
      MulStep(k, x);
    }
  }

  lemma MulStep(k: byte, x: byte)
    ensures Mul(k, x) == Xor(if k & 1 == 1 then x else 0, Mul(k >> 1, XTime(x)))
  {
    var h := k >> 1;
    TopAndLow(k);
    MulSum(k & 1, XTime(h), x);
    MulOneAndThree(x);
    MulTwo(h); MulTwo(x);
    if h != 0 {
      MulCommutes(2, h);
      MulAssociates(h, 2, x);
    } else {
      assert XTime(0) == 0;
    }
  }

  // ---------- substitution ----------

  /** pow[255 - log[x]], the multiplicative inverse; zero stays zero. */
  ghost function Inv(x: byte): byte { if x == 0 then 0 else Exp(255 - Log(x)) }

  lemma InvLog(x: byte)
    requires x != 0
    ensures Inv(x) != 0
    ensures Log(Inv(x)) == if Log(x) == 255 then 255 else 255 - Log(x)
  {
    var k := 255 - Log(x);
    ExpNonZero(k);
    if k == 0 { Exp255(); LogUnique(1, 255); } else { LogUnique(Inv(x), k); }
  }

  /** Section 5.1.1 of FIPS 197: the inverse is the inverse of the field. */
  lemma InvIsInverse(x: byte)
    ensures x != 0 ==> Mul(x, Inv(x)) == 1
    ensures Inv(Inv(x)) == x
  {
    if x != 0 {
      InvLog(x);
      Exp255();
    }
  }

  function RotL(x: byte): byte { (x << 1) | (x >> 7) }

  // The four rotate-and-add steps of the table generator.
  function Affine(x: byte): byte {
    var r1 := RotL(x);
    var r2 := RotL(r1);
    var r3 := RotL(r2);
    var r4 := RotL(r3);
    x ^ r1 ^ r2 ^ r3 ^ r4 ^ 0x63
  }

  // Section 5.3.2 of FIPS 197.
  function InvAffine(y: byte): byte {
    ((y << 1) | (y >> 7)) ^ ((y << 3) | (y >> 5)) ^ ((y << 6) | (y >> 2)) ^ 0x05
  }

  lemma AffineInverse(x: byte)
    ensures InvAffine(Affine(x)) == x && Affine(InvAffine(x)) == x
  {}

  ghost function FSb(x: byte): byte { Affine(Inv(x)) }
  ghost function RSb(y: byte): byte { Inv(InvAffine(y)) }

  /** The two S-boxes undo each other, as the generator's RSb[FSb[i]] = i needs. */
  lemma SboxInverse(x: byte)
    ensures RSb(FSb(x)) == x && FSb(RSb(x)) == x
  {
    AffineInverse(Inv(x)); AffineInverse(x);
    InvIsInverse(x); InvIsInverse(InvAffine(x));
  }
}
