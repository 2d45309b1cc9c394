/** The algebra MixColumns needs: a set with an addition in which every element is its own
    inverse, and an additive doubling.  Nothing here knows that the elements are bytes. */
module AesAlgebra {
  datatype Col<A> = Col(a: A, b: A, c: A, d: A)

  datatype Ring<!A> = Ring(add: (A, A) -> A, zero: A, dbl: A -> A)

  // The laws are stated to fire only where one of the lemmas below asks for them.
  ghost predicate Use1<A>(x: A) { true }
  ghost predicate Use2<A>(x: A, y: A) { true }
  ghost predicate Use3<A>(x: A, y: A, z: A) { true }

  ghost predicate Associative<A(!new)>(r: Ring<A>) {
    forall x, y, z {:trigger Use3(x, y, z)} :: Use3(x, y, z) ==> r.add(r.add(x, y), z) == r.add(x, r.add(y, z))
  }
  ghost predicate Additive<A(!new)>(r: Ring<A>) {
    forall x, y {:trigger Use2(x, y)} ::
      Use2(x, y) ==> r.add(x, y) == r.add(y, x) && r.dbl(r.add(x, y)) == r.add(r.dbl(x), r.dbl(y))
  }
  ghost predicate SelfInverse<A(!new)>(r: Ring<A>) {
    forall x {:trigger Use1(x)} :: Use1(x) ==> r.add(x, r.zero) == x && r.add(x, x) == r.zero
  }
  ghost predicate Laws<A(!new)>(r: Ring<A>) { Associative(r) && Additive(r) && SelfInverse(r) }

  lemma Zero<A(!new)>(r: Ring<A>, x: A)
    requires Laws(r)
    ensures r.add(x, r.zero) == x && r.add(r.zero, x) == x && r.add(x, x) == r.zero
  { assert Use1(x) && Use2(x, r.zero); }

  lemma DblZero<A(!new)>(r: Ring<A>)
    requires Laws(r)
    ensures r.dbl(r.zero) == r.zero
  { assert Use1(r.zero) && Use2(r.zero, r.zero) && Use1(r.dbl(r.zero)); }

  lemma Dbl<A(!new)>(r: Ring<A>, x: A, y: A)
    requires Laws(r)
    ensures r.dbl(r.add(x, y)) == r.add(r.dbl(x), r.dbl(y))
  { assert Use2(x, y); }

  lemma Swap<A(!new)>(r: Ring<A>, a: A, b: A, c: A, d: A)
    requires Laws(r)
    ensures r.add(r.add(a, b), r.add(c, d)) == r.add(r.add(a, c), r.add(b, d))
  {
    assert Use3(a, b, r.add(c, d)) && Use3(b, c, d) && Use2(b, c);
    assert Use3(c, b, d) && Use3(a, c, r.add(b, d));
  }

  /** p times x, where bit i of p stands for i doublings; no reduction takes place. */
  function Times<A>(r: Ring<A>, p: bv8, x: A): A {
    if p == 0 then r.zero
    else r.add(if p & 1 == 1 then x else r.zero, Times(r, p >> 1, r.dbl(x)))
  }

  lemma {:induction false} TimesAdds<A(!new)>(r: Ring<A>, p: bv8, x: A, y: A)
    requires Laws(r)
    ensures Times(r, p, r.add(x, y)) == r.add(Times(r, p, x), Times(r, p, y))
    decreases p
  {
    Zero(r, r.zero);
    if p != 0 {
      Dbl(r, x, y);
      TimesAdds(r, p >> 1, r.dbl(x), r.dbl(y));
      Swap(r, if p & 1 == 1 then x else r.zero, if p & 1 == 1 then y else r.zero,
           Times(r, p >> 1, r.dbl(x)), Times(r, p >> 1, r.dbl(y)));
    }
  }

  lemma LowBit(p: bv8, q: bv8)
    ensures (p >> 1) ^ (q >> 1) == (p ^ q) >> 1
    ensures (p ^ q) & 1 == 1 <==> (p & 1 == 1) != (q & 1 == 1)
  {}

  lemma Halves(p: bv8, q: bv8)
    requires p != 0
    ensures p >> 1 < p
  {}

  function Bit<A>(r: Ring<A>, p: bv8, x: A): A { if p & 1 == 1 then x else r.zero }

  lemma BitSum<A(!new)>(r: Ring<A>, p: bv8, q: bv8, x: A)
    requires Laws(r)
    ensures r.add(Bit(r, p, x), Bit(r, q, x)) == Bit(r, p ^ q, x)
  {
    LowBit(p, q);
    Zero(r, x); Zero(r, r.zero);
  }

  lemma {:induction false} TimesSum<A(!new)>(r: Ring<A>, p: bv8, q: bv8, x: A)
    requires Laws(r)
    ensures Times(r, p ^ q, x) == r.add(Times(r, p, x), Times(r, q, x))
    decreases p, q
  {
    if p == 0 {
      assert p ^ q == q;
      Zero(r, Times(r, q, x));
    } else if q == 0 {
      assert p ^ q == p;
      Zero(r, Times(r, p, x));
    } else {
      Halves(p, q);
      TimesSum(r, p >> 1, q >> 1, r.dbl(x));
      TimesSumStep(r, p, q, x, Times(r, p >> 1, r.dbl(x)), Times(r, q >> 1, r.dbl(x)));
    }
  }

  lemma TimesSumStep<A(!new)>(r: Ring<A>, p: bv8, q: bv8, x: A, s: A, t: A)
    requires Laws(r)
    requires s == Times(r, p >> 1, r.dbl(x)) && t == Times(r, q >> 1, r.dbl(x))
    requires Times(r, (p >> 1) ^ (q >> 1), r.dbl(x)) == r.add(s, t)
    ensures Times(r, p ^ q, x) == r.add(Times(r, p, x), Times(r, q, x))
  {
    LowBit(p, q);
    TimesUnfold(r, p, x); TimesUnfold(r, q, x); TimesUnfold(r, p ^ q, x);
    BitSum(r, p, q, x);
    Swap(r, Bit(r, p, x), s, Bit(r, q, x), t);
  }

  lemma TimesUnfold<A(!new)>(r: Ring<A>, p: bv8, x: A)
    requires Laws(r)
    ensures Times(r, p, x) == r.add(Bit(r, p, x), Times(r, p >> 1, r.dbl(x)))
  {
    Zero(r, r.zero);
  }

  lemma {:induction false} TimesDbl<A(!new)>(r: Ring<A>, p: bv8, x: A)
    requires Laws(r)
    ensures r.dbl(Times(r, p, x)) == Times(r, p, r.dbl(x))
    decreases p
  {
    DblZero(r);
    if p != 0 {
      TimesDbl(r, p >> 1, r.dbl(x));
      Dbl(r, if p & 1 == 1 then x else r.zero, Times(r, p >> 1, r.dbl(x)));
    }
  }

  lemma TimesShift<A(!new)>(r: Ring<A>, p: bv8, x: A)
    requires Laws(r) && p < 0x80
    ensures r.dbl(Times(r, p, x)) == Times(r, p << 1, x)
  {
    TimesDbl(r, p, x);
    TimesUnfold(r, p << 1, x);
    assert (p << 1) >> 1 == p && (p << 1) & 1 == 0;
    Zero(r, Times(r, p, r.dbl(x)));
  }

  // ---------- linear combinations of the four elements of a column ----------

  function Sum4<A>(r: Ring<A>, a: A, b: A, c: A, d: A): A { r.add(r.add(a, b), r.add(c, d)) }

  lemma Sum4Adds<A(!new)>(r: Ring<A>, x: Col<A>, y: Col<A>)
    requires Laws(r)
    ensures r.add(Sum4(r, x.a, x.b, x.c, x.d), Sum4(r, y.a, y.b, y.c, y.d))
         == Sum4(r, r.add(x.a, y.a), r.add(x.b, y.b), r.add(x.c, y.c), r.add(x.d, y.d))
  {
    Swap(r, r.add(x.a, x.b), r.add(x.c, x.d), r.add(y.a, y.b), r.add(y.c, y.d));
    Swap(r, x.a, x.b, y.a, y.b);
    Swap(r, x.c, x.d, y.c, y.d);
  }

  /** One row of a matrix product: the elements of x with the coefficients k. */
  function Comb<A>(r: Ring<A>, k: Col<bv8>, x: Col<A>): A {
    Sum4(r, Times(r, k.a, x.a), Times(r, k.b, x.b), Times(r, k.c, x.c), Times(r, k.d, x.d))
  }

  function AddCol<A>(r: Ring<A>, x: Col<A>, y: Col<A>): Col<A> {
    Col(r.add(x.a, y.a), r.add(x.b, y.b), r.add(x.c, y.c), r.add(x.d, y.d))
  }

  function XorCol(p: Col<bv8>, q: Col<bv8>): Col<bv8> { Col(p.a ^ q.a, p.b ^ q.b, p.c ^ q.c, p.d ^ q.d) }

  function Shifted(p: Col<bv8>): Col<bv8> { Col(p.a << 1, p.b << 1, p.c << 1, p.d << 1) }

  lemma CombOfSum<A(!new)>(r: Ring<A>, k: Col<bv8>, x: Col<A>, y: Col<A>)
    requires Laws(r)
    ensures Comb(r, k, AddCol(r, x, y)) == r.add(Comb(r, k, x), Comb(r, k, y))
  {
    TimesAdds(r, k.a, x.a, y.a); TimesAdds(r, k.b, x.b, y.b);
    TimesAdds(r, k.c, x.c, y.c); TimesAdds(r, k.d, x.d, y.d);
    Sum4Adds(r, Col(Times(r, k.a, x.a), Times(r, k.b, x.b), Times(r, k.c, x.c), Times(r, k.d, x.d)),
                Col(Times(r, k.a, y.a), Times(r, k.b, y.b), Times(r, k.c, y.c), Times(r, k.d, y.d)));
  }

  lemma CombSum<A(!new)>(r: Ring<A>, p: Col<bv8>, q: Col<bv8>, x: Col<A>)
    requires Laws(r)
    ensures Comb(r, XorCol(p, q), x) == r.add(Comb(r, p, x), Comb(r, q, x))
  {
    TimesSum(r, p.a, q.a, x.a); TimesSum(r, p.b, q.b, x.b);
    TimesSum(r, p.c, q.c, x.c); TimesSum(r, p.d, q.d, x.d);
    Sum4Adds(r, Col(Times(r, p.a, x.a), Times(r, p.b, x.b), Times(r, p.c, x.c), Times(r, p.d, x.d)),
                Col(Times(r, q.a, x.a), Times(r, q.b, x.b), Times(r, q.c, x.c), Times(r, q.d, x.d)));
  }

  ghost predicate Below(p: Col<bv8>, n: bv8) { p.a < n && p.b < n && p.c < n && p.d < n }

  lemma CombDbl<A(!new)>(r: Ring<A>, p: Col<bv8>, x: Col<A>)
    requires Laws(r) && Below(p, 0x80)
    ensures r.dbl(Comb(r, p, x)) == Comb(r, Shifted(p), x)
  {
    TimesShift(r, p.a, x.a); TimesShift(r, p.b, x.b); TimesShift(r, p.c, x.c); TimesShift(r, p.d, x.d);
    Dbl(r, r.add(Times(r, p.a, x.a), Times(r, p.b, x.b)), r.add(Times(r, p.c, x.c), Times(r, p.d, x.d)));
    Dbl(r, Times(r, p.a, x.a), Times(r, p.b, x.b));
    Dbl(r, Times(r, p.c, x.c), Times(r, p.d, x.d));
  }

  const None: Col<bv8> := Col(0, 0, 0, 0)

  lemma CombNone<A(!new)>(r: Ring<A>, x: Col<A>)
    requires Laws(r)
    ensures Comb(r, None, x) == r.zero
  {
    Zero(r, r.zero);
  }

  function If(b: bool, p: Col<bv8>): Col<bv8> { if b then p else None }

  /** The polynomial product of the row p by k, both of degree at most three. */
  function Scaled(k: bv8, p: Col<bv8>): Col<bv8> {
    XorCol(If(k & 1 == 1, p), XorCol(If((k >> 1) & 1 == 1, Shifted(p)),
      XorCol(If((k >> 2) & 1 == 1, Shifted(Shifted(p))),
        If((k >> 3) & 1 == 1, Shifted(Shifted(Shifted(p)))))))
  }

  lemma IfTimes<A(!new)>(r: Ring<A>, k: bv8, p: Col<bv8>, x: Col<A>)
    requires Laws(r)
    ensures Bit(r, k, Comb(r, p, x)) == Comb(r, If(k & 1 == 1, p), x)
  {
    CombNone(r, x);
  }

  lemma TimesComb<A(!new)>(r: Ring<A>, k: bv8, p: Col<bv8>, x: Col<A>)
    requires Laws(r) && k < 0x10 && Below(p, 0x10)
    ensures Times(r, k, Comb(r, p, x)) == Comb(r, Scaled(k, p), x)
  {
    var p1 := Shifted(p);
    var p2 := Shifted(p1);
    var p3 := Shifted(p2);
    CombDbl(r, p, x); CombDbl(r, p1, x); CombDbl(r, p2, x);
    var y, y1, y2, y3 := Comb(r, p, x), Comb(r, p1, x), Comb(r, p2, x), Comb(r, p3, x);
    TimesUnfold(r, k, y); TimesUnfold(r, k >> 1, y1);
    TimesUnfold(r, k >> 2, y2); TimesUnfold(r, k >> 3, y3);
    assert (k >> 1) >> 1 == k >> 2 && (k >> 2) >> 1 == k >> 3 && (k >> 3) >> 1 == 0;
    IfTimes(r, k, p, x); IfTimes(r, k >> 1, p1, x); IfTimes(r, k >> 2, p2, x); IfTimes(r, k >> 3, p3, x);
    var q3 := If((k >> 3) & 1 == 1, p3);
    var q2 := If((k >> 2) & 1 == 1, p2);
    var q1 := If((k >> 1) & 1 == 1, p1);
    Zero(r, Comb(r, q3, x));
    CombSum(r, q2, q3, x);
    CombSum(r, q1, XorCol(q2, q3), x);
    CombSum(r, If(k & 1 == 1, p), XorCol(q1, XorCol(q2, q3)), x);
  }

  // ---------- MixColumns (sections 5.1.3 and 5.3.3 of FIPS 197) ----------

  function Mix<A>(r: Ring<A>, x: Col<A>): Col<A> {
    Col(Comb(r, Col(2, 3, 1, 1), x), Comb(r, Col(1, 2, 3, 1), x),
        Comb(r, Col(1, 1, 2, 3), x), Comb(r, Col(3, 1, 1, 2), x))
  }

  function InvMix<A>(r: Ring<A>, x: Col<A>): Col<A> {
    Col(Comb(r, Col(14, 11, 13, 9), x), Comb(r, Col(9, 14, 11, 13), x),
        Comb(r, Col(13, 9, 14, 11), x), Comb(r, Col(11, 13, 9, 14), x))
  }

  /** A row of the product of two matrices, the second one being MixColumns. */
  function RowTimesMix(k: Col<bv8>): Col<bv8> {
    XorCol(XorCol(Scaled(k.a, Col(2, 3, 1, 1)), Scaled(k.b, Col(1, 2, 3, 1))),
           XorCol(Scaled(k.c, Col(1, 1, 2, 3)), Scaled(k.d, Col(3, 1, 1, 2))))
  }

  lemma CombOfMix<A(!new)>(r: Ring<A>, k: Col<bv8>, x: Col<A>)
    requires Laws(r) && Below(k, 0x10)
    ensures Comb(r, k, Mix(r, x)) == Comb(r, RowTimesMix(k), x)
  {
    var m := Mix(r, x);
    TimesComb(r, k.a, Col(2, 3, 1, 1), x); TimesComb(r, k.b, Col(1, 2, 3, 1), x);
    TimesComb(r, k.c, Col(1, 1, 2, 3), x); TimesComb(r, k.d, Col(3, 1, 1, 2), x);
    var p, q := Scaled(k.a, Col(2, 3, 1, 1)), Scaled(k.b, Col(1, 2, 3, 1));
    var s, t := Scaled(k.c, Col(1, 1, 2, 3)), Scaled(k.d, Col(3, 1, 1, 2));
    CombSum(r, p, q, x); CombSum(r, s, t, x);
    CombSum(r, XorCol(p, q), XorCol(s, t), x);
  }

  lemma MatrixProduct()
    ensures RowTimesMix(Col(14, 11, 13, 9)) == Col(1, 0, 0, 0)
    ensures RowTimesMix(Col(9, 14, 11, 13)) == Col(0, 1, 0, 0)
    ensures RowTimesMix(Col(13, 9, 14, 11)) == Col(0, 0, 1, 0)
    ensures RowTimesMix(Col(11, 13, 9, 14)) == Col(0, 0, 0, 1)
  {}

  lemma CombUnit<A(!new)>(r: Ring<A>, x: Col<A>)
    requires Laws(r)
    ensures Comb(r, Col(1, 0, 0, 0), x) == x.a && Comb(r, Col(0, 1, 0, 0), x) == x.b
    ensures Comb(r, Col(0, 0, 1, 0), x) == x.c && Comb(r, Col(0, 0, 0, 1), x) == x.d
  {
    Zero(r, r.zero); Zero(r, x.a); Zero(r, x.b); Zero(r, x.c); Zero(r, x.d);
    TimesUnfold(r, 1, x.a); TimesUnfold(r, 1, x.b); TimesUnfold(r, 1, x.c); TimesUnfold(r, 1, x.d);
    assert (1 as bv8) >> 1 == 0;
  }

  /** InvMixColumns undoes MixColumns. */
  lemma MixInverse<A(!new)>(r: Ring<A>, x: Col<A>)
    requires Laws(r)
    ensures InvMix(r, Mix(r, x)) == x
  {
    CombOfMix(r, Col(14, 11, 13, 9), x); CombOfMix(r, Col(9, 14, 11, 13), x);
    CombOfMix(r, Col(13, 9, 14, 11), x); CombOfMix(r, Col(11, 13, 9, 14), x);
    MatrixProduct();
    CombUnit(r, x);
  }

  /** InvMixColumns of a sum is the sum of InvMixColumns: why the decryption key schedule works. */
  lemma InvMixAdds<A(!new)>(r: Ring<A>, x: Col<A>, y: Col<A>)
    requires Laws(r)
    ensures InvMix(r, AddCol(r, x, y)) == AddCol(r, InvMix(r, x), InvMix(r, y))
  {
    CombOfSum(r, Col(14, 11, 13, 9), x, y); CombOfSum(r, Col(9, 14, 11, 13), x, y);
    CombOfSum(r, Col(13, 9, 14, 11), x, y); CombOfSum(r, Col(11, 13, 9, 14), x, y);
  }
}
