/** Orbits of a function, kept apart from the bytes they are used for. */
module Orbit {
  function Iter<A>(f: A -> A, x: A, n: nat): A {
    if n == 0 then x else f(Iter(f, x, n - 1))
  }

  lemma {:induction false} IterAdd<A>(f: A -> A, x: A, m: nat, n: nat)
    ensures Iter(f, x, m + n) == Iter(f, Iter(f, x, m), n)
  {
    if n > 0 {
      IterAdd(f, x, m, n - 1);
    }
  }

  /** Once an orbit is back at its start it repeats. */
  lemma {:induction false} Repeats<A>(f: A -> A, x: A, d: nat, q: nat, r: nat)
    requires Iter(f, x, d) == x
    ensures Iter(f, x, q * d + r) == Iter(f, x, r)
  {
    if q > 0 {
      Repeats(f, x, d, q - 1, r);
      assert q * d + r == d + ((q - 1) * d + r);
      IterAdd(f, x, d, (q - 1) * d + r);
    }
  }

  /** An orbit of an injective function cannot meet itself before it is back at its start. */
  lemma {:induction false} Distinct<A(!new)>(f: A -> A, x: A, i: nat, j: nat)
    requires forall a, b :: f(a) == f(b) ==> a == b
    requires i < j && Iter(f, x, j - i) != x
    ensures Iter(f, x, i) != Iter(f, x, j)
  {
    if i > 0 {
      Distinct(f, x, i - 1, j - 1);
    }
  }

  lemma MultipleReturns<A>(f: A -> A, x: A, d: nat, n: nat)
    requires Iter(f, x, d) == x && d > 0 && n % d == 0
    ensures Iter(f, x, n) == x
  {
    Repeats(f, x, d, n / d, 0);
    assert n / d * d + 0 == n;
  }

  lemma ProductTooLarge(q: nat, d: nat)
    requires q >= 16 && d >= 16
    ensures q * d > 255
  {}

  lemma DivisorsOf255(d: nat, q: nat)
    requires 0 < d < 255 && q * d == 255
    ensures 85 % d == 0 || 51 % d == 0 || 15 % d == 0
  {
    if q < 16 {
      if q == 2 {} else if q == 4 {} else if q == 6 {} else if q == 7 {} else if q == 8 {}
      else if q == 9 {} else if q == 10 {} else if q == 11 {} else if q == 12 {} else if q == 13 {}
      else if q == 14 {} else if q == 1 {} else if q == 0 {} else if q == 3 {} else if q == 5 {}
    } else if d < 16 {
      if d == 2 {} else if d == 4 {} else if d == 6 {} else if d == 7 {} else if d == 8 {}
      else if d == 9 {} else if d == 10 {} else if d == 11 {} else if d == 12 {} else if d == 13 {}
      else if d == 14 {} else if d == 1 {} else if d == 3 {} else if d == 5 {}
    } else {
      ProductTooLarge(q, d);
    }
  }

  lemma NoDivisorReturns<A>(f: A -> A, x: A, d: nat)
    requires Iter(f, x, 15) != x && Iter(f, x, 51) != x && Iter(f, x, 85) != x
    requires 0 < d < 255 && 255 % d == 0
    ensures Iter(f, x, d) != x
  {
    if Iter(f, x, d) == x {
      DivisorsOf255(d, 255 / d);
      if 85 % d == 0 { MultipleReturns(f, x, d, 85); }
      else if 51 % d == 0 { MultipleReturns(f, x, d, 51); }
      else { MultipleReturns(f, x, d, 15); }
    }
  }

  /** If 255 steps return and none of 15, 51 and 85 steps do, no fewer than 255 steps return. */
  lemma {:induction false} NoEarlyReturn<A>(f: A -> A, x: A, d: nat)
    requires Iter(f, x, 255) == x
    requires Iter(f, x, 15) != x && Iter(f, x, 51) != x && Iter(f, x, 85) != x
    requires 0 < d < 255
    ensures Iter(f, x, d) != x
  {
    if 255 % d == 0 {
      NoDivisorReturns(f, x, d);
    } else if Iter(f, x, d) == x {
      Repeats(f, x, d, 255 / d, 255 % d);
      assert 255 / d * d + 255 % d == 255;
      NoEarlyReturn(f, x, 255 % d);
    }
  }

  lemma {:induction false} Iter17<A>(f: A -> A, x: A)
    ensures Iter(f, x, 17) == f(f(f(f(f(f(f(f(f(f(f(f(f(f(f(f(f(x)))))))))))))))))
  {
    assert Iter(f, x, 4) == f(f(f(f(x))));
    assert Iter(f, x, 8) == f(f(f(f(Iter(f, x, 4)))));
    assert Iter(f, x, 12) == f(f(f(f(Iter(f, x, 8)))));
    assert Iter(f, x, 16) == f(f(f(f(Iter(f, x, 12)))));
  }
}

/** The field GF(2^8) as the table generator of utils_aes.c uses it: multiplication by two
    (the XTIME macro), the powers of the generator three, and their logarithms.  Section 4.2
    of FIPS 197 is the field; the C code never multiplies, it only adds logarithms. */
module AesField {
  import opened Orbit

  type byte = bv8

  // Multiplication by two; the reduction constant is added once for a top bit of one.
  function XTime(x: byte): byte {
    (x << 1) ^ ((x >> 7) * 0x1B)
  }

  lemma XTimeIsTheMacro(x: byte)
    ensures XTime(x) == (x << 1) ^ (if x & 0x80 != 0 then 0x1B else 0x00)
  {}

  lemma XTimeLinear(x: byte, y: byte)
    ensures XTime(x ^ y) == XTime(x) ^ XTime(y)
  {}

  ghost predicate Linear(f: byte -> byte) {
    forall x, y {:trigger f(x ^ y)} :: f(x ^ y) == f(x) ^ f(y)
  }

  /** Multiplication by three, the generator's x ^ XTIME(x). */
  function Mul3(x: byte): byte { x ^ (x << 1) ^ ((x >> 7) * 0x1B) }

  lemma Mul3Linear(x: byte, y: byte)
    ensures Mul3(x ^ y) == Mul3(x) ^ Mul3(y)
  {
    if x >> 7 == 0 {
      if y >> 7 == 0 {} else {}
    } else if y >> 7 == 0 {} else {}
  }

  lemma Mul3IsLinear()
    ensures Linear(Mul3)
  {
    forall x: byte, y: byte ensures Mul3(x ^ y) == Mul3(x) ^ Mul3(y) {
      Mul3Linear(x, y);
    }
  }

  lemma Mul3Injective(x: byte, y: byte)
    requires Mul3(x) == Mul3(y)
    ensures x == y
  {}

  /** The value the first loop of aes_gen_tables holds in x when its counter is n. */
  function Exp(n: nat): byte { Iter(Mul3, 1, n) }

  function Mul3To17(x: byte): byte {
    Mul3(Mul3(Mul3(Mul3(Mul3(Mul3(Mul3(Mul3(Mul3(
    Mul3(Mul3(Mul3(Mul3(Mul3(Mul3(Mul3(Mul3(x)))))))))))))))))
  }

  lemma Exp17(n: nat, x: byte)
    requires Exp(n) == x
    ensures Exp(n + 17) == Mul3To17(x)
  {
    IterAdd(Mul3, 1, n, 17);
    Iter17(Mul3, x);
  }

  lemma Exp51() ensures Exp(51) == 0x0C { Exp17(0, 0x01); Exp17(17, 0xE1); Exp17(34, 0x5C); }
  lemma Exp85() ensures Exp(85) == 0xBD { Exp51(); Exp17(51, 0x0C); Exp17(68, 0xE0); }
  lemma Exp136() ensures Exp(136) == 0x5D { Exp85(); Exp17(85, 0xBD); Exp17(102, 0x50); Exp17(119, 0xEC); }
  lemma Exp187() ensures Exp(187) == 0xB1 { Exp136(); Exp17(136, 0x5D); Exp17(153, 0xED); Exp17(170, 0xBC); }
  lemma Exp255() ensures Exp(255) == 0x01
  { Exp187(); Exp17(187, 0xB1); Exp17(204, 0xB0); Exp17(221, 0x51); Exp17(238, 0x0D); }
  lemma Exp15() ensures Exp(15) == 0x35
  {
    assert Exp(4) == 0x11;
    assert Exp(8) == 0x1A;
    assert Exp(12) == 0xA1;
  }

  /** Three generates the whole multiplicative group. */
  lemma FullPeriod(d: nat)
    requires 0 < d < 255
    ensures Exp(d) != 1
  {
    Exp255(); Exp85(); Exp51(); Exp15();
    NoEarlyReturn(Mul3, 1, d);
  }

  lemma ExpDistinct(i: nat, j: nat)
    requires i < j < 255 + i
    ensures Exp(i) != Exp(j)
  {
    FullPeriod(j - i);
    forall a, b | Mul3(a) == Mul3(b) ensures a == b { Mul3Injective(a, b); }
    Distinct(Mul3, 1, i, j);
  }

  lemma {:induction false} ExpNonZero(n: nat)
    ensures Exp(n) != 0
  {
    if n > 0 {
      ExpNonZero(n - 1);
      if Exp(n) == 0 { Mul3Injective(Exp(n - 1), 0); }
    }
  }

  lemma ExpWraps(n: nat)
    ensures Exp(n + 255) == Exp(n) && Exp(n % 255) == Exp(n)
  {
    Exp255();
    Repeats(Mul3, 1, 255, 1, n);
    Repeats(Mul3, 1, 255, n / 255, n % 255);
  }

  // ---------- every non-zero byte has a logarithm ----------

  /** The first n powers, as integers. */
  ghost function Powers(n: nat): set<int> {
    if n == 0 then {} else Powers(n - 1) + {Exp(n - 1) as int}
  }

  lemma {:induction false} PowerIn(n: nat, v: int)
    requires v in Powers(n)
    ensures exists i :: 0 <= i < n && Exp(i) as int == v
  {
    if v in Powers(n - 1) {
      PowerIn(n - 1, v);
    } else {
      assert Exp(n - 1) as int == v;
    }
  }

  lemma {:induction false} PowersCount(n: nat)
    requires n <= 255
    ensures |Powers(n)| == n
  {
    if n > 0 {
      PowersCount(n - 1);
      if Exp(n - 1) as int in Powers(n - 1) {
        PowerIn(n - 1, Exp(n - 1) as int);
        var i :| 0 <= i < n - 1 && Exp(i) as int == Exp(n - 1) as int;
        ExpDistinct(i, n - 1);
      }
    }
  }

  ghost function OneTo(n: nat): set<int> { if n == 0 then {} else OneTo(n - 1) + {n} }

  lemma {:induction false} OneToIs(n: nat)
    ensures forall v :: v in OneTo(n) <==> 1 <= v <= n
    ensures |OneTo(n)| == n
  {
    if n > 0 {
      OneToIs(n - 1);
    }
  }

  lemma PowersInRange(n: nat, m: nat)
    requires m == 255
    ensures Powers(n) <= OneTo(m)
  {
    OneToIs(m);
    forall v | v in Powers(n) ensures v in OneTo(m) {
      PowerIn(n, v);
      var i :| 0 <= i < n && Exp(i) as int == v;
      ExpNonZero(i);
    }
  }

  /** n distinct powers among the n integers 1 to n: all of them. */
  lemma PowersExhaust(n: nat)
    requires n == 255
    ensures Powers(n) == OneTo(n)
  {
    PowersCount(n); OneToIs(n); PowersInRange(n, n);
    SubsetOfSameSize(Powers(n), OneTo(n));
  }

  lemma IsPower(x: byte, n: nat)
    requires x != 0 && n == 255
    ensures exists i :: 0 <= i < n && Exp(i) as int == x as int
  {
    PowersExhaust(n); OneToIs(n);
    PowerIn(n, x as int);
  }

  lemma HasLog(x: byte)
    requires x != 0
    ensures exists k :: 1 <= k <= 255 && Exp(k) == x
  {
    IsPower(x, 255);
    var i :| 0 <= i < 255 && Exp(i) as int == x as int;
    Exp255();
    assert Exp(if i == 0 then 255 else i) == x;
  }

  lemma SubsetOfSameSize<A>(s: set<A>, t: set<A>)
    requires s <= t && |s| == |t|
    ensures s == t
  {
    if s != t {
      var x :| x in t && x !in s;
      SubsetSize(s + {x}, t);
    }
  }

  lemma {:induction false} SubsetSize<A>(s: set<A>, t: set<A>)
    requires s <= t
    ensures |s| <= |t|
    decreases s
  {
    if x :| x in s {
      SubsetSize(s - {x}, t - {x});
    }
  }

  /** What the first loop of aes_gen_tables leaves in log[x]: 255, not 0, for one. */
  ghost function Log(x: byte): (k: nat)
    requires x != 0
    ensures 1 <= k <= 255 && Exp(k) == x
  {
    HasLog(x);
    var k :| 1 <= k <= 255 && Exp(k) == x;
    k
  }

  lemma LogUnique(x: byte, k: nat)
    requires x != 0 && 1 <= k <= 255 && Exp(k) == x
    ensures Log(x) == k
  {
    var l := Log(x);
    if k < l { ExpDistinct(k, l); } else if l < k { ExpDistinct(l, k); }
  }
}
