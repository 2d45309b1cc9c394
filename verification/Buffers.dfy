/** Buffers as the C code fills them: what is written where, on values. */
module Buffers {
  datatype Option<T> = None | Some(value: T)

  /** s with the elements from o on replaced by b. */
  function Written<T>(s: seq<T>, o: nat, b: seq<T>): (r: seq<T>)
    requires o + |b| <= |s|
    ensures |r| == |s|
  {
    s[..o] + b + s[o + |b|..]
  }

  /** Writing two pieces one behind the other is writing both at once. */
  lemma WrittenNext<T>(s: seq<T>, o: nat, a: seq<T>, b: seq<T>)
    requires o + |a| + |b| <= |s|
    ensures Written(Written(s, o, a), o + |a|, b) == Written(s, o, a + b)
  {
    var r := Written(s, o, a);
    assert r[..o + |a|] == s[..o] + a;
    assert r[o + |a| + |b|..] == s[o + |a + b|..];
    assert s[..o] + a + b == s[..o] + (a + b);
  }

  lemma IsWritten<T>(s: seq<T>, o: nat, b: seq<T>, r: seq<T>)
    requires o + |b| <= |s| == |r| && forall z :: 0 <= z < |r| ==> r[z] == if o <= z < o + |b| then b[z - o] else s[z]
    ensures r == Written(s, o, b)
  {}

  lemma WrittenPrefix<T>(s: seq<T>, b: seq<T>)
    requires |b| <= |s|
    ensures Written(s, 0, b)[..|b|] == b
  {}

  lemma Associate<T>(a: seq<T>, b: seq<T>, c: seq<T>)
    ensures a + b + c == a + (b + c)
  {}

  lemma AddNothing<T>(a: seq<T>)
    ensures a + [] == a
  {}

  /** All of the pieces, joined. */
  function Concat<T>(pieces: seq<seq<T>>): seq<T> {
    if pieces == [] then [] else Concat(pieces[..|pieces| - 1]) + pieces[|pieces| - 1]
  }
}

/** Quotients and remainders recognised. */
module Arithmetic {
  lemma AtLeast(m: nat, d: nat)
    requires d >= 1
    ensures m * d >= m
  {
    assert m * d == m * (d - 1) + m;
  }

  lemma DivIs(n: int, m: nat, k: int, r: nat)
    requires r < m && n == m * k + r
    ensures n / m == k && n % m == r
  {
    var d := n / m;
    assert m * (d - k) == r - n % m;
    if d > k { AtLeast(m, d - k); }
    if d < k { AtLeast(m, k - d); }
  }
}

/** Bytes as numbers. */
module Octets {
  import opened Buffers
  import Arithmetic

  type byte = x: int | 0 <= x < 256

  function U8(b: byte): nat { b }

  /** Two bytes as a number, the high one first, and back. */
  function Word(h: byte, l: byte): nat { 256 * U8(h) + U8(l) }

  function High(n: nat): byte { n / 256 % 256 }

  function Low(n: nat): byte { n % 256 }

  /** A number in width bytes, the low one first, and back. */
  function LE(n: nat, width: nat): (r: seq<byte>)
    ensures |r| == width
  {
    if width == 0 then [] else [n % 256] + LE(n / 256, width - 1)
  }

  function FromLE(b: seq<byte>): nat { if b == [] then 0 else (b[0] as nat) + 256 * FromLE(b[1..]) }

  function Pow256(n: nat): (p: nat)
    ensures p > 0
  {
    if n == 0 then 1 else 256 * Pow256(n - 1)
  }

  lemma {:induction false} LEReads(n: nat, width: nat)
    requires n < Pow256(width)
    ensures FromLE(LE(n, width)) == n
  {
    if width > 0 {
      LEReads(n / 256, width - 1);
    }
  }

  /** Low byte first. */
  lemma FourBytes(a: byte, b: byte, c: byte, d: byte)
    ensures FromLE([a, b]) == a + 256 * b && FromLE([a, b, c, d]) == a + 256 * b + 65536 * c + 16777216 * d
  {
    assert [a, b][1..] == [b] && [a, b, c, d][1..] == [b, c, d] && [b, c, d][1..] == [c, d] && [c, d][1..] == [d];
    assert [b][1..] == [] && [d][1..] == [];
    assert FromLE([d]) == d && FromLE([b]) == b;
    assert FromLE([c, d]) == c + 256 * d;
    assert FromLE([b, c, d]) == b + 256 * (c + 256 * d);
  }

  /** What does not fit is lost from the top. */
  lemma {:induction false} LEMod(n: nat, width: nat)
    ensures FromLE(LE(n, width)) == n % Pow256(width)
  {
    if width > 0 {
      LEMod(n / 256, width - 1);
      ModSplit(n, Pow256(width - 1));
    }
  }

  lemma ModSplit(n: nat, m: nat)
    requires m > 0
    ensures n % (256 * m) == n % 256 + 256 * (n / 256 % m)
  {
    var q, r := n / 256 / m, n / 256 % m;
    assert n == 256 * (q * m + r) + n % 256 == q * (256 * m) + (256 * r + n % 256);
    assert r <= m - 1;
    Arithmetic.DivIs(n, 256 * m, q, 256 * r + n % 256);
  }

  method PutByte(buf: array<byte>, o: nat, b: byte)
    requires o < buf.Length
    modifies buf
    ensures buf[..] == Written(old(buf[..]), o, [b])
  {
    buf[o] := b;
  }

  /** memcpy into a buffer. */
  method Copy(buf: array<byte>, o: nat, val: seq<byte>)
    requires o + |val| <= buf.Length
    modifies buf
    ensures buf[..] == Written(old(buf[..]), o, val)
  {
    ghost var s := buf[..];
    for i := 0 to |val|
      invariant forall j :: 0 <= j < buf.Length ==> buf[j] == if o <= j < o + i then val[j - o] else s[j]
    {
      buf[o + i] := val[i];
    }
  }
}
