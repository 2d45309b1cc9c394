/** utils_base64.c: the encoder, and the decoder that first checks and measures a text and then
    writes (section 4 of RFC 4648, with line ends and trailing spaces let through). */
module Base64 {
  import opened Arithmetic
  import opened Buffers
  import opened Octets

  const ERR_FAILURE := -1001
  const SIZE_MAX := 0xFFFF_FFFF
  const PAD: byte := 61
  const SPACE: byte := 32
  const CR: byte := 13
  const LF: byte := 10

  // ---------- the alphabet ----------

  /** base64_enc_map. */
  function EncMap(v: nat): byte
    requires v < 64
  {
    if v < 26 then 65 + v else if v < 52 then 71 + v else if v < 62 then v - 4 else if v == 62 then 43 else 47
  }

  /** base64_dec_map, and 127 beyond it: 64 is the pad, 127 no character of the code. */
  function DecMap(c: byte): nat {
    if 65 <= c <= 90 then c - 65 else if 97 <= c <= 122 then c - 71 else if 48 <= c <= 57 then c + 4
    else if c == 43 then 62 else if c == 47 then 63 else if c == PAD then 64 else 127
  }

  /** The six bits the decoder takes of a character; of the pad, none. */
  function Bits(c: byte): nat { DecMap(c) % 64 }

  lemma DecEnc(v: nat)
    requires v < 64
    ensures DecMap(EncMap(v)) == v && EncMap(v) != PAD && !Skipped(EncMap(v))
  {}

  // ---------- encoding ----------

  function At(src: seq<byte>, i: nat): nat { if i < |src| then src[i] else 0 }

  /** The four characters of bytes 3g to 3g + 2. */
  function EncGroup(src: seq<byte>, g: nat): (s: seq<byte>)
    ensures |s| == 4
  {
    var c1, c2, c3 := At(src, 3 * g), At(src, 3 * g + 1), At(src, 3 * g + 2);
    var s2 := if 3 * g + 1 < |src| then EncMap(c2 % 16 * 4 + c3 / 64) else PAD;
    var s3 := if 3 * g + 2 < |src| then EncMap(c3 % 64) else PAD;
    [EncMap(c1 / 4), EncMap(c1 % 4 * 16 + c2 / 16), s2, s3]
  }

  function EncGroups(src: seq<byte>, q: nat): (s: seq<byte>)
    ensures |s| == 4 * q
  {
    if q == 0 then [] else EncGroups(src, q - 1) + EncGroup(src, q - 1)
  }

  function Encode(src: seq<byte>): seq<byte> { EncGroups(src, (|src| + 2) / 3) }

  lemma {:induction false} EncGroupAt(src: seq<byte>, q: nat, g: nat)
    requires g < q
    ensures EncGroups(src, q)[4 * g..4 * g + 4] == EncGroup(src, g)
  {
    if g < q - 1 {
      EncGroupAt(src, q - 1, g);
      assert EncGroups(src, q)[4 * g..4 * g + 4] == EncGroups(src, q - 1)[4 * g..4 * g + 4];
    }
  }

  /** Table 1 of RFC 4648. */
  lemma Alphabet(v: nat)
    requires v < 64
    ensures EncMap(v) ==
      if v < 26 then 'A' as int + v else if v < 52 then 'a' as int + v - 26 else if v < 62 then '0' as int + v - 52
      else if v == 62 then '+' as int else '/' as int
  {}

  /** Section 4 of RFC 4648: the characters of a group are the six-bit digits of the number its three bytes
      make; of a last group of one or two bytes, filled up with zero bits, and then pads. */
  lemma EncodedGroup(src: seq<byte>, g: nat)
    requires 3 * g < |src|
    ensures 4 * g + 4 <= |Encode(src)|
    ensures var s, k := Encode(src)[4 * g..4 * g + 4], |src| - 3 * g;
      var c2, c3 := if k > 1 then U8(src[3 * g + 1]) else 0, if k > 2 then U8(src[3 * g + 2]) else 0;
      var x := 65536 * U8(src[3 * g]) + 256 * c2 + c3;
      && s[0] == EncMap(x / 262144 % 64) && s[1] == EncMap(x / 4096 % 64)
      && s[2] == (if k > 1 then EncMap(x / 64 % 64) else 61)
      && s[3] == (if k > 2 then EncMap(x % 64) else 61)
  {
    hide EncMap;
    EncGroupAt(src, (|src| + 2) / 3, g);
    Digits(src[3 * g], At(src, 3 * g + 1), At(src, 3 * g + 2));
  }

  lemma Digits(a: nat, b: nat, c: nat)
    requires a < 256 && b < 256 && c < 256
    ensures var x := 65536 * a + 256 * b + c;
      && x / 262144 % 64 == a / 4 && x / 4096 % 64 == a % 4 * 16 + b / 16
      && x / 64 % 64 == b % 16 * 4 + c / 64 && x % 64 == c % 64
  {
    var x := 65536 * a + 256 * b + c;
    assert x / 64 == 1024 * a + 4 * b + c / 64;
    assert x / 4096 == 16 * a + b / 16;
    assert x / 262144 == a / 4;
  }

  // ---------- decoding ----------

  /** How many of the first k characters are pads. */
  function Pads(s: seq<byte>, k: nat): (p: nat)
    requires k <= |s|
    ensures p <= k
  {
    if k == 0 then 0 else Pads(s, k - 1) + if s[k - 1] == PAD then 1 else 0
  }

  function Value24(s: seq<byte>): nat
    requires |s| == 4
  {
    Join(Bits(s[0]), Bits(s[1]), Bits(s[2]), Bits(s[3]))
  }

  function Join(w: nat, x: nat, y: nat, z: nat): nat { ((w * 64 + x) * 64 + y) * 64 + z }

  function Three(x: nat): (b: seq<byte>)
    ensures |b| == 3
  {
    [x / 65536 % 256, x / 256 % 256, x % 256]
  }

  function Keep(pads: nat): (k: nat)
    ensures k <= 3
  {
    if pads > 3 then 0 else 3 - pads
  }

  /** The bytes of the first q groups of characters; pads so far are taken off every group. */
  function Groups(s: seq<byte>, q: nat): seq<byte>
    requires 4 * q <= |s|
  {
    if q == 0 then [] else Groups(s, q - 1) + Three(Value24(s[4 * q - 4..4 * q]))[..Keep(Pads(s, 4 * q))]
  }

  /** What the second pass makes of the characters of a text; an incomplete group is dropped. */
  function DecodeChars(s: seq<byte>): seq<byte> { Groups(s, |s| / 4) }

  /** The bytes of a group of characters without a pad so far are the number its six-bit digits make. */
  lemma DecodedGroup(s: seq<byte>, q: nat, v0: nat, v1: nat, v2: nat, v3: nat)
    requires 4 * q + 4 <= |s| && v0 < 64 && v1 < 64 && v2 < 64 && v3 < 64 && Pads(s, 4 * q + 4) == 0
    requires s[4 * q..4 * q + 4] == [EncMap(v0), EncMap(v1), EncMap(v2), EncMap(v3)]
    ensures var x := 262144 * v0 + 4096 * v1 + 64 * v2 + v3;
      Groups(s, q + 1) == Groups(s, q) + [x / 65536, x / 256 % 256, x % 256]
  {
    hide EncMap, DecMap, Bits, Pads, Three;
    BitsOf(v0); BitsOf(v1); BitsOf(v2); BitsOf(v3);
    var t := s[4 * q..4 * q + 4];
    var x := Value24(t);
    assert x == 262144 * v0 + 4096 * v1 + 64 * v2 + v3;
    ThreeOf(x);
    assert Three(x)[..3] == Three(x);
  }

  lemma BitsOf(v: nat)
    requires v < 64
    ensures Bits(EncMap(v)) == v
  {}

  lemma ThreeOf(x: nat)
    requires x < 16777216
    ensures Three(x) == [x / 65536, x / 256 % 256, x % 256]
  {}

  predicate Skipped(c: byte) { c == SPACE || c == CR || c == LF }

  /** The first k characters without spaces and line ends. */
  function Chars(s: seq<byte>, k: nat): (r: seq<byte>)
    requires k <= |s|
    ensures |r| <= k
  {
    if k == 0 then [] else Chars(s, k - 1) + if Skipped(s[k - 1]) then [] else [s[k - 1]]
  }

  predicate LineEnd(s: seq<byte>, i: nat)
    requires i < |s|
  {
    s[i] == LF || (s[i] == CR && i + 1 < |s| && s[i + 1] == LF)
  }

  /** A character in its place: of the code, a space or a line end; behind a space only another or a
      line end; behind a pad no character of the code but another pad. */
  predicate Fine(s: seq<byte>, i: nat)
    requires i < |s|
  {
    && (s[i] == SPACE || LineEnd(s, i) || DecMap(s[i]) <= 64)
    && (i > 0 && s[i - 1] == SPACE ==> s[i] == SPACE || LineEnd(s, i))
    && (Pads(s, i) > 0 && DecMap(s[i]) <= 64 ==> s[i] == PAD)
  }

  ghost predicate ValidText(s: seq<byte>) { Pads(s, |s|) <= 2 && forall i :: 0 <= i < |s| ==> Fine(s, i) }

  /** The length the first pass computes from the number of characters and of pads. */
  function Measured(n: nat, pads: nat): int { (n * 6 + 7) / 8 - pads }

  // ---------- decoding what was encoded ----------

  lemma GroupBack(src: seq<byte>, g: nat)
    ensures Three(Value24(EncGroup(src, g))) == [At(src, 3 * g), At(src, 3 * g + 1), At(src, 3 * g + 2)]
  {
    hide Bits, Three, Join, EncGroup, At;
    var c1, c2, c3 := At(src, 3 * g), At(src, 3 * g + 1), At(src, 3 * g + 2);
    GroupBits(src, g);
    Repack(c1, c2, c3);
    Unpack(c1, c2, c3);
  }

  lemma GroupBits(src: seq<byte>, g: nat)
    ensures var s, c1, c2, c3 := EncGroup(src, g), At(src, 3 * g), At(src, 3 * g + 1), At(src, 3 * g + 2);
      && Bits(s[0]) == c1 / 4 && Bits(s[1]) == c1 % 4 * 16 + c2 / 16 && Bits(s[2]) == c2 % 16 * 4 + c3 / 64
      && Bits(s[3]) == c3 % 64 && c1 < 256 && c2 < 256 && c3 < 256
  {
    hide Bits, EncMap, At;
    var c1, c2, c3 := At(src, 3 * g), At(src, 3 * g + 1), At(src, 3 * g + 2);
    ByteAt(src, 3 * g); ByteAt(src, 3 * g + 1); ByteAt(src, 3 * g + 2);
    BitsOf(c1 / 4);
    BitsOf(c1 % 4 * 16 + c2 / 16);
    BitsOf(c2 % 16 * 4 + c3 / 64);
    BitsOf(c3 % 64);
    PadBits();
  }

  lemma ByteAt(src: seq<byte>, i: nat)
    ensures At(src, i) < 256 && (i >= |src| ==> At(src, i) == 0)
  {}

  lemma PadBits()
    ensures Bits(PAD) == 0
  {}

  lemma Repack(c1: nat, c2: nat, c3: nat)
    ensures Join(c1 / 4, c1 % 4 * 16 + c2 / 16, c2 % 16 * 4 + c3 / 64, c3 % 64) == 65536 * c1 + 256 * c2 + c3
  {
    assert c1 == c1 / 4 * 4 + c1 % 4 && c2 == c2 / 16 * 16 + c2 % 16 && c3 == c3 / 64 * 64 + c3 % 64;
  }

  lemma Unpack(c1: nat, c2: nat, c3: nat)
    requires c1 < 256 && c2 < 256 && c3 < 256
    ensures Three(65536 * c1 + 256 * c2 + c3) == [c1, c2, c3]
  {
    var x := 65536 * c1 + 256 * c2 + c3;
    assert x / 256 == 256 * c1 + c2 && x % 256 == c3;
    assert x / 65536 == c1;
  }

  lemma PadMap()
    ensures DecMap(PAD) == 64
  {}

  lemma GroupChars(src: seq<byte>, g: nat, k: nat)
    requires k < 4
    ensures var c := EncGroup(src, g)[k]; !Skipped(c) && DecMap(c) <= 64 && (c == PAD <==> 3 * g + k > |src| && k > 1)
  {
    hide DecMap, EncMap, Skipped;
    var c1, c2, c3 := At(src, 3 * g), At(src, 3 * g + 1), At(src, 3 * g + 2);
    assert DecMap(PAD) == 64 && !Skipped(PAD) by { PadMap(); NotSkipped(); }
    if k == 0 { DecEnc(c1 / 4); }
    if k == 1 { DecEnc(c1 % 4 * 16 + c2 / 16); }
    if k == 2 { DecEnc(c2 % 16 * 4 + c3 / 64); }
    if k == 3 { DecEnc(c3 % 64); }
  }

  lemma NotSkipped()
    ensures !Skipped(PAD)
  {}

  lemma {:induction false} EncodedPads(src: seq<byte>, q: nat)
    requires 3 * q <= |src| + 2
    ensures var s := EncGroups(src, q); Pads(s, 4 * q) == if 3 * q <= |src| then 0 else 3 * q - |src|
  {
    hide EncGroup, Skipped, DecMap;
    if q > 0 {
      EncodedPads(src, q - 1);
      var t, e := EncGroups(src, q - 1), EncGroup(src, q - 1);
      PadsPrefix(t + e, t, |t|);
      PadsOfFour(t, e);
      GroupChars(src, q - 1, 0);
      GroupChars(src, q - 1, 1);
      GroupChars(src, q - 1, 2);
      GroupChars(src, q - 1, 3);
    }
  }

  lemma PadsOfFour(t: seq<byte>, e: seq<byte>)
    requires |e| == 4
    ensures var one := (c: byte) => if c == PAD then 1 else 0;
      Pads(t + e, |t| + 4) == Pads(t + e, |t|) + one(e[0]) + one(e[1]) + one(e[2]) + one(e[3])
  {
    var s, n := t + e, |t|;
    assert s[n] == e[0] && s[n + 1] == e[1] && s[n + 2] == e[2] && s[n + 3] == e[3];
    assert Pads(s, n + 4) == Pads(s, n + 3) + if s[n + 3] == PAD then 1 else 0;
    assert Pads(s, n + 3) == Pads(s, n + 2) + if s[n + 2] == PAD then 1 else 0;
    assert Pads(s, n + 2) == Pads(s, n + 1) + if s[n + 1] == PAD then 1 else 0;
  }

  lemma {:induction false} PadsPrefix(s: seq<byte>, t: seq<byte>, k: nat)
    requires k <= |t| <= |s| && s[..|t|] == t
    ensures Pads(s, k) == Pads(t, k)
  {
    if k > 0 {
      PadsPrefix(s, t, k - 1);
      assert s[k - 1] == s[..|t|][k - 1];
    }
  }

  lemma {:induction false} EncPrefix(src: seq<byte>, q: nat, k: nat)
    requires k <= q
    ensures EncGroups(src, q)[..4 * k] == EncGroups(src, k)
  {
    if k < q {
      EncPrefix(src, q - 1, k);
      assert EncGroups(src, q)[..4 * k] == EncGroups(src, q - 1)[..4 * k];
    } else {
      assert EncGroups(src, q)[..4 * q] == EncGroups(src, q);
    }
  }

  lemma {:induction false} GroupsBack(src: seq<byte>, q: nat, k: nat)
    requires k <= q && 3 * q <= |src| + 2
    ensures Groups(EncGroups(src, q), k) == src[..if 3 * k <= |src| then 3 * k else |src|]
  {
    hide EncGroup, EncGroups, Value24, Three, Pads, At, Keep;
    if k > 0 {
      var s := EncGroups(src, q);
      GroupsBack(src, q, k - 1);
      EncGroupAt(src, q, k - 1);
      EncPrefix(src, q, k);
      EncodedPads(src, k);
      PadsPrefix(s, EncGroups(src, k), 4 * k);
      GroupBack(src, k - 1);
      ThreeAt(src, k);
    }
  }

  lemma ThreeAt(src: seq<byte>, k: nat)
    requires 0 < k && 3 * k <= |src| + 2
    ensures var g, t := 3 * (k - 1), Keep(if 3 * k <= |src| then 0 else 3 * k - |src|);
      src[..g] + [At(src, g), At(src, g + 1), At(src, g + 2)][..t] == src[..if 3 * k <= |src| then 3 * k else |src|]
  {
    var g := 3 * (k - 1);
    var three, all := [At(src, g), At(src, g + 1), At(src, g + 2)], src[..if 3 * k <= |src| then 3 * k else |src|];
    var t := |all| - g;
    assert all == src[..g] + src[g..g + t];
    assert |three[..t]| == t && forall i :: 0 <= i < t ==> three[..t][i] == src[g + i];
  }

  lemma {:induction false} CodedChars(s: seq<byte>, k: nat)
    requires k <= |s| && forall i :: 0 <= i < k ==> !Skipped(s[i])
    ensures Chars(s, k) == s[..k]
  {
    if k > 0 {
      CodedChars(s, k - 1);
      assert s[..k] == s[..k - 1] + [s[k - 1]];
    }
  }

  lemma EncodedAt(src: seq<byte>, i: nat)
    requires i < |Encode(src)|
    ensures var c := Encode(src)[i];
      !Skipped(c) && DecMap(c) <= 64 && (c == PAD <==> 3 * (i / 4) + i % 4 > |src| && i % 4 > 1)
  {
    hide EncGroups, EncGroup, Skipped, DecMap;
    var q, g := (|src| + 2) / 3, i / 4;
    EncGroupAt(src, q, g);
    GroupChars(src, g, i - 4 * g);
    assert Encode(src)[i] == Encode(src)[4 * g..4 * g + 4][i - 4 * g];
  }

  /** Whatever is encoded is a valid text and decodes to itself. */
  lemma DecodeEncode(src: seq<byte>)
    ensures var t := Encode(src); ValidText(t) && DecodeChars(Chars(t, |t|)) == src
  {
    hide EncGroups, Groups, Skipped, DecMap, Pads;
    var t := Encode(src);
    forall i | 0 <= i < |t|
      ensures !Skipped(t[i]) && DecMap(t[i]) <= 64 && (t[i] == PAD <==> 3 * (i / 4) + i % 4 > |src| && i % 4 > 1)
    {
      EncodedAt(src, i);
    }
    forall i | 0 <= i < |t| ensures Fine(t, i) {
      if Pads(t, i) > 0 {
        var k := PadBefore(t, i);
        PadsLast(|src|, |t|, k, i);
      }
      if i > 0 { NoSpace(t, i - 1); }
    }
    CodedChars(t, |t|);
    assert t[..|t|] == t;
    var q := (|src| + 2) / 3;
    EncodedPads(src, q);
    GroupsBack(src, q, q);
    assert src[..|src|] == src;
  }

  lemma NoSpace(t: seq<byte>, i: nat)
    requires i < |t| && !Skipped(t[i])
    ensures t[i] != SPACE
  {}

  lemma PadsLast(n: nat, len: nat, i: nat, j: nat)
    requires len == 4 * ((n + 2) / 3) && i < j < len && 3 * (i / 4) + i % 4 > n && i % 4 > 1
    ensures 3 * (j / 4) + j % 4 > n && j % 4 > 1
  {
    assert i / 4 == (n + 2) / 3 - 1;
  }

  // ---------- the encoder ----------

  method PutFour(dst: array<byte>, p: nat, a: byte, b: byte, c: byte, d: byte)
    requires p + 4 <= dst.Length
    modifies dst
    ensures dst[..] == Written(old(dst[..]), p, [a, b, c, d])
  {
    dst[p], dst[p + 1], dst[p + 2], dst[p + 3] := a, b, c, d;
  }

  /** qcloud_iot_utils_base64encode. */
  method Base64Encode(dst: array<byte>, src: seq<byte>) returns (rc: int, olen: nat)
    modifies dst
    ensures src == [] ==> rc == 0 && olen == 0 && dst[..] == old(dst[..])
    ensures src != [] ==> rc == if |Encode(src)| >= SIZE_MAX || dst.Length < |Encode(src)| + 1 then ERR_FAILURE else 0
    ensures src != [] && rc == 0 ==> olen == |Encode(src)| && dst[..] == Written(old(dst[..]), 0, Encode(src) + [0])
    ensures rc != 0 ==>
      dst[..] == old(dst[..]) && olen == if |Encode(src)| >= SIZE_MAX then SIZE_MAX else |Encode(src)| + 1
  {
    hide Written, EncGroups, EncGroup, EncMap;
    if |src| == 0 { return 0, 0; }
    var n := |src| / 3 + if |src| % 3 != 0 then 1 else 0;
    assert |Encode(src)| == 4 * n;
    if n > (SIZE_MAX - 1) / 4 { return ERR_FAILURE, SIZE_MAX; }
    n := n * 4;
    if dst.Length < n + 1 { return ERR_FAILURE, n + 1; }
    ghost var s, g := dst[..], 0;
    var i, p := 0, 0;
    n := |src| / 3 * 3;
    NothingYet(src, s);
    while i < n
      invariant i == 3 * g <= n && p == 4 * g
      invariant dst[..] == Written(s, 0, EncGroups(src, g))
    {
      var c1, c2, c3 := U8(src[i]), U8(src[i + 1]), U8(src[i + 2]);
      WholeGroup(src, g);
      PutFour(dst, p, EncMap(c1 / 4 % 64), EncMap((c1 % 4 * 16 + c2 / 16) % 64), EncMap((c2 % 16 * 4 + c3 / 64) % 64),
              EncMap(c3 % 64));
      GroupNext(src, g, s);
      i, p, g := i + 3, p + 4, g + 1;
    }
    if i < |src| {
      var c1 := U8(src[i]);
      var c2 := if i + 1 < |src| then U8(src[i + 1]) else 0;
      var third := if i + 1 < |src| then EncMap(c2 % 16 * 4 % 64) else PAD;
      LastGroup(src, g);
      PutFour(dst, p, EncMap(c1 / 4 % 64), EncMap((c1 % 4 * 16 + c2 / 16) % 64), third, PAD);
      GroupNext(src, g, s);
      p, g := p + 4, g + 1;
    }
    olen := p;
    PutByte(dst, p, 0);
    WrittenNext(s, 0, Encode(src), [0]);
    rc := 0;
  }

  lemma NothingYet(src: seq<byte>, s: seq<byte>)
    ensures Written(s, 0, EncGroups(src, 0)) == s
  {}

  lemma WholeGroup(src: seq<byte>, g: nat)
    requires 3 * g + 2 < |src|
    ensures var c1, c2, c3 := U8(src[3 * g]), U8(src[3 * g + 1]), U8(src[3 * g + 2]);
      EncGroup(src, g) ==
        [EncMap(c1 / 4 % 64), EncMap((c1 % 4 * 16 + c2 / 16) % 64), EncMap((c2 % 16 * 4 + c3 / 64) % 64),
         EncMap(c3 % 64)]
  {
    hide EncMap;
  }

  lemma LastGroup(src: seq<byte>, g: nat)
    requires 3 * g < |src| <= 3 * g + 2
    ensures var c1, c2 := U8(src[3 * g]), At(src, 3 * g + 1);
      && c2 < 256
      && EncGroup(src, g) ==
           [EncMap(c1 / 4 % 64), EncMap((c1 % 4 * 16 + c2 / 16) % 64),
            if 3 * g + 1 < |src| then EncMap(c2 % 16 * 4 % 64) else PAD, PAD]
  {
    hide EncMap;
  }

  lemma GroupNext(src: seq<byte>, g: nat, s: seq<byte>)
    requires 4 * g + 4 <= |s|
    ensures Written(Written(s, 0, EncGroups(src, g)), 4 * g, EncGroup(src, g)) == Written(s, 0, EncGroups(src, g + 1))
  {
    hide Written, EncGroup;
    WrittenNext(s, 0, EncGroups(src, g), EncGroup(src, g));
  }

  // ---------- the first pass ----------

  // ValidText as far as the first i characters tell.
  ghost predicate ValidUpTo(s: seq<byte>, i: nat)
    requires i <= |s|
  {
    Pads(s, i) <= 2 && forall k :: 0 <= k < i ==> Fine(s, k)
  }

  lemma SpaceFine(s: seq<byte>, i: nat)
    requires i < |s| && s[i] == SPACE
    ensures Fine(s, i) && |Chars(s, i + 1)| == |Chars(s, i)| && Pads(s, i + 1) == Pads(s, i)
  {}

  lemma LineEndFine(s: seq<byte>, i: nat)
    requires i < |s| && LineEnd(s, i)
    ensures Fine(s, i) && |Chars(s, i + 1)| == |Chars(s, i)| && Pads(s, i + 1) == Pads(s, i)
  {}

  method SkipSpaces(src: seq<byte>, i0: nat) returns (i: nat, x: nat)
    requires i0 < |src| && ValidUpTo(src, i0)
    ensures i0 <= i <= |src| && x == i - i0 && (i < |src| ==> src[i] != SPACE) && (x > 0 ==> src[i - 1] == SPACE)
    ensures ValidUpTo(src, i) && |Chars(src, i)| == |Chars(src, i0)| && Pads(src, i) == Pads(src, i0)
  {
    hide Fine, Chars, Pads;
    i, x := i0, 0;
    while i < |src| && src[i] == SPACE
      invariant i0 <= i <= |src| && x == i - i0 && (x > 0 ==> src[i - 1] == SPACE)
      invariant ValidUpTo(src, i) && |Chars(src, i)| == |Chars(src, i0)| && Pads(src, i) == Pads(src, i0)
    {
      SpaceFine(src, i);
      i, x := i + 1, x + 1;
    }
  }

  lemma {:induction false} PadsGrow(s: seq<byte>, i: nat, k: nat)
    requires i <= k <= |s|
    ensures Pads(s, i) <= Pads(s, k)
  {
    if i < k { PadsGrow(s, i, k - 1); }
  }

  lemma {:induction false} PadBefore(s: seq<byte>, i: nat) returns (k: nat)
    requires i <= |s| && Pads(s, i) > 0
    ensures k < i && s[k] == PAD
  {
    if s[i - 1] == PAD { k := i - 1; } else { k := PadBefore(s, i - 1); }
  }

  /** The verdict on a character that is neither a space nor a line end, as the first pass has it: x
      tells whether spaces were skipped, j counts the pads and this one. */
  lemma Verdict(s: seq<byte>, i: nat, x: nat, j: nat)
    requires i < |s| && s[i] != SPACE && !LineEnd(s, i) && (x > 0 <==> i > 0 && s[i - 1] == SPACE)
    requires j == Pads(s, i) + if s[i] == PAD then 1 else 0
    ensures Fine(s, i) <==> x == 0 && DecMap(s[i]) != 127 && !(DecMap(s[i]) < 64 && j != 0)
    ensures Fine(s, i) ==> |Chars(s, i + 1)| == |Chars(s, i)| + 1
    ensures j == Pads(s, i + 1)
  {}

  /** The first pass: it lets through exactly the valid texts, and counts their characters and pads. */
  method Check(src: seq<byte>) returns (ok: bool, n: nat, j: nat)
    ensures ok <==> ValidText(src)
    ensures ok ==> n == |Chars(src, |src|)| && j == Pads(src, |src|)
  {
    hide DecMap, Fine, Chars, Pads;
    var i, x := 0, 0;
    n, j := 0, 0;
    Start(src);
    while i < |src|
      invariant i <= |src| && ValidUpTo(src, i) && n == |Chars(src, i)| && j == Pads(src, i)
      invariant i > 0 ==> src[i - 1] != SPACE
      decreases |src| - i
    {
      i, x := SkipSpaces(src, i);
      if i == |src| { break; }
      if |src| - i >= 2 && src[i] == CR && src[i + 1] == LF {
        LineEndFine(src, i);
        i := i + 1;
        continue;
      }
      if src[i] == LF {
        LineEndFine(src, i);
        i := i + 1;
        continue;
      }
      Verdict(src, i, x, j + if src[i] == PAD then 1 else 0);
      if x != 0 { return false, n, j; }
      if src[i] == PAD {
        j := j + 1;
        if j > 2 {
          PadsGrow(src, i + 1, |src|);
          return false, n, j;
        }
      }
      if DecMap(src[i]) == 127 { return false, n, j; }
      if DecMap(src[i]) < 64 && j != 0 { return false, n, j; }
      n, i := n + 1, i + 1;
    }
    ok := true;
  }

  lemma Start(s: seq<byte>)
    ensures Chars(s, 0) == [] && Pads(s, 0) == 0
  {}

  // ---------- the second pass ----------

  /** Pads only at the end. */
  ghost predicate PadsBehind(c: seq<byte>) { forall i, j :: 0 <= i < j < |c| && c[i] == PAD ==> c[j] == PAD }

  lemma {:induction false} CharsPads(s: seq<byte>, k: nat)
    requires k <= |s| && forall i :: 0 <= i < k ==> Fine(s, i)
    ensures var c := Chars(s, k); Pads(c, |c|) == Pads(s, k) && PadsBehind(c)
  {
    hide Fine, DecMap, Pads, Skipped;
    if k > 0 {
      CharsPads(s, k - 1);
      var c, d := Chars(s, k - 1), Chars(s, k);
      FineCoded(s, k - 1);
      PadsStep(s, k - 1);
      if Skipped(s[k - 1]) {
        assert d == c;
      } else {
        assert d == c + [s[k - 1]];
        PadsPrefix(d, c, |c|);
        PadsStep(d, |c|);
        if exists i :: 0 <= i < |c| && c[i] == PAD {
          var i :| 0 <= i < |c| && c[i] == PAD;
          PadCounted(c, i);
        }
      }
    }
  }

  lemma PadsStep(s: seq<byte>, k: nat)
    requires k < |s|
    ensures Pads(s, k + 1) == Pads(s, k) + if s[k] == PAD then 1 else 0
  {}

  lemma FineCoded(s: seq<byte>, i: nat)
    requires i < |s| && Fine(s, i)
    ensures Skipped(s[i]) ==> s[i] != PAD
    ensures !Skipped(s[i]) && Pads(s, i) > 0 ==> s[i] == PAD
  {}

  lemma {:induction false} PadCounted(c: seq<byte>, i: nat)
    requires i < |c| && c[i] == PAD
    ensures Pads(c, |c|) > 0
  {
    PadsGrow(c, i + 1, |c|);
  }

  // Where the pads are: the last ones.
  lemma {:induction false} PadsAtEnd(c: seq<byte>, k: nat)
    requires PadsBehind(c) && k <= |c|
    ensures var p := Pads(c, |c|); Pads(c, k) == if k + p <= |c| then 0 else k + p - |c|
    decreases |c| - k
  {
    if k < |c| {
      PadsAtEnd(c, k + 1);
      if Pads(c, k) > 0 {
        var i := PadBefore(c, k);
      }
      PadsWithin(c, k);
      if c[k] == PAD { AllPads(c, k); }
    }
  }

  lemma {:induction false} PadsWithin(c: seq<byte>, k: nat)
    requires k <= |c|
    ensures Pads(c, |c|) <= Pads(c, k) + |c| - k
    decreases |c| - k
  {
    if k < |c| { PadsWithin(c, k + 1); }
  }

  lemma {:induction false} AllPads(c: seq<byte>, k: nat)
    requires PadsBehind(c) && k < |c| && c[k] == PAD
    ensures Pads(c, |c|) == Pads(c, k) + |c| - k
    decreases |c| - k
  {
    if k + 1 < |c| { AllPads(c, k + 1); }
  }

  lemma {:induction false} GroupsSize(c: seq<byte>, q: nat)
    requires PadsBehind(c) && Pads(c, |c|) <= 2 && 4 * q <= |c|
    ensures |Groups(c, q)| == 3 * q - Pads(c, 4 * q)
  {
    if q > 0 {
      GroupsSize(c, q - 1);
      PadsAtEnd(c, 4 * q);
      PadsAtEnd(c, 4 * (q - 1));
    }
  }

  /** The second pass writes no more than the first computes. */
  lemma SecondPassFits(src: seq<byte>, q: nat)
    requires ValidText(src)
    ensures var c := Chars(src, |src|); 4 * q <= |c| ==> |Groups(c, q)| <= Measured(|c|, Pads(src, |src|))
  {
    var c := Chars(src, |src|);
    CharsPads(src, |src|);
    if 4 * q <= |c| {
      GroupsSize(c, q);
      PadsAtEnd(c, 4 * q);
    }
  }

  /** The value of the n characters from a on. */
  function Part(c: seq<byte>, a: nat, n: nat): nat
    requires a + n <= |c|
  {
    if n == 0 then 0 else Part(c, a, n - 1) * 64 + Bits(c[a + n - 1])
  }

  /** The accumulator holds the n characters from a on in its low bits. */
  predicate Holds(x: nat, c: seq<byte>, a: nat, n: nat)
    requires a + n <= |c|
  {
    x % Pow64(n) == Part(c, a, n)
  }

  function Pow64(n: nat): (p: nat)
    ensures p > 0
  {
    if n == 0 then 1 else 64 * Pow64(n - 1)
  }

  lemma Powers64()
    ensures Pow64(1) == 64 && Pow64(2) == 4096 && Pow64(3) == 262144 && Pow64(4) == 16777216
  {}

  // Shifting a character into the 32-bit accumulator.
  lemma Shift(x: nat, n: nat, w: nat, v: nat)
    requires n < 4 && v < 64 && x % Pow64(n) == w
    ensures (x * 64 % 0x1_0000_0000 + v) % Pow64(n + 1) == 64 * w + v
  {
    Powers64();
    var p, c := Pow64(n), x * 64 / 0x1_0000_0000;
    var a := x / p;
    assert x == p * a + w;
    var r := if n == 0 then 67108864 else if n == 1 then 1048576 else if n == 2 then 16384 else 256;
    assert 64 * p * r == 0x1_0000_0000;
    var y := x * 64 % 0x1_0000_0000 + v;
    assert y == 64 * p * (a - r * c) + (64 * w + v) by {
      if n == 0 {} else if n == 1 {} else if n == 2 {} else {}
    }
    DivIs(y, 64 * p, a - r * c, 64 * w + v);
  }

  lemma PartIsValue(c: seq<byte>, a: nat)
    requires a + 4 <= |c|
    ensures Part(c, a, 4) == Value24(c[a..a + 4]) < Pow64(4)
  {
    hide Bits;
    Powers64();
    assert Part(c, a, 1) == Bits(c[a]);
    assert Part(c, a, 2) == Bits(c[a]) * 64 + Bits(c[a + 1]);
    assert Part(c, a, 3) == (Bits(c[a]) * 64 + Bits(c[a + 1])) * 64 + Bits(c[a + 2]);
    BitsSmall(c[a]);
    BitsSmall(c[a + 1]);
    BitsSmall(c[a + 2]);
    BitsSmall(c[a + 3]);
  }

  lemma BitsSmall(c: byte)
    ensures Bits(c) < 64
  {}

  // The three low bytes do not see what is above them.
  lemma SameBytes(x: nat, y: nat)
    requires x % 16777216 == y
    ensures Three(x) == Three(y)
  {
    var k := x / 16777216;
    Above(65536 * k, y, x);
    assert x / 65536 % 256 == y / 65536 % 256 by {
      Sixteen(256 * k, y);
      DropHigh(k, y / 65536);
    }
  }

  lemma Above(k: nat, y: nat, x: nat)
    requires x == 256 * k + y && k % 65536 == 0
    ensures x % 256 == y % 256 && x / 256 % 256 == y / 256 % 256
  {
    DropHigh(k, y);
    Eight(k, y);
    var j := k / 65536;
    assert k == 256 * (256 * j);
    DropHigh(256 * j, y / 256);
  }

  lemma Sixteen(k: nat, y: nat)
    ensures (65536 * k + y) / 65536 == k + y / 65536
  {}

  lemma Eight(k: nat, y: nat)
    ensures (256 * k + y) / 256 == k + y / 256
  {}

  lemma DropHigh(k: nat, y: nat)
    ensures (256 * k + y) % 256 == y % 256
  {}

  lemma {:induction false} CharsPrefix(s: seq<byte>, k: nat, n: nat)
    requires k <= n <= |s|
    ensures Chars(s, k) <= Chars(s, n)
  {
    if k < n { CharsPrefix(s, k, n - 1); }
  }

  // What a group adds to the output.
  lemma GroupOut(c: seq<byte>, q: nat, x: nat, j: nat)
    requires 4 * q + 4 <= |c| && Pads(c, 4 * q + 4) <= 2 && j == 3 - Pads(c, 4 * q + 4) && Holds(x, c, 4 * q, 4)
    ensures Groups(c, q + 1) == Groups(c, q) + Three(x)[..j]
  {
    hide Three, Value24;
    Powers64();
    PartIsValue(c, 4 * q);
    SameBytes(x, Part(c, 4 * q, 4));
  }

  method PutUpToThree(dst: array<byte>, p: nat, x: nat, j: nat) returns (p': nat)
    requires j <= 3 && p + j <= dst.Length
    modifies dst
    ensures p' == p + j && dst[..] == Written(old(dst[..]), p, Three(x)[..j])
  {
    p' := p;
    if j > 0 { dst[p'] := x / 65536 % 256; p' := p' + 1; }
    if j > 1 { dst[p'] := x / 256 % 256; p' := p' + 1; }
    if j > 2 { dst[p'] := x % 256; p' := p' + 1; }
  }

  // One character of the second pass.
  lemma CharNext(src: seq<byte>, k: nat)
    requires k < |src| && !Skipped(src[k])
    ensures var c, m := Chars(src, |src|), |Chars(src, k)|; m < |c| && c[m] == src[k] && |Chars(src, k + 1)| == m + 1
    ensures var c, m := Chars(src, |src|), |Chars(src, k)|;
      m < |c| && Pads(c, m + 1) == Pads(c, m) + if src[k] == PAD then 1 else 0
  {
    CharsPrefix(src, k + 1, |src|);
  }

  lemma Before(src: seq<byte>, c: seq<byte>, s: seq<byte>)
    ensures Chars(src, 0) == [] && Pads(c, 0) == 0 && Holds(0, c, 0, 0) && Groups(c, 0) == []
    ensures Written(s, 0, Groups(c, 0)) == s
  {}

  lemma SkipNext(src: seq<byte>, k: nat)
    requires k < |src|
    ensures Skipped(src[k]) <==> src[k] == CR || src[k] == LF || src[k] == SPACE
    ensures Skipped(src[k]) ==> Chars(src, k + 1) == Chars(src, k)
  {}

  lemma FewPads(src: seq<byte>, m: nat)
    requires ValidText(src) && m <= |Chars(src, |src|)|
    ensures Pads(Chars(src, |src|), m) <= 2
  {
    CharsPads(src, |src|);
    PadsGrow(Chars(src, |src|), m, |Chars(src, |src|)|);
  }

  lemma IsPad(c: byte)
    ensures DecMap(c) == 64 <==> c == PAD
  {}

  lemma ShiftIn(c: seq<byte>, a: nat, n: nat, x: nat)
    requires n < 4 && a + n < |c| && Holds(x, c, a, n)
    ensures Holds(x * 64 % 0x1_0000_0000 + Bits(c[a + n]), c, a, n + 1)
  {
    hide Bits;
    BitsSmall(c[a + n]);
    Shift(x, n, Part(c, a, n), Bits(c[a + n]));
  }

  lemma FreshGroup(c: seq<byte>, a: nat, x: nat)
    requires a <= |c|
    ensures Holds(x, c, a, 0)
  {}

  // All that one character of the code changes.
  lemma CharStep(src: seq<byte>, k: nat, m: nat, a: nat, n: nat, x: nat)
    requires ValidText(src) && k < |src| && src[k] != CR && src[k] != LF && src[k] != SPACE
    requires m == |Chars(src, k)| == a + n <= |Chars(src, |src|)| && n < 4 && Holds(x, Chars(src, |src|), a, n)
    ensures var c := Chars(src, |src|);
      m < |c| && |Chars(src, k + 1)| == m + 1 && Pads(c, m + 1) == Pads(c, m) + (if src[k] == PAD then 1 else 0) <= 2
    ensures Holds(x * 64 % 0x1_0000_0000 + Bits(src[k]), Chars(src, |src|), a, n + 1)
  {
    hide ValidText, Holds, Bits, Pads, Chars, Skipped;
    SkipNext(src, k);
    CharNext(src, k);
    FewPads(src, m + 1);
    ShiftIn(Chars(src, |src|), a, n, x);
  }

  // The output of a group that is complete.
  method PutGroup(dst: array<byte>, ghost src: seq<byte>, p: nat, x: nat, j: nat, ghost q: nat, ghost s: seq<byte>)
    returns (p': nat)
    requires ValidText(src) && |s| == dst.Length >= Measured(|Chars(src, |src|)|, Pads(src, |src|))
    requires 4 * q + 4 <= |Chars(src, |src|)|
    requires var c := Chars(src, |src|);
      && p == |Groups(c, q)| <= |s| && dst[..] == Written(s, 0, Groups(c, q)) && Pads(c, 4 * q + 4) <= 2
      && j == 3 - Pads(c, 4 * q + 4) && Holds(x, c, 4 * q, 4)
    modifies dst
    ensures var c := Chars(src, |src|); p' == |Groups(c, q + 1)| <= |s| && dst[..] == Written(s, 0, Groups(c, q + 1))
  {
    hide Written, Chars, Pads, Groups, ValidText, Holds, Three, Measured;
    ghost var c := Chars(src, |src|);
    GroupOut(c, q, x, j);
    SecondPassFits(src, q + 1);
    p' := PutUpToThree(dst, p, x, j);
    WrittenNext(s, 0, Groups(c, q), Three(x)[..j]);
  }

  /** The second pass. */
  method Write(dst: array<byte>, src: seq<byte>) returns (olen: nat)
    requires ValidText(src) && dst.Length >= Measured(|Chars(src, |src|)|, Pads(src, |src|))
    modifies dst
    ensures var out := DecodeChars(Chars(src, |src|));
      olen == |out| <= dst.Length && dst[..] == Written(old(dst[..]), 0, out)
  {
    hide Written, Bits, DecMap, Chars, Pads, Groups, ValidText, Skipped, Holds, Three, Measured;
    ghost var s, c, m, q := dst[..], Chars(src, |src|), 0, 0;
    var j, n, x, p := 3, 0, 0, 0;
    Before(src, c, s);
    for k := 0 to |src|
      invariant m == |Chars(src, k)| == 4 * q + n <= |c| && 0 <= n < 4
      invariant j == 3 - Pads(c, m) && 0 <= x && Holds(x, c, 4 * q, n)
      invariant p == |Groups(c, q)| <= |s| && dst[..] == Written(s, 0, Groups(c, q))
    {
      if src[k] == CR || src[k] == LF || src[k] == SPACE {
        SkipNext(src, k);
        continue;
      }
      CharStep(src, k, m, 4 * q, n, x);
      IsPad(src[k]);
      if DecMap(src[k]) == 64 { j := j - 1; }
      x := x * 64 % 0x1_0000_0000 + Bits(src[k]);
      m, n := m + 1, n + 1;
      if n == 4 {
        n := 0;
        p := PutGroup(dst, src, p, x, j, q, s);
        q := q + 1;
        FreshGroup(c, 4 * q, x);
      }
    }
    olen := p;
  }

  /** qcloud_iot_utils_base64decode. */
  method Base64Decode(dst: array<byte>, src: seq<byte>) returns (rc: int, olen: nat)
    modifies dst
    ensures var c := Chars(src, |src|); var n := Measured(|c|, Pads(src, |src|));
      && rc == (if !ValidText(src) || (|c| > 0 && dst.Length < n) then ERR_FAILURE else 0)
      && (rc != 0 && ValidText(src) ==> olen == n)
    ensures rc == 0 ==> olen == |DecodeChars(Chars(src, |src|))| <= dst.Length
    ensures rc == 0 ==> dst[..] == Written(old(dst[..]), 0, DecodeChars(Chars(src, |src|)))
    ensures rc != 0 ==> dst[..] == old(dst[..])
  {
    hide Written, ValidText, Chars, Pads, Groups;
    var ok, n, j := Check(src);
    if !ok { return ERR_FAILURE, 0; }
    if n == 0 {
      NoChars(src, dst[..]);
      return 0, 0;
    }
    PadsInChars(src);
    n := (n * 6 + 7) / 8 - j;
    if dst.Length < n { return ERR_FAILURE, n; }
    olen := Write(dst, src);
    rc := 0;
  }

  lemma NoChars(src: seq<byte>, s: seq<byte>)
    requires |Chars(src, |src|)| == 0
    ensures DecodeChars(Chars(src, |src|)) == [] && Written(s, 0, DecodeChars(Chars(src, |src|))) == s
  {}

  lemma PadsInChars(src: seq<byte>)
    requires ValidText(src)
    ensures Pads(src, |src|) <= |Chars(src, |src|)| && Pads(src, |src|) <= 2
  {
    CharsPads(src, |src|);
  }
}
