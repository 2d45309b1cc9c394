/** aes_gen_tables of utils_aes.c: the tables it fills are the S-boxes and round tables of FIPS 197. */
module AesGen {
  import opened Orbit
  import opened AesField
  import opened AesAlgebra
  import opened AesSpec
  import opened AesState
  import opened AesTables
  import opened AesKeys

  /** AES itself: the bytes of GF(2^8) and the two S-boxes. */
  ghost function Aes(): Params { Params(F8, x => FSb(x), y => RSb(y)) }

  lemma AesGood()
    ensures Good(Aes()) && AddsByXor(Aes().r)
  {
    F8Laws();
    forall x: byte ensures RSb(FSb(x)) == x { SboxInverse(x); }
  }

  // ---------- powers and logarithms ----------

  lemma IndexByte(i: int)
    requires 0 <= i < 256
    ensures (i as byte) as int == i
  {
    assert i % 256 == i;
  }

  ghost predicate LogAt(log: array<nat>, v: byte, n: nat)
    requires log.Length == 256
    reads log
  {
    v != 0 && Log(v) < n ==> log[v as int] == Log(v)
  }

  ghost predicate PowersHold(pow: array<byte>, n: nat)
    reads pow
  {
    pow.Length == 256 && n <= 256 && forall k: nat {:trigger pow[k]} :: k < n ==> pow[k] == Exp(k)
  }

  ghost predicate LogsHold(log: array<nat>, n: nat)
    reads log
  {
    log.Length == 256 && forall v: byte :: LogAt(log, v, n)
  }

  lemma LogStep(x: byte, i: nat, v: byte)
    requires x == Exp(i) && i < 256 && v != 0
    ensures v == x && i > 0 ==> Log(v) == i
    ensures Log(v) == i ==> v == x
  {
    if v == x && i > 0 { LogUnique(v, i); }
  }

  /** log[x] = i: the last counter value that reaches x stays. */
  method PutLog(log: array<nat>, x: byte, i: nat)
    requires LogsHold(log, i) && i < 256 && x == Exp(i)
    modifies log
    ensures LogsHold(log, i + 1)
  {
    log[x as int] := i;
    ghost var n := i + 1;
    forall v: byte ensures LogAt(log, v, n) {
      if v != 0 {
        LogStep(x, i, v);
        assert old(LogAt(log, v, i));
        SameIndex(v, x);
      }
    }
  }

  lemma SameIndex(v: byte, x: byte)
    ensures v as int == x as int ==> v == x
  {}

  method PowAndLog() returns (pow: array<byte>, log: array<nat>)
    ensures PowersHold(pow, 256) && LogsHold(log, 256) && fresh(pow) && fresh(log)
  {
    pow, log := new byte[256], new nat[256];
    var x: byte := 1;
    for i := 0 to 256
      invariant x == Exp(i) && PowersHold(pow, i) && LogsHold(log, i)
    {
      pow[i] := x;
      PutLog(log, x, i);
      x := x ^ XTime(x);
    }
  }

  // ---------- round constants and S-boxes ----------

  method RoundConstants(rcon: array<word>)
    requires rcon.Length == 10
    modifies rcon
    ensures forall i :: 0 <= i < 10 ==> rcon[i] == Rcon(F8, i)
  {
    var x: byte := 1;
    for i := 0 to 10
      invariant x == Iter(F8.dbl, 1, i)
      invariant forall j :: 0 <= j < i ==> rcon[j] == Rcon(F8, j)
    {
      rcon[i] := x as word;
      x := XTime(x);
    }
  }

  /** The value of x after the four rotations, as the loop computes it. */
  method AffineOf(x0: byte) returns (x: byte)
    ensures x == Affine(x0)
  {
    x := x0;
    var y := x;
    y := (y << 1) | (y >> 7);
    x := x ^ y; y := (y << 1) | (y >> 7);
    x := x ^ y; y := (y << 1) | (y >> 7);
    x := x ^ y; y := (y << 1) | (y >> 7);
    x := x ^ y ^ 0x63;
  }

  method SubstituteOf(pow: array<byte>, log: array<nat>, x: byte) returns (y: byte)
    requires PowersHold(pow, 256) && LogsHold(log, 256) && x != 0
    ensures y == FSb(x)
  {
    assert LogAt(log, x, 256);
    y := AffineOf(pow[255 - log[x as int]]);
  }

  // p is AES; fires only where it is asked for.
  ghost predicate IsAes(p: Params) {
    p.r == F8 && forall x {:trigger Use1(x)} :: Use1(x) ==> p.sb(x) == FSb(x) && p.rsb(x) == RSb(x)
  }

  ghost predicate Inverses(p: Params) {
    && (forall v {:trigger p.sb(v)} :: p.rsb(p.sb(v)) == v)
    && (forall v {:trigger p.rsb(v)} :: p.sb(p.rsb(v)) == v)
  }

  // What one index of each S-box holds once the first n indices of FSb are filled.
  ghost predicate ForwardAt(fsb: array<byte>, p: Params, v: byte, n: nat)
    requires fsb.Length == 256
    reads fsb
  {
    (v as int) < n ==> fsb[v as int] == p.sb(v)
  }

  ghost predicate ReverseAt(rsb: array<byte>, p: Params, v: byte, n: nat)
    requires rsb.Length == 256
    reads rsb
  {
    (p.rsb(v) as int) < n ==> rsb[v as int] == p.rsb(v)
  }

  ghost predicate AllForward(fsb: array<byte>, p: Params, n: nat)
    reads fsb
  {
    fsb.Length == 256 && forall v: byte :: ForwardAt(fsb, p, v, n)
  }

  ghost predicate AllReverse(rsb: array<byte>, p: Params, n: nat)
    reads rsb
  {
    rsb.Length == 256 && forall v: byte :: ReverseAt(rsb, p, v, n)
  }

  ghost predicate BoxesHold(fsb: array<byte>, rsb: array<byte>, p: Params, n: nat)
    reads fsb, rsb
  {
    AllForward(fsb, p, n) && AllReverse(rsb, p, n)
  }

  method PutForward(ghost p: Params, fsb: array<byte>, i: byte, x: byte)
    requires AllForward(fsb, p, i as int) && x == p.sb(i)
    modifies fsb
    ensures AllForward(fsb, p, i as int + 1)
  {
    fsb[i as int] := x;
    ghost var n := i as int + 1;
    forall v: byte ensures ForwardAt(fsb, p, v, n) {
      assert old(ForwardAt(fsb, p, v, i as int));
      SameIndex(v, i);
    }
  }

  method PutReverse(ghost p: Params, rsb: array<byte>, i: byte, x: byte)
    requires AllReverse(rsb, p, i as int) && x == p.sb(i) && Inverses(p)
    modifies rsb
    ensures AllReverse(rsb, p, i as int + 1)
  {
    rsb[x as int] := i;
    ghost var n := i as int + 1;
    forall v: byte ensures ReverseAt(rsb, p, v, n) {
      assert old(ReverseAt(rsb, p, v, i as int));
      SameIndex(v, x); SameIndex(p.rsb(v), i);
    }
  }

  /** FSb[i] = x; RSb[x] = i. */
  method PutBox(ghost p: Params, fsb: array<byte>, rsb: array<byte>, i: byte, x: byte)
    requires BoxesHold(fsb, rsb, p, i as int) && x == p.sb(i) && fsb != rsb && Inverses(p)
    modifies fsb, rsb
    ensures BoxesHold(fsb, rsb, p, i as int + 1)
  {
    PutForward(p, fsb, i, x);
    PutReverse(p, rsb, i, x);
  }

  lemma ZeroBox(p: Params)
    requires IsAes(p)
    ensures p.sb(0) == 0x63
  {
    assert Use1<byte>(0) && Affine(0) == 0x63;
  }

  method SboxTables(ghost p: Params, pow: array<byte>, log: array<nat>, fsb: array<byte>, rsb: array<byte>)
    requires PowersHold(pow, 256) && LogsHold(log, 256) && fsb.Length == rsb.Length == 256 && IsAes(p) && Inverses(p)
    requires fsb != rsb && pow !in {fsb, rsb} && (log as object) !in {fsb as object, rsb as object}
    modifies fsb, rsb
    ensures BoxesHold(fsb, rsb, p, 256)
  {
    ZeroBox(p);
    forall v: byte ensures ForwardAt(fsb, p, v, 0) { OverByte(v); }
    forall v: byte ensures ReverseAt(rsb, p, v, 0) { OverByte(p.rsb(v)); }
    PutBox(p, fsb, rsb, 0x00, 0x63);
    for i := 1 to 256
      invariant BoxesHold(fsb, rsb, p, i) && PowersHold(pow, 256) && LogsHold(log, 256)
    {
      IndexByte(i);
      var x := SubstituteOf(pow, log, i as byte);
      assert Use1(i as byte);
      PutBox(p, fsb, rsb, i as byte, x);
    }
  }

  lemma OverByte(b: byte)
    ensures 0 <= b as int < 256
  {}

  // ---------- round tables ----------

  lemma TimesTwoThree(s: byte)
    ensures Times(F8, 2, s) == XTime(s) && Times(F8, 3, s) == XTime(s) ^ s
  {
    F8Laws();
    TimesOf(2, s); TimesOf(3, s); TimesOf(1, XTime(s));
  }

  // One bit of the multiplier.
  lemma TimesOf(k: byte, s: byte)
    ensures Times(F8, k, s) == (if k & 1 == 1 then s else 0) ^ Times(F8, k >> 1, XTime(s))
    ensures Times(F8, 0, s) == 0
  {
    F8Laws();
    TimesUnfold(F8, k, s);
  }

  /** ROTL8 of a table word. */
  method Rotated(ghost a: byte, ghost b: byte, ghost c: byte, ghost d: byte, w: word) returns (v: word)
    requires w == Word(a, b, c, d)
    ensures v == Word(d, a, b, c)
  {
    RotatedWord(a, b, c, d);
    v := (w << 8) | (w >> 24);
  }

  /** FT0[i] to FT3[i] from x = FSb[i]. */
  method ForwardEntry(x: byte) returns (f0: word, f1: word, f2: word, f3: word)
    ensures f0 == FT0(F8, x) && f1 == FT1(F8, x) && f2 == FT2(F8, x) && f3 == FT3(F8, x)
  {
    var y := XTime(x);
    var z := y ^ x;
    TimesTwoThree(x);
    f0 := Word(y, x, x, z);
    f1 := Rotated(y, x, x, z, f0);
    f2 := Rotated(z, y, x, x, f1);
    f3 := Rotated(x, z, y, x, f2);
  }

  /** The MUL macro. */
  method MulOf(pow: array<byte>, log: array<nat>, k: byte, x: byte) returns (y: byte)
    requires PowersHold(pow, 256) && LogsHold(log, 256)
    ensures y == Times(F8, k, x)
  {
    MulIsTimes(k, x);
    if k != 0 && x != 0 {
      assert LogAt(log, k, 256) && LogAt(log, x, 256);
      y := pow[(log[k as int] + log[x as int]) % 255];
    } else {
      y := 0;
    }
  }

  /** RT0[i] to RT3[i] from x = RSb[i]. */
  method ReverseEntry(pow: array<byte>, log: array<nat>, x: byte) returns (r0: word, r1: word, r2: word, r3: word)
    requires PowersHold(pow, 256) && LogsHold(log, 256)
    ensures r0 == RT0(F8, x) && r1 == RT1(F8, x) && r2 == RT2(F8, x) && r3 == RT3(F8, x)
  {
    var e := MulOf(pow, log, 0x0E, x);
    var n := MulOf(pow, log, 0x09, x);
    var d := MulOf(pow, log, 0x0D, x);
    var b := MulOf(pow, log, 0x0B, x);
    r0 := Word(e, n, d, b);
    r1 := Rotated(e, n, d, b, r0);
    r2 := Rotated(b, e, n, d, r1);
    r3 := Rotated(d, b, e, n, r2);
  }

  // One index of the eight round tables.
  datatype Row = Row(f0: word, f1: word, f2: word, f3: word, r0: word, r1: word, r2: word, r3: word)

  ghost function RowAt(t: Tables, x: byte): Row
    requires t.Shaped()
    reads t.ft0, t.ft1, t.ft2, t.ft3, t.rt0, t.rt1, t.rt2, t.rt3
  {
    var i := x as int;
    Row(t.ft0[i], t.ft1[i], t.ft2[i], t.ft3[i], t.rt0[i], t.rt1[i], t.rt2[i], t.rt3[i])
  }

  ghost function RowOf(s: byte, x: byte): Row {
    Row(FT0(F8, s), FT1(F8, s), FT2(F8, s), FT3(F8, s), RT0(F8, x), RT1(F8, x), RT2(F8, x), RT3(F8, x))
  }

  ghost predicate RowsHold(t: Tables, row: byte -> Row, n: nat)
    reads t.ft0, t.ft1, t.ft2, t.ft3, t.rt0, t.rt1, t.rt2, t.rt3
  {
    t.Shaped() && forall x: byte {:trigger row(x)} :: (x as int) < n ==> RowAt(t, x) == row(x)
  }

  method RowWords(pow: array<byte>, log: array<nat>, s: byte, x: byte) returns (r: Row)
    requires PowersHold(pow, 256) && LogsHold(log, 256)
    ensures r == RowOf(s, x)
  {
    var f0, f1, f2, f3 := ForwardEntry(s);
    var r0, r1, r2, r3 := ReverseEntry(pow, log, x);
    r := Row(f0, f1, f2, f3, r0, r1, r2, r3);
  }

  method StoreRow(t: Tables, ghost row: byte -> Row, i: byte, r: Row)
    requires RowsHold(t, row, i as int) && r == row(i)
    modifies t.ft0, t.ft1, t.ft2, t.ft3, t.rt0, t.rt1, t.rt2, t.rt3
    ensures RowsHold(t, row, i as int + 1)
  {
    var k := i as int;
    t.ft0[k], t.ft1[k], t.ft2[k], t.ft3[k] := r.f0, r.f1, r.f2, r.f3;
    t.rt0[k], t.rt1[k], t.rt2[k], t.rt3[k] := r.r0, r.r1, r.r2, r.r3;
    forall x: byte | (x as int) < k + 1 ensures RowAt(t, x) == row(x) {
      SameIndex(x, i);
      assert x == i || row(x) == old(RowAt(t, x));
    }
  }

  ghost function RowsOf(p: Params): byte -> Row { x => RowOf(p.sb(x), p.rsb(x)) }

  method RoundTables(t: Tables, ghost p: Params, ghost row: byte -> Row, pow: array<byte>, log: array<nat>)
    requires PowersHold(pow, 256) && LogsHold(log, 256) && t.SboxesHold(p)
    requires RowsFor(row, p)
    requires (log as object) !in Objects(t) && (pow as object) !in Objects(t)
    modifies t.ft0, t.ft1, t.ft2, t.ft3, t.rt0, t.rt1, t.rt2, t.rt3
    ensures RowsHold(t, row, 256) && t.SboxesHold(p)
  {
    hide PowersHold, LogsHold;
    for i := 0 to 256
      invariant PowersHold(pow, 256) && LogsHold(log, 256) && t.SboxesHold(p) && RowsHold(t, row, i)
    {
      IndexByte(i);
      var b := i as byte;
      assert t.SboxAt(p, b);
      var r := RowWords(pow, log, t.fsb[i], t.rsb[i]);
      assert r == row(b);
      StoreRow(t, row, b, r);
    }
  }

  ghost function Objects(t: Tables): set<object> {
    (set a | a in t.Bytes() :: a as object) + (set a | a in t.Words() :: a as object)
  }

  lemma BoxesAreSboxes(t: Tables, p: Params, n: nat)
    requires t.Shaped() && n == 256 && BoxesHold(t.fsb, t.rsb, p, n)
    ensures forall x: byte :: t.SboxAt(p, x)
  {
    forall x: byte ensures t.SboxAt(p, x) {
      assert ForwardAt(t.fsb, p, x, n) && ReverseAt(t.rsb, p, x, n);
      OverByte(x); OverByte(p.rsb(x));
    }
  }

  lemma RowIsRounds(t: Tables, p: Params, x: byte)
    requires p.r == F8 && t.Shaped() && RowAt(t, x) == RowOf(p.sb(x), p.rsb(x))
    ensures t.RoundsAt(p, x)
  {}

  ghost predicate RowsFor(row: byte -> Row, p: Params) {
    forall x: byte {:trigger row(x)} :: row(x) == RowOf(p.sb(x), p.rsb(x))
  }

  lemma RowsExist(p: Params) returns (row: byte -> Row)
    ensures RowsFor(row, p)
  {
    row := RowsOf(p);
  }

  lemma RowsAreRounds(t: Tables, p: Params, row: byte -> Row, n: nat)
    requires p.r == F8 && n == 256 && RowsHold(t, row, n) && RowsFor(row, p)
    ensures forall x: byte :: t.RoundsAt(p, x)
  {
    forall x: byte ensures t.RoundsAt(p, x) {
      OverByte(x);
      assert row(x) == RowAt(t, x);
      RowIsRounds(t, p, x);
    }
  }

  /** aes_gen_tables: whatever the arrays held, they then hold the tables of AES. */
  method GenTables(t: Tables, ghost p: Params, ghost row: byte -> Row)
    requires t.Shaped() && IsAes(p) && Inverses(p) && RowsFor(row, p)
    modifies t.Bytes(), t.Words()
    ensures t.Hold(p)
  {
    var pow, log := PowAndLog();
    RoundConstants(t.rcon);
    SboxTables(p, pow, log, t.fsb, t.rsb);
    BoxesAreSboxes(t, p, 256);
    RoundTables(t, p, row, pow, log);
    RowsAreRounds(t, p, row, 256);
  }

  lemma AesParams() returns (p: Params)
    ensures IsAes(p) && Inverses(p) && Good(p) && AddsByXor(p.r)
  {
    p := Aes();
    AesGood();
    forall x: byte ensures FSb(RSb(x)) == x && RSb(FSb(x)) == x { SboxInverse(x); }
  }

  /** The whole of the static data after aes_init_done is set. */
  method InitTables() returns (t: Tables, ghost p: Params)
    ensures fresh(t) && fresh(t.Bytes()) && fresh(t.Words()) && t.Hold(p)
    ensures IsAes(p) && Good(p) && AddsByXor(p.r)
  {
    p := AesParams();
    ghost var row := RowsExist(p);
    t := new Tables();
    GenTables(t, p, row);
  }
}
