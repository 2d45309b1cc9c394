/** The frame check of the serial line (device_uart.c, device_uart_send.c): a bit by bit CRC, most
    significant bit first, with polynomial 0x8005 and start value 0x1923. */
module UartCrc {
  type byte = bv8
  type word = bv16

  const UUID: word := 0x1923
  const POLY: word := 0x8005

  // ---------- the register ----------

  function Add(x: word, y: word): word { x ^ y }

  /** One bit: shift, and subtract the polynomial if a bit falls out. */
  function Bit(x: word): word { (x << 1) ^ ((x >> 15) * POLY) }

  lemma BitOfOne(x: word)
    requires x & 0x8000 != 0
    ensures Bit(x) == (x << 1) ^ POLY
  {}

  lemma BitOfZero(x: word)
    requires x & 0x8000 == 0
    ensures Bit(x) == x << 1
  {}

  function Bits(x: word, n: nat): word { if n == 0 then x else Bit(Bits(x, n - 1)) }

  function High(b: byte): word { (b as word) << 8 }

  function Low(b: byte): word { b as word }

  function Step(x: word, b: byte): word { Bits(Add(x, High(b)), 8) }

  /** The register after a message. */
  function Crc(x: word, m: seq<byte>): word { if m == [] then x else Step(Crc(x, m[..|m| - 1]), m[|m| - 1]) }

  lemma BitInjective(x: word, y: word)
    requires Bit(x) == Bit(y)
    ensures x == y
  {}

  lemma BitAdds(x: word, y: word)
    ensures Bit(Add(x, y)) == Add(Bit(x), Bit(y))
  {
    hide Bit;
    BitAddsXor(x, y);
  }

  lemma BitAddsXor(x: word, y: word)
    ensures Bit(x ^ y) == Bit(x) ^ Bit(y)
  {}

  lemma {:induction false} BitsInjective(x: word, y: word, n: nat)
    requires Bits(x, n) == Bits(y, n)
    ensures x == y
  {
    hide Bit;
    if n > 0 {
      BitInjective(Bits(x, n - 1), Bits(y, n - 1));
      BitsInjective(x, y, n - 1);
    }
  }

  lemma {:induction false} BitsAdd(x: word, y: word, n: nat)
    ensures Bits(Add(x, y), n) == Add(Bits(x, n), Bits(y, n))
  {
    hide Bit, Add;
    if n > 0 {
      BitsAdd(x, y, n - 1);
      BitAdds(Bits(x, n - 1), Bits(y, n - 1));
    }
  }

  lemma {:induction false} BitsSplit(x: word, m: nat, n: nat)
    ensures Bits(x, m + n) == Bits(Bits(x, m), n)
  {
    hide Bit;
    if n > 0 { BitsSplit(x, m, n - 1); }
  }

  /** A byte in the low half only moves up. */
  lemma LowMoves(b: byte)
    ensures Bits(Low(b), 8) == High(b)
  {
    hide Bit, High, Low;
    Half(b);
    Eight(Low(b));
  }

  lemma Half(b: byte)
    ensures Low(b) & 0xFF00 == 0 && Low(b) << 8 == High(b)
  {}

  // All upper bits clear: eight shifts lose nothing.
  lemma Eight(x: word)
    requires x & 0xFF00 == 0
    ensures Bits(x, 8) == x << 8
  {
    hide Bit;
    BitOfSmall(x);
    BitOfSmall(x << 1);
    BitOfSmall(x << 2);
    BitOfSmall(x << 3);
    BitOfSmall(x << 4);
    BitOfSmall(x << 5);
    BitOfSmall(x << 6);
    BitOfSmall(x << 7);
    Shifts(x);
    assert Bits(x, 1) == Bit(x) && Bits(x, 2) == Bit(Bits(x, 1)) && Bits(x, 3) == Bit(Bits(x, 2));
    assert Bits(x, 4) == Bit(Bits(x, 3));
    assert Bits(x, 5) == Bit(Bits(x, 4)) && Bits(x, 6) == Bit(Bits(x, 5)) && Bits(x, 7) == Bit(Bits(x, 6));
    assert Bits(x, 8) == Bit(Bits(x, 7));
  }

  lemma BitOfSmall(x: word)
    ensures x & 0x8000 == 0 ==> Bit(x) == x << 1
  {
    if x & 0x8000 == 0 { BitOfZero(x); }
  }

  lemma Shifts(x: word)
    requires x & 0xFF00 == 0
    ensures x & 0x8000 == 0 && (x << 1) & 0x8000 == 0 && (x << 2) & 0x8000 == 0 && (x << 3) & 0x8000 == 0
    ensures (x << 4) & 0x8000 == 0 && (x << 5) & 0x8000 == 0 && (x << 6) & 0x8000 == 0 && (x << 7) & 0x8000 == 0
    ensures (x << 1) << 1 == x << 2 && (x << 2) << 1 == x << 3 && (x << 3) << 1 == x << 4 && (x << 4) << 1 == x << 5
    ensures (x << 5) << 1 == x << 6 && (x << 6) << 1 == x << 7 && (x << 7) << 1 == x << 8
  {}

  // ---------- addition ----------

  lemma AddAssociates(x: word, y: word, z: word)
    ensures Add(Add(x, y), z) == Add(x, Add(y, z))
  {}

  lemma CancelRight(x: word, y: word, z: word)
    requires Add(x, z) == Add(y, z)
    ensures x == y
  {}

  lemma CancelLeft(x: word, y: word, z: word)
    requires Add(z, x) == Add(z, y)
    ensures x == y
  {}

  lemma TwoBytes(a: byte, b: byte, c: byte, d: byte)
    requires Add(High(a), Low(b)) == Add(High(c), Low(d))
    ensures a == c && b == d
  {}

  /** Two bytes are one step of sixteen bits. */
  lemma TwoSteps(x: word, a: byte, b: byte)
    ensures Step(Step(x, a), b) == Bits(Add(x, Add(High(a), Low(b))), 16)
  {
    hide Bits, High, Low, Add;
    var y := Add(x, High(a));
    LowMoves(b);
    BitsAdd(y, Low(b), 8);
    BitsSplit(Add(y, Low(b)), 8, 8);
    AddAssociates(x, High(a), Low(b));
  }

  // ---------- what it detects ----------

  lemma StepInjective(x: word, y: word, b: byte)
    requires Step(x, b) == Step(y, b)
    ensures x == y
  {
    hide Bits, High, Add;
    BitsInjective(Add(x, High(b)), Add(y, High(b)), 8);
    CancelRight(x, y, High(b));
  }

  lemma {:induction false} SameTail(x: word, y: word, tail: seq<byte>)
    requires Crc(x, tail) == Crc(y, tail)
    ensures x == y
  {
    hide Step;
    if tail != [] {
      StepInjective(Crc(x, tail[..|tail| - 1]), Crc(y, tail[..|tail| - 1]), tail[|tail| - 1]);
      SameTail(x, y, tail[..|tail| - 1]);
    }
  }

  lemma {:induction false} CrcJoin(x: word, m: seq<byte>, n: seq<byte>)
    ensures Crc(x, m + n) == Crc(Crc(x, m), n)
  {
    hide Step;
    if n == [] {
      assert m + n == m;
    } else {
      var k := |n| - 1;
      CrcJoin(x, m, n[..k]);
      assert (m + n)[..|m + n| - 1] == m + n[..k];
    }
  }

  lemma CrcTwo(x: word, a: byte, b: byte)
    ensures Crc(x, [a, b]) == Step(Step(x, a), b)
  {
    hide Step;
    assert [a, b][..1] == [a] && [a][..0] == [];
    assert Crc(x, [a]) == Step(Crc(x, []), a);
  }

  /** Messages of one length that differ only within two adjacent bytes have different CRCs. */
  lemma AdjacentDetected(x: word, front: seq<byte>, a: byte, b: byte, c: byte, d: byte, tail: seq<byte>)
    requires a != c || b != d
    ensures Crc(x, front + [a, b] + tail) != Crc(x, front + [c, d] + tail)
  {
    hide Step, Crc, Bits, High, Low, Add;
    if Crc(x, front + [a, b] + tail) == Crc(x, front + [c, d] + tail) {
      var s := Crc(x, front);
      CrcJoin(x, front + [a, b], tail);
      CrcJoin(x, front + [c, d], tail);
      CrcJoin(x, front, [a, b]);
      CrcJoin(x, front, [c, d]);
      SameTail(Crc(x, front + [a, b]), Crc(x, front + [c, d]), tail);
      CrcTwo(s, a, b);
      CrcTwo(s, c, d);
      TwoSteps(s, a, b);
      TwoSteps(s, c, d);
      BitsInjective(Add(s, Add(High(a), Low(b))), Add(s, Add(High(c), Low(d))), 16);
      CancelLeft(Add(High(a), Low(b)), Add(High(c), Low(d)), s);
      TwoBytes(a, b, c, d);
    }
  }

  function Upper(x: word): byte { (x >> 8) as byte }

  function Lower(x: word): byte { (x & 0xFF) as byte }

  lemma {:induction false} BitsOfZero(n: nat)
    ensures Bits(0, n) == 0
  {
    if n > 0 { BitsOfZero(n - 1); }
  }

  /** The two bytes behind a message are its CRC exactly if the CRC over all of them is zero. */
  lemma TrailerIsCrc(x: word, m: seq<byte>, hi: byte, lo: byte)
    ensures Crc(x, m + [hi, lo]) == 0 <==> hi == Upper(Crc(x, m)) && lo == Lower(Crc(x, m))
  {
    hide Step, Crc, Bits, High, Low, Add, Upper, Lower;
    var s := Crc(x, m);
    CrcJoin(x, m, [hi, lo]);
    CrcTwo(s, hi, lo);
    TwoSteps(s, hi, lo);
    BitsOfZero(16);
    if Crc(x, m + [hi, lo]) == 0 {
      BitsInjective(Add(s, Add(High(hi), Low(lo))), 0, 16);
    }
    ZeroMeansSame(s, hi, lo);
  }

  lemma ZeroMeansSame(s: word, hi: byte, lo: byte)
    ensures Add(s, Add(High(hi), Low(lo))) == 0 <==> hi == Upper(s) && lo == Lower(s)
  {
    hide High, Low, Upper, Lower, Add;
    ZeroIsSame(s, Add(High(hi), Low(lo)));
    Halves(hi, lo);
    Rejoined(s);
  }

  lemma ZeroIsSame(s: word, w: word)
    ensures Add(s, w) == 0 <==> s == w
  {}

  lemma Halves(hi: byte, lo: byte)
    ensures Upper(Add(High(hi), Low(lo))) == hi && Lower(Add(High(hi), Low(lo))) == lo
  {}

  lemma Rejoined(s: word)
    ensures Add(High(Upper(s)), Low(Lower(s))) == s
  {}

  // ---------- the code ----------

  /** CRC16_MODBUS. */
  method Crc16(msg: seq<byte>, len: nat) returns (crc: word)
    requires len <= |msg|
    ensures crc == Crc(UUID, msg[..len])
  {
    hide Bits, High, Add;
    crc := UUID;
    var left, at := len, 0;
    while left > 0
      invariant left + at == len && crc == Crc(UUID, msg[..at])
    {
      left := left - 1;
      crc := ShiftByte(Add(crc, High(msg[at])));
      assert msg[..at + 1][..at] == msg[..at];
      at := at + 1;
    }
  }

  // The inner loop.
  method ShiftByte(x: word) returns (crc: word)
    ensures crc == Bits(x, 8)
  {
    hide Bit;
    crc := x;
    for i := 0 to 8
      invariant crc == Bits(x, i)
    {
      crc := ShiftBit(crc);
    }
  }

  method ShiftBit(x: word) returns (crc: word)
    ensures crc == Bit(x)
  {
    hide Bit;
    if x & 0x8000 != 0 {
      BitOfOne(x);
      crc := (x << 1) ^ POLY;
    } else {
      BitOfZero(x);
      crc := x << 1;
    }
  }

  // ---------- a known message ----------

  lemma EightBits(x: word)
    ensures Bits(x, 8) == Bit(Bit(Bit(Bit(Bit(Bit(Bit(Bit(x))))))))
  {
    hide Bit;
    assert Bits(x, 1) == Bit(x) && Bits(x, 2) == Bit(Bits(x, 1)) && Bits(x, 3) == Bit(Bits(x, 2));
    assert Bits(x, 4) == Bit(Bits(x, 3)) && Bits(x, 5) == Bit(Bits(x, 4)) && Bits(x, 6) == Bit(Bits(x, 5));
    assert Bits(x, 7) == Bit(Bits(x, 6)) && Bits(x, 8) == Bit(Bits(x, 7));
  }

  lemma CrcSnoc(x: word, m: seq<byte>, b: byte, c: word)
    requires Crc(x, m) == c
    ensures Crc(x, m + [b]) == Step(c, b)
  {
    hide Step;
    assert (m + [b])[..|m|] == m;
  }

  // One more byte, with the eight steps computed.
  lemma Known(x: word, m: seq<byte>, b: byte, c: word, d: word)
    requires Crc(x, m) == c && Bit(Bit(Bit(Bit(Bit(Bit(Bit(Bit(Add(c, High(b)))))))))) == d
    ensures Crc(x, m + [b]) == d
  {
    hide Bit, Add, High;
    CrcSnoc(x, m, b, c);
    EightBits(Add(c, High(b)));
  }

  const DIGITS: seq<byte> := [0x31, 0x32, 0x33, 0x34, 0x35, 0x36, 0x37, 0x38, 0x39]

  /** The check value of this polynomial, most significant bit first: 0xFEE8 over the nine digits from a
      register of zero, and 0x9D4E from the start value of the serial line. */
  lemma CheckValue()
    ensures Crc(0, DIGITS) == 0xFEE8 && Crc(UUID, DIGITS) == 0x9D4E
  {
    FromStart(0x0000, 0x80A5, 0xA6AC, 0xAF7E, 0xFD59, 0xDBB3, 0xB16E, 0xED17, 0x95FD, 0xFEE8);
    FromStart(0x1923, 0x23F0, 0xF066, 0x648A, 0x8BE0, 0xE384, 0x06FD, 0x7DA5, 0x249D, 0x9D4E);
  }

  lemma FromStart(d0: word, d1: word, d2: word, d3: word, d4: word, d5: word, d6: word, d7: word, d8: word, d9: word)
    requires Bit(Bit(Bit(Bit(Bit(Bit(Bit(Bit(Add(d0, High(0x31)))))))))) == d1
    requires Bit(Bit(Bit(Bit(Bit(Bit(Bit(Bit(Add(d1, High(0x32)))))))))) == d2
    requires Bit(Bit(Bit(Bit(Bit(Bit(Bit(Bit(Add(d2, High(0x33)))))))))) == d3
    requires Bit(Bit(Bit(Bit(Bit(Bit(Bit(Bit(Add(d3, High(0x34)))))))))) == d4
    requires Bit(Bit(Bit(Bit(Bit(Bit(Bit(Bit(Add(d4, High(0x35)))))))))) == d5
    requires Bit(Bit(Bit(Bit(Bit(Bit(Bit(Bit(Add(d5, High(0x36)))))))))) == d6
    requires Bit(Bit(Bit(Bit(Bit(Bit(Bit(Bit(Add(d6, High(0x37)))))))))) == d7
    requires Bit(Bit(Bit(Bit(Bit(Bit(Bit(Bit(Add(d7, High(0x38)))))))))) == d8
    requires Bit(Bit(Bit(Bit(Bit(Bit(Bit(Bit(Add(d8, High(0x39)))))))))) == d9
    ensures Crc(d0, DIGITS) == d9
  {
    hide Bit, Add, High;
    assert DIGITS[..0] == [];
    Known(d0, DIGITS[..0], 0x31, d0, d1);
    assert DIGITS[..1] == DIGITS[..0] + [0x31];
    Known(d0, DIGITS[..1], 0x32, d1, d2);
    assert DIGITS[..2] == DIGITS[..1] + [0x32];
    Known(d0, DIGITS[..2], 0x33, d2, d3);
    assert DIGITS[..3] == DIGITS[..2] + [0x33];
    Known(d0, DIGITS[..3], 0x34, d3, d4);
    assert DIGITS[..4] == DIGITS[..3] + [0x34];
    Known(d0, DIGITS[..4], 0x35, d4, d5);
    assert DIGITS[..5] == DIGITS[..4] + [0x35];
    Known(d0, DIGITS[..5], 0x36, d5, d6);
    assert DIGITS[..6] == DIGITS[..5] + [0x36];
    Known(d0, DIGITS[..6], 0x37, d6, d7);
    assert DIGITS[..7] == DIGITS[..6] + [0x37];
    Known(d0, DIGITS[..7], 0x38, d7, d8);
    assert DIGITS[..8] == DIGITS[..7] + [0x38];
    Known(d0, DIGITS[..8], 0x39, d8, d9);
    assert DIGITS[..9] == DIGITS[..8] + [0x39];
    assert DIGITS[..9] == DIGITS;
  }

  function U8(b: byte): nat { b as nat }

  /** What the receiver asks of an event: long enough for what its length byte says, the two markers,
      and a CRC of zero over the message and its trailer. */
  predicate Accepted(frame: seq<byte>) {
    && |frame| >= 5 && U8(frame[2]) + 3 <= |frame| && frame[0] == 0x55 && frame[1] == 0xAA
    && Crc(UUID, frame[..U8(frame[2]) + 3]) == 0
  }

  /** A frame that carries its own CRC is accepted: the markers, the length of what follows up to the
      trailer, and the two bytes of the CRC over all of it. */
  lemma SealedAccepted(front: seq<byte>, more: seq<byte>)
    requires |front| >= 3 && front[0] == 0x55 && front[1] == 0xAA && U8(front[2]) == |front| - 1
    ensures Accepted(front + [Upper(Crc(0x1923, front)), Lower(Crc(0x1923, front))] + more)
  {
    hide Crc, Upper, Lower;
    var hi, lo := Upper(Crc(0x1923, front)), Lower(Crc(0x1923, front));
    var frame := front + [hi, lo] + more;
    TrailerIsCrc(UUID, front, hi, lo);
    assert frame[..|front| + 2] == front + [hi, lo];
  }

  /** Damage to an accepted frame within two adjacent bytes of what the CRC covers is noticed, wherever it
      is. */
  lemma DamageRefused(front: seq<byte>, a: byte, b: byte, c: byte, d: byte, rest: seq<byte>)
    requires Accepted(front + [a, b] + rest) && (a != c || b != d)
    requires |front| + 2 <= U8((front + [a, b] + rest)[2]) + 3
    requires (front + [a, b] + rest)[2] == (front + [c, d] + rest)[2]
    ensures !Accepted(front + [c, d] + rest)
  {
    hide Crc;
    var f, g := front + [a, b] + rest, front + [c, d] + rest;
    var n := U8(f[2]) + 3;
    var tail := rest[..n - |front| - 2];
    assert f[..n] == front + [a, b] + tail && g[..n] == front + [c, d] + tail;
    AdjacentDetected(UUID, front, a, b, c, d, tail);
  }

  /** The checks of uart_event_task on received data. */
  method CheckFrame(frame: seq<byte>) returns (ok: bool)
    ensures ok <==> Accepted(frame)
  {
    hide Crc, Upper, Lower, U8;
    if |frame| < 5 { return false; }
    var n := U8(frame[2]);
    if n + 3 > |frame| { return false; }
    if frame[0] != 0x55 || frame[1] != 0xAA { return false; }
    var crc := Crc16(frame, n + 1);
    TrailerIsCrc(UUID, frame[..n + 1], frame[n + 1], frame[n + 2]);
    assert frame[..n + 3] == frame[..n + 1] + [frame[n + 1], frame[n + 2]];
    ok := frame[n + 1] == Upper(crc) && frame[n + 2] == Lower(crc);
  }
}
