/** Packet identifiers of mqtt_client_common.c: a 16-bit counter that skips zero. */
module MqttIds {
  const MAX_PACKET_ID := 65535

  function NextId(id: nat): nat { if id == MAX_PACKET_ID then 1 else id + 1 }

  /** The n-th identifier handed out after start. */
  function IdAfter(start: nat, n: nat): nat {
    if n == 0 then start else NextId(IdAfter(start, n - 1))
  }

  lemma {:induction false} IdClosedForm(start: nat, n: nat)
    requires start <= MAX_PACKET_ID && n > 0
    ensures IdAfter(start, n) == (start + n - 1) % MAX_PACKET_ID + 1
  {
    if n > 1 {
      IdClosedForm(start, n - 1);
      Successor(start + n - 2, MAX_PACKET_ID);
    } else if start == MAX_PACKET_ID {
    }
  }

  lemma Successor(x: nat, m: nat)
    requires m > 1
    ensures (x + 1) % m == if x % m == m - 1 then 0 else x % m + 1
  {
    var q, r := x / m, x % m;
    assert x == q * m + r;
    if r == m - 1 {
      assert x + 1 == (q + 1) * m;
      Remainder(x + 1, q + 1, 0, m);
    } else {
      Remainder(x + 1, q, r + 1, m);
    }
  }

  lemma Remainder(x: nat, q: nat, r: nat, m: nat)
    requires m > 0 && r < m && x == q * m + r
    ensures x % m == r
  {
    var q', r' := x / m, x % m;
    assert q' * m + r' == q * m + r;
    if q' < q { Wider(q', q, m); } else if q < q' { Wider(q, q', m); }
  }

  lemma {:induction false} Wider(a: nat, b: nat, m: nat)
    requires a < b
    ensures b * m >= a * m + m
  {
    if a + 1 < b {
      Wider(a, b - 1, m);
    }
    assert b * m == (b - 1) * m + m;
  }

  /** No identifier is zero, whatever the counter starts at. */
  lemma IdNeverZero(start: nat, n: nat)
    requires start <= MAX_PACKET_ID && n > 0
    ensures 1 <= IdAfter(start, n) <= MAX_PACKET_ID
  {
    IdClosedForm(start, n);
  }

  /** Two identifiers are the same exactly when a multiple of 65535 were handed out between them. */
  lemma IdsRepeat(start: nat, i: nat, j: nat)
    requires start <= MAX_PACKET_ID && 0 < i <= j
    ensures IdAfter(start, i) == IdAfter(start, j) <==> (j - i) % MAX_PACKET_ID == 0
  {
    IdClosedForm(start, i); IdClosedForm(start, j);
    SameRemainder(start + i - 1, j - i, MAX_PACKET_ID);
  }

  lemma SameRemainder(x: nat, d: nat, m: nat)
    requires m > 0
    ensures x % m == (x + d) % m <==> d % m == 0
  {
    var q, r := x / m, x % m;
    var p, s := d / m, d % m;
    assert x + d == (q + p) * m + (r + s);
    if r + s < m {
      Remainder(x + d, q + p, r + s, m);
    } else {
      assert x + d == (q + p + 1) * m + (r + s - m);
      Remainder(x + d, q + p + 1, r + s - m, m);
    }
  }
}
