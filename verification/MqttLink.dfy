/** The connection of the MQTT client: keep-alive, exceptional disconnection and reconnection with
    back-off, as qcloud_iot_mqtt_yield drives them.  Link and its functions say what each call does;
    the class Connection carries the calls out. */
module MqttLink {
  const MAX_RECONNECT_WAIT_INTERVAL := 60000
  const MQTT_PING_RETRY_TIMES := 2

  const RET_SUCCESS := 0
  const RET_RECONNECTED := 1
  const RET_MANUALLY_DISCONNECTED := 2
  const RET_ALREADY_CONNECTED := 4
  const ERR_FAILURE := -1001
  const ERR_NO_CONN := -103
  const ERR_ATTEMPTING_RECONNECT := -105
  const ERR_RECONNECT_TIMEOUT := -106

  // Read errors that end the connection: SSL read timeout and failure, TCP shutdown and failure.
  const READ_FAILURES := {-707, -708, -608, -606}

  datatype Packet = PUBACK | SUBACK | UNSUBACK | PINGRESP | PUBLISH | OTHER

  /** What cycle_for_read met: nothing, an error of the network, or a packet and its handler's result. */
  datatype Read = NOTHING | FAILED(rc: int) | RECEIVED(packet: Packet, rc: int)

  /** first and attempts are history: the interval drawn at the last exceptional disconnect, and the
      reconnections tried since. */
  datatype Link = Link(connected: bool, manual: bool, auto: bool, keepAlive: nat, pings: nat, pingDue: int,
                       interval: nat, retryAt: int, first: nat, attempts: nat)

  /** One pass of the main loop: the clock in milliseconds and what the network does. */
  datatype Turn = Turn(now: int, read: Read, goodbyeSent: bool, pingSent: bool, connects: bool, resubscribes: bool,
                       random: nat)

  // ---------- what each call does ----------

  function Disconnected(l: Link, sent: bool): (Link, int) {
    if !l.connected then (l, ERR_NO_CONN)
    else if sent then (l.(connected := false, manual := true), RET_SUCCESS) else (l, ERR_FAILURE)
  }

  /** _handle_disconnect: forced if the DISCONNECT packet cannot be written. */
  function Dropped(l: Link): Link { if l.connected then l.(connected := false, manual := false) else l }

  function Connected(l: Link, now: int): Link {
    l.(connected := true, manual := false, pings := 0, pingDue := now + 1000 * l.keepAlive)
  }

  /** _handle_reconnect. */
  function Reconnected(l: Link, t: Turn): (Link, int) {
    if t.now <= l.retryAt then (l, ERR_ATTEMPTING_RECONNECT)
    else
      var c := if t.connects && !l.connected then Connected(l, t.now) else l;
      var d := c.(attempts := c.attempts + 1);
      if c.connected && !l.connected && t.resubscribes then (d, RET_RECONNECTED)
      else
        var e := d.(interval := 2 * d.interval);
        if e.interval > MAX_RECONNECT_WAIT_INTERVAL then (e, ERR_RECONNECT_TIMEOUT)
        else (e.(retryAt := t.now + e.interval), ERR_ATTEMPTING_RECONNECT)
  }

  function Min(a: int, b: int): int { if a < b then a else b }

  /** _mqtt_keep_alive. */
  function KeptAlive(l: Link, t: Turn): (Link, int) {
    if l.keepAlive == 0 || t.now <= l.pingDue then (l, RET_SUCCESS)
    else if l.pings >= MQTT_PING_RETRY_TIMES || !t.pingSent then (Dropped(l), ERR_NO_CONN)
    else (l.(pings := l.pings + 1, pingDue := t.now + 1000 * Min(5, l.keepAlive / 2)), RET_SUCCESS)
  }

  /** The answer to a ping may be any acknowledgement; a PUBLISH clears the count but not the timer. */
  function Heard(l: Link, t: Turn): Link {
    if !t.read.RECEIVED? || t.read.packet == OTHER then l
    else if t.read.packet == PUBLISH then l.(pings := 0)
    else l.(pings := 0, pingDue := t.now + 1000 * l.keepAlive)
  }

  function ReadResult(r: Read): int {
    match r case NOTHING => RET_SUCCESS case FAILED(rc) => rc case RECEIVED(_, rc) => rc
  }

  /** _get_random_interval. */
  function Interval(random: nat): nat { (random % 100 + 100) * 10 }

  /** One pass of the main loop: the link, the result so far, and whether the loop ends. */
  function Pass(l: Link, t: Turn): (Link, int, bool) {
    if !l.connected then
      if l.interval > MAX_RECONNECT_WAIT_INTERVAL then (l, ERR_RECONNECT_TIMEOUT, true)
      else var (r, rc) := Reconnected(l, t); (r, rc, false)
    else
      var h, got := Heard(l, t), ReadResult(t.read);
      var (k, rc) := if got == RET_SUCCESS then KeptAlive(h, t)
        else if got in READ_FAILURES then (Dropped(h), ERR_NO_CONN) else (h, got);
      if rc == ERR_NO_CONN then
        if k.auto then
          var i := Interval(t.random);
          (k.(interval := i, retryAt := t.now + i, first := i, attempts := 0), ERR_ATTEMPTING_RECONNECT, false)
        else (k, rc, true)
      else (k, rc, rc != RET_SUCCESS)
  }

  /** The main loop until it breaks or the time given to yield is over. */
  function Loop(l: Link, rc: int, turns: seq<Turn>): (Link, int)
    decreases |turns|
  {
    if turns == [] then (l, rc) else
      var (k, r, done) := Pass(l, turns[0]);
      if done then (k, r) else Loop(k, r, turns[1..])
  }

  function Yielded(l: Link, turns: seq<Turn>): (Link, int) {
    if !l.connected && l.manual then (l, RET_MANUALLY_DISCONNECTED)
    else if !l.connected && !l.auto then (l, ERR_NO_CONN)
    else Loop(l, RET_SUCCESS, turns)
  }

  // ---------- pings ----------

  /** At most two pings are outstanding, on every link yield can reach. */
  lemma PingsBounded(l: Link, t: Turn)
    requires l.pings <= MQTT_PING_RETRY_TIMES
    ensures Pass(l, t).0.pings <= MQTT_PING_RETRY_TIMES
  {}

  lemma {:induction false} LoopPings(l: Link, rc: int, turns: seq<Turn>)
    requires l.pings <= MQTT_PING_RETRY_TIMES
    ensures Loop(l, rc, turns).0.pings <= MQTT_PING_RETRY_TIMES
    decreases |turns|
  {
    if turns != [] {
      PingsBounded(l, turns[0]);
      var (k, r, done) := Pass(l, turns[0]);
      if !done { LoopPings(k, r, turns[1..]); }
    }
  }

  /** The turns pass in silence: nothing is read and every ping is written. */
  predicate Silent(turns: seq<Turn>) {
    forall i :: 0 <= i < |turns| ==> turns[i].read == NOTHING && turns[i].pingSent
  }

  // How often the ping timer must still run out before a silent link is given up.
  function Patience(l: Link): nat { if l.pings < MQTT_PING_RETRY_TIMES then 3 - l.pings else 1 }

  /** A silent link is dropped at the third expiry of the ping timer and at no earlier one. */
  lemma SilentPass(l: Link, t: Turn)
    requires l.connected && l.keepAlive > 0 && t.read == NOTHING && t.pingSent && l.pings <= MQTT_PING_RETRY_TIMES
    ensures var k := Pass(l, t).0;
      && (k.connected <==> !(t.now > l.pingDue && Patience(l) == 1))
      && (k.connected ==> Patience(k) == Patience(l) - if t.now > l.pingDue then 1 else 0)
  {}

  /** Hence no run of silence holds a link through three expiries. */
  function Expiries(l: Link, turns: seq<Turn>): nat
    decreases |turns|
  {
    if turns == [] || !l.connected then 0
    else (if turns[0].now > l.pingDue then 1 else 0) + Expiries(Pass(l, turns[0]).0, turns[1..])
  }

  lemma {:induction false} SilenceEnds(l: Link, turns: seq<Turn>)
    requires l.connected && l.keepAlive > 0 && Silent(turns) && l.pings <= MQTT_PING_RETRY_TIMES
    ensures Expiries(l, turns) <= Patience(l) <= 3
    decreases |turns|
  {
    if turns != [] {
      SilentPass(l, turns[0]);
      var k := Pass(l, turns[0]).0;
      if k.connected {
        assert k.keepAlive == l.keepAlive && k.pings <= 2;
        SilenceEnds(k, turns[1..]);
      }
    }
  }

  // ---------- a link that is heard of ----------

  /** A ping, or any other request, was answered. */
  predicate Answers(r: Read) { r.RECEIVED? && r.packet in {PUBACK, SUBACK, UNSUBACK, PINGRESP} }

  /** An answer keeps the link: no ping is outstanding then, and none is due for a whole period. */
  lemma AnsweredPass(l: Link, t: Turn)
    requires l.connected && Answers(t.read) && t.read.rc == 0
    ensures Pass(l, t) == (l.(pings := 0, pingDue := t.now + 1000 * l.keepAlive), 0, false)
  {}

  /** What drops a link, and nothing else does: a failure of the network, or, when nothing or no answer
      is read past the ping timer, a ping that cannot be written or would be the third without any
      packet in between. */
  lemma DropExactly(l: Link, t: Turn)
    requires l.connected
    ensures !Pass(l, t).0.connected <==>
      || (!t.read.NOTHING? && t.read.rc in {-707, -708, -608, -606})
      || ((t.read.NOTHING? || t.read.rc == 0) && !Answers(t.read) && l.keepAlive > 0 && t.now > l.pingDue
          && (!t.pingSent || (l.pings >= 2 && !(t.read.RECEIVED? && t.read.packet == PUBLISH))))
  {}

  /** A turn without a failure of the network. */
  predicate Clear(t: Turn) { t.pingSent && (t.read.NOTHING? || t.read.rc == 0) }

  /** With unanswered pings written so far, and the next due then: no third ping falls due before an
      answer or a PUBLISH comes.  A ping that is not answered falls due again after half the period, or
      after five seconds if that is less. */
  predicate Attended(unanswered: nat, due: int, keepAlive: nat, turns: seq<Turn>)
    decreases |turns|
  {
    if turns == [] then true
    else
      var t := turns[0];
      if Answers(t.read) then Attended(0, t.now + 1000 * keepAlive, keepAlive, turns[1..])
      else
        var n := if t.read.RECEIVED? && t.read.packet == PUBLISH then 0 else unanswered;
        if t.now <= due then Attended(n, due, keepAlive, turns[1..])
        else
          n < 2
          && Attended(n + 1, t.now + 1000 * (if keepAlive < 10 then keepAlive / 2 else 5), keepAlive, turns[1..])
  }

  lemma ClearPass(l: Link, turns: seq<Turn>)
    requires l.connected && l.keepAlive > 0 && turns != [] && Clear(turns[0])
    ensures var (k, _, done) := Pass(l, turns[0]);
      && (k.connected ==> !done && k.keepAlive == l.keepAlive)
      && (Attended(l.pings, l.pingDue, l.keepAlive, turns) <==>
            k.connected && Attended(k.pings, k.pingDue, l.keepAlive, turns[1..]))
  {}

  /** At no point of the run the link is down. */
  ghost predicate StaysUp(l: Link, rc: int, turns: seq<Turn>) {
    forall n :: 0 <= n <= |turns| ==> Loop(l, rc, turns[..n]).0.connected
  }

  lemma StaysUpNext(l: Link, rc: int, turns: seq<Turn>)
    requires turns != [] && l.connected
    ensures var (k, r, done) := Pass(l, turns[0]);
      && (StaysUp(l, rc, turns) ==> k.connected)
      && (!done ==> (StaysUp(l, rc, turns) <==> StaysUp(k, r, turns[1..])))
  {
    hide Pass;
    var (k, r, done) := Pass(l, turns[0]);
    var tail := turns[1..];
    assert turns[..0] == [] && tail[..0] == [];
    forall n | 0 < n <= |turns|
      ensures turns[..n][0] == turns[0] && turns[..n][1..] == tail[..n - 1]
      ensures !done ==> Loop(l, rc, turns[..n]) == Loop(k, r, tail[..n - 1])
    {}
    assert Loop(l, rc, turns[..1]).0 == k;
    if !done && StaysUp(l, rc, turns) {
      forall n | 0 <= n <= |tail| ensures Loop(k, r, tail[..n]).0.connected {
        assert Loop(l, rc, turns[..n + 1]) == Loop(k, r, tail[..n]);
      }
    }
  }

  /** Over every run without a failure of the network, a link whose pings are answered in time is never
      dropped, and any other one is. */
  lemma {:induction false} LiveExactly(l: Link, rc: int, turns: seq<Turn>)
    requires l.connected && l.keepAlive > 0 && forall i :: 0 <= i < |turns| ==> Clear(turns[i])
    ensures StaysUp(l, rc, turns) <==> Attended(l.pings, l.pingDue, l.keepAlive, turns)
    decreases |turns|
  {
    hide Pass, Attended, StaysUp;
    if turns == [] {
      NoTurns(l, rc);
    } else {
      var (k, r, done) := Pass(l, turns[0]);
      assert Clear(turns[0]);
      ClearPass(l, turns);
      StaysUpNext(l, rc, turns);
      if k.connected { LiveExactly(k, r, turns[1..]); }
    }
  }

  lemma NoTurns(l: Link, rc: int)
    requires l.connected
    ensures StaysUp(l, rc, []) && Attended(l.pings, l.pingDue, l.keepAlive, [])
  {
    var none: seq<Turn> := [];
    assert none[..0] == [];
  }

  // ---------- a link that is down ----------

  /** A pass on a link that is down: an attempt is made exactly once the timer has run out and the
      interval is not past a minute; it succeeds exactly if the network connects, and a failed one
      doubles the interval and sets the timer on by it. */
  lemma AttemptPass(l: Link, t: Turn)
    requires !l.connected
    ensures var (k, rc, done) := Pass(l, t);
      && (k.attempts == l.attempts + 1 <==> l.interval <= 60000 && t.now > l.retryAt)
      && (k.attempts != l.attempts + 1 ==> k == l)
      && (k.connected <==> k.attempts == l.attempts + 1 && t.connects)
      && (k.connected ==> k.pings == 0 && k.pingDue == t.now + 1000 * l.keepAlive && !k.manual)
      && (rc == RET_RECONNECTED <==> k.connected && t.resubscribes)
      && (k.attempts == l.attempts + 1 && !k.connected ==>
            k.interval == 2 * l.interval && (k.interval <= 60000 ==> k.retryAt == t.now + k.interval))
      && (done <==> l.interval > 60000)
  {}

  /** A link that the user disconnected stays down, whatever is called but a new connection, and every
      yield says so. */
  lemma {:induction false} ManualStays(l: Link, calls: seq<Call>)
    requires !l.connected && l.manual
    ensures !After(l, calls).connected && After(l, calls).manual
    ensures forall turns :: Yielded(After(l, calls), turns) == (After(l, calls), 2)
    decreases |calls|
  {
    if calls != [] { ManualStays(Called(l, calls[0]), calls[1..]); }
  }

  /** A link that is lost while automatic reconnection is off stays down until it is switched on. */
  lemma {:induction false} LostStays(l: Link, calls: seq<Call>)
    requires !l.connected && !l.auto && forall i :: 0 <= i < |calls| ==> !calls[i].SetAutoReconnect?
    ensures After(l, calls) == l
    ensures forall turns :: Yielded(l, turns) == (l, if l.manual then 2 else -103)
    decreases |calls|
  {
    if calls != [] { LostStays(Called(l, calls[0]), calls[1..]); }
  }

  // ---------- back-off ----------

  function Pow2(n: nat): nat { if n == 0 then 1 else 2 * Pow2(n - 1) }

  /** Since an exceptional disconnect: the interval has doubled once for each attempt. */
  ghost predicate BackingOff(l: Link) {
    l.auto && 1000 <= l.first <= 1990 && l.interval == l.first * Pow2(l.attempts)
  }

  lemma IntervalRange(random: nat)
    ensures 1000 <= Interval(random) <= 1990 && Interval(random) % 10 == 0
  {}

  lemma Powers()
    ensures Pow2(4) == 16 && Pow2(5) == 32 && Pow2(6) == 64
  {
    assert Pow2(3) == 8;
  }

  lemma {:induction false} PowersGrow(m: nat, n: nat)
    requires m <= n
    ensures Pow2(m) <= Pow2(n)
  {
    if m < n {
      PowersGrow(m, n - 1);
    }
  }

  lemma ProductGrows(a: nat, b: nat, c: nat)
    requires b <= c
    ensures a * b <= a * c
  {}

  /** The answer becomes permanent at the fifth attempt if the first interval is over 1875 ms, at the
      sixth otherwise: the interval has passed a minute exactly then. */
  lemma AttemptsBounded(l: Link)
    requires BackingOff(l)
    ensures l.interval > MAX_RECONNECT_WAIT_INTERVAL <==> l.attempts >= if l.first > 1875 then 5 else 6
  {
    Powers();
    var n := if l.first > 1875 then 5 else 6;
    if l.attempts >= n {
      PowersGrow(n, l.attempts);
      ProductGrows(l.first, Pow2(n), Pow2(l.attempts));
    } else {
      PowersGrow(l.attempts, n - 1);
      ProductGrows(l.first, Pow2(l.attempts), Pow2(n - 1));
    }
  }

  /** A pass keeps the back-off going, and starts it at every exceptional disconnect. */
  lemma BackOffKept(l: Link, t: Turn)
    requires l.auto && (!l.connected ==> BackingOff(l))
    ensures var k := Pass(l, t).0; k.auto && (!k.connected ==> BackingOff(k))
    ensures var k := Pass(l, t).0; l.connected && !k.connected ==> k.attempts == 0 && k.retryAt == t.now + k.first
  {
    IntervalRange(t.random);
    if !l.connected && l.interval <= MAX_RECONNECT_WAIT_INTERVAL && t.now > l.retryAt {
      var k := Pass(l, t).0;
      if !k.connected {
        assert k.attempts == l.attempts + 1 && k.interval == 2 * l.interval;
        assert l.first * Pow2(l.attempts + 1) == 2 * (l.first * Pow2(l.attempts));
      }
    }
  }

  /** At most six attempts follow a disconnect, and a link whose interval has passed a minute makes
      none: yield says RECONNECT_TIMEOUT ever after. */
  lemma {:induction false} ReconnectGivesUp(l: Link, rc: int, turns: seq<Turn>)
    requires l.auto && (!l.connected ==> BackingOff(l) && l.attempts <= 6)
    ensures var (k, r) := Loop(l, rc, turns);
      && (!k.connected ==> BackingOff(k) && k.attempts <= 6)
      && (!l.connected && l.interval > MAX_RECONNECT_WAIT_INTERVAL && turns != [] ==>
            k == l && r == ERR_RECONNECT_TIMEOUT)
    decreases |turns|
  {
    if turns != [] {
      var (k, r, done) := Pass(l, turns[0]);
      BackOffKept(l, turns[0]);
      if !l.connected { AttemptsBounded(l); }
      if !done { ReconnectGivesUp(k, r, turns[1..]); }
    }
  }

  // ---------- from construction on ----------

  /** What a user does with a client: yield, disconnect, switch the automatic reconnection. */
  datatype Call = YieldFor(turns: seq<Turn>) | Disconnect(sent: bool) | SetAutoReconnect(on: bool)

  function Called(l: Link, c: Call): Link {
    match c
    case YieldFor(turns) => Yielded(l, turns).0
    case Disconnect(sent) => Disconnected(l, sent).0
    case SetAutoReconnect(on) => l.(auto := on)
  }

  function After(l: Link, calls: seq<Call>): Link
    decreases |calls|
  {
    if calls == [] then l else After(Called(l, calls[0]), calls[1..])
  }

  /** IOT_MQTT_Construct: a client is only handed out once it is connected, and no interval is set. */
  function Built(auto: bool, keepAlive: nat, now: int): Link {
    Link(true, false, auto, keepAlive, 0, now + 1000 * keepAlive, 0, 0, 0, 0)
  }

  /** What holds between calls while the automatic reconnection stays on. */
  ghost predicate Sound(l: Link) {
    l.auto && l.pings <= MQTT_PING_RETRY_TIMES && (!l.connected && !l.manual ==> BackingOff(l) && l.attempts <= 6)
  }

  lemma {:induction false} LoopKeepsAuto(l: Link, rc: int, turns: seq<Turn>)
    ensures Loop(l, rc, turns).0.auto == l.auto
    decreases |turns|
  {
    if turns != [] {
      var (k, r, done) := Pass(l, turns[0]);
      if !done { LoopKeepsAuto(k, r, turns[1..]); }
    }
  }

  /** In every run from construction in which the automatic reconnection is on and stays on, a link
      that is down without a manual disconnect is backing off, after at most six attempts, and at
      most two pings are outstanding. */
  lemma {:induction false} RunBacksOff(l: Link, calls: seq<Call>)
    requires Sound(l) && forall i :: 0 <= i < |calls| ==> !calls[i].SetAutoReconnect?
    ensures Sound(After(l, calls))
    decreases |calls|
  {
    if calls != [] {
      if calls[0].YieldFor? && (l.connected || !l.manual) {
        LoopPings(l, RET_SUCCESS, calls[0].turns);
        LoopKeepsAuto(l, RET_SUCCESS, calls[0].turns);
        ReconnectGivesUp(l, RET_SUCCESS, calls[0].turns);
      }
      RunBacksOff(Called(l, calls[0]), calls[1..]);
    }
  }

  lemma BuiltBacksOff(keepAlive: nat, now: int, calls: seq<Call>)
    requires forall i :: 0 <= i < |calls| ==> !calls[i].SetAutoReconnect?
    ensures Sound(After(Built(true, keepAlive, now), calls))
  {
    RunBacksOff(Built(true, keepAlive, now), calls);
  }

  // ---------- attempts without end ----------

  /** No connection succeeds. */
  predicate Failing(turns: seq<Turn>) { forall i :: 0 <= i < |turns| ==> !turns[i].connects }

  /** While no connection succeeds, the interval doubles with each attempt and no attempt follows
      once it has passed a minute. */
  lemma {:induction false} FailingLoop(l: Link, rc: int, turns: seq<Turn>, n: nat)
    requires !l.connected && Failing(turns) && l.interval * Pow2(n) > MAX_RECONNECT_WAIT_INTERVAL
    ensures var k := Loop(l, rc, turns).0; !k.connected && l.attempts <= k.attempts <= l.attempts + n
    decreases |turns|
  {
    if turns != [] {
      var (k, r, done) := Pass(l, turns[0]);
      if k.attempts > l.attempts {
        assert k.interval == 2 * l.interval && n > 0;
        assert l.interval * Pow2(n) == k.interval * Pow2(n - 1);
        if !done { FailingLoop(k, r, turns[1..], n - 1); }
      } else if !done {
        FailingLoop(k, r, turns[1..], n);
      }
    }
  }

  /** Turns that each find the timer of a zero interval run out. */
  function Knocks(now: int, n: nat): (turns: seq<Turn>)
    ensures |turns| == n
    decreases n
  {
    if n == 0 then [] else [Turn(now + 1, NOTHING, false, false, false, false, 0)] + Knocks(now + 1, n - 1)
  }

  lemma {:induction false} KnocksFail(now: int, n: nat)
    ensures Failing(Knocks(now, n))
    decreases n
  {
    if n > 0 { KnocksFail(now + 1, n - 1); }
  }

  lemma {:induction false} ZeroNeverEnds(l: Link, rc: int, n: nat)
    requires !l.connected && l.interval == 0
    ensures Loop(l, rc, Knocks(l.retryAt, n)).0.attempts == l.attempts + n
    decreases n
  {
    if n > 0 {
      var turns := Knocks(l.retryAt, n);
      var (k, r, done) := Pass(l, turns[0]);
      assert turns[1..] == Knocks(l.retryAt + 1, n - 1);
      ZeroNeverEnds(k, r, n - 1);
    }
  }

  /** The attempts of a link that is down are bounded, over all turns in which none succeeds, exactly
      if its interval is not zero. */
  lemma GivesUpExactly(l: Link)
    requires !l.connected
    ensures (exists n: nat :: Bounded(l, n)) <==> l.interval > 0
  {
    if l.interval > 0 {
      Powers();
      var n := 16;
      assert Pow2(n) == 65536 by { assert Pow2(8) == 256 && Pow2(10) == 1024 && Pow2(12) == 4096 && Pow2(14) == 16384; }
      ProductGrows(Pow2(n), 1, l.interval);
      forall turns, rc | Failing(turns) ensures Loop(l, rc, turns).0.attempts <= l.attempts + n {
        FailingLoop(l, rc, turns, n);
      }
      assert Bounded(l, n);
    } else if n: nat :| Bounded(l, n) {
      ZeroNeverEnds(l, RET_SUCCESS, n + 1);
      KnocksFail(l.retryAt, n + 1);
      assert false;
    }
  }

  ghost predicate Bounded(l: Link, n: nat) {
    forall turns: seq<Turn>, rc: int :: Failing(turns) ==> Loop(l, rc, turns).0.attempts <= l.attempts + n
  }

  /** Such a link is one that was lost while the automatic reconnection was off, which sets no
      interval, and for which it is then switched on. */
  lemma ZeroIntervalReached(keepAlive: nat, t: Turn)
    requires t.read == FAILED(-708)
    ensures var l := After(Built(false, keepAlive, t.now), [YieldFor([t]), SetAutoReconnect(true)]);
      !l.connected && !l.manual && l.auto && l.interval == 0 && forall n: nat :: !Bounded(l, n)
  {
    var b := Built(false, keepAlive, t.now);
    assert Loop(b, RET_SUCCESS, [t]).0 == b.(connected := false);
    var calls := [YieldFor([t]), SetAutoReconnect(true)];
    assert calls[1..] == [SetAutoReconnect(true)] && calls[1..][1..] == [];
    var l := After(b, calls);
    assert l == After(Called(b, calls[0]), calls[1..]) == After(Called(Called(b, calls[0]), calls[1]), []);
    GivesUpExactly(l);
  }

  // ---------- the calls ----------

  class Connection {
    var connected: bool
    var manual: bool
    var auto: bool
    var keepAlive: nat
    var pings: nat
    var pingDue: int
    var interval: nat
    var retryAt: int
    var first: nat
    var attempts: nat

    function State(): Link
      reads this
    {
      Link(connected, manual, auto, keepAlive, pings, pingDue, interval, retryAt, first, attempts)
    }

    /** IOT_MQTT_Construct, when the first connection succeeds; otherwise there is no client. */
    constructor (autoConnect: bool, keepAliveSeconds: nat, now: int)
      ensures State() == Built(autoConnect, keepAliveSeconds, now)
    {
      connected, manual, auto, keepAlive := true, false, autoConnect, keepAliveSeconds;
      pings, pingDue, interval, retryAt, first, attempts := 0, now + 1000 * keepAliveSeconds, 0, 0, 0, 0;
    }

    /** qcloud_iot_mqtt_set_autoreconnect. */
    method SetAutoReconnect(on: bool)
      modifies this`auto
      ensures State() == Called(old(State()), Call.SetAutoReconnect(on))
    {
      auto := on;
    }

    /** qcloud_iot_mqtt_disconnect. */
    method Disconnect(sent: bool) returns (rc: int)
      modifies this`connected, this`manual
      ensures (State(), rc) == Disconnected(old(State()), sent)
    {
      if !connected {
        return ERR_NO_CONN;
      }
      if !sent {
        return ERR_FAILURE;
      }
      connected := false;
      manual := true;
      return RET_SUCCESS;
    }

    /** _handle_disconnect. */
    method HandleDisconnect(sent: bool) returns (rc: int)
      modifies this`connected, this`manual
      ensures State() == Dropped(old(State())) && rc == ERR_NO_CONN
    {
      if !connected {
        return ERR_NO_CONN;
      }
      rc := Disconnect(sent);
      if rc != RET_SUCCESS {
        connected := false;
      }
      manual := false;
      return ERR_NO_CONN;
    }

    /** qcloud_iot_mqtt_connect. */
    method Connect(connects: bool, now: int) returns (rc: int)
      modifies this`connected, this`manual, this`pings, this`pingDue
      ensures old(connected) ==> rc == RET_ALREADY_CONNECTED
      ensures !old(connected) ==> rc == if connects then RET_SUCCESS else ERR_FAILURE
      ensures State() == if connects && !old(connected) then Connected(old(State()), now) else old(State())
    {
      if connected {
        return RET_ALREADY_CONNECTED;
      }
      if !connects {
        return ERR_FAILURE;
      }
      connected := true;
      manual := false;
      pings := 0;
      pingDue := now + 1000 * keepAlive;
      return RET_SUCCESS;
    }

    /** qcloud_iot_mqtt_attempt_reconnect. */
    method AttemptReconnect(connects: bool, resubscribes: bool, now: int) returns (rc: int)
      modifies this`connected, this`manual, this`pings, this`pingDue
      ensures State() == if connects && !old(connected) then Connected(old(State()), now) else old(State())
      ensures rc == RET_RECONNECTED <==> !old(connected) && connects && resubscribes
    {
      if connected {
        return RET_ALREADY_CONNECTED;
      }
      rc := Connect(connects, now);
      if !connected {
        return;
      }
      if !resubscribes {
        return ERR_FAILURE;
      }
      return RET_RECONNECTED;
    }

    /** _handle_reconnect. */
    method HandleReconnect(t: Turn) returns (rc: int)
      modifies this
      ensures (State(), rc) == Reconnected(old(State()), t)
    {
      if t.now <= retryAt {
        return ERR_ATTEMPTING_RECONNECT;
      }
      attempts := attempts + 1;
      rc := AttemptReconnect(t.connects, t.resubscribes, t.now);
      if rc == RET_RECONNECTED {
        return;
      }
      rc := ERR_ATTEMPTING_RECONNECT;
      interval := 2 * interval;
      if MAX_RECONNECT_WAIT_INTERVAL < interval {
        return ERR_RECONNECT_TIMEOUT;
      }
      retryAt := t.now + interval;
    }

    /** _mqtt_keep_alive; pingSent says whether one of its four writes succeeded. */
    method KeepAlive(t: Turn) returns (rc: int)
      requires connected
      modifies this
      ensures (State(), rc) == KeptAlive(old(State()), t)
    {
      if keepAlive == 0 {
        return RET_SUCCESS;
      }
      if t.now <= pingDue {
        return RET_SUCCESS;
      }
      if pings >= MQTT_PING_RETRY_TIMES {
        rc := HandleDisconnect(t.goodbyeSent);
        return;
      }
      if !t.pingSent {
        rc := HandleDisconnect(t.goodbyeSent);
        return;
      }
      pings := pings + 1;
      pingDue := t.now + 1000 * Min(5, keepAlive / 2);
      return RET_SUCCESS;
    }

    /** The end of cycle_for_read. */
    method CycleForRead(t: Turn) returns (rc: int)
      modifies this`pings, this`pingDue
      ensures State() == Heard(old(State()), t) && rc == ReadResult(t.read)
    {
      match t.read
      case NOTHING =>
        return RET_SUCCESS;
      case FAILED(e) =>
        return e;
      case RECEIVED(packet, e) =>
        if packet in {PUBACK, SUBACK, UNSUBACK, PINGRESP} {
          pings := 0;
          pingDue := t.now + 1000 * keepAlive;
        } else if packet == PUBLISH {
          pings := 0;
        }
        return e;
    }

    /** One pass of the main loop; done is its break. */
    method OnePass(t: Turn) returns (rc: int, done: bool)
      modifies this
      ensures (State(), rc, done) == Pass(old(State()), t)
    {
      if !connected {
        if interval > MAX_RECONNECT_WAIT_INTERVAL {
          return ERR_RECONNECT_TIMEOUT, true;
        }
        rc := HandleReconnect(t);
        return rc, false;
      }
      rc := CycleForRead(t);
      if rc == RET_SUCCESS {
        rc := KeepAlive(t);
      } else if rc in READ_FAILURES {
        rc := HandleDisconnect(t.goodbyeSent);
      }
      if rc == ERR_NO_CONN {
        if auto {
          interval := Interval(t.random);
          retryAt := t.now + interval;
          first, attempts := interval, 0;
          rc := ERR_ATTEMPTING_RECONNECT;
        } else {
          return rc, true;
        }
      } else if rc != RET_SUCCESS {
        return rc, true;
      }
      return rc, false;
    }

    /** qcloud_iot_mqtt_yield: as many passes as the time given allows. */
    method Yield(turns: seq<Turn>) returns (rc: int)
      modifies this
      ensures (State(), rc) == Yielded(old(State()), turns)
    {
      if !connected && manual {
        return RET_MANUALLY_DISCONNECTED;
      }
      if !connected && !auto {
        return ERR_NO_CONN;
      }
      rc := RET_SUCCESS;
      var i := 0;
      ghost var l0 := State();
      assert turns[0..] == turns;
      while i < |turns|
        invariant 0 <= i <= |turns|
        invariant Loop(l0, RET_SUCCESS, turns) == Loop(State(), rc, turns[i..])
      {
        assert turns[i..][0] == turns[i] && turns[i..][1..] == turns[i + 1..];
        var done;
        rc, done := OnePass(turns[i]);
        if done {
          return;
        }
        i := i + 1;
      }
    }
  }
}
