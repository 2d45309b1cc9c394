/** Confirmable CoAP requests of coap_client_message.c from the first write to their removal
    (section 4.2 of RFC 7252, with a fixed interval). */
module CoapExchange {
  import opened Octets
  import C = CoapCodec

  const RET_SUCCESS := 0
  const ERR_FAILURE := -1001
  const ERR_SSL_READ_TIMEOUT := -707

  datatype State = NORMAL | INVALID

  /** CoAPMsgSendInfo.  serial, writes and told are history: which allocation this is, how often the
      request was handed to the network, and how often a callback was told of its end. */
  datatype SendInfo = SendInfo(serial: nat, state: State, acked: bool, id: nat, token: seq<byte>, count: nat,
                               due: int, handler: bool, writes: nat, told: nat)

  datatype Config = Config(timeout: nat, maxRetry: nat, eventHandler: bool)

  /** gone holds each removed node as it was when it was removed. */
  datatype Exchange = Exchange(nodes: seq<SendInfo>, gone: map<nat, SendInfo>, sent: nat)

  datatype Cmd = ACK(id: nat) | PIGGY(id: nat) | RESP(token: seq<byte>) | WAIT

  function Tell(c: Config, n: SendInfo): SendInfo { if n.handler || c.eventHandler then n.(told := n.told + 1) else n }

  /** What _coap_message_list_proc does at one node. */
  function AtNode(c: Config, n: SendInfo, cmd: Cmd, now: int): SendInfo {
    match cmd
    case ACK(id) => if n.id == id then n.(acked := true, due := now + c.timeout) else n
    case RESP(token) => if n.token != [] && n.token == token then Tell(c, n).(state := INVALID) else n
    case PIGGY(id) => if n.id == id then Tell(c, n).(state := INVALID, acked := true) else n
    case WAIT =>
      if n.state == INVALID || n.due - now > 0 then n
      else if n.count < c.maxRetry && !n.acked then
        n.(due := now + c.timeout, count := n.count + 1, writes := n.writes + 1)
      else Tell(c, n).(state := INVALID)
  }

  // A node leaves the list in the sweep that finds it INVALID or makes it so.
  predicate Leaves(c: Config, n: SendInfo, cmd: Cmd, now: int) { cmd.WAIT? && AtNode(c, n, cmd, now).state == INVALID }

  /** The whole sweep, from the tail. */
  function Proc(c: Config, ns: seq<SendInfo>, gone: map<nat, SendInfo>, cmd: Cmd,
                now: int): (seq<SendInfo>, map<nat, SendInfo>) {
    if ns == [] then ([], gone) else
      var (rest, g) := Proc(c, ns[1..], gone, cmd, now);
      var n := AtNode(c, ns[0], cmd, now);
      if Leaves(c, ns[0], cmd, now) then (rest, g[n.serial := n]) else ([n] + rest, g)
  }

  function ProcStep(c: Config, x: Exchange, cmd: Cmd, now: int): Exchange {
    var (ns, g) := Proc(c, x.nodes, x.gone, cmd, now);
    x.(nodes := ns, gone := g)
  }

  /** coap_message_send of a confirmable request; written says whether the network took it. */
  function SendStep(c: Config, x: Exchange, id: nat, token: seq<byte>, handler: bool, now: int,
                    written: bool): Exchange {
    if !written then x
    else
      x.(nodes := x.nodes + [SendInfo(x.sent, NORMAL, false, id, token, 0, now + c.timeout, handler, 1, 0)],
         sent := x.sent + 1)
  }

  /** _coap_message_handle: which sweep a message starts, if any. */
  function Dispatch(m: C.Msg): seq<Cmd> {
    if m.kind == C.ACK && m.cls == 2 && m.detail == 3 then [ACK(m.id)]
    else if m.kind == C.ACK && !(m.cls == 0 && m.detail == 0) then [PIGGY(m.id)]
    else if (m.kind == C.CON || m.kind == C.NON) && m.cls == 2 && m.detail == 5 then [RESP(m.token)]
    else []
  }

  datatype Read = RECEIVED(m: C.Msg) | TIMEOUT | FAILED(rc: int)

  function Handled(c: Config, x: Exchange, r: Read, now: int): Exchange {
    if r.RECEIVED? && Dispatch(r.m) != [] then ProcStep(c, x, Dispatch(r.m)[0], now) else x
  }

  /** coap_message_cycle: a failed read ends it before the timeouts are looked at. */
  function CycleStep(c: Config, x: Exchange, r: Read, now: int): Exchange {
    if r.FAILED? && r.rc != RET_SUCCESS && r.rc != ERR_SSL_READ_TIMEOUT then x
    else ProcStep(c, Handled(c, x, r, now), WAIT, now)
  }

  // ---------- invariants ----------

  predicate Registered(c: Config, n: SendInfo) { n.handler || c.eventHandler }

  /** Writes are one and the retransmissions, at most maxRetry; a callback is told once, when the
      exchange ends. */
  predicate NodeOk(c: Config, n: SendInfo) {
    && n.writes == 1 + n.count && n.count <= c.maxRetry
    && n.told == if n.state == INVALID && Registered(c, n) then 1 else 0
  }

  ghost predicate Waiting(ns: seq<SendInfo>, serial: nat) { exists k :: 0 <= k < |ns| && ns[k].serial == serial }

  ghost predicate Tracked(c: Config, x: Exchange) {
    && (forall k :: 0 <= k < |x.nodes| ==> NodeOk(c, x.nodes[k]) && x.nodes[k].serial < x.sent)
    && (forall i, j :: 0 <= i < j < |x.nodes| ==> x.nodes[i].serial != x.nodes[j].serial)
    && (forall n: nat :: n in x.gone ==>
          n < x.sent && !Waiting(x.nodes, n) && NodeOk(c, x.gone[n]) && x.gone[n].state == INVALID)
    && (forall n: nat :: n < x.sent && n !in x.gone ==> Waiting(x.nodes, n))
  }

  /** Between calls no ended exchange is in the list. */
  ghost predicate Quiet(c: Config, x: Exchange) {
    Tracked(c, x) && forall k :: 0 <= k < |x.nodes| ==> x.nodes[k].state == NORMAL
  }

  lemma AtNodeOk(c: Config, n: SendInfo, cmd: Cmd, now: int)
    requires NodeOk(c, n) && (n.state == NORMAL || cmd.WAIT?)
    ensures NodeOk(c, AtNode(c, n, cmd, now)) && AtNode(c, n, cmd, now).serial == n.serial
    ensures n.acked ==> AtNode(c, n, cmd, now).acked && AtNode(c, n, cmd, now).writes == n.writes
  {}

  // m is kept, and n is what the sweep makes of it.
  predicate Kept(c: Config, m: SendInfo, cmd: Cmd, now: int, n: SendInfo) {
    !Leaves(c, m, cmd, now) && n == AtNode(c, m, cmd, now)
  }

  // Where the nodes of a sweep end up.
  lemma {:induction false} ProcMembers(c: Config, ns: seq<SendInfo>, gone: map<nat, SendInfo>, cmd: Cmd, now: int)
    ensures var r := Proc(c, ns, gone, cmd, now).0;
      && (forall n :: n in r ==> exists m :: m in ns && Kept(c, m, cmd, now, n))
      && (forall m :: m in ns && !Leaves(c, m, cmd, now) ==> AtNode(c, m, cmd, now) in r)
  {
    if ns != [] {
      ProcMembers(c, ns[1..], gone, cmd, now);
      var r, rest := Proc(c, ns, gone, cmd, now).0, Proc(c, ns[1..], gone, cmd, now).0;
      forall n | n in r ensures exists m :: m in ns && Kept(c, m, cmd, now, n) {
        if n in rest {
          var m :| m in ns[1..] && Kept(c, m, cmd, now, n);
          assert m in ns;
        } else {
          assert Kept(c, ns[0], cmd, now, n) && ns[0] in ns;
        }
      }
    }
  }

  ghost predicate Serials(ns: seq<SendInfo>) {
    forall i, j :: 0 <= i < j < |ns| ==> ns[i].serial != ns[j].serial
  }

  lemma SerialOf(c: Config, n: SendInfo, cmd: Cmd, now: int)
    ensures AtNode(c, n, cmd, now).serial == n.serial
  {}

  lemma {:induction false} ProcSerials(c: Config, ns: seq<SendInfo>, gone: map<nat, SendInfo>, cmd: Cmd, now: int)
    requires Serials(ns)
    ensures Serials(Proc(c, ns, gone, cmd, now).0)
  {
    if ns != [] {
      var tail := ns[1..];
      ProcSerials(c, tail, gone, cmd, now);
      ProcMembers(c, tail, gone, cmd, now);
      var rest := Proc(c, tail, gone, cmd, now).0;
      var n := AtNode(c, ns[0], cmd, now);
      SerialOf(c, ns[0], cmd, now);
      forall v | v in rest ensures v.serial != n.serial {
        var m :| m in tail && Kept(c, m, cmd, now, v);
        SerialOf(c, m, cmd, now);
        var k :| 0 <= k < |tail| && tail[k] == m;
        assert ns[k + 1] == m;
      }
      ConsSerials(n, rest);
    }
  }

  lemma ConsSerials(n: SendInfo, rest: seq<SendInfo>)
    requires Serials(rest) && forall v :: v in rest ==> v.serial != n.serial
    ensures Serials([n] + rest)
  {
    var r := [n] + rest;
    forall i, j | 0 <= i < j < |r| ensures r[i].serial != r[j].serial {
      assert r[j] == rest[j - 1];
      assert i > 0 ==> r[i] == rest[i - 1];
    }
  }

  // The node with a serial is recorded as it leaves...
  lemma {:induction false} ProcRecords(c: Config, ns: seq<SendInfo>, gone: map<nat, SendInfo>, cmd: Cmd, now: int,
                                       k: nat)
    requires Serials(ns) && k < |ns| && Leaves(c, ns[k], cmd, now)
    ensures var g := Proc(c, ns, gone, cmd, now).1; ns[k].serial in g && g[ns[k].serial] == AtNode(c, ns[k], cmd, now)
  {
    SerialOf(c, ns[0], cmd, now);
    if k > 0 {
      ProcRecords(c, ns[1..], gone, cmd, now, k - 1);
    } else {
      SerialOf(c, ns[k], cmd, now);
    }
  }

  // ...and no other record changes.
  lemma {:induction false} ProcSpares(c: Config, ns: seq<SendInfo>, gone: map<nat, SendInfo>, cmd: Cmd, now: int,
                                      n: nat)
    requires forall k :: 0 <= k < |ns| ==> ns[k].serial != n || !Leaves(c, ns[k], cmd, now)
    ensures var g := Proc(c, ns, gone, cmd, now).1; (n in g <==> n in gone) && (n in g ==> g[n] == gone[n])
  {
    if ns != [] {
      SerialOf(c, ns[0], cmd, now);
      forall k | 0 <= k < |ns[1..]| ensures ns[1..][k].serial != n || !Leaves(c, ns[1..][k], cmd, now) {
        assert ns[1..][k] == ns[k + 1];
      }
      ProcSpares(c, ns[1..], gone, cmd, now, n);
    }
  }

  /** Where one exchange is after a sweep. */
  lemma ProcOf(c: Config, x: Exchange, cmd: Cmd, now: int, n: nat)
    requires Tracked(c, x)
    ensures var r := ProcStep(c, x, cmd, now);
      && (n in x.gone ==> n in r.gone && r.gone[n] == x.gone[n] && !Waiting(r.nodes, n))
      && (n !in x.gone && n >= x.sent ==> n !in r.gone && !Waiting(r.nodes, n))
    ensures var r := ProcStep(c, x, cmd, now);
      forall k :: 0 <= k < |x.nodes| && x.nodes[k].serial == n ==>
        if Leaves(c, x.nodes[k], cmd, now)
        then n in r.gone && r.gone[n] == AtNode(c, x.nodes[k], cmd, now) && !Waiting(r.nodes, n)
        else n !in r.gone && AtNode(c, x.nodes[k], cmd, now) in r.nodes
  {
    var r := ProcStep(c, x, cmd, now);
    ProcMembers(c, x.nodes, x.gone, cmd, now);
    forall j | 0 <= j < |r.nodes| && r.nodes[j].serial == n
      ensures exists i :: 0 <= i < |x.nodes| && !Leaves(c, x.nodes[i], cmd, now) && x.nodes[i].serial == n
    {
      assert r.nodes[j] in r.nodes;
      var m :| m in x.nodes && Kept(c, m, cmd, now, r.nodes[j]);
      SerialOf(c, m, cmd, now);
      var i :| 0 <= i < |x.nodes| && x.nodes[i] == m;
    }
    if n in x.gone { assert !Waiting(x.nodes, n); }
    if k :| 0 <= k < |x.nodes| && x.nodes[k].serial == n {
      assert Waiting(x.nodes, n);
      if Leaves(c, x.nodes[k], cmd, now) {
        ProcRecords(c, x.nodes, x.gone, cmd, now, k);
      } else {
        ProcSpares(c, x.nodes, x.gone, cmd, now, n);
      }
    } else {
      ProcSpares(c, x.nodes, x.gone, cmd, now, n);
    }
  }

  lemma ProcTracked(c: Config, x: Exchange, cmd: Cmd, now: int)
    requires Tracked(c, x) && (cmd.WAIT? || Quiet(c, x))
    ensures Tracked(c, ProcStep(c, x, cmd, now))
    ensures cmd.WAIT? ==> Quiet(c, ProcStep(c, x, cmd, now))
  {
    var r := ProcStep(c, x, cmd, now);
    ProcMembers(c, x.nodes, x.gone, cmd, now);
    ProcSerials(c, x.nodes, x.gone, cmd, now);
    forall k | 0 <= k < |r.nodes|
      ensures NodeOk(c, r.nodes[k]) && r.nodes[k].serial < x.sent && (cmd.WAIT? ==> r.nodes[k].state == NORMAL)
    {
      assert r.nodes[k] in r.nodes;
      var m :| m in x.nodes && Kept(c, m, cmd, now, r.nodes[k]);
      AtNodeOk(c, m, cmd, now);
    }
    forall n: nat
      ensures n in r.gone ==> n < r.sent && !Waiting(r.nodes, n) && NodeOk(c, r.gone[n]) && r.gone[n].state == INVALID
      ensures n < r.sent && n !in r.gone ==> Waiting(r.nodes, n)
    {
      ProcOne(c, x, cmd, now, n);
    }
  }

  lemma ProcOne(c: Config, x: Exchange, cmd: Cmd, now: int, n: nat)
    requires Tracked(c, x) && (cmd.WAIT? || Quiet(c, x))
    ensures var r := ProcStep(c, x, cmd, now);
      && (n in r.gone ==> n < r.sent && !Waiting(r.nodes, n) && NodeOk(c, r.gone[n]) && r.gone[n].state == INVALID)
      && (n < r.sent && n !in r.gone ==> Waiting(r.nodes, n))
  {
    var r := ProcStep(c, x, cmd, now);
    ProcOf(c, x, cmd, now, n);
    if n !in x.gone && n < x.sent {
      assert Waiting(x.nodes, n);
      var k :| 0 <= k < |x.nodes| && x.nodes[k].serial == n;
      AtNodeOk(c, x.nodes[k], cmd, now);
      if !Leaves(c, x.nodes[k], cmd, now) {
        var v := AtNode(c, x.nodes[k], cmd, now);
        var j :| 0 <= j < |r.nodes| && r.nodes[j] == v;
        assert r.nodes[j].serial == n;
      }
    }
  }

  lemma SendQuiet(c: Config, x: Exchange, id: nat, token: seq<byte>, handler: bool, now: int, written: bool)
    requires Quiet(c, x)
    ensures Quiet(c, SendStep(c, x, id, token, handler, now, written))
  {
    var r := SendStep(c, x, id, token, handler, now, written);
    forall n: nat | n < r.sent && n !in r.gone ensures Waiting(r.nodes, n) {
      if n < x.sent {
        assert Waiting(x.nodes, n);
        var k :| 0 <= k < |x.nodes| && x.nodes[k].serial == n;
        assert r.nodes[k].serial == n;
      } else {
        assert r.nodes[|x.nodes|].serial == n;
      }
    }
    forall n: nat | n in r.gone ensures !Waiting(r.nodes, n) {
      assert !Waiting(x.nodes, n);
      forall k | 0 <= k < |r.nodes| ensures r.nodes[k].serial != n {
        assert k < |x.nodes| ==> r.nodes[k] == x.nodes[k];
      }
    }
  }

  /** A cycle leaves no ended exchange in the list: what the message ended, its timeout sweep
      removes. */
  lemma CycleQuiet(c: Config, x: Exchange, r: Read, now: int)
    requires Quiet(c, x)
    ensures Quiet(c, CycleStep(c, x, r, now))
  {
    if r.RECEIVED? && Dispatch(r.m) != [] {
      ProcTracked(c, x, Dispatch(r.m)[0], now);
    }
    ProcTracked(c, Handled(c, x, r, now), WAIT, now);
  }

  // ---------- one exchange ----------

  /** The exchange with this serial, waiting or gone. */
  ghost predicate Is(x: Exchange, n: SendInfo) { n in x.nodes || (n.serial in x.gone && x.gone[n.serial] == n) }

  // What a sweep may do to an exchange: nothing once it is gone, and no write once it is acknowledged.
  ghost predicate Follows(n: SendInfo, m: SendInfo) {
    m.serial == n.serial && n.writes <= m.writes && n.told <= m.told && (n.acked ==> m.acked && m.writes == n.writes)
  }

  lemma SweepFollows(c: Config, x: Exchange, cmd: Cmd, now: int, n: SendInfo) returns (m: SendInfo)
    requires Tracked(c, x) && Is(x, n)
    ensures Is(ProcStep(c, x, cmd, now), m) && Follows(n, m) && (n.serial in x.gone ==> m == n)
  {
    ProcOf(c, x, cmd, now, n.serial);
    if n in x.nodes {
      var k :| 0 <= k < |x.nodes| && x.nodes[k] == n;
      assert Waiting(x.nodes, n.serial);
      m := AtNode(c, n, cmd, now);
    } else {
      m := n;
    }
  }

  lemma CycleFollows(c: Config, x: Exchange, r: Read, now: int, n: SendInfo) returns (m: SendInfo)
    requires Quiet(c, x) && Is(x, n)
    ensures Is(CycleStep(c, x, r, now), m) && Follows(n, m) && (n.serial in x.gone ==> m == n)
  {
    m := n;
    if r.FAILED? && r.rc != RET_SUCCESS && r.rc != ERR_SSL_READ_TIMEOUT {
      return;
    }
    var y := Handled(c, x, r, now);
    if r.RECEIVED? && Dispatch(r.m) != [] {
      ProcTracked(c, x, Dispatch(r.m)[0], now);
      m := SweepFollows(c, x, Dispatch(r.m)[0], now, n);
      ProcOf(c, x, Dispatch(r.m)[0], now, n.serial);
    }
    m := SweepFollows(c, y, WAIT, now, m);
  }

  datatype Event = Send(id: nat, token: seq<byte>, handler: bool, now: int, written: bool) | Cycle(r: Read, now: int)

  function Step(c: Config, x: Exchange, e: Event): Exchange {
    match e
    case Send(id, token, handler, now, written) => SendStep(c, x, id, token, handler, now, written)
    case Cycle(r, now) => CycleStep(c, x, r, now)
  }

  function After(c: Config, x: Exchange, run: seq<Event>): Exchange
    decreases |run|
  {
    if run == [] then x else After(c, Step(c, x, run[0]), run[1..])
  }

  /** Over every run: no request is written more than 1 + maxRetry times, none after it was
      acknowledged; each callback is told at most once, and exactly once by the time the exchange is
      removed if one is registered; what is removed stays as it is. */
  lemma {:induction false} RunKeeps(c: Config, x: Exchange, run: seq<Event>, n: SendInfo) returns (m: SendInfo)
    requires Quiet(c, x) && Is(x, n)
    ensures var r := After(c, x, run); Quiet(c, r) && Is(r, m) && Follows(n, m)
    ensures m.writes <= 1 + c.maxRetry && m.told <= 1
    ensures m.serial in After(c, x, run).gone ==> m.told == if Registered(c, m) then 1 else 0
    ensures n.serial in x.gone ==> m == n
    decreases |run|
  {
    if run == [] {
      m := n;
      if n in x.nodes {
        var k :| 0 <= k < |x.nodes| && x.nodes[k] == n;
        assert Waiting(x.nodes, n.serial);
      }
    } else {
      var y := Step(c, x, run[0]);
      match run[0] {
        case Send(id, token, handler, now, written) =>
          SendQuiet(c, x, id, token, handler, now, written);
          m := n;
        case Cycle(r, now) =>
          CycleQuiet(c, x, r, now);
          m := CycleFollows(c, x, r, now, n);
      }
      m := RunKeeps(c, y, run[1..], m);
    }
  }

  const START := Exchange([], map[], 0)

  lemma {:induction false} RunQuiet(c: Config, x: Exchange, run: seq<Event>)
    requires Quiet(c, x)
    ensures Quiet(c, After(c, x, run))
    decreases |run|
  {
    if run != [] {
      match run[0] {
        case Send(id, token, handler, now, written) => SendQuiet(c, x, id, token, handler, now, written);
        case Cycle(r, now) => CycleQuiet(c, x, r, now);
      }
      RunQuiet(c, Step(c, x, run[0]), run[1..]);
    }
  }

  lemma {:induction false} InTurn(c: Config, x: Exchange, first: seq<Event>, second: seq<Event>)
    ensures After(c, x, first + second) == After(c, After(c, x, first), second)
    decreases |first|
  {
    if first == [] {
      assert first + second == second;
    } else {
      assert (first + second)[1..] == first[1..] + second;
      InTurn(c, Step(c, x, first[0]), first[1..], second);
    }
  }

  /** All of it for a client just created, whose list is empty: at any point of any run every request
      that was ever written either waits or is gone, and whatever it was then, the rest of the run
      writes and tells it no more than that allows. */
  lemma ClientKeeps(c: Config, first: seq<Event>, second: seq<Event>, n: SendInfo) returns (m: SendInfo)
    requires Is(After(c, START, first), n)
    ensures var r := After(c, START, first + second); Is(r, m) && Follows(n, m)
    ensures m.writes <= 1 + c.maxRetry && m.told <= 1
    ensures m.serial in After(c, START, first + second).gone ==> m.told == if Registered(c, m) then 1 else 0
    ensures n.serial in After(c, START, first).gone ==> m == n
    ensures var r := After(c, START, first + second);
      forall s: nat :: s < r.sent ==> (Waiting(r.nodes, s) <==> s !in r.gone)
  {
    RunQuiet(c, START, first);
    InTurn(c, START, first, second);
    m := RunKeeps(c, After(c, START, first), second, n);
  }

  // ---------- the fate of one request ----------

  /** A request waits, or its exchange has ended; writes is how often it was written. */
  datatype Fate = WAITS(acked: bool, due: int, writes: nat) | ENDED(acked: bool, writes: nat)

  /** The timeout sweep: at its timer's expiry a request is written again, or its exchange ends. */
  function Waited(c: Config, f: Fate, now: int): Fate
    requires f.WAITS?
  {
    if now < f.due then f
    else if f.acked || f.writes > c.maxRetry then ENDED(f.acked, f.writes)
    else WAITS(false, now + c.timeout, f.writes + 1)
  }

  /** One cycle.  Message types and codes as in sections 3 and 12.1 of RFC 7252: an acknowledgement
      with code 2.03 and the id promises a response, one with any other code but 0.00 brings it, and
      so does a confirmable or non-confirmable 2.05 with the token. */
  function CycleFate(c: Config, id: nat, token: seq<byte>, f: Fate, r: Read, now: int): Fate
    requires f.WAITS?
  {
    match r
    case TIMEOUT => Waited(c, f, now)
    case FAILED(rc) => if rc == 0 || rc == -707 then Waited(c, f, now) else f
    case RECEIVED(m) =>
      if m.kind == 2 && m.id == id && m.cls == 2 && m.detail == 3 then
        Waited(c, WAITS(true, now + c.timeout, f.writes), now)
      else if m.kind == 2 && m.id == id && (m.cls != 0 || m.detail != 0) then ENDED(true, f.writes)
      else if m.kind in {0, 1} && m.cls == 2 && m.detail == 5 && m.token == token && token != [] then
        ENDED(f.acked, f.writes)
      else Waited(c, f, now)
  }

  /** What becomes of a request with this id and token, by the events alone. */
  function FateOf(c: Config, id: nat, token: seq<byte>, f: Fate, run: seq<Event>): Fate
    decreases |run|
  {
    if f.ENDED? || run == [] then f
    else
      match run[0]
      case Send(_, _, _, _, _) => FateOf(c, id, token, f, run[1..])
      case Cycle(r, now) => FateOf(c, id, token, CycleFate(c, id, token, f, r, now), run[1..])
  }

  function Now(n: SendInfo): Fate { WAITS(n.acked, n.due, n.writes) }

  /** Exchange n has met that fate: it waits so, or it is gone and was told once if a callback is
      registered. */
  ghost predicate Met(c: Config, x: Exchange, n: SendInfo, f: Fate) {
    match f
    case WAITS(acked, due, writes) =>
      && writes > 0
      && n.(state := NORMAL, acked := acked, due := due, count := writes - 1, writes := writes, told := 0) in x.nodes
    case ENDED(acked, writes) =>
      && n.serial in x.gone && !Waiting(x.nodes, n.serial) && x.gone[n.serial].serial == n.serial
      && x.gone[n.serial].acked == acked && x.gone[n.serial].writes == writes
      && x.gone[n.serial].told == if n.handler || c.eventHandler then 1 else 0
  }

  // The nodes of a sweep that a message starts, one by one.
  lemma SweptTo(c: Config, x: Exchange, cmd: Cmd, now: int, n: SendInfo)
    requires Tracked(c, x) && n in x.nodes && (cmd.WAIT? || Quiet(c, x))
    ensures var r, m := ProcStep(c, x, cmd, now), AtNode(c, n, cmd, now);
      && Tracked(c, r) && m.serial == n.serial
      && if Leaves(c, n, cmd, now) then m.serial in r.gone && r.gone[m.serial] == m && !Waiting(r.nodes, m.serial)
         else m in r.nodes
  {
    var k :| 0 <= k < |x.nodes| && x.nodes[k] == n;
    ProcOf(c, x, cmd, now, n.serial);
    ProcTracked(c, x, cmd, now);
    SerialOf(c, n, cmd, now);
  }

  // A node after the sweep its message starts, and after the timeout sweep.
  function Heard(c: Config, n: SendInfo, r: Read, now: int): SendInfo {
    if r.RECEIVED? && Dispatch(r.m) != [] then AtNode(c, n, Dispatch(r.m)[0], now) else n
  }

  ghost predicate Shows(c: Config, n: SendInfo, m: SendInfo, out: bool, f: Fate) {
    match f
    case WAITS(acked, due, writes) =>
      !out && writes > 0
      && m == n.(state := NORMAL, acked := acked, due := due, count := writes - 1, writes := writes, told := 0)
    case ENDED(acked, writes) =>
      out && m.serial == n.serial && m.acked == acked && m.writes == writes
      && m.told == if n.handler || c.eventHandler then 1 else 0
  }

  lemma CycleShows(c: Config, n: SendInfo, r: Read, now: int)
    requires NodeOk(c, n) && n.state == NORMAL
    ensures var m, f := Heard(c, n, r, now), CycleFate(c, n.id, n.token, Now(n), r, now);
      if r.FAILED? && r.rc != RET_SUCCESS && r.rc != ERR_SSL_READ_TIMEOUT then Shows(c, n, n, false, f)
      else Shows(c, n, AtNode(c, m, WAIT, now), Leaves(c, m, WAIT, now), f)
  {}

  lemma MessageSweep(c: Config, x: Exchange, r: Read, now: int, n: SendInfo)
    requires Quiet(c, x) && n in x.nodes
    ensures Tracked(c, Handled(c, x, r, now)) && Heard(c, n, r, now) in Handled(c, x, r, now).nodes
  {
    if r.RECEIVED? && Dispatch(r.m) != [] {
      SweptTo(c, x, Dispatch(r.m)[0], now, n);
    }
  }

  lemma CycleMet(c: Config, x: Exchange, r: Read, now: int, n: SendInfo)
    requires Quiet(c, x) && n in x.nodes
    ensures Met(c, CycleStep(c, x, r, now), n, CycleFate(c, n.id, n.token, Now(n), r, now))
  {
    hide AtNode, Leaves, CycleFate, Handled, Heard, Tracked;
    var k :| 0 <= k < |x.nodes| && x.nodes[k] == n;
    NodeIsOk(c, x, k);
    CycleShows(c, n, r, now);
    if !(r.FAILED? && r.rc != RET_SUCCESS && r.rc != ERR_SSL_READ_TIMEOUT) {
      MessageSweep(c, x, r, now, n);
      SweptTo(c, Handled(c, x, r, now), WAIT, now, Heard(c, n, r, now));
    }
  }

  lemma SendMet(c: Config, x: Exchange, id: nat, token: seq<byte>, handler: bool, now: int, written: bool, n: SendInfo)
    requires n in x.nodes
    ensures n in SendStep(c, x, id, token, handler, now, written).nodes
  {}

  /** Over every run the list does to each request in it what the events say, however many others
      wait with it. */
  lemma {:induction false} ExchangeFate(c: Config, x: Exchange, run: seq<Event>, n: SendInfo)
    requires Quiet(c, x) && n in x.nodes
    ensures Met(c, After(c, x, run), n, FateOf(c, n.id, n.token, Now(n), run))
    decreases |run|
  {
    hide CycleStep, CycleFate, SendStep, Tracked;
    var k :| 0 <= k < |x.nodes| && x.nodes[k] == n;
    NodeIsOk(c, x, k);
    if run != [] {
      var y := Step(c, x, run[0]);
      match run[0]
      case Send(id, token, handler, now, written) =>
        SendQuiet(c, x, id, token, handler, now, written);
        SendMet(c, x, id, token, handler, now, written, n);
        ExchangeFate(c, y, run[1..], n);
      case Cycle(r, now) =>
        CycleQuiet(c, x, r, now);
        CycleMet(c, x, r, now, n);
        var f := CycleFate(c, n.id, n.token, Now(n), r, now);
        if f.WAITS? {
          var m := n.(state := NORMAL, acked := f.acked, due := f.due,
            count := f.writes - 1, writes := f.writes, told := 0);
          ExchangeFate(c, y, run[1..], m);
        } else {
          StaysGone(c, y, run[1..], n.serial);
        }
    }
  }

  lemma NodeIsOk(c: Config, x: Exchange, k: nat)
    requires Quiet(c, x) && k < |x.nodes|
    ensures NodeOk(c, x.nodes[k]) && x.nodes[k].state == NORMAL && Waiting(x.nodes, x.nodes[k].serial)
  {}

  lemma StaysGone(c: Config, x: Exchange, run: seq<Event>, serial: nat)
    requires Quiet(c, x) && serial in x.gone && x.gone[serial].serial == serial
    ensures var r := After(c, x, run);
      serial in r.gone && r.gone[serial] == x.gone[serial] && !Waiting(r.nodes, serial)
  {
    var m := RunKeeps(c, x, run, x.gone[serial]);
    assert !Waiting(x.nodes, serial);
  }

  /** So it is for every request of a client: at any point of any run a request that is written, and
      meets the fate the rest of the run has for it, from one write and a timer just set on. */
  lemma ClientFate(c: Config, first: seq<Event>, id: nat, token: seq<byte>, handler: bool, now: int, rest: seq<Event>)
    ensures var x := After(c, START, first);
      var n := SendInfo(x.sent, NORMAL, false, id, token, 0, now + c.timeout, handler, 1, 0);
      Met(c, After(c, START, first + [Send(id, token, handler, now, true)] + rest), n,
          FateOf(c, id, token, WAITS(false, now + c.timeout, 1), rest))
  {
    hide CycleFate, Tracked;
    var x, e := After(c, START, first), Send(id, token, handler, now, true);
    var n := SendInfo(x.sent, NORMAL, false, id, token, 0, now + c.timeout, handler, 1, 0);
    QuietRun(c, first);
    SendQuiet(c, x, id, token, handler, now, true);
    var y := Step(c, x, e);
    assert y.nodes[|x.nodes|] == n;
    ExchangeFate(c, y, rest, n);
    assert first + [e] + rest == first + ([e] + rest) && ([e] + rest)[1..] == rest;
    InTurn(c, START, first, [e] + rest);
  }

  lemma QuietRun(c: Config, run: seq<Event>)
    ensures Quiet(c, After(c, START, run))
  {
    assert Tracked(c, START);
    RunQuiet(c, START, run);
  }

  /** The sweep of an acknowledgement: every request with its id is acknowledged and its timer starts
      anew, and no other changes. */
  lemma {:induction false} AckSweep(c: Config, ns: seq<SendInfo>, gone: map<nat, SendInfo>, id: nat, now: int)
    ensures var (rest, g) := Proc(c, ns, gone, ACK(id), now);
      && g == gone && |rest| == |ns|
      && forall k :: 0 <= k < |ns| ==>
           rest[k] == if ns[k].id == id then ns[k].(acked := true, due := now + c.timeout) else ns[k]
  {
    if ns != [] {
      AckSweep(c, ns[1..], gone, id, now);
      var rest, tail := Proc(c, ns, gone, ACK(id), now).0, Proc(c, ns[1..], gone, ACK(id), now).0;
      forall k | 0 <= k < |ns|
        ensures rest[k] == if ns[k].id == id then ns[k].(acked := true, due := now + c.timeout) else ns[k]
      {
        if k > 0 { assert rest[k] == tail[k - 1] && ns[1..][k - 1] == ns[k]; }
      }
    }
  }

  lemma {:induction false} AckedFate(c: Config, id: nat, token: seq<byte>, f: Fate, run: seq<Event>)
    requires f.acked
    ensures FateOf(c, id, token, f, run).writes == f.writes && FateOf(c, id, token, f, run).acked
    decreases |run|
  {
    if f.WAITS? && run != [] {
      match run[0]
      case Send(_, _, _, _, _) => AckedFate(c, id, token, f, run[1..]);
      case Cycle(r, now) => AckedFate(c, id, token, CycleFate(c, id, token, f, r, now), run[1..]);
    }
  }

  /** Once the acknowledgement of a waiting request was received, that request is never written again,
      whatever follows. */
  lemma NeverAfterAck(c: Config, x: Exchange, n: SendInfo, m: C.Msg, now: int, rest: seq<Event>)
    requires Quiet(c, x) && n in x.nodes && m.kind == 2 && m.id == n.id && (m.cls != 0 || m.detail != 0)
    ensures var f := FateOf(c, n.id, n.token, Now(n), [Cycle(RECEIVED(m), now)] + rest);
      && f.acked && f.writes == n.writes
      && Met(c, After(c, x, [Cycle(RECEIVED(m), now)] + rest), n, f)
  {
    var run := [Cycle(RECEIVED(m), now)] + rest;
    assert run[1..] == rest;
    ExchangeFate(c, x, run, n);
    AckedFate(c, n.id, n.token, CycleFate(c, n.id, n.token, Now(n), RECEIVED(m), now), rest);
  }

  /** The answer of a waiting request, with its acknowledgement or on its own, ends its exchange in the
      same cycle, and its callback is told. */
  lemma AnswerEnds(c: Config, x: Exchange, n: SendInfo, m: C.Msg, now: int)
    requires Quiet(c, x) && n in x.nodes
    requires
      || (m.kind == 2 && m.id == n.id && (m.cls != 0 || m.detail != 0) && !(m.cls == 2 && m.detail == 3))
      || (m.kind in {0, 1} && m.cls == 2 && m.detail == 5 && m.token == n.token != [])
    ensures var r := CycleStep(c, x, RECEIVED(m), now);
      && n.serial in r.gone && !Waiting(r.nodes, n.serial) && r.gone[n.serial].writes == n.writes
      && r.gone[n.serial].told == if n.handler || c.eventHandler then 1 else 0
  {
    CycleMet(c, x, RECEIVED(m), now, n);
  }

  // ---------- an unanswered request ----------

  /** The timeout sweeps that find the timer of a node run out, one after another. */
  function Expire(c: Config, n: SendInfo, nows: seq<int>): SendInfo
    decreases |nows|
  {
    if nows == [] then n else Expire(c, AtNode(c, n, WAIT, nows[0]), nows[1..])
  }

  predicate Late(c: Config, n: SendInfo, nows: seq<int>)
    decreases |nows|
  {
    nows == [] || (n.due <= nows[0] && Late(c, AtNode(c, n, WAIT, nows[0]), nows[1..]))
  }

  /** A request that gets no acknowledgement is written exactly 1 + maxRetry times and ends at the
      expiry after the last retransmission; an acknowledged one ends at the next expiry. */
  lemma {:induction false} TimesOut(c: Config, n: SendInfo, nows: seq<int>)
    requires NodeOk(c, n) && n.state == NORMAL && Late(c, n, nows)
    requires |nows| <= (if n.acked then 0 else c.maxRetry - n.count) + 1
    ensures var m := Expire(c, n, nows);
      && (m.state == INVALID <==> |nows| == (if n.acked then 0 else c.maxRetry - n.count) + 1)
      && m.writes == n.writes + (if n.acked then 0 else if m.state == INVALID then |nows| - 1 else |nows|)
    decreases |nows|
  {
    if nows != [] {
      var m := AtNode(c, n, WAIT, nows[0]);
      AtNodeOk(c, n, WAIT, nows[0]);
      if m.state == NORMAL {
        TimesOut(c, m, nows[1..]);
      } else {
        assert nows[1..] == [];
      }
    }
  }
}
