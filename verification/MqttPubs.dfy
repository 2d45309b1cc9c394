/** QoS 1 publishes of the MQTT client as values: the PUBACK wait list and how a publish leaves it.
    MqttClient proves its loops against these functions. */
module MqttPubs {
  import opened MqttIds

  const MAX_REPUB_NUM := 20

  datatype State = NORMAL | INVALID
  datatype Exit = ACKED | TIMED_OUT | SEND_FAILED
  datatype Outcome = SERIALIZE_FAILED | SEND_FAILS | SENT

  /** QcloudIotPubInfo without its copy of the packet.  serial tells the allocations apart, issue is
      how many packet ids had been handed out when this one was. */
  datatype PubNode = PubNode(serial: nat, issue: nat, state: State, id: nat, deadline: int)

  /** left and pushed are the history: how the publishes that entered the list left it, and how
      many entered. */
  datatype Pubs = Pubs(start: nat, issued: nat, waits: seq<PubNode>, pushed: nat, left: map<nat, Exit>)

  predicate Waiting(ws: seq<PubNode>, serial: nat) { exists k :: 0 <= k < |ws| && ws[k].serial == serial }

  ghost predicate Ordered(p: Pubs) {
    && (forall k :: 0 <= k < |p.waits| ==> p.waits[k].serial < p.pushed && 0 < p.waits[k].issue <= p.issued)
    && (forall k :: 0 <= k < |p.waits| ==> p.waits[k].id == IdAfter(p.start, p.waits[k].issue))
    && (forall i, j :: 0 <= i < j < |p.waits| ==>
          p.waits[i].serial < p.waits[j].serial && p.waits[i].issue < p.waits[j].issue)
  }

  /** Each publish that entered the list is in it or has left it once. */
  ghost predicate LeavesOnce(p: Pubs) {
    && (forall n: nat :: n in p.left ==> n < p.pushed && !Waiting(p.waits, n))
    && (forall n: nat :: n < p.pushed && n !in p.left ==> Waiting(p.waits, n))
  }

  ghost predicate Good(p: Pubs) {
    p.start <= MAX_PACKET_ID && |p.waits| <= MAX_REPUB_NUM && Ordered(p) && LeavesOnce(p)
  }

  // ---------- steps ----------

  /** get_next_packet_id, for a publish or for another request. */
  function Issue(p: Pubs): Pubs { p.(issued := p.issued + 1) }

  /** A QoS 1 publish on a live connection. */
  function PublishStep(p: Pubs, deadline: int, outcome: Outcome): Pubs {
    var q := Issue(p);
    if outcome == SERIALIZE_FAILED || |p.waits| >= MAX_REPUB_NUM then q
    else if outcome == SEND_FAILS then q.(pushed := q.pushed + 1, left := q.left[q.pushed := Exit.SEND_FAILED])
    else q.(pushed := q.pushed + 1,
            waits := q.waits + [PubNode(q.pushed, q.issued, NORMAL, IdAfter(q.start, q.issued), deadline)])
  }

  /** _mask_pubInfo_from marks every node with the id. */
  function Masked(ws: seq<PubNode>, id: nat): (r: seq<PubNode>)
    ensures |r| == |ws|
  {
    seq(|ws|, k requires 0 <= k < |ws| => if ws[k].id == id then ws[k].(state := INVALID) else ws[k])
  }

  function AckStep(p: Pubs, id: nat): Pubs { p.(waits := Masked(p.waits, id)) }

  predicate Stays(w: PubNode, connected: bool, now: int) { w.state == NORMAL && (!connected || w.deadline - now > 0) }

  function ExitOf(w: PubNode): Exit { if w.state == INVALID then ACKED else TIMED_OUT }

  /** qcloud_iot_mqtt_pub_info_proc from the tail: the nodes kept, the history, and the ids for
      which a timeout was raised, in the order it was. */
  function Sweep(ws: seq<PubNode>, left: map<nat, Exit>, connected: bool,
                 now: int): (seq<PubNode>, map<nat, Exit>, seq<nat>) {
    if ws == [] then ([], left, []) else
      var (rest, l, raised) := Sweep(ws[1..], left, connected, now);
      if Stays(ws[0], connected, now) then ([ws[0]] + rest, l, raised)
      else (rest, l[ws[0].serial := ExitOf(ws[0])], if ws[0].state == NORMAL then raised + [ws[0].id] else raised)
  }

  function SweepStep(p: Pubs, connected: bool, now: int): Pubs {
    var (rest, l, _) := Sweep(p.waits, p.left, connected, now);
    p.(waits := rest, left := l)
  }

  // ---------- what each step keeps ----------

  lemma PublishKeeps(p: Pubs, deadline: int, outcome: Outcome)
    requires Good(p)
    ensures Good(PublishStep(p, deadline, outcome))
  {
    var r := PublishStep(p, deadline, outcome);
    forall n: nat | n < r.pushed && n !in r.left ensures Waiting(r.waits, n) {
      if n < p.pushed {
        assert Waiting(p.waits, n);
        var k :| 0 <= k < |p.waits| && p.waits[k].serial == n;
        assert r.waits[k].serial == n;
      } else {
        assert r.waits[|p.waits|].serial == n;
      }
    }
    forall n: nat | n in r.left ensures n < r.pushed && !Waiting(r.waits, n) {}
  }

  lemma AckKeeps(p: Pubs, id: nat)
    requires Good(p)
    ensures Good(AckStep(p, id))
  {
    var r := AckStep(p, id);
    forall n: nat | n < r.pushed && n !in r.left ensures Waiting(r.waits, n) {
      assert Waiting(p.waits, n);
      var k :| 0 <= k < |p.waits| && p.waits[k].serial == n;
      assert r.waits[k].serial == n;
    }
    forall n: nat | n in r.left ensures !Waiting(r.waits, n) {
      assert !Waiting(p.waits, n);
      forall k | 0 <= k < |r.waits| ensures r.waits[k].serial != n { assert r.waits[k].serial == p.waits[k].serial; }
    }
  }

  ghost predicate Increasing(ws: seq<PubNode>) {
    forall i, j :: 0 <= i < j < |ws| ==> ws[i].serial < ws[j].serial && ws[i].issue < ws[j].issue
  }

  /** The sweep keeps exactly the publishes that are not acknowledged and, while the link is up, not
      out of time... */
  lemma {:induction false} SweepMembers(ws: seq<PubNode>, left: map<nat, Exit>, connected: bool, now: int)
    ensures var rest := Sweep(ws, left, connected, now).0;
      |rest| <= |ws| && forall w :: w in rest <==> w in ws && w.state == NORMAL && (!connected || w.deadline > now)
  {
    if ws != [] {
      SweepMembers(ws[1..], left, connected, now);
    }
  }

  lemma ConsIncreasing(w: PubNode, rest: seq<PubNode>)
    requires Increasing(rest) && forall v :: v in rest ==> w.serial < v.serial && w.issue < v.issue
    ensures Increasing([w] + rest)
  {
    var r := [w] + rest;
    forall i, j | 0 <= i < j < |r| ensures r[i].serial < r[j].serial && r[i].issue < r[j].issue {
      assert r[j] == rest[j - 1];
      assert i > 0 ==> r[i] == rest[i - 1];
    }
  }

  /** ...in their order... */
  lemma {:induction false} SweepIncreasing(ws: seq<PubNode>, left: map<nat, Exit>, connected: bool, now: int)
    requires Increasing(ws)
    ensures Increasing(Sweep(ws, left, connected, now).0)
  {
    if ws != [] {
      var tail := ws[1..];
      SweepIncreasing(tail, left, connected, now);
      SweepMembers(tail, left, connected, now);
      var rest := Sweep(tail, left, connected, now).0;
      forall v | v in rest ensures ws[0].serial < v.serial && ws[0].issue < v.issue {
        var k :| 0 <= k < |tail| && tail[k] == v;
        assert ws[k + 1] == v;
      }
      ConsIncreasing(ws[0], rest);
    }
  }

  /** ...records how every other one left... */
  lemma {:induction false} SweepRecords(ws: seq<PubNode>, left: map<nat, Exit>, connected: bool, now: int, k: nat)
    requires Increasing(ws) && k < |ws| && !(ws[k].state == NORMAL && (!connected || ws[k].deadline > now))
    ensures var l := Sweep(ws, left, connected, now).1;
      ws[k].serial in l && l[ws[k].serial] == if ws[k].state == INVALID then ACKED else TIMED_OUT
  {
    if k > 0 {
      SweepRecords(ws[1..], left, connected, now, k - 1);
    }
  }

  /** ...and touches the history of no other publish. */
  lemma {:induction false} SweepSpares(ws: seq<PubNode>, left: map<nat, Exit>, connected: bool, now: int, n: nat)
    requires forall k :: 0 <= k < |ws| ==>
      ws[k].serial != n || (ws[k].state == NORMAL && (!connected || ws[k].deadline > now))
    ensures var l := Sweep(ws, left, connected, now).1; (n in l <==> n in left) && (n in left ==> l[n] == left[n])
  {
    if ws != [] {
      forall k | 0 <= k < |ws[1..]| ensures ws[1..][k].serial != n || Stays(ws[1..][k], connected, now) {
        assert ws[1..][k] == ws[k + 1];
      }
      SweepSpares(ws[1..], left, connected, now, n);
    }
  }

  /** A timeout is raised for the publishes that were not acknowledged and are out of time, and for
      no others. */
  lemma {:induction false} SweepRaises(ws: seq<PubNode>, left: map<nat, Exit>, connected: bool, now: int, id: nat)
    ensures id in Sweep(ws, left, connected, now).2
       <==> exists k :: 0 <= k < |ws| && ws[k].id == id && ws[k].state == NORMAL && connected && ws[k].deadline <= now
  {
    if ws != [] {
      SweepRaises(ws[1..], left, connected, now, id);
      if k :| 0 <= k < |ws| && ws[k].id == id && ws[k].state == NORMAL && connected && ws[k].deadline <= now {
        if k > 0 { assert ws[1..][k - 1] == ws[k]; }
      }
      if k :| 0 <= k < |ws[1..]| && ws[1..][k].id == id && ws[1..][k].state == NORMAL && connected
              && ws[1..][k].deadline <= now
      {
        assert ws[k + 1] == ws[1..][k];
      }
    }
  }

  // Where publish n is after the sweep.
  lemma SweepOf(p: Pubs, connected: bool, now: int, n: nat)
    requires Good(p)
    ensures var r := SweepStep(p, connected, now);
      && (n in p.left ==> n in r.left && r.left[n] == p.left[n] && !Waiting(r.waits, n))
      && (forall k :: 0 <= k < |p.waits| && p.waits[k].serial == n && Stays(p.waits[k], connected, now) ==>
            n !in r.left && p.waits[k] in r.waits)
      && (forall k :: 0 <= k < |p.waits| && p.waits[k].serial == n && !Stays(p.waits[k], connected, now) ==>
            n in r.left && r.left[n] == ExitOf(p.waits[k]) && !Waiting(r.waits, n))
      && (n >= p.pushed ==> n !in r.left && !Waiting(r.waits, n))
  {
    var r := SweepStep(p, connected, now);
    SweepMembers(p.waits, p.left, connected, now);
    forall k | 0 <= k < |r.waits| ensures r.waits[k] in p.waits && Stays(r.waits[k], connected, now) {
      assert r.waits[k] in r.waits;
    }
    if k :| 0 <= k < |p.waits| && p.waits[k].serial == n {
      assert Waiting(p.waits, n);
      if Stays(p.waits[k], connected, now) {
        SweepSpares(p.waits, p.left, connected, now, n);
        assert p.waits[k] in r.waits;
      } else {
        SweepRecords(p.waits, p.left, connected, now, k);
        forall j | 0 <= j < |r.waits| ensures r.waits[j].serial != n { assert r.waits[j] in r.waits; }
      }
    } else {
      SweepSpares(p.waits, p.left, connected, now, n);
      forall j | 0 <= j < |r.waits| ensures r.waits[j].serial != n { assert r.waits[j] in r.waits; }
    }
  }

  lemma SweepStepKeeps(p: Pubs, connected: bool, now: int)
    requires Good(p)
    ensures Good(SweepStep(p, connected, now))
  {
    var r := SweepStep(p, connected, now);
    assert Increasing(p.waits);
    SweepMembers(p.waits, p.left, connected, now);
    SweepIncreasing(p.waits, p.left, connected, now);
    forall k | 0 <= k < |r.waits| ensures r.waits[k] in p.waits {
      assert r.waits[k] in r.waits;
    }
    forall n: nat
      ensures n in r.left ==> n < r.pushed && !Waiting(r.waits, n)
      ensures n < r.pushed && n !in r.left ==> Waiting(r.waits, n)
    {
      SweepOf(p, connected, now, n);
      if n !in p.left && n < p.pushed {
        assert Waiting(p.waits, n);
        var k :| 0 <= k < |p.waits| && p.waits[k].serial == n;
      }
    }
  }

  // ---------- acknowledgements and ids ----------

  /** While fewer than 65535 ids were handed out since the oldest waiting publish, an id names at
      most one of them, so a PUBACK marks at most one. */
  lemma AckMarksOne(p: Pubs, i: nat, j: nat)
    requires Good(p) && i < j < |p.waits| && p.issued - p.waits[0].issue < MAX_PACKET_ID
    ensures p.waits[i].id != p.waits[j].id
  {
    var a, b := p.waits[i].issue, p.waits[j].issue;
    if i > 0 { assert p.waits[0].issue < a; }
    IdsRepeat(p.start, a, b);
  }

  // ---------- whole runs ----------

  datatype Event =
    | Publish(deadline: int, outcome: Outcome)
    | OtherRequest
    | Puback(id: nat)
    | Timeouts(connected: bool, now: int)

  function Step(p: Pubs, e: Event): Pubs {
    match e
    case Publish(deadline, outcome) => PublishStep(p, deadline, outcome)
    case OtherRequest => Issue(p)
    case Puback(id) => AckStep(p, id)
    case Timeouts(connected, now) => SweepStep(p, connected, now)
  }

  function After(p: Pubs, run: seq<Event>): Pubs
    decreases |run|
  {
    if run == [] then p else After(Step(p, run[0]), run[1..])
  }

  /** Publish n is marked by a PUBACK, or left the list because of one. */
  ghost predicate Acked(p: Pubs, n: nat) {
    || (n in p.left && p.left[n] == ACKED)
    || exists k :: 0 <= k < |p.waits| && p.waits[k].serial == n && p.waits[k].state == INVALID
  }

  lemma StepKeeps(p: Pubs, e: Event, n: nat)
    requires Good(p)
    ensures var r := Step(p, e);
      && Good(r) && p.pushed <= r.pushed
      && (n in p.left ==> n in r.left && r.left[n] == p.left[n])
      && (Acked(p, n) ==> Acked(r, n))
  {
    var r := Step(p, e);
    match e
    case Publish(deadline, outcome) =>
      PublishKeeps(p, deadline, outcome);
      if k :| 0 <= k < |p.waits| && p.waits[k].serial == n && p.waits[k].state == INVALID {
        assert r.waits[k] == p.waits[k];
      }
    case OtherRequest =>
    case Puback(id) =>
      AckKeeps(p, id);
      if k :| 0 <= k < |p.waits| && p.waits[k].serial == n && p.waits[k].state == INVALID {
        assert r.waits[k] == p.waits[k];
      }
    case Timeouts(connected, now) =>
      SweepStepKeeps(p, connected, now);
      SweepOf(p, connected, now, n);
  }

  /** Over any run: a publish that left the list left it once and for one reason, one that is
      marked by a PUBACK never times out, and every one that entered is in the list or has left. */
  lemma {:induction false} RunKeeps(p: Pubs, run: seq<Event>, n: nat)
    requires Good(p)
    ensures var r := After(p, run);
      && Good(r)
      && (n in p.left ==> n in r.left && r.left[n] == p.left[n])
      && (Acked(p, n) ==> Acked(r, n) && (n in r.left ==> r.left[n] == ACKED))
    decreases |run|
  {
    if run != [] {
      StepKeeps(p, run[0], n);
      RunKeeps(Step(p, run[0]), run[1..], n);
    } else if k :| 0 <= k < |p.waits| && p.waits[k].serial == n {
      assert Waiting(p.waits, n);
    }
  }

  /** A client that has handed out no id yet. */
  function Start(start: nat): Pubs { Pubs(start, 0, [], 0, map[]) }

  lemma {:induction false} InTurn(p: Pubs, first: seq<Event>, second: seq<Event>)
    ensures After(p, first + second) == After(After(p, first), second)
    decreases |first|
  {
    if first == [] {
      assert first + second == second;
    } else {
      assert (first + second)[1..] == first[1..] + second;
      InTurn(Step(p, first[0]), first[1..], second);
    }
  }

  /** All of it for a client just created: at any point of any run each publish that ever entered the
      list waits or has left it, and the rest of the run changes neither how it left nor that it was
      acknowledged. */
  lemma ClientKeeps(start: nat, first: seq<Event>, second: seq<Event>, n: nat)
    requires start <= MAX_PACKET_ID
    ensures var p, r := After(Start(start), first), After(Start(start), first + second);
      && |r.waits| <= MAX_REPUB_NUM
      && (n < r.pushed ==> (Waiting(r.waits, n) <==> n !in r.left))
      && (n in p.left ==> n in r.left && r.left[n] == p.left[n])
      && (Acked(p, n) && n in r.left ==> r.left[n] == ACKED)
  {
    RunKeeps(Start(start), first, n);
    InTurn(Start(start), first, second);
    RunKeeps(After(Start(start), first), second, n);
  }

  // ---------- the fate of one publish ----------

  /** A publish waits, acknowledged or not, or has left. */
  datatype Fate = WAITS(acked: bool) | LEFT(exit: Exit)

  /** What becomes of a publish with this id and deadline, by the events alone: a PUBACK with its id
      acknowledges it, the first sweep after that lets it go as acknowledged, and the first sweep at
      or past its deadline on a live link lets it go as timed out. */
  function FateOf(id: nat, deadline: int, acked: bool, run: seq<Event>): Fate
    decreases |run|
  {
    if run == [] then WAITS(acked)
    else
      match run[0]
      case Puback(i) => FateOf(id, deadline, acked || i == id, run[1..])
      case Timeouts(connected, now) =>
        if acked then LEFT(ACKED)
        else if connected && deadline <= now then LEFT(TIMED_OUT)
        else FateOf(id, deadline, acked, run[1..])
      case _ => FateOf(id, deadline, acked, run[1..])
  }

  /** Publish n has met that fate. */
  ghost predicate Met(p: Pubs, n: nat, id: nat, deadline: int, f: Fate) {
    match f
    case LEFT(exit) => n in p.left && p.left[n] == exit && !Waiting(p.waits, n)
    case WAITS(acked) => n !in p.left && exists k :: WaitsAt(p, n, id, deadline, acked, k)
  }

  predicate WaitsAt(p: Pubs, n: nat, id: nat, deadline: int, acked: bool, k: int) {
    0 <= k < |p.waits| && p.waits[k] == PubNode(n, p.waits[k].issue, if acked then INVALID else NORMAL, id, deadline)
  }

  // One event, for a publish that waits.
  lemma FateStep(p: Pubs, e: Event, n: nat, id: nat, deadline: int, acked: bool, k: nat)
    requires Good(p) && WaitsAt(p, n, id, deadline, acked, k)
    ensures Good(Step(p, e)) && Met(Step(p, e), n, id, deadline, FateOf(id, deadline, acked, [e]))
  {
    hide Ordered, Sweep;
    StepKeeps(p, e, n);
    assert Waiting(p.waits, n);
    var r := Step(p, e);
    assert [e][1..] == [];
    match e
    case Publish(d, outcome) =>
      assert WaitsAt(r, n, id, deadline, acked, k);
    case OtherRequest =>
      assert WaitsAt(r, n, id, deadline, acked, k);
    case Puback(i) =>
      assert WaitsAt(r, n, id, deadline, acked || i == id, k);
    case Timeouts(connected, now) =>
      SweepOf(p, connected, now, n);
      if !acked && (!connected || deadline > now) {
        var j :| 0 <= j < |r.waits| && r.waits[j] == p.waits[k];
        assert WaitsAt(r, n, id, deadline, acked, j);
      }
  }

  /** Over every run the list does to each publish in it what the events say, however many others
      wait with it. */
  lemma {:induction false} PublishFate(p: Pubs, run: seq<Event>, k: nat)
    requires Good(p) && k < |p.waits|
    ensures var w := p.waits[k];
      Met(After(p, run), w.serial, w.id, w.deadline, FateOf(w.id, w.deadline, w.state == INVALID, run))
    decreases |run|
  {
    hide Ordered, LeavesOnce, Step;
    var w := p.waits[k];
    var acked := w.state == INVALID;
    assert WaitsAt(p, w.serial, w.id, w.deadline, acked, k);
    if run == [] {
      assert Waiting(p.waits, w.serial);
      NotLeft(p, w.serial);
    } else {
      FateStep(p, run[0], w.serial, w.id, w.deadline, acked, k);
      var r, f := Step(p, run[0]), FateOf(w.id, w.deadline, acked, [run[0]]);
      assert [run[0]][1..] == [];
      if f.WAITS? {
        var j :| WaitsAt(r, w.serial, w.id, w.deadline, f.acked, j);
        PublishFate(r, run[1..], j);
      } else {
        RunKeeps(r, run[1..], w.serial);
        Gone(After(r, run[1..]), w.serial);
      }
    }
  }

  lemma NotLeft(p: Pubs, n: nat)
    requires LeavesOnce(p) && Waiting(p.waits, n)
    ensures n !in p.left
  {}

  lemma Gone(p: Pubs, n: nat)
    requires LeavesOnce(p) && n in p.left
    ensures !Waiting(p.waits, n)
  {}

  /** So it is for every publish of a client: at any point of any run, a publish that finds room and is
      sent takes the next id and meets the fate the rest of the run has for it. */
  lemma ClientFate(start: nat, first: seq<Event>, deadline: int, rest: seq<Event>)
    requires start <= MAX_PACKET_ID && |After(Start(start), first).waits| < MAX_REPUB_NUM
    ensures var p := After(Start(start), first);
      var id := IdAfter(start, p.issued + 1);
      Met(After(Start(start), first + [Publish(deadline, SENT)] + rest), p.pushed, id, deadline,
          FateOf(id, deadline, false, rest))
  {
    var p, e := After(Start(start), first), Publish(deadline, SENT);
    RunKeeps(Start(start), first, 0);
    StartStays(Start(start), first);
    var r := Step(p, e);
    StepKeeps(p, e, 0);
    PublishFate(r, rest, |p.waits|);
    assert first + [e] + rest == first + ([e] + rest) && ([e] + rest)[1..] == rest;
    InTurn(Start(start), first, [e] + rest);
  }

  lemma {:induction false} StartStays(p: Pubs, run: seq<Event>)
    ensures After(p, run).start == p.start
    decreases |run|
  {
    if run != [] { StartStays(Step(p, run[0]), run[1..]); }
  }

  /** One publish after another, each acknowledged and swept before the next. */
  function Rounds(start: nat, issued: nat, deadline: int, connected: bool, now: int, n: nat): seq<Event>
    decreases n
  {
    if n == 0 then []
    else
      [Publish(deadline, SENT), Puback(IdAfter(start, issued + 1)), Timeouts(connected, now)]
      + Rounds(start, issued + 1, deadline, connected, now, n - 1)
  }

  lemma SweptOut(w: PubNode, left: map<nat, Exit>, connected: bool, now: int)
    requires w.state == INVALID
    ensures Sweep([w], left, connected, now).0 == []
  {
    assert [w][1..] == [];
    assert Sweep([w][1..], left, connected, now) == ([], left, []);
  }

  lemma OneRound(p: Pubs, deadline: int, connected: bool, now: int) returns (r: Pubs)
    requires Good(p) && p.waits == []
    ensures var id := IdAfter(p.start, p.issued + 1);
      r == Step(Step(Step(p, Publish(deadline, SENT)), Puback(id)), Timeouts(connected, now))
    ensures Good(r) && r.waits == [] && r.start == p.start && r.issued == p.issued + 1 && r.pushed == p.pushed + 1
    ensures p.pushed in r.left && r.left[p.pushed] == ACKED
  {
    var e, a, t := Publish(deadline, SENT), Puback(IdAfter(p.start, p.issued + 1)), Timeouts(connected, now);
    var q, u := Step(p, e), Step(Step(p, e), a);
    r := Step(u, t);
    StepKeeps(p, e, 0);
    StepKeeps(q, a, 0);
    StepKeeps(u, t, 0);
    assert u.waits == [PubNode(p.pushed, q.issued, INVALID, IdAfter(p.start, p.issued + 1), deadline)];
    assert u.waits[0].serial == p.pushed;
    SweepOf(u, connected, now, p.pushed);
    SweptOut(u.waits[0], u.left, connected, now);
    assert u.waits == [u.waits[0]];
  }

  lemma AfterThree(p: Pubs, e: Event, a: Event, t: Event, tail: seq<Event>)
    ensures After(p, [e, a, t] + tail) == After(Step(Step(Step(p, e), a), t), tail)
  {
    hide Step;
    var run := [e, a, t] + tail;
    var q := Step(p, e);
    assert run[1..] == [a, t] + tail && run[1..][1..] == [t] + tail && run[1..][1..][1..] == tail;
    assert After(p, run) == After(q, run[1..]) == After(Step(q, a), run[1..][1..]);
  }

  /** The list does not fill up with acknowledged publishes: a client whose publishes are acknowledged
      and swept accepts any number of them, whatever the time and the connection. */
  lemma {:induction false} NeverFull(p: Pubs, deadline: int, connected: bool, now: int, n: nat)
    requires Good(p) && p.waits == []
    ensures var r := After(p, Rounds(p.start, p.issued, deadline, connected, now, n));
      && r.waits == [] && r.pushed == p.pushed + n
      && forall m: nat :: p.pushed <= m < r.pushed ==> m in r.left && r.left[m] == ACKED
    decreases n
  {
    hide Step, Good;
    if n > 0 {
      var tail := Rounds(p.start, p.issued + 1, deadline, connected, now, n - 1);
      var id := IdAfter(p.start, p.issued + 1);
      var r := OneRound(p, deadline, connected, now);
      AfterThree(p, Publish(deadline, SENT), Puback(id), Timeouts(connected, now), tail);
      NeverFull(r, deadline, connected, now, n - 1);
      RunKeeps(r, tail, p.pushed);
    }
  }

  function Others(n: nat): (run: seq<Event>)
    ensures |run| == n
  {
    if n == 0 then [] else [OtherRequest] + Others(n - 1)
  }

  lemma {:induction false} AfterOthers(p: Pubs, n: nat)
    ensures After(p, Others(n)) == p.(issued := p.issued + n)
    decreases n
  {
    if n > 0 {
      assert Others(n)[1..] == Others(n - 1);
      AfterOthers(Issue(p), n - 1);
    }
  }

  /** A client just created publishes, hands out n - 1 ids to other requests and publishes again. */
  function TwoPublishes(deadline: int, n: nat): seq<Event>
    requires n > 0
  {
    [Publish(deadline, SENT)] + Others(n - 1) + [Publish(deadline, SENT)]
  }

  /** The bound is exact: after such a run a PUBACK for the second publish marks the first one too
      exactly if n is a multiple of 65535. */
  lemma AckMarksTwo(start: nat, deadline: int, n: nat)
    requires start <= MAX_PACKET_ID && n > 0
    ensures var p := After(Start(start), TwoPublishes(deadline, n));
      && |p.waits| == 2 && p.waits[0].state == p.waits[1].state == NORMAL
      && p.issued - p.waits[0].issue == n
      && AckStep(p, p.waits[1].id).waits[1].state == INVALID
      && (AckStep(p, p.waits[1].id).waits[0].state == INVALID <==> n % MAX_PACKET_ID == 0)
  {
    var e, s := Publish(deadline, SENT), Start(start);
    InTurn(s, [e] + Others(n - 1), [e]);
    InTurn(s, [e], Others(n - 1));
    AfterOne(s, e);
    AfterOthers(Step(s, e), n - 1);
    AfterOne(Step(s, e).(issued := n), e);
    IdsRepeat(start, 1, n + 1);
  }

  lemma AfterOne(p: Pubs, e: Event)
    ensures After(p, [e]) == Step(p, e)
  {
    assert [e][1..] == [];
  }
}
