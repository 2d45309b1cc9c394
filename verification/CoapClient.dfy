/** The message list of the CoAP client as its C functions change it, proved against CoapExchange. */
module CoapClient {
  import C = CoapCodec
  import opened CoapExchange

  // A list in the middle of a sweep from the tail: the first k nodes still to come, one node decided
  // but not yet unlinked (as it is then), and the nodes kept.
  function Pending(ns: seq<SendInfo>, k: nat, held: seq<SendInfo>, rest: seq<SendInfo>): seq<SendInfo>
    requires k <= |ns|
  {
    ns[..k] + held + rest
  }

  lemma PendingAll(ns: seq<SendInfo>)
    ensures Pending(ns, |ns|, [], []) == ns
  {}

  lemma PendingDone(ns: seq<SendInfo>, rest: seq<SendInfo>)
    ensures Pending(ns, 0, [], rest) == rest
  {}

  lemma Unlinked(ns: seq<SendInfo>, k: nat, n: SendInfo, rest: seq<SendInfo>)
    requires k <= |ns|
    ensures var s := Pending(ns, k, [n], rest); |s| > k && s[..k] + s[k + 1..] == Pending(ns, k, [], rest)
  {}

  lemma Updated(ns: seq<SendInfo>, k: nat, n: SendInfo, rest: seq<SendInfo>)
    requires k < |ns|
    ensures var s := Pending(ns, k + 1, [], rest); |s| > k && s[k] == ns[k] && s[k := n] == Pending(ns, k, [n], rest)
    ensures Pending(ns, k, [n], rest) == Pending(ns, k, [], [n] + rest)
  {
    assert ns[..k + 1] == ns[..k] + [ns[k]];
  }

  lemma ProcFrom(c: Config, ns: seq<SendInfo>, k: nat, gone: map<nat, SendInfo>, cmd: Cmd, now: int)
    requires k < |ns|
    ensures var (rest, g) := Proc(c, ns[k + 1..], gone, cmd, now);
      var n := AtNode(c, ns[k], cmd, now);
      Proc(c, ns[k..], gone, cmd, now) ==
        if Leaves(c, ns[k], cmd, now) then (rest, g[n.serial := n]) else ([n] + rest, g)
  {
    assert ns[k..][0] == ns[k] && ns[k..][1..] == ns[k + 1..];
  }

  lemma ProcNone(c: Config, ns: seq<SendInfo>, gone: map<nat, SendInfo>, cmd: Cmd, now: int)
    ensures Proc(c, ns[|ns|..], gone, cmd, now) == ([], gone) && Pending(ns, |ns|, [], []) == ns
  {}

  class Client {
    const cfg: Config
    var nodes: seq<SendInfo>
    var sent: nat
    var gone: map<nat, SendInfo>

    constructor (c: Config)
      ensures State() == Exchange([], map[], 0) && cfg == c
    {
      cfg, nodes, sent, gone := c, [], 0, map[];
    }

    function State(): Exchange
      reads this
    {
      Exchange(nodes, gone, sent)
    }

    /** A callback, of the request if it has one, else of the client if it has one. */
    method CallBack(n: SendInfo) returns (m: SendInfo)
      ensures m == Tell(cfg, n)
    {
      m := n;
      if n.handler {
        m := n.(told := n.told + 1);
      } else if cfg.eventHandler {
        m := n.(told := n.told + 1);
      }
    }

    /** The body of the loop of _coap_message_list_proc; remove is its temp_node. */
    method Visit(n: SendInfo, cmd: Cmd, now: int) returns (m: SendInfo, remove: bool)
      ensures m == AtNode(cfg, n, cmd, now) && remove == Leaves(cfg, n, cmd, now)
    {
      m, remove := n, false;
      match cmd
      case ACK(id) =>
        if n.id == id {
          m := n.(acked := true, due := now + cfg.timeout);
        }
      case RESP(token) =>
        if |n.token| != 0 && n.token == token {
          m := CallBack(n);
          m := m.(state := INVALID);
        }
      case PIGGY(id) =>
        if n.id == id {
          m := CallBack(n);
          m := m.(acked := true);
          m := m.(state := INVALID);
        }
      case WAIT =>
        if n.state == INVALID {
          remove := true;
          return;
        }
        if n.due - now > 0 {
          return;
        }
        if n.count < cfg.maxRetry && !n.acked {
          m := n.(due := now + cfg.timeout);
          m := m.(count := m.count + 1);
          m := m.(writes := m.writes + 1);
        } else {
          m := n.(state := INVALID);
          remove := true;
          m := CallBack(m);
        }
    }

    // Where the sweep is.
    ghost predicate Sweeping(ns: seq<SendInfo>, gone0: map<nat, SendInfo>, k: nat, temp: int, cmd: Cmd, now: int)
      reads this
    {
      && k <= |ns| && (temp == -1 || (temp == k < |ns| && k < |nodes|))
      && gone == Proc(cfg, ns[k..], gone0, cmd, now).1
      && nodes ==
           Pending(ns, k, if temp == -1 then [] else [AtNode(cfg, ns[k], cmd, now)],
                   Proc(cfg, ns[k..], gone0, cmd, now).0)
    }

    method Turn(k: nat, temp: int, cmd: Cmd, now: int, ghost ns: seq<SendInfo>, ghost gone0: map<nat, SendInfo>)
      returns (held: int)
      requires k < |ns| && Sweeping(ns, gone0, k + 1, temp, cmd, now)
      modifies this`nodes, this`gone
      ensures Sweeping(ns, gone0, k, held, cmd, now)
    {
      hide AtNode, Leaves, Proc;
      ghost var kept := Proc(cfg, ns[k + 1..], gone0, cmd, now).0;
      if temp != -1 {
        Unlinked(ns, k + 1, AtNode(cfg, ns[temp], cmd, now), kept);
        nodes := nodes[..temp] + nodes[temp + 1..];
      }
      ProcFrom(cfg, ns, k, gone0, cmd, now);
      Updated(ns, k, AtNode(cfg, ns[k], cmd, now), kept);
      var m, remove := Visit(nodes[k], cmd, now);
      nodes := nodes[k := m];
      held := -1;
      if remove {
        gone := gone[m.serial := m];
        held := k;
      }
    }

    /** _coap_message_list_proc. */
    method ListProc(cmd: Cmd, now: int) returns (rc: int)
      modifies this`nodes, this`gone
      ensures State() == ProcStep(cfg, old(State()), cmd, now)
      ensures rc == if old(nodes) == [] then ERR_FAILURE else RET_SUCCESS
    {
      if |nodes| == 0 {
        return ERR_FAILURE;
      }
      hide AtNode, Leaves, Proc, Pending;
      ghost var ns, gone0 := nodes, gone;
      var k: nat, temp: int := |nodes|, -1;
      ProcNone(cfg, ns, gone0, cmd, now);
      PendingAll(ns);
      while k > 0
        invariant k <= |ns| && Sweeping(ns, gone0, k, temp, cmd, now)
      {
        k := k - 1;
        temp := Turn(k, temp, cmd, now, ns, gone0);
      }
      assert ns[0..] == ns;
      if temp != -1 {
        Unlinked(ns, 0, AtNode(cfg, ns[0], cmd, now), Proc(cfg, ns, gone0, cmd, now).0);
        nodes := nodes[..temp] + nodes[temp + 1..];
      }
      PendingDone(ns, Proc(cfg, ns, gone0, cmd, now).0);
      rc := RET_SUCCESS;
    }

    /** coap_message_send: only a confirmable request waits for an answer. */
    method Send(m: C.Msg, handler: bool, now: int, written: bool, error: int) returns (rc: int)
      requires error < 0
      modifies this`nodes, this`sent
      ensures State() ==
        if m.kind == C.CON && m.cls == 0 then SendStep(cfg, old(State()), m.id, m.token, handler, now, written)
        else old(State())
      ensures rc == if written then RET_SUCCESS else error
    {
      if !written {
        return error;
      }
      if m.kind == C.CON && m.cls == 0 {
        nodes := nodes + [SendInfo(sent, NORMAL, false, m.id, m.token, 0, now + cfg.timeout, handler, 1, 0)];
        sent := sent + 1;
      }
      rc := RET_SUCCESS;
    }

    /** _coap_message_handle: a confirmable response is acknowledged before it is looked up; that
        acknowledgement joins no list. */
    method Handle(m: C.Msg, now: int)
      modifies this`nodes, this`gone, this`sent
      ensures State() == Handled(cfg, old(State()), RECEIVED(m), now)
    {
      var rc;
      if m.kind == C.ACK && m.cls == 2 && m.detail == 3 {
        rc := ListProc(ACK(m.id), now);
      } else if m.kind == C.ACK && !(m.cls == 0 && m.detail == 0) {
        rc := ListProc(PIGGY(m.id), now);
      } else if m.kind == C.CON && m.cls == 2 && m.detail == 5 {
        rc := Send(C.Msg(C.ACK, 0, 2, m.id, [], [], []), false, now, true, -1);
        rc := ListProc(RESP(m.token), now);
      } else if m.kind == C.NON && m.cls == 2 && m.detail == 5 {
        rc := ListProc(RESP(m.token), now);
      }
    }

    /** coap_message_cycle. */
    method Cycle(r: Read, now: int) returns (rc: int)
      modifies this`nodes, this`gone, this`sent
      ensures State() == CycleStep(cfg, old(State()), r, now)
    {
      rc := match r case RECEIVED(_) => RET_SUCCESS case TIMEOUT => ERR_SSL_READ_TIMEOUT case FAILED(e) => e;
      if r.RECEIVED? {
        Handle(r.m, now);
      }
      if rc != RET_SUCCESS && rc != ERR_SSL_READ_TIMEOUT {
        return;
      }
      rc := ListProc(WAIT, now);
    }
  }
}
