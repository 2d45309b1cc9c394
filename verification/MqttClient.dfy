/** The requests of the MQTT client as its C functions carry them out, one call at a time: packet
    ids, the two wait lists and the subscription table. */
module MqttClient {
  import opened MqttIds
  import P = MqttPubs
  import S = MqttSubs

  const RET_SUCCESS := 0
  const ERR_FAILURE := -1001
  const ERR_NO_CONN := -103
  const ERR_MAX_SUBSCRIPTIONS := -107
  const ERR_SUB := -108
  const ERR_QOS_NOT_SUPPORT := -120
  const ERR_UNSUB_FAIL := -121
  const ERR_MAX_TOPIC_LENGTH := -138

  datatype Notice =
    | PublishSuccess(id: nat) | PublishTimeout(id: nat)
    | SubscribeSuccess(id: nat) | SubscribeNack(id: nat) | SubscribeTimeout(id: nat)
    | UnsubscribeSuccess(id: nat) | UnsubscribeTimeout(id: nat)
    | TopicEvent(callback: nat, kind: TopicKind, userData: nat)
  datatype TopicKind = SUBSCRIBED | REFUSED | TIMED_OUT | UNSUBSCRIBED

  function TopicNotice(h: S.Handle, kind: TopicKind): seq<Notice> {
    if h.onEvent != 0 then [TopicEvent(h.onEvent, kind, h.userData)] else []
  }

  function Timeouts(ids: seq<nat>): seq<Notice> { seq(|ids|, i requires 0 <= i < |ids| => PublishTimeout(ids[i])) }

  class Client {
    const maxTopic: nat
    const handles: array<S.Handle>
    var connected: bool
    // Packet ids: the counter, where it began, and how often it moved.
    const start: nat
    var nextPacketId: nat
    var issued: nat
    // The PUBACK wait list and its history.
    var pubs: seq<P.PubNode>
    var pushed: nat
    var left: map<nat, P.Exit>
    // Memory and the SUBACK/UNSUBACK wait list.
    var heap: S.Heap
    var subs: seq<S.SubNode>
    // What the callbacks were told.
    var notices: seq<Notice>

    constructor (startId: nat, maxTopicLength: nat)
      requires startId <= MAX_PACKET_ID
      ensures Valid() && fresh(handles) && !connected && notices == []
      ensures PubState() == P.Pubs(startId, 0, [], 0, map[]) && SubState() == S.START
    {
      maxTopic, connected := maxTopicLength, false;
      start, nextPacketId, issued := startId, startId, 0;
      pubs, pushed, left := [], 0, map[];
      heap, subs := S.Heap(map[], {}, 1, false), [];
      handles := new S.Handle[S.MAX_MESSAGE_HANDLERS](_ => S.NO_HANDLE);
      notices := [];
      new;
      assert handles[..] == S.START.table;
    }

    predicate Valid()
      reads this
    {
      start <= MAX_PACKET_ID && nextPacketId == IdAfter(start, issued) && handles.Length == S.MAX_MESSAGE_HANDLERS
    }

    function PubState(): P.Pubs
      reads this
    {
      P.Pubs(start, issued, pubs, pushed, left)
    }

    function SubState(): S.Subs
      reads this, handles
    {
      S.Subs(heap, subs, handles[..])
    }

    function Session(): S.Session
      reads this, handles
    {
      S.Session(SubState(), start, issued)
    }

    /** get_next_packet_id: never zero. */
    method GetNextPacketId() returns (id: nat)
      requires Valid()
      modifies this`nextPacketId, this`issued
      ensures Valid() && issued == old(issued) + 1
      ensures id == nextPacketId == IdAfter(start, issued) && 1 <= id <= MAX_PACKET_ID
    {
      nextPacketId := if nextPacketId == MAX_PACKET_ID then 1 else nextPacketId + 1;
      issued := issued + 1;
      id := nextPacketId;
      IdNeverZero(start, issued);
    }

    // ---------- publishing ----------

    /** qcloud_iot_mqtt_publish; outcome is what serialising and the network do, callerId the id a
        QoS 0 caller left in its parameters. */
    method Publish(topicLen: nat, qos: nat, callerId: nat, deadline: int, outcome: P.Outcome, networkError: int)
      returns (rc: int)
      requires Valid() && networkError < 0 && qos <= 2
      modifies this`nextPacketId, this`issued, this`pubs, this`pushed, this`left
      ensures Valid()
      ensures topicLen > maxTopic ==> rc == ERR_MAX_TOPIC_LENGTH
      ensures topicLen <= maxTopic && qos == 2 ==> rc == ERR_QOS_NOT_SUPPORT
      ensures topicLen <= maxTopic && qos != 2 && !connected ==> rc == ERR_NO_CONN
      ensures topicLen > maxTopic || qos == 2 || !connected || qos == 0 ==> PubState() == old(PubState())
      ensures topicLen <= maxTopic && qos == 1 && connected ==>
        PubState() == P.PublishStep(old(PubState()), deadline, outcome)
      ensures topicLen <= maxTopic && qos == 1 && connected ==>
        (rc >= 0 <==> |pubs| == |old(pubs)| + 1) && (rc >= 0 ==> pubs[|old(pubs)|].id == rc)
      ensures topicLen <= maxTopic && qos == 1 && connected && |old(pubs)| >= P.MAX_REPUB_NUM ==>
        !outcome.SERIALIZE_FAILED? ==> rc == ERR_FAILURE
      ensures topicLen <= maxTopic && qos == 0 && connected ==>
        rc == if outcome == P.SENT then callerId else networkError
    {
      if topicLen > maxTopic {
        return ERR_MAX_TOPIC_LENGTH;
      }
      if qos == 2 {
        return ERR_QOS_NOT_SUPPORT;
      }
      if !connected {
        return ERR_NO_CONN;
      }
      var id := callerId;
      if qos == 1 {
        id := GetNextPacketId();
      }
      if outcome == P.SERIALIZE_FAILED {
        return networkError;
      }
      if qos > 0 {
        if |pubs| >= P.MAX_REPUB_NUM {
          return ERR_FAILURE;
        }
        pubs := pubs + [P.PubNode(pushed, issued, P.NORMAL, id, deadline)];
        pushed := pushed + 1;
      }
      if outcome == P.SEND_FAILS {
        if qos > 0 {
          left := left[pubs[|pubs| - 1].serial := P.Exit.SEND_FAILED];
          pubs := pubs[..|pubs| - 1];
        }
        return networkError;
      }
      rc := id;
    }

    /** _mask_pubInfo_from and the notice of _handle_puback_packet. */
    method HandlePuback(id: nat)
      modifies this`pubs, this`notices
      ensures PubState() == P.AckStep(old(PubState()), id) && notices == old(notices) + [PublishSuccess(id)]
    {
      var i := |pubs| - 1;
      ghost var ws := pubs;
      while i >= 0
        invariant -1 <= i < |pubs| == |ws| && notices == old(notices)
        invariant forall j :: 0 <= j < |ws| ==>
          pubs[j] == if j > i && ws[j].id == id then ws[j].(state := P.INVALID) else ws[j]
      {
        if pubs[i].id == id {
          pubs := pubs[i := pubs[i].(state := P.INVALID)];
        }
        i := i - 1;
      }
      assert pubs == P.Masked(ws, id);
      notices := notices + [PublishSuccess(id)];
    }

    /** What qcloud_iot_mqtt_pub_info_proc does at one node; remove is its temp_node. */
    method InspectPub(w: P.PubNode, now: int) returns (remove: bool)
      modifies this`left, this`notices
      ensures remove == !P.Stays(w, connected, now)
      ensures left == if remove then old(left)[w.serial := P.ExitOf(w)] else old(left)
      ensures notices == old(notices) + if remove && w.state == P.NORMAL then [PublishTimeout(w.id)] else []
    {
      if w.state == P.INVALID {
        left := left[w.serial := P.ACKED];
        return true;
      }
      if !connected {
        return false;
      }
      if w.deadline - now > 0 {
        return false;
      }
      left := left[w.serial := P.TIMED_OUT];
      notices := notices + [PublishTimeout(w.id)];
      return true;
    }

    // Where the sweep of the PUBACK list is: nodes before k are to come, temp is decided but linked.
    ghost predicate PubSweeping(ws: seq<P.PubNode>, left0: map<nat, P.Exit>, k: nat, temp: int, now: int)
      reads this
    {
      && k <= |ws| && (temp == -1 || temp == k < |ws|)
      && left == P.Sweep(ws[k..], left0, connected, now).1
      && pubs == Pending(ws, k, temp != -1, P.Sweep(ws[k..], left0, connected, now).0)
    }

    method PubTurn(node: nat, temp: int, now: int, ghost ws: seq<P.PubNode>, ghost left0: map<nat, P.Exit>)
      returns (held: int)
      requires node < |ws| && PubSweeping(ws, left0, node + 1, temp, now)
      modifies this`pubs, this`left, this`notices
      ensures PubSweeping(ws, left0, node, held, now)
      ensures notices ==
        old(notices) +
        if ws[node].state == P.NORMAL && !P.Stays(ws[node], connected, now) then [PublishTimeout(ws[node].id)] else []
    {
      hide P.Stays, P.ExitOf, P.Sweep;
      ghost var kept := P.Sweep(ws[node + 1..], left0, connected, now).0;
      if temp != -1 {
        Unlinked(ws, temp, kept);
        pubs := pubs[..temp] + pubs[temp + 1..];
      }
      assert pubs[node] == ws[node];
      SweepFrom(ws, node, left0, connected, now);
      PendingNext(ws, node, kept);
      var remove := InspectPub(pubs[node], now);
      held := if remove then node else -1;
    }

    /** qcloud_iot_mqtt_pub_info_proc: a node is unlinked only after the iterator has passed it. */
    method PubInfoProc(now: int)
      modifies this`pubs, this`left, this`notices
      ensures PubState() == P.SweepStep(old(PubState()), connected, now)
      ensures notices == old(notices) + Timeouts(P.Sweep(old(pubs), old(left), connected, now).2)
    {
      hide P.Stays, P.ExitOf, P.Sweep, Timeouts, Pending;
      var next, temp := |pubs|, -1;
      ghost var ws, left0 := pubs, left;
      PubSweepNone(ws, left, connected, now);
      PendingAll(ws);
      while next > 0
        invariant 0 <= next <= |ws| && PubSweeping(ws, left0, next, temp, now)
        invariant notices == old(notices) + Timeouts(P.Sweep(ws[next..], left0, connected, now).2)
      {
        SweepFrom(ws, next - 1, left0, connected, now);
        TimeoutsSnoc(P.Sweep(ws[next..], left0, connected, now).2, ws[next - 1].id);
        next := next - 1;
        temp := PubTurn(next, temp, now, ws, left0);
      }
      if temp != -1 {
        Unlinked(ws, 0, P.Sweep(ws[0..], left0, connected, now).0);
        pubs := pubs[..temp] + pubs[temp + 1..];
      }
      PendingDone(ws, P.Sweep(ws[0..], left0, connected, now).0);
      assert ws[0..] == ws;
    }

    // ---------- subscribing ----------

    method Free(p: S.Ptr)
      modifies this`heap
      ensures heap == S.Free(old(heap), p)
    {
      if p != 0 {
        if p in heap.live {
          heap := heap.(live := heap.live - {p}, freed := heap.freed + {p});
        } else {
          heap := heap.(faulty := true);
        }
      }
    }

    /** From allocating the filter on: the common end of subscribe and unsubscribe.  The filter is
        given back on each of the three ways to fail; push_sub_info_to is the length test and push. */
    method SendRequest(text: string, kind: S.Kind, handle: S.Handle, deadline: int, outcome: S.Outcome,
                       networkError: int) returns (rc: int)
      requires Valid() && networkError < 0
      modifies this`nextPacketId, this`issued, this`heap, this`subs
      ensures Valid() && issued == old(issued) + 1
      ensures SubState() ==
        S.RequestStep(old(SubState()), text, S.SubNode(S.NORMAL, issued, nextPacketId, deadline, kind, handle), outcome)
      ensures rc == if outcome == S.SERIALIZE_FAILED then networkError
        else if |old(subs)| >= S.MAX_MESSAGE_HANDLERS then ERR_MAX_SUBSCRIPTIONS
        else if outcome == S.SEND_FAILED then networkError else nextPacketId
      ensures 1 <= nextPacketId
    {
      var p := heap.next;
      heap := heap.(live := heap.live[p := text], next := p + 1);
      var id := GetNextPacketId();
      if outcome == S.SERIALIZE_FAILED {
        Free(p);
        return networkError;
      }
      if |subs| >= S.MAX_MESSAGE_HANDLERS {
        Free(p);
        return ERR_MAX_SUBSCRIPTIONS;
      }
      subs := subs + [S.SubNode(S.NORMAL, issued, id, deadline, kind, handle.(filter := p))];
      if outcome == S.SEND_FAILED {
        subs := subs[..|subs| - 1];
        Free(p);
        return networkError;
      }
      rc := id;
    }

    /** qcloud_iot_mqtt_subscribe. */
    method Subscribe(text: string, qos: nat, onMessage: nat, onEvent: nat, userData: nat, deadline: int,
                     outcome: S.Outcome, networkError: int)
      returns (rc: int)
      requires Valid() && networkError < 0
      modifies this`nextPacketId, this`issued, this`heap, this`subs
      ensures Valid()
      ensures |text| > maxTopic ==> rc == ERR_MAX_TOPIC_LENGTH
      ensures |text| <= maxTopic && qos == 2 ==> rc == ERR_QOS_NOT_SUPPORT
      ensures |text| <= maxTopic && qos != 2 && !connected ==> rc == ERR_NO_CONN
      ensures |text| > maxTopic || qos == 2 || !connected ==> SubState() == old(SubState()) && issued == old(issued)
      ensures |text| <= maxTopic && qos != 2 && connected ==> issued == old(issued) + 1
      ensures |text| <= maxTopic && qos != 2 && connected ==>
        SubState() == S.RequestStep(old(SubState()), text,
          S.SubNode(S.NORMAL, issued, nextPacketId, deadline, S.SUBSCRIBE,
                    S.Handle(0, onMessage, onEvent, qos, userData)),
          outcome)
      ensures rc >= 0 <==>
        |text| <= maxTopic && qos != 2 && connected && outcome == S.SENT && |old(subs)| < S.MAX_MESSAGE_HANDLERS
      ensures rc >= 0 ==> rc == nextPacketId
    {
      if |text| > maxTopic {
        return ERR_MAX_TOPIC_LENGTH;
      }
      if qos == 2 {
        return ERR_QOS_NOT_SUPPORT;
      }
      if !connected {
        return ERR_NO_CONN;
      }
      rc := SendRequest(text, S.SUBSCRIBE, S.Handle(0, onMessage, onEvent, qos, userData), deadline, outcome,
                        networkError);
    }

    /** _mask_sub_info_from: the node nearest the head wins. */
    method MaskSubInfo(id: nat, unset: S.Handle) returns (h: S.Handle)
      modifies this`subs
      ensures subs == S.Masked(old(subs), id) && h == S.Found(old(subs), id, unset)
    {
      h := unset;
      var i := |subs| - 1;
      ghost var ws := subs;
      while i >= 0
        invariant -1 <= i < |subs| == |ws|
        invariant h == S.Found(ws[i + 1..], id, unset)
        invariant forall j :: 0 <= j < |ws| ==>
          subs[j] == if j > i && ws[j].id == id then ws[j].(state := S.INVALID) else ws[j]
      {
        assert ws[i..][0] == ws[i] && ws[i..][1..] == ws[i + 1..];
        if subs[i].id == id {
          h := subs[i].handle;
          subs := subs[i := subs[i].(state := S.INVALID)];
        }
        i := i - 1;
      }
      assert ws[0..] == ws && subs == S.Masked(ws, id);
    }

    /** The scan of the table in _handle_suback_packet. */
    method ScanTable(h: S.Handle) returns (dup: int, free: int)
      requires handles.Length == S.MAX_MESSAGE_HANDLERS
      modifies this`heap
      ensures heap == S.Scanned(old(heap), handles[..], h)
      ensures dup == if S.Match(old(heap), handles[..], h) < 10 then S.Match(old(heap), handles[..], h) else -1
      ensures dup == -1 ==> free == if S.FirstFree(handles[..]) < 10 then S.FirstFree(handles[..]) else -1
    {
      dup, free := -1, -1;
      var i := 0;
      ghost var t, heap0 := handles[..], heap;
      var faulted := false;
      assert t[0..] == t;
      while i < S.MAX_MESSAGE_HANDLERS
        invariant 0 <= i <= S.MAX_MESSAGE_HANDLERS && dup == -1
        invariant heap == if faulted then heap0.(faulty := true) else heap0
        invariant S.Match(heap0, t, h) == i + S.Match(heap0, t[i..], h)
        invariant S.ScanFaults(heap0, t, h) <==> faulted || S.ScanFaults(heap0, t[i..], h)
        invariant if free == -1 then S.FirstFree(t) == i + S.FirstFree(t[i..]) else S.FirstFree(t) == free < 10
      {
        assert t[i..][0] == t[i] == handles[i] && t[i..][1..] == t[i + 1..];
        if handles[i].filter != 0 {
          if handles[i].filter !in heap.live || h.filter !in heap.live {
            heap := heap.(faulty := true);
            faulted := true;
          } else if S.Identical(heap, handles[i], h) {
            dup := i;
            return;
          }
        } else if free == -1 {
          free := i;
        }
        i := i + 1;
      }
    }

    /** _handle_suback_packet after parsing; nack is the return code 0x80. */
    method HandleSuback(id: nat, nack: bool) returns (rc: int)
      requires handles.Length == S.MAX_MESSAGE_HANDLERS
      modifies this`heap, this`subs, this`notices, handles
      ensures SubState() == S.SubackStep(old(SubState()), id, nack)
      ensures rc == SubackResult(old(SubState()), id, nack)
      ensures notices == old(notices) + SubackNotices(old(SubState()), id, nack)
    {
      if nack {
        notices := notices + [SubscribeNack(id)];
      }
      ghost var t := handles[..];
      var h := MaskSubInfo(id, S.NO_HANDLE);
      if h.filter == 0 {
        return ERR_SUB;
      }
      if nack {
        notices := notices + TopicNotice(h, REFUSED);
        Free(h.filter);
        return ERR_SUB;
      }
      var dup, free := ScanTable(h);
      if dup != -1 {
        if handles[dup].userData != h.userData {
          handles[dup] := handles[dup].(userData := h.userData);
        }
        Free(h.filter);
        assert handles[..] == t[dup := t[dup].(userData := h.userData)];
      } else if free == -1 {
        return ERR_FAILURE;
      } else {
        handles[free] := h;
        assert handles[..] == t[free := h];
      }
      notices := notices + [SubscribeSuccess(id)];
      notices := notices + TopicNotice(h, SUBSCRIBED);
      return RET_SUCCESS;
    }

    /** _handle_unsuback_packet; unset is the handle it declares and does not initialise. */
    method HandleUnsuback(id: nat, unset: S.Handle)
      modifies this`heap, this`subs, this`notices
      ensures SubState() == S.UnsubackStep(old(SubState()), id, unset)
      ensures notices == old(notices) + [UnsubscribeSuccess(id)]
    {
      var h := MaskSubInfo(id, unset);
      if h.filter != 0 {
        Free(h.filter);
      }
      notices := notices + [UnsubscribeSuccess(id)];
    }

    /** What qcloud_iot_mqtt_sub_info_proc does at one node; remove is its temp_node. */
    method InspectSub(w: S.SubNode, now: int) returns (remove: bool)
      modifies this`heap, this`notices
      ensures remove == !S.Stays(w, connected, now)
      ensures heap == if remove && w.state == S.NORMAL then S.Free(old(heap), w.handle.filter) else old(heap)
      ensures notices == old(notices) + if remove && w.state == S.NORMAL then TimeoutNotices(w) else []
    {
      if w.state == S.INVALID {
        return true;
      }
      if !connected {
        return false;
      }
      if w.deadline - now > 0 {
        return false;
      }
      if w.kind == S.SUBSCRIBE {
        notices := notices + (TopicNotice(w.handle, TIMED_OUT) + [SubscribeTimeout(w.id)]);
      } else {
        notices := notices + [UnsubscribeTimeout(w.id)];
      }
      if w.handle.filter != 0 {
        Free(w.handle.filter);
      }
      return true;
    }

    // Where the sweep of the SUBACK list is: nodes before k are to come, temp is decided but linked.
    ghost predicate SubSweeping(ws: seq<S.SubNode>, h: S.Heap, k: nat, temp: int, now: int)
      reads this
    {
      && k <= |ws| && (temp == -1 || temp == k < |ws|)
      && heap == S.Sweep(h, ws[k..], connected, now).0
      && subs == Pending(ws, k, temp != -1, S.Sweep(h, ws[k..], connected, now).1)
    }

    /** One turn of qcloud_iot_mqtt_sub_info_proc: the node of the turn before is unlinked once the
        iterator has passed it. */
    method SubTurn(node: nat, temp: int, now: int, ghost ws: seq<S.SubNode>, ghost h: S.Heap) returns (held: int)
      requires node < |ws| && SubSweeping(ws, h, node + 1, temp, now)
      modifies this`heap, this`subs, this`notices
      ensures SubSweeping(ws, h, node, held, now)
      ensures notices ==
        old(notices) +
        if ws[node].state == S.NORMAL && !S.Stays(ws[node], connected, now) then TimeoutNotices(ws[node]) else []
    {
      hide S.Stays, TimeoutNotices, S.Sweep;
      ghost var kept := S.Sweep(h, ws[node + 1..], connected, now).1;
      if temp != -1 {
        Unlinked(ws, temp, kept);
        subs := subs[..temp] + subs[temp + 1..];
      }
      assert subs[node] == ws[node];
      SubSweepFrom(ws, node, h, connected, now);
      PendingNext(ws, node, kept);
      var remove := InspectSub(subs[node], now);
      held := if remove then node else -1;
    }

    /** qcloud_iot_mqtt_sub_info_proc. */
    method SubInfoProc(now: int)
      modifies this`heap, this`subs, this`notices
      ensures SubState() == S.SweepStep(old(SubState()), connected, now)
      ensures notices == old(notices) + SweepNotices(old(subs), connected, now)
    {
      hide S.Stays, TimeoutNotices, S.Sweep, SweepNotices;
      var next, temp := |subs|, -1;
      ghost var ws, h := subs, heap;
      SubSweepNone(ws, heap, connected, now);
      PendingAll(ws);
      while next > 0
        invariant 0 <= next <= |ws| && SubSweeping(ws, h, next, temp, now)
        invariant notices == old(notices) + SweepNotices(ws[next..], connected, now)
      {
        SubSweepFrom(ws, next - 1, h, connected, now);
        next := next - 1;
        temp := SubTurn(next, temp, now, ws, h);
      }
      if temp != -1 {
        Unlinked(ws, 0, S.Sweep(h, ws[0..], connected, now).1);
        subs := subs[..temp] + subs[temp + 1..];
      }
      assert ws[0..] == ws;
    }

    // ---------- unsubscribing ----------

    /** The loop of qcloud_iot_mqtt_unsubscribe: one slot.  A slot is compared only while it holds a
        filter, but a wildcard in the topic releases free slots as well. */
    method ReleaseSlot(i: nat, text: string, wild: bool) returns (released: bool)
      requires i < handles.Length
      modifies this`heap, this`notices, handles
      ensures var p := old(handles[i]).filter;
        released == (wild || (p != 0 && p in old(heap).live && old(heap).live[p] == text))
      ensures heap == ReleasedHeap(old(heap), old(handles[i]).filter, released)
      ensures handles[..] == if released then old(handles[..])[i := old(handles[i]).(filter := 0)] else old(handles[..])
      ensures notices == old(notices) + if released then TopicNotice(old(handles[i]), UNSUBSCRIBED) else []
    {
      var p := handles[i].filter;
      released := wild;
      if p != 0 {
        if p in heap.live {
          released := released || heap.live[p] == text;
        } else {
          heap := heap.(faulty := true);
        }
      }
      if released {
        notices := notices + TopicNotice(handles[i], UNSUBSCRIBED);
        Free(p);
        handles[i] := handles[i].(filter := 0);
      }
    }

    method ReleaseSlots(text: string, wild: bool) returns (found: bool)
      requires handles.Length == S.MAX_MESSAGE_HANDLERS
      modifies this`heap, this`notices, handles
      ensures SubState() == S.ReleaseStep(old(SubState()), text, wild)
      ensures found <==> AnyReleased(old(heap), old(handles[..]), text, wild, S.MAX_MESSAGE_HANDLERS)
      ensures notices == old(notices) + ReleaseNotices(old(heap), old(handles[..]), text, wild, S.MAX_MESSAGE_HANDLERS)
    {
      found := false;
      ghost var h0, t0, n0 := heap, handles[..], notices;
      for i := 0 to S.MAX_MESSAGE_HANDLERS
        invariant (heap, handles[..]) == S.Release(h0, t0, text, wild, i)
        invariant found <==> AnyReleased(h0, t0, text, wild, i)
        invariant notices == n0 + ReleaseNotices(h0, t0, text, wild, i)
      {
        assert handles[..][i..][0] == t0[i..][0];
        assert handles[i] == t0[i];
        var released := ReleaseSlot(i, text, wild);
        if released {
          found := true;
        }
      }
    }

    /** qcloud_iot_mqtt_unsubscribe: the table is released first, whatever becomes of the request. */
    method Unsubscribe(text: string, deadline: int, outcome: S.Outcome, networkError: int) returns (rc: int)
      requires Valid() && networkError < 0
      modifies this`nextPacketId, this`issued, this`heap, this`subs, this`notices, handles
      ensures Valid()
      ensures |text| > maxTopic ==>
        rc == ERR_MAX_TOPIC_LENGTH && SubState() == old(SubState()) && notices == old(notices)
      ensures |text| <= maxTopic && !Releases(old(SubState()), text) ==>
        rc == ERR_UNSUB_FAIL && SubState() == S.ReleaseStep(old(SubState()), text, HasWildLevel(text))
      ensures |text| <= maxTopic && Releases(old(SubState()), text) && !connected ==>
        rc == ERR_NO_CONN && SubState() == S.ReleaseStep(old(SubState()), text, HasWildLevel(text))
      ensures |text| <= maxTopic && Releases(old(SubState()), text) && connected ==>
        && issued == old(issued) + 1
        && SubState() == S.RequestStep(S.ReleaseStep(old(SubState()), text, HasWildLevel(text)), text,
          S.SubNode(S.NORMAL, issued, nextPacketId, deadline, S.UNSUBSCRIBE, S.NO_HANDLE), outcome)
      ensures |text| <= maxTopic ==>
        notices ==
          old(notices) + ReleaseNotices(old(heap), old(handles[..]), text, HasWildLevel(text), S.MAX_MESSAGE_HANDLERS)
    {
      if |text| > maxTopic {
        return ERR_MAX_TOPIC_LENGTH;
      }
      var suberExists := ReleaseSlots(text, HasWildLevel(text));
      if !suberExists {
        return ERR_UNSUB_FAIL;
      }
      if !connected {
        return ERR_NO_CONN;
      }
      rc := SendRequest(text, S.UNSUBSCRIBE, S.NO_HANDLE, deadline, outcome, networkError);
    }

    /** One turn of qcloud_iot_mqtt_resubscribe, for a slot in use. */
    method ResubscribeSlot(itr: nat, deadline: int, outcome: S.Outcome, networkError: int, ghost ab: set<S.Ptr>,
                           ghost n: nat, ghost since: nat)
      returns (rc: int)
      requires Valid() && networkError < 0 && itr < handles.Length && handles[itr].filter != 0
      requires S.Good(SubState(), ab) && S.Numbered(Session()) && S.Renewed(SubState(), n, itr)
      requires S.Newer(subs, n, since) && since <= issued
      modifies this`nextPacketId, this`issued, this`heap, this`subs
      ensures Valid() && S.Good(SubState(), ab) && S.Renewed(SubState(), n, itr) && subs[..n] == old(subs[..n])
      ensures S.Numbered(Session()) && S.Newer(subs, n, since) && old(issued) <= issued <= old(issued) + 1
      ensures rc >= 0 ==> S.Renewed(SubState(), n, itr + 1)
    {
      hide S.TableDistinct, S.Linked, S.NodesDistinct, S.Covered, S.Numbered, S.Newer;
      ghost var s, session := SubState(), Session();
      S.OwnerFacts(s, ab);
      var slot := handles[itr];
      assert s.table[itr] == slot;
      var text := heap.live[slot.filter];
      rc := Subscribe(text, slot.qos, slot.onMessage, slot.onEvent, slot.userData, deadline, outcome, networkError);
      if |text| <= maxTopic && slot.qos != 2 && connected {
        ghost var h := S.Handle(0, slot.onMessage, slot.onEvent, slot.qos, slot.userData);
        ghost var node := S.SubNode(S.NORMAL, issued, nextPacketId, deadline, S.SUBSCRIBE, h);
        ghost var r := SubState();
        assert r == S.RequestStep(s, text, node, outcome);
        S.RenewOne(s, ab, n, itr, node, outcome, r);
        S.AskNumbered(session, text, S.SUBSCRIBE, deadline, h, outcome);
        S.AskNewer(session, text, S.SUBSCRIBE, deadline, h, outcome, n, since);
        assert Session() == S.Ask(session, text, S.SUBSCRIBE, deadline, h, outcome);
      }
    }

    // The slots, and with them the requests they may make.
    method ResubscribeAll(deadline: int, outcomes: seq<S.Outcome>, networkError: int, ghost ab: set<S.Ptr>)
      returns (rc: int)
      requires Valid() && networkError < 0 && |outcomes| == S.MAX_MESSAGE_HANDLERS
      requires S.Good(SubState(), ab) && S.Numbered(Session())
      modifies this`nextPacketId, this`issued, this`heap, this`subs
      ensures Valid() && S.Good(SubState(), ab) && S.Numbered(Session())
      ensures S.Renewed(SubState(), |old(subs)|, if rc == RET_SUCCESS then S.MAX_MESSAGE_HANDLERS else 0)
      ensures old(subs) <= subs && S.Newer(subs, |old(subs)|, old(issued))
      ensures old(issued) <= issued <= old(issued) + S.MAX_MESSAGE_HANDLERS
    {
      hide S.Good, S.Covered, S.RequestStep, S.Numbered;
      ghost var n := |subs|;
      var itr := 0;
      while itr < S.MAX_MESSAGE_HANDLERS
        invariant 0 <= itr <= S.MAX_MESSAGE_HANDLERS && Valid() && S.Good(SubState(), ab) && S.Numbered(Session())
        invariant S.Renewed(SubState(), n, itr) && subs[..n] == old(subs)
        invariant S.Newer(subs, n, old(issued)) && old(issued) <= issued <= old(issued) + itr
      {
        if handles[itr].filter != 0 {
          rc := ResubscribeSlot(itr, deadline, outcomes[itr], networkError, ab, n, old(issued));
          if rc < 0 {
            return;
          }
        }
        itr := itr + 1;
      }
      return RET_SUCCESS;
    }

    /** qcloud_iot_mqtt_resubscribe after a reconnect: each request it queues asks for what the table
        already holds, and a call that succeeds asks for all of it.  While the oldest waiting request
        is not within ten ids of coming round, the requests wait under ids of their own, so whichever
        of them the broker accepts, in whichever order, the table stays as it is. */
    method Resubscribe(deadline: int, outcomes: seq<S.Outcome>, networkError: int, ghost ab: set<S.Ptr>)
      returns (rc: int)
      requires Valid() && networkError < 0 && |outcomes| == S.MAX_MESSAGE_HANDLERS
      requires S.Good(SubState(), ab) && S.Numbered(Session())
      modifies this`nextPacketId, this`issued, this`heap, this`subs
      ensures Valid() && S.Good(SubState(), ab) && S.Numbered(Session())
      ensures !connected ==> rc == ERR_NO_CONN && SubState() == old(SubState())
      ensures S.Renewed(SubState(), |old(subs)|, if rc == RET_SUCCESS then S.MAX_MESSAGE_HANDLERS else 0)
      ensures old(subs) <= subs
      ensures S.Room(old(Session()), S.MAX_MESSAGE_HANDLERS) ==>
        && S.IdsDistinct(subs)
        && forall ids :: S.Answers(SubState(), |old(subs)|, ids) ==>
             S.AckAll(SubState(), ids).table == handles[..] && S.Good(S.AckAll(SubState(), ids), ab)
    {
      hide S.Good, S.Covered, S.RequestStep, S.Numbered, S.Renewed, S.Newer, S.IdsDistinct, S.Answers;
      ghost var n, session := |subs|, Session();
      if connected {
        rc := ResubscribeAll(deadline, outcomes, networkError, ab);
      } else {
        rc := ERR_NO_CONN;
        S.NoneRenewed(SubState(), n, issued);
      }
      if S.Room(session, S.MAX_MESSAGE_HANDLERS) {
        S.RoomKept(session, Session(), S.MAX_MESSAGE_HANDLERS);
        S.RoomDistinct(Session());
        forall ids | S.Answers(SubState(), n, ids)
          ensures S.AckAll(SubState(), ids).table == handles[..] && S.Good(S.AckAll(SubState(), ids), ab)
        {
          S.RenewedKeepsTable(SubState(), ab, n, if rc == RET_SUCCESS then S.MAX_MESSAGE_HANDLERS else 0, ids);
        }
      }
    }
  }

  // strstr of "/#" or "/+".
  predicate HasWildLevel(text: string) {
    exists i :: 0 <= i < |text| - 1 && text[i] == '/' && text[i + 1] in {'#', '+'}
  }

  function ReleasedHeap(h: S.Heap, p: S.Ptr, released: bool): S.Heap {
    var g := if p != 0 && p !in h.live then h.(faulty := true) else h;
    if released then S.Free(g, p) else g
  }

  predicate AnyReleased(h: S.Heap, t: seq<S.Handle>, text: string, wild: bool, n: nat)
    requires n <= |t|
  {
    && n > 0
    && (S.Released(S.Release(h, t, text, wild, n - 1).0, t[n - 1], text, wild) || AnyReleased(h, t, text, wild, n - 1))
  }

  predicate Releases(s: S.Subs, text: string)
    requires |s.table| == S.MAX_MESSAGE_HANDLERS
  {
    AnyReleased(s.heap, s.table, text, HasWildLevel(text), S.MAX_MESSAGE_HANDLERS)
  }

  // The subscribers told of the release, in table order; a free slot keeps its old callback.
  function ReleaseNotices(h: S.Heap, t: seq<S.Handle>, text: string, wild: bool, n: nat): seq<Notice>
    requires n <= |t|
  {
    if n == 0 then [] else
      var own := if S.Released(S.Release(h, t, text, wild, n - 1).0, t[n - 1], text, wild)
        then TopicNotice(t[n - 1], UNSUBSCRIBED) else [];
      ReleaseNotices(h, t, text, wild, n - 1) + own
  }

  function SubackResult(s: S.Subs, id: nat, nack: bool): int {
    var h := S.Found(s.waits, id, S.NO_HANDLE);
    if h.filter == 0 || nack then ERR_SUB
    else if S.Match(s.heap, s.table, h) == |s.table| && S.FirstFree(s.table) == |s.table| then ERR_FAILURE
    else RET_SUCCESS
  }

  function SubackNotices(s: S.Subs, id: nat, nack: bool): seq<Notice> {
    var h := S.Found(s.waits, id, S.NO_HANDLE);
    if nack then [SubscribeNack(id)] + if h.filter == 0 then [] else TopicNotice(h, REFUSED)
    else if SubackResult(s, id, nack) == RET_SUCCESS then [SubscribeSuccess(id)] + TopicNotice(h, SUBSCRIBED)
    else []
  }

  function TimeoutNotices(w: S.SubNode): seq<Notice> {
    if w.kind == S.SUBSCRIBE then TopicNotice(w.handle, TIMED_OUT) + [SubscribeTimeout(w.id)]
    else [UnsubscribeTimeout(w.id)]
  }

  // What the sweep tells the callbacks, from the tail.
  function SweepNotices(ws: seq<S.SubNode>, connected: bool, now: int): seq<Notice> {
    if ws == [] then [] else
      var own := if ws[0].state == S.NORMAL && !S.Stays(ws[0], connected, now) then TimeoutNotices(ws[0]) else [];
      SweepNotices(ws[1..], connected, now) + own
  }

  // ---------- what the callbacks are told ----------

  function Event(callback: nat, kind: TopicKind, userData: nat): seq<Notice> {
    if callback == 0 then [] else [TopicEvent(callback, kind, userData)]
  }

  /** A refused subscription is announced as such; a granted one as a success, unless the table has no
      room for it, which is an error and is not announced. */
  lemma SubackTold(s: S.Subs, ab: set<S.Ptr>, k: nat, nack: bool)
    requires S.Good(s, ab) && S.IdsDistinct(s.waits) && k < |s.waits| && s.waits[k].state == S.NORMAL
    requires s.waits[k].handle.filter in s.heap.live
    ensures var h, id := s.waits[k].handle, s.waits[k].id;
      var room := S.Serving(s, s.heap.live[h.filter], h) || S.SlotFree(s);
      if nack then
        && SubackResult(s, id, nack) == -108
        && SubackNotices(s, id, nack) == [SubscribeNack(id)] + Event(h.onEvent, REFUSED, h.userData)
      else if room then
        && SubackResult(s, id, nack) == 0
        && SubackNotices(s, id, nack) == [SubscribeSuccess(id)] + Event(h.onEvent, SUBSCRIBED, h.userData)
      else SubackResult(s, id, nack) == -1001 && SubackNotices(s, id, nack) == []
  {
    var h := s.waits[k].handle;
    S.MaskedUnique(s.waits, s.waits[k].id, k, S.NO_HANDLE);
    S.OwnerFacts(s, ab);
    var m, f, text := S.Match(s.heap, s.table, h), S.FirstFree(s.table), s.heap.live[h.filter];
    if m < |s.table| {
      assert S.Serves(s.heap, s.table[m], text, h);
    } else {
      forall j | 0 <= j < |s.table| ensures !S.Serves(s.heap, s.table[j], text, h) {
        assert s.table[j].filter == 0 || !S.Identical(s.heap, s.table[j], h);
      }
    }
  }

  predicate OutOfTime(w: S.SubNode, connected: bool, now: int) {
    w.state == S.NORMAL && connected && w.deadline <= now
  }

  /** The sweep announces a timeout for exactly the requests that are not acknowledged and out of time on
      a live link, and to the callback of a subscription with it. */
  lemma {:induction false} SweepTold(ws: seq<S.SubNode>, connected: bool, now: int, x: Notice)
    ensures x in SweepNotices(ws, connected, now) <==>
      exists k :: 0 <= k < |ws| && OutOfTime(ws[k], connected, now)
        && if ws[k].kind == S.SUBSCRIBE
           then x in [SubscribeTimeout(ws[k].id)] + Event(ws[k].handle.onEvent, TIMED_OUT, ws[k].handle.userData)
           else x == UnsubscribeTimeout(ws[k].id)
  {
    if ws != [] {
      SweepTold(ws[1..], connected, now, x);
      forall k | 0 < k < |ws| ensures ws[k] == ws[1..][k - 1] {}
      forall k | 0 <= k < |ws[1..]| ensures ws[1..][k] == ws[k + 1] {}
    }
  }

  /** strstr: the text holds a level that begins with a wildcard, other than its first. */
  lemma WildLevel(text: string)
    ensures HasWildLevel(text) <==>
      exists a: string, b: string :: text == a + "/#" + b || text == a + "/+" + b
  {
    if HasWildLevel(text) {
      var i :| 0 <= i < |text| - 1 && text[i] == '/' && text[i + 1] in {'#', '+'};
      var a, b := text[..i], text[i + 2..];
      assert text == a + [text[i], text[i + 1]] + b;
      assert text == a + "/#" + b || text == a + "/+" + b;
    }
    if a: string, b: string :| text == a + "/#" + b || text == a + "/+" + b {
      assert text[|a|] == '/' && text[|a| + 1] in {'#', '+'};
    }
  }

  predicate Goes(s: S.Subs, k: nat, text: string, wild: bool)
    requires k < |s.table|
  {
    wild || (s.table[k].filter in s.heap.live && s.heap.live[s.table[k].filter] == text)
  }

  lemma GoesIs(s: S.Subs, ab: set<S.Ptr>, text: string, wild: bool, k: nat)
    requires S.OwnedOnce(s, ab) && k < |s.table|
    ensures var g := S.Release(s.heap, s.table, text, wild, k).0;
      S.Released(g, s.table[k], text, wild) <==> Goes(s, k, text, wild)
  {
    S.ReleaseOwners(s, ab, text, wild, k);
    S.ReleaseHeap(s.heap, s.table, text, wild, k);
    var (g, u) := S.Release(s.heap, s.table, text, wild, k);
    S.OwnerFacts(S.Subs(g, s.waits, u), ab);
    S.OwnerFacts(s, ab);
    assert u[k] == u[k..][0] == s.table[k];
    assert 0 !in s.heap.live.Keys + s.heap.freed;
  }

  lemma NoticeIs(h: S.Handle, kind: TopicKind)
    ensures TopicNotice(h, kind) == Event(h.onEvent, kind, h.userData)
  {}

  ghost predicate Told(s: S.Subs, k: nat, text: string, wild: bool)
    requires k < |s.table|
  {
    S.Released(S.Release(s.heap, s.table, text, wild, k).0, s.table[k], text, wild) == Goes(s, k, text, wild)
  }

  lemma FindsStep(s: S.Subs, text: string, wild: bool, n: nat)
    requires 0 < n <= |s.table| && Told(s, n - 1, text, wild)
    ensures AnyReleased(s.heap, s.table, text, wild, n)
         == (Goes(s, n - 1, text, wild) || AnyReleased(s.heap, s.table, text, wild, n - 1))
  {
    hide S.Released, S.Release, Goes;
  }

  lemma FindsNone(s: S.Subs, text: string, wild: bool)
    ensures !AnyReleased(s.heap, s.table, text, wild, 0)
  {}

  lemma {:induction false} FindsUpTo(s: S.Subs, text: string, wild: bool, n: nat)
    requires n <= |s.table| && forall k :: 0 <= k < n ==> Told(s, k, text, wild)
    ensures AnyReleased(s.heap, s.table, text, wild, n) <==> exists k :: 0 <= k < n && Goes(s, k, text, wild)
  {
    hide *;
    if n > 0 {
      FindsUpTo(s, text, wild, n - 1);
      FindsStep(s, text, wild, n);
    } else {
      FindsNone(s, text, wild);
    }
  }

  lemma {:induction false} ToldUpTo(s: S.Subs, text: string, wild: bool, n: nat, x: Notice)
    requires n <= |s.table| && forall k :: 0 <= k < n ==> Told(s, k, text, wild)
    ensures x in ReleaseNotices(s.heap, s.table, text, wild, n) <==>
      exists k :: 0 <= k < n && Goes(s, k, text, wild)
        && x in Event(s.table[k].onEvent, UNSUBSCRIBED, s.table[k].userData)
  {
    hide S.Released, S.Release, Goes, Event;
    if n > 0 {
      ToldUpTo(s, text, wild, n - 1, x);
      assert Told(s, n - 1, text, wild);
      NoticeIs(s.table[n - 1], UNSUBSCRIBED);
    }
  }

  /** Unsubscribing finds something exactly if a slot has the text or the topic holds a wildcard level,
      and tells the callbacks of exactly the slots that go, free ones included. */
  lemma ReleaseTold(s: S.Subs, ab: set<S.Ptr>, text: string, wild: bool, n: nat, x: Notice)
    requires S.OwnedOnce(s, ab) && n <= |s.table|
    ensures AnyReleased(s.heap, s.table, text, wild, n) <==> exists k :: 0 <= k < n && Goes(s, k, text, wild)
    ensures x in ReleaseNotices(s.heap, s.table, text, wild, n) <==>
      exists k :: 0 <= k < n && Goes(s, k, text, wild)
        && x in Event(s.table[k].onEvent, UNSUBSCRIBED, s.table[k].userData)
  {
    hide AnyReleased, ReleaseNotices, Goes, Event, S.Released, S.Release;
    forall k | 0 <= k < n ensures Told(s, k, text, wild) { GoesIs(s, ab, text, wild, k); }
    FindsUpTo(s, text, wild, n);
    ToldUpTo(s, text, wild, n, x);
  }

  /** The sweep of the publishes announces a timeout for exactly those that are not acknowledged and out
      of time on a live link. */
  lemma PublishTimeoutsTold(ws: seq<P.PubNode>, left: map<nat, P.Exit>, connected: bool, now: int, id: nat)
    ensures PublishTimeout(id) in Timeouts(P.Sweep(ws, left, connected, now).2) <==>
      exists k :: 0 <= k < |ws| && ws[k].id == id && ws[k].state == P.NORMAL && connected && ws[k].deadline <= now
  {
    P.SweepRaises(ws, left, connected, now, id);
    var ids := P.Sweep(ws, left, connected, now).2;
    if id in ids {
      var i :| 0 <= i < |ids| && ids[i] == id;
      assert Timeouts(ids)[i] == PublishTimeout(id);
    }
  }

  // A wait list in the middle of a sweep: the first k nodes still to come, one node decided but not
  // yet unlinked, and the nodes kept.
  function Pending<T>(ws: seq<T>, k: nat, held: bool, rest: seq<T>): seq<T>
    requires k <= |ws| && (held ==> k < |ws|)
  {
    ws[..k] + (if held then [ws[k]] else []) + rest
  }

  lemma Unlinked<T>(ws: seq<T>, k: nat, rest: seq<T>)
    requires k < |ws|
    ensures var s := Pending(ws, k, true, rest); |s| > k && s[..k] + s[k + 1..] == Pending(ws, k, false, rest)
  {}

  lemma PendingAll<T>(ws: seq<T>)
    ensures Pending(ws, |ws|, false, []) == ws
  {}

  lemma PendingDone<T>(ws: seq<T>, rest: seq<T>)
    ensures Pending(ws, 0, false, rest) == rest
  {}

  lemma PendingNext<T>(ws: seq<T>, k: nat, rest: seq<T>)
    requires k < |ws|
    ensures Pending(ws, k + 1, false, rest) == Pending(ws, k, true, rest) == Pending(ws, k, false, [ws[k]] + rest)
  {
    assert ws[..k + 1] == ws[..k] + [ws[k]];
  }

  lemma TimeoutsSnoc(ids: seq<nat>, id: nat)
    ensures Timeouts(ids + [id]) == Timeouts(ids) + [PublishTimeout(id)]
  {}

  lemma PubSweepNone(ws: seq<P.PubNode>, left: map<nat, P.Exit>, connected: bool, now: int)
    ensures P.Sweep(ws[|ws|..], left, connected, now) == ([], left, []) && Timeouts([]) == []
  {}

  lemma SubSweepNone(ws: seq<S.SubNode>, h: S.Heap, connected: bool, now: int)
    ensures S.Sweep(h, ws[|ws|..], connected, now) == (h, []) && SweepNotices(ws[|ws|..], connected, now) == []
  {}

  lemma SubSweepFrom(ws: seq<S.SubNode>, k: nat, h: S.Heap, connected: bool, now: int)
    requires k < |ws|
    ensures var (g, rest) := S.Sweep(h, ws[k + 1..], connected, now);
      var out := !S.Stays(ws[k], connected, now) && ws[k].state == S.NORMAL;
      && S.Sweep(h, ws[k..], connected, now)
         == (if out then S.Free(g, ws[k].handle.filter) else g,
          if S.Stays(ws[k], connected, now) then [ws[k]] + rest else rest)
      && SweepNotices(ws[k..], connected, now)
         == SweepNotices(ws[k + 1..], connected, now) + if out then TimeoutNotices(ws[k]) else []
  {
    assert ws[k..][0] == ws[k] && ws[k..][1..] == ws[k + 1..];
  }

  lemma SweepFrom(ws: seq<P.PubNode>, k: nat, left: map<nat, P.Exit>, connected: bool, now: int)
    requires k < |ws|
    ensures var (rest, l, raised) := P.Sweep(ws[k + 1..], left, connected, now);
      P.Sweep(ws[k..], left, connected, now) ==
        if P.Stays(ws[k], connected, now) then ([ws[k]] + rest, l, raised)
        else (rest, l[ws[k].serial := P.ExitOf(ws[k])], if ws[k].state == P.NORMAL then raised + [ws[k].id] else raised)
  {
    assert ws[k..][0] == ws[k] && ws[k..][1..] == ws[k + 1..];
  }
}
