/** Subscriptions of the MQTT client as values: the C heap the topic filters live in, the SUBACK
    and UNSUBACK wait list, and the table of handlers.  MqttClient proves its loops against these
    functions; here every topic filter is shown to have one owner. */
module MqttSubs {
  import opened MqttIds

  const MAX_MESSAGE_HANDLERS := 10

  // ---------- memory ----------

  type Ptr = nat  // 0 is NULL

  /** The allocator: strings alive, addresses freed, the next fresh address, and whether the
      program has freed or read an address that was not alive. */
  datatype Heap = Heap(live: map<Ptr, string>, freed: set<Ptr>, next: Ptr, faulty: bool)

  ghost predicate HeapOk(h: Heap) {
    && !h.faulty && h.next > 0 && h.live.Keys !! h.freed
    && (forall p :: p in h.live.Keys + h.freed <==> 0 < p < h.next)
  }

  function Malloc(h: Heap, text: string): Heap {
    h.(live := h.live[h.next := text], next := h.next + 1)
  }

  function Free(h: Heap, p: Ptr): Heap {
    if p == 0 then h
    else if p in h.live then h.(live := h.live - {p}, freed := h.freed + {p})
    else h.(faulty := true)
  }

  // ---------- entities ----------

  datatype NodeState = NORMAL | INVALID
  datatype Kind = SUBSCRIBE | UNSUBSCRIBE

  /** SubTopicHandle; callbacks are numbers, 0 for NULL. */
  datatype Handle = Handle(filter: Ptr, onMessage: nat, onEvent: nat, qos: nat, userData: nat)
  const NO_HANDLE := Handle(0, 0, 0, 0, 0)

  /** QcloudIotSubInfo without its copy of the packet; issue is how many packet ids had been handed
      out when this one was. */
  datatype SubNode = SubNode(state: NodeState, issue: nat, id: nat, deadline: int, kind: Kind, handle: Handle)

  datatype Subs = Subs(heap: Heap, waits: seq<SubNode>, table: seq<Handle>)

  // ---------- who owns a string ----------

  // How many NORMAL wait nodes, table slots and dropped strings an address has.
  function NodeCount(ws: seq<SubNode>, p: Ptr): nat {
    if ws == [] then 0 else (if ws[0].state == NORMAL && ws[0].handle.filter == p then 1 else 0) + NodeCount(ws[1..], p)
  }

  function SlotCount(t: seq<Handle>, p: Ptr): nat {
    if t == [] then 0 else (if t[0].filter == p != 0 then 1 else 0) + SlotCount(t[1..], p)
  }

  function Owners(s: Subs, abandoned: set<Ptr>, p: Ptr): nat {
    NodeCount(s.waits, p) + SlotCount(s.table, p) + if p in abandoned then 1 else 0
  }

  /** Every string alive is in exactly one place: a NORMAL wait node, a table slot, or the strings
      dropped because the table was full; nothing else is in any of them. */
  ghost predicate OwnedOnce(s: Subs, abandoned: set<Ptr>) {
    HeapOk(s.heap) && forall p :: Owners(s, abandoned, p) == if p in s.heap.live then 1 else 0
  }

  predicate SameHandlers(a: Handle, b: Handle) { a.onMessage == b.onMessage && a.onEvent == b.onEvent }

  /** _check_handle_is_identical, for strings that are alive. */
  predicate Identical(h: Heap, a: Handle, b: Handle) {
    a.filter in h.live && b.filter in h.live && h.live[a.filter] == h.live[b.filter] && SameHandlers(a, b)
  }

  ghost predicate NodesDistinct(h: Heap, ws: seq<SubNode>) {
    && (forall i :: 0 <= i < |ws| ==> 0 < ws[i].handle.filter < h.next)
    && (forall i, j :: 0 <= i < j < |ws| ==> ws[i].handle.filter != ws[j].handle.filter)
  }

  /** A slot that holds a wait node's string got it from that node's acknowledgement. */
  ghost predicate Linked(s: Subs) {
    forall i, j :: 0 <= i < |s.waits| && 0 <= j < |s.table| && s.table[j].filter == s.waits[i].handle.filter
      ==> SameHandlers(s.table[j], s.waits[i].handle)
  }

  ghost predicate TableDistinct(s: Subs) {
    forall i, j :: 0 <= i < j < |s.table| ==> !Identical(s.heap, s.table[i], s.table[j])
  }

  ghost predicate Good(s: Subs, abandoned: set<Ptr>) {
    && OwnedOnce(s, abandoned) && NodesDistinct(s.heap, s.waits) && Linked(s) && TableDistinct(s)
    && |s.waits| <= MAX_MESSAGE_HANDLERS && |s.table| == MAX_MESSAGE_HANDLERS
  }

  ghost predicate IdsDistinct(ws: seq<SubNode>) {
    forall i, j :: 0 <= i < j < |ws| ==> ws[i].id != ws[j].id
  }

  // ---------- acknowledgements ----------

  /** _mask_sub_info_from: every node with the id is marked... */
  function Masked(ws: seq<SubNode>, id: nat): (r: seq<SubNode>)
    ensures |r| == |ws|
  {
    seq(|ws|, i requires 0 <= i < |ws| => if ws[i].id == id then ws[i].(state := INVALID) else ws[i])
  }

  /** ...and the handle of the one nearest the head is returned, whatever its state. */
  function Found(ws: seq<SubNode>, id: nat, unset: Handle): Handle {
    if ws == [] then unset else if ws[0].id == id then ws[0].handle else Found(ws[1..], id, unset)
  }

  /** The first live slot identical to h, or |t|. */
  function Match(heap: Heap, t: seq<Handle>, h: Handle): (k: nat)
    ensures k <= |t|
    ensures k < |t| ==> t[k].filter != 0 && Identical(heap, t[k], h)
    ensures forall i :: 0 <= i < k ==> t[i].filter == 0 || !Identical(heap, t[i], h)
  {
    if t == [] then 0
    else if t[0].filter != 0 && Identical(heap, t[0], h) then 0 else Match(heap, t[1..], h) + 1
  }

  function FirstFree(t: seq<Handle>): (k: nat)
    ensures k <= |t|
    ensures k < |t| ==> t[k].filter == 0
    ensures forall i :: 0 <= i < k ==> t[i].filter != 0
  {
    if t == [] || t[0].filter == 0 then 0 else FirstFree(t[1..]) + 1
  }

  /** Whether the scan of the table reads a string that is not alive. */
  predicate ScanFaults(heap: Heap, t: seq<Handle>, h: Handle) {
    t != [] &&
    if t[0].filter == 0 then ScanFaults(heap, t[1..], h)
    else
      || t[0].filter !in heap.live || h.filter !in heap.live
      || (!Identical(heap, t[0], h) && ScanFaults(heap, t[1..], h))
  }

  function Scanned(heap: Heap, t: seq<Handle>, h: Handle): Heap {
    if ScanFaults(heap, t, h) then heap.(faulty := true) else heap
  }

  function SubackStep(s: Subs, id: nat, nack: bool): Subs {
    var h, ws := Found(s.waits, id, NO_HANDLE), Masked(s.waits, id);
    if h.filter == 0 then Subs(s.heap, ws, s.table)
    else if nack then Subs(Free(s.heap, h.filter), ws, s.table)
    else
      var heap, m, f := Scanned(s.heap, s.table, h), Match(s.heap, s.table, h), FirstFree(s.table);
      if m < |s.table| then Subs(Free(heap, h.filter), ws, s.table[m := s.table[m].(userData := h.userData)])
      else if f == |s.table| then Subs(heap, ws, s.table)
      else Subs(heap, ws, s.table[f := h])
  }

  /** The strings dropped after a SUBACK: the filter of the node, if the table had no room. */
  ghost function AbandonedAfter(s: Subs, abandoned: set<Ptr>, id: nat, nack: bool): set<Ptr> {
    var h := Found(s.waits, id, NO_HANDLE);
    if h.filter == 0 then abandoned
    else if !nack && Match(s.heap, s.table, h) == |s.table| && FirstFree(s.table) == |s.table| then
      abandoned + {h.filter}
    else abandoned - {h.filter}
  }

  /** What UNSUBACK frees: unset is the variable the C code leaves uninitialised when the id is
      not pending. */
  function UnsubackStep(s: Subs, id: nat, unset: Handle): Subs {
    Subs(Free(s.heap, Found(s.waits, id, unset).filter), Masked(s.waits, id), s.table)
  }

  /** The acknowledgement is of a node that still waits, or of none, or of a dropped string. */
  ghost predicate Clean(s: Subs, abandoned: set<Ptr>, id: nat, unset: Handle) {
    if exists k :: 0 <= k < |s.waits| && s.waits[k].id == id then
      forall k :: 0 <= k < |s.waits| && s.waits[k].id == id ==>
        s.waits[k].state == NORMAL || s.waits[k].handle.filter in abandoned
    else unset.filter == 0 || unset.filter in abandoned
  }

  // ---------- lemmas about owners ----------

  lemma {:induction false} FoundAt(ws: seq<SubNode>, id: nat, unset: Handle)
    ensures (forall k :: 0 <= k < |ws| ==> ws[k].id != id) ==> Found(ws, id, unset) == unset
    ensures (exists k :: 0 <= k < |ws| && ws[k].id == id) ==>
      exists k :: 0 <= k < |ws| && ws[k].id == id && Found(ws, id, unset) == ws[k].handle
  {
    if ws != [] && ws[0].id != id {
      FoundAt(ws[1..], id, unset);
      if k :| 0 <= k < |ws[1..]| && ws[1..][k].id == id && Found(ws, id, unset) == ws[1..][k].handle {
        assert ws[k + 1] == ws[1..][k];
      } else {
        forall k | 0 <= k < |ws| ensures ws[k].id != id { assert k > 0 ==> ws[k] == ws[1..][k - 1]; }
      }
    }
  }

  function One(b: bool): nat { if b then 1 else 0 }

  lemma {:induction false} NodeUpdate(ws: seq<SubNode>, k: nat, w: SubNode, p: Ptr)
    requires k < |ws|
    ensures NodeCount(ws[k := w], p) + One(ws[k].state == NORMAL && ws[k].handle.filter == p)
         == NodeCount(ws, p) + One(w.state == NORMAL && w.handle.filter == p)
  {
    var v := ws[k := w];
    if k == 0 {
      assert v[1..] == ws[1..];
    } else {
      NodeUpdate(ws[1..], k - 1, w, p);
      assert v[1..] == ws[1..][k - 1 := w];
    }
  }

  lemma {:induction false} SlotUpdate(t: seq<Handle>, k: nat, h: Handle, p: Ptr)
    requires k < |t|
    ensures SlotCount(t[k := h], p) + One(t[k].filter == p != 0) == SlotCount(t, p) + One(h.filter == p != 0)
  {
    var v := t[k := h];
    if k == 0 {
      assert v[1..] == t[1..];
    } else {
      SlotUpdate(t[1..], k - 1, h, p);
      assert v[1..] == t[1..][k - 1 := h];
    }
  }

  lemma {:induction false} SlotIn(t: seq<Handle>, k: nat)
    requires k < |t| && t[k].filter != 0
    ensures SlotCount(t, t[k].filter) > 0
  {
    if k > 0 {
      SlotIn(t[1..], k - 1);
    }
  }

  lemma {:induction false} InSlot(t: seq<Handle>, p: Ptr)
    requires SlotCount(t, p) > 0
    ensures exists k :: 0 <= k < |t| && t[k].filter == p != 0
  {
    if t[0].filter != p || p == 0 {
      InSlot(t[1..], p);
      var k :| 0 <= k < |t[1..]| && t[1..][k].filter == p != 0;
      assert t[k + 1].filter == p;
    }
  }

  lemma {:induction false} NodeIn(ws: seq<SubNode>, k: nat)
    requires k < |ws| && ws[k].state == NORMAL
    ensures NodeCount(ws, ws[k].handle.filter) > 0
  {
    if k > 0 {
      NodeIn(ws[1..], k - 1);
    }
  }

  lemma {:induction false} InNode(ws: seq<SubNode>, p: Ptr)
    requires NodeCount(ws, p) > 0
    ensures exists k :: 0 <= k < |ws| && ws[k].state == NORMAL && ws[k].handle.filter == p
  {
    if ws[0].state != NORMAL || ws[0].handle.filter != p {
      InNode(ws[1..], p);
      var k :| 0 <= k < |ws[1..]| && ws[1..][k].state == NORMAL && ws[1..][k].handle.filter == p;
      assert ws[k + 1].handle.filter == p;
    }
  }

  lemma MaskedUnique(ws: seq<SubNode>, id: nat, k: nat, unset: Handle)
    requires IdsDistinct(ws) && k < |ws| && ws[k].id == id
    ensures Masked(ws, id) == ws[k := ws[k].(state := INVALID)] && Found(ws, id, unset) == ws[k].handle
    ensures forall p ::
      NodeCount(Masked(ws, id), p) + One(ws[k].state == NORMAL && ws[k].handle.filter == p) == NodeCount(ws, p)
  {
    FoundAt(ws, id, unset);
    assert Masked(ws, id) == ws[k := ws[k].(state := INVALID)];
    forall p
      ensures NodeCount(Masked(ws, id), p) + One(ws[k].state == NORMAL && ws[k].handle.filter == p) == NodeCount(ws, p)
    {
      NodeUpdate(ws, k, ws[k].(state := INVALID), p);
    }
  }

  lemma MaskedNone(ws: seq<SubNode>, id: nat)
    requires forall k :: 0 <= k < |ws| ==> ws[k].id != id
    ensures Masked(ws, id) == ws
  {}

  lemma {:induction false} NoFault(heap: Heap, t: seq<Handle>, h: Handle)
    requires h.filter in heap.live && forall k :: 0 <= k < |t| && t[k].filter != 0 ==> t[k].filter in heap.live
    ensures !ScanFaults(heap, t, h)
  {
    if t != [] {
      NoFault(heap, t[1..], h);
    }
  }

  lemma {:induction false} DanglingFaults(heap: Heap, t: seq<Handle>, h: Handle)
    requires h.filter !in heap.live && FirstFree(t) == |t| > 0
    ensures ScanFaults(heap, t, h)
  {}

  // What OwnedOnce says of the table and of the dropped strings.
  lemma OwnerFacts(s: Subs, ab: set<Ptr>)
    requires OwnedOnce(s, ab)
    ensures forall k :: 0 <= k < |s.table| && s.table[k].filter != 0 ==> s.table[k].filter in s.heap.live
    ensures forall p :: p in ab ==> p in s.heap.live
  {
    forall k | 0 <= k < |s.table| && s.table[k].filter != 0 ensures s.table[k].filter in s.heap.live {
      SlotIn(s.table, k);
      assert Owners(s, ab, s.table[k].filter) > 0;
    }
    forall p | p in ab ensures p in s.heap.live {
      assert Owners(s, ab, p) > 0;
    }
  }

  lemma FreedOk(h: Heap, p: Ptr)
    requires HeapOk(h) && p in h.live
    ensures HeapOk(Free(h, p))
  {
    var g := Free(h, p);
    forall q ensures q in g.live.Keys + g.freed <==> 0 < q < h.next {
      assert q in h.live.Keys + h.freed <==> 0 < q < h.next;
      assert p in h.live.Keys + h.freed;
    }
  }

  // ---------- SUBACK ----------

  lemma SubackOwners(s: Subs, ab: set<Ptr>, id: nat, nack: bool, k: nat)
    requires Good(s, ab) && IdsDistinct(s.waits) && k < |s.waits| && s.waits[k].id == id
    requires s.waits[k].state == NORMAL || s.waits[k].handle.filter in ab
    ensures OwnedOnce(SubackStep(s, id, nack), AbandonedAfter(s, ab, id, nack))
  {
    var h, f := s.waits[k].handle, s.waits[k].handle.filter;
    var r, ab' := SubackStep(s, id, nack), AbandonedAfter(s, ab, id, nack);
    MaskedUnique(s.waits, id, k, NO_HANDLE);
    OwnerFacts(s, ab);
    NodeOwned(s, ab, k);
    NoFault(s.heap, s.table, h);
    FreedOk(s.heap, f);
    var m, e := Match(s.heap, s.table, h), FirstFree(s.table);
    forall p ensures Owners(r, ab', p) == if p in r.heap.live then 1 else 0 {
      assert Owners(s, ab, p) == if p in s.heap.live then 1 else 0;
      if !nack && m < |s.table| {
        SlotUpdate(s.table, m, s.table[m].(userData := h.userData), p);
      } else if !nack && e < |s.table| {
        SlotUpdate(s.table, e, h, p);
      }
    }
  }

  lemma NodeOwned(s: Subs, ab: set<Ptr>, k: nat)
    requires OwnedOnce(s, ab) && k < |s.waits| && (s.waits[k].state == NORMAL || s.waits[k].handle.filter in ab)
    ensures s.waits[k].handle.filter in s.heap.live
  {
    if s.waits[k].state == NORMAL {
      NodeIn(s.waits, k);
    }
    assert Owners(s, ab, s.waits[k].handle.filter) > 0;
  }

  ghost predicate PairsDiffer(h: Heap, t: seq<Handle>) {
    forall i, j :: 0 <= i < j < |t| ==> !Identical(h, t[i], t[j])
  }

  lemma StoreDiffers(heap: Heap, t: seq<Handle>, e: nat, h: Handle)
    requires PairsDiffer(heap, t) && e < |t| && 0 !in heap.live
    requires forall i :: 0 <= i < |t| ==> t[i].filter == 0 || !Identical(heap, t[i], h)
    ensures PairsDiffer(heap, t[e := h])
  {
    var r := t[e := h];
    forall i, j | 0 <= i < j < |r| ensures !Identical(heap, r[i], r[j]) {
      if i == e {
        assert t[j].filter == 0 || !Identical(heap, t[j], h);
      } else if j == e {
        assert t[i].filter == 0 || !Identical(heap, t[i], h);
      } else {
        assert !Identical(heap, t[i], t[j]);
      }
    }
  }

  // Fewer strings, or different user data, make no two slots alike.
  lemma SameSlotsDiffer(heap: Heap, g: Heap, t: seq<Handle>, r: seq<Handle>)
    requires PairsDiffer(heap, t) && |r| == |t|
    requires forall i :: 0 <= i < |t| ==> r[i].filter == t[i].filter && SameHandlers(r[i], t[i])
    requires forall p :: p in g.live ==> p in heap.live && g.live[p] == heap.live[p]
    ensures PairsDiffer(g, r)
  {
    forall i, j | 0 <= i < j < |r| ensures !Identical(g, r[i], r[j]) {
      assert !Identical(heap, t[i], t[j]);
    }
  }

  lemma SubackTable(s: Subs, ab: set<Ptr>, id: nat, nack: bool, k: nat)
    requires Good(s, ab) && IdsDistinct(s.waits) && k < |s.waits| && s.waits[k].id == id
    requires s.waits[k].state == NORMAL || s.waits[k].handle.filter in ab
    ensures TableDistinct(SubackStep(s, id, nack))
  {
    var h := s.waits[k].handle;
    var r := SubackStep(s, id, nack);
    MaskedUnique(s.waits, id, k, NO_HANDLE);
    OwnerFacts(s, ab);
    NodeOwned(s, ab, k);
    NoFault(s.heap, s.table, h);
    assert PairsDiffer(s.heap, s.table);
    var m, e := Match(s.heap, s.table, h), FirstFree(s.table);
    if !nack && m == |s.table| && e < |s.table| {
      assert 0 !in s.heap.live.Keys + s.heap.freed;
      StoreDiffers(s.heap, s.table, e, h);
    } else {
      SameSlotsDiffer(s.heap, r.heap, s.table, r.table);
    }
    assert PairsDiffer(r.heap, r.table);
  }

  lemma SubackLinks(s: Subs, ab: set<Ptr>, id: nat, nack: bool, k: nat)
    requires Good(s, ab) && IdsDistinct(s.waits) && k < |s.waits| && s.waits[k].id == id
    ensures Linked(SubackStep(s, id, nack))
    ensures NodesDistinct(SubackStep(s, id, nack).heap, SubackStep(s, id, nack).waits)
  {
    var r := SubackStep(s, id, nack);
    MaskedUnique(s.waits, id, k, NO_HANDLE);
    forall i, j | 0 <= i < |r.waits| && 0 <= j < |r.table| && r.table[j].filter == r.waits[i].handle.filter
      ensures SameHandlers(r.table[j], r.waits[i].handle)
    {
      assert r.waits[i].handle == s.waits[i].handle;
      if r.table[j].filter == s.table[j].filter {
        assert SameHandlers(s.table[j], s.waits[i].handle);
      } else {
        assert r.table[j] == s.waits[k].handle;
      }
    }
  }

  /** An acknowledgement of a dangling or doubly owned string leaves a string with no owner or with
      two, or reads freed memory. */
  lemma SubackBreaks(s: Subs, ab: set<Ptr>, id: nat, nack: bool, k: nat)
    requires Good(s, ab) && IdsDistinct(s.waits) && k < |s.waits| && s.waits[k].id == id
    requires s.waits[k].state == INVALID && s.waits[k].handle.filter !in ab
    ensures !OwnedOnce(SubackStep(s, id, nack), AbandonedAfter(s, ab, id, nack))
  {
    var h, f := s.waits[k].handle, s.waits[k].handle.filter;
    var r, ab' := SubackStep(s, id, nack), AbandonedAfter(s, ab, id, nack);
    MaskedUnique(s.waits, id, k, NO_HANDLE);
    OwnerFacts(s, ab);
    var m, e := Match(s.heap, s.table, h), FirstFree(s.table);
    if f in s.heap.live {
      NotANode(s, k);
      assert Owners(s, ab, f) == 1;
      InSlot(s.table, f);
      var j :| 0 <= j < |s.table| && s.table[j].filter == f != 0;
      assert Identical(s.heap, s.table[j], h);
      assert m < |s.table|;
      if !nack { SlotUpdate(s.table, m, s.table[m].(userData := h.userData), f); }
      assert Owners(r, ab', f) > 0 && f !in r.heap.live;
    } else if nack {
    } else if e < |s.table| {
      assert m == |s.table|;
      SlotUpdate(s.table, e, h, f);
      assert Owners(r, ab', f) > 0 && f !in r.heap.live;
    } else {
      DanglingFaults(s.heap, s.table, h);
    }
  }

  lemma NotANode(s: Subs, k: nat)
    requires NodesDistinct(s.heap, s.waits) && k < |s.waits| && s.waits[k].state == INVALID
    ensures NodeCount(s.waits, s.waits[k].handle.filter) == 0
  {
    if NodeCount(s.waits, s.waits[k].handle.filter) > 0 {
      InNode(s.waits, s.waits[k].handle.filter);
    }
  }

  /** SUBACK keeps every string in one place exactly when it acknowledges a node that still waits,
      an id that is not pending, or a string that nothing owns. */
  lemma SubackOwnership(s: Subs, ab: set<Ptr>, id: nat, nack: bool)
    requires Good(s, ab) && IdsDistinct(s.waits)
    ensures OwnedOnce(SubackStep(s, id, nack), AbandonedAfter(s, ab, id, nack)) <==> Clean(s, ab, id, NO_HANDLE)
    ensures Clean(s, ab, id, NO_HANDLE) ==> Good(SubackStep(s, id, nack), AbandonedAfter(s, ab, id, nack))
  {
    if k :| 0 <= k < |s.waits| && s.waits[k].id == id {
      MaskedUnique(s.waits, id, k, NO_HANDLE);
      if s.waits[k].state == NORMAL || s.waits[k].handle.filter in ab {
        SubackOwners(s, ab, id, nack, k);
        SubackTable(s, ab, id, nack, k);
        SubackLinks(s, ab, id, nack, k);
      } else {
        SubackBreaks(s, ab, id, nack, k);
      }
    } else {
      FoundAt(s.waits, id, NO_HANDLE);
      MaskedNone(s.waits, id);
    }
  }

  /** A live slot for this text and these callbacks. */
  predicate Serves(heap: Heap, slot: Handle, text: string, h: Handle) {
    && slot.filter != 0 && slot.filter in heap.live && heap.live[slot.filter] == text
    && slot.onMessage == h.onMessage && slot.onEvent == h.onEvent
  }

  predicate Serving(s: Subs, text: string, h: Handle) {
    exists j :: 0 <= j < |s.table| && Serves(s.heap, s.table[j], text, h)
  }

  predicate SlotFree(s: Subs) { exists j :: 0 <= j < |s.table| && s.table[j].filter == 0 }

  /** What a SUBACK does for a request that waits.  A refusal frees its string.  A grant refreshes the
      user data of the slot that already serves the text and the callbacks, and frees the string; or puts
      the request's handle into the first free slot; or, with a full table, does nothing.  In any case
      the request counts as acknowledged, and no other request and no other slot changes. */
  lemma SubackSubscribes(s: Subs, ab: set<Ptr>, k: nat, nack: bool)
    requires Good(s, ab) && IdsDistinct(s.waits) && k < |s.waits| && s.waits[k].state == NORMAL
    ensures s.waits[k].handle.filter in s.heap.live
    ensures var h, r := s.waits[k].handle, SubackStep(s, s.waits[k].id, nack);
      var text := s.heap.live[h.filter];
      && r.waits == s.waits[k := s.waits[k].(state := INVALID)]
      && (nack ==> r.table == s.table && r.heap.live == s.heap.live - {h.filter})
      && (!nack && Serving(s, text, h) ==>
            && r.heap.live == s.heap.live - {h.filter}
            && exists j :: 0 <= j < |s.table| && Serves(s.heap, s.table[j], text, h)
                 && r.table == s.table[j := s.table[j].(userData := h.userData)])
      && (!nack && !Serving(s, text, h) && SlotFree(s) ==>
            && r.heap == s.heap
            && exists j :: 0 <= j < |s.table| && s.table[j].filter == 0 && r.table == s.table[j := h]
                 && forall i :: 0 <= i < j ==> s.table[i].filter != 0)
      && (!nack && !Serving(s, text, h) && !SlotFree(s) ==> r.heap == s.heap && r.table == s.table)
  {
    var h := s.waits[k].handle;
    MaskedUnique(s.waits, s.waits[k].id, k, NO_HANDLE);
    OwnerFacts(s, ab);
    NodeOwned(s, ab, k);
    NoFault(s.heap, s.table, h);
    var text := s.heap.live[h.filter];
    var m, f := Match(s.heap, s.table, h), FirstFree(s.table);
    if m < |s.table| {
      assert Serves(s.heap, s.table[m], text, h);
    } else {
      forall j | 0 <= j < |s.table| ensures !Serves(s.heap, s.table[j], text, h) {
        assert s.table[j].filter == 0 || !Identical(s.heap, s.table[j], h);
      }
    }
  }

  // ---------- UNSUBACK ----------

  lemma FreeOne(s: Subs, ab: set<Ptr>, ws: seq<SubNode>, f: Ptr, ab': set<Ptr>)
    requires OwnedOnce(s, ab) && f in s.heap.live
    requires forall p :: NodeCount(ws, p) + One(p in ab') + One(p == f) == NodeCount(s.waits, p) + One(p in ab)
    ensures OwnedOnce(Subs(Free(s.heap, f), ws, s.table), ab')
  {
    FreedOk(s.heap, f);
    assert f in s.heap.live.Keys + s.heap.freed;
    var r := Subs(Free(s.heap, f), ws, s.table);
    forall p ensures Owners(r, ab', p) == if p in r.heap.live then 1 else 0 {
      assert Owners(s, ab, p) == if p in s.heap.live then 1 else 0;
    }
  }

  lemma UnsubackBreaks(s: Subs, ab: set<Ptr>, ws: seq<SubNode>, f: Ptr)
    requires Good(s, ab) && f != 0 && f !in ab && NodeCount(ws, f) == NodeCount(s.waits, f)
    ensures !OwnedOnce(Subs(Free(s.heap, f), ws, s.table), ab)
  {
    if f in s.heap.live {
      assert Owners(s, ab, f) == 1;
      assert Owners(Subs(Free(s.heap, f), ws, s.table), ab, f) == 1;
    }
  }

  lemma UnsubackAt(s: Subs, ab: set<Ptr>, id: nat, unset: Handle, k: nat)
    requires Good(s, ab) && IdsDistinct(s.waits) && k < |s.waits| && s.waits[k].id == id
    ensures var f := s.waits[k].handle.filter;
      OwnedOnce(UnsubackStep(s, id, unset), ab - {f}) <==> s.waits[k].state == NORMAL || f in ab
  {
    var f := s.waits[k].handle.filter;
    var r := UnsubackStep(s, id, unset);
    OwnerFacts(s, ab);
    MaskedUnique(s.waits, id, k, unset);
    if s.waits[k].state == NORMAL || f in ab {
      NodeOwned(s, ab, k);
      assert Owners(s, ab, f) == 1;
      if s.waits[k].state == NORMAL { NodeIn(s.waits, k); }
      FreeOne(s, ab, r.waits, f, ab - {f});
    } else {
      assert ab - {f} == ab;
      UnsubackBreaks(s, ab, r.waits, f);
    }
  }

  lemma UnsubackUnknown(s: Subs, ab: set<Ptr>, id: nat, unset: Handle)
    requires Good(s, ab) && forall k :: 0 <= k < |s.waits| ==> s.waits[k].id != id
    ensures OwnedOnce(UnsubackStep(s, id, unset), ab - {unset.filter}) <==> unset.filter == 0 || unset.filter in ab
  {
    var f := unset.filter;
    FoundAt(s.waits, id, unset);
    MaskedNone(s.waits, id);
    OwnerFacts(s, ab);
    if f in ab {
      FreeOne(s, ab, s.waits, f, ab - {f});
    } else {
      assert ab - {f} == ab;
      if f != 0 { UnsubackBreaks(s, ab, s.waits, f); }
    }
  }

  /** UNSUBACK keeps every string in one place exactly when the node still waits, or, where the id
      is not pending, the uninitialised handle happens to hold NULL or an ownerless string. */
  lemma UnsubackOwnership(s: Subs, ab: set<Ptr>, id: nat, unset: Handle)
    requires Good(s, ab) && IdsDistinct(s.waits)
    ensures var f := Found(s.waits, id, unset).filter;
      && (OwnedOnce(UnsubackStep(s, id, unset), ab - {f}) <==> Clean(s, ab, id, unset))
      && (Clean(s, ab, id, unset) ==> Good(UnsubackStep(s, id, unset), ab - {f}))
  {
    var r := UnsubackStep(s, id, unset);
    assert PairsDiffer(s.heap, s.table);
    SameSlotsDiffer(s.heap, r.heap, s.table, r.table);
    assert PairsDiffer(r.heap, r.table);
    UnsubackLinks(s, id, unset);
    if k :| 0 <= k < |s.waits| && s.waits[k].id == id {
      MaskedUnique(s.waits, id, k, unset);
      UnsubackAt(s, ab, id, unset, k);
    } else {
      FoundAt(s.waits, id, unset);
      UnsubackUnknown(s, ab, id, unset);
    }
  }

  lemma UnsubackLinks(s: Subs, id: nat, unset: Handle)
    requires Linked(s) && NodesDistinct(s.heap, s.waits)
    ensures Linked(UnsubackStep(s, id, unset)) && NodesDistinct(s.heap, Masked(s.waits, id))
  {
    var r := UnsubackStep(s, id, unset);
    forall i, j | 0 <= i < |r.waits| && 0 <= j < |r.table| && r.table[j].filter == r.waits[i].handle.filter
      ensures SameHandlers(r.table[j], r.waits[i].handle)
    {
      assert r.waits[i].handle == s.waits[i].handle;
    }
  }

  // ---------- the timeout sweep ----------

  predicate Stays(w: SubNode, connected: bool, now: int) { w.state == NORMAL && (!connected || w.deadline - now > 0) }

  /** qcloud_iot_mqtt_sub_info_proc walks from the tail: acknowledged nodes go, nodes out of time go
      and their filter is freed. */
  function Sweep(h: Heap, ws: seq<SubNode>, connected: bool, now: int): (Heap, seq<SubNode>) {
    if ws == [] then (h, []) else
      var (g, rest) := Sweep(h, ws[1..], connected, now);
      if Stays(ws[0], connected, now) then (g, [ws[0]] + rest)
      else if ws[0].state == NORMAL then (Free(g, ws[0].handle.filter), rest)
      else (g, rest)
  }

  function SweepStep(s: Subs, connected: bool, now: int): Subs {
    var (g, rest) := Sweep(s.heap, s.waits, connected, now);
    Subs(g, rest, s.table)
  }

  lemma {:induction false} NodeConcat(a: seq<SubNode>, b: seq<SubNode>, p: Ptr)
    ensures NodeCount(a + b, p) == NodeCount(a, p) + NodeCount(b, p)
  {
    if a == [] {
      assert a + b == b;
    } else {
      NodeConcat(a[1..], b, p);
      assert (a + b)[1..] == a[1..] + b;
    }
  }

  // The nodes before pre are still to come: their strings, the table's and the kept ones balance.
  lemma {:induction false} SweepOwners(s: Subs, ab: set<Ptr>, pre: seq<SubNode>, ws: seq<SubNode>, connected: bool,
                                       now: int)
    requires OwnedOnce(s.(waits := pre + ws), ab)
    ensures var (g, rest) := Sweep(s.heap, ws, connected, now); OwnedOnce(Subs(g, pre + rest, s.table), ab)
    decreases |ws|
  {
    if ws != [] {
      var w, pre' := ws[0], pre + [ws[0]];
      assert pre' + ws[1..] == pre + ws;
      SweepOwners(s, ab, pre', ws[1..], connected, now);
      var (g, rest) := Sweep(s.heap, ws[1..], connected, now);
      var t := Subs(g, pre' + rest, s.table);
      if Stays(w, connected, now) {
        assert pre' + rest == pre + ([w] + rest);
      } else {
        forall p
          ensures NodeCount(pre + rest, p) + One(w.state == NORMAL && w.handle.filter == p) == NodeCount(t.waits, p)
        {
          NodeConcat(pre, rest, p); NodeConcat(pre', rest, p); NodeConcat(pre, [w], p);
          assert [w][1..] == [];
        }
        if w.state == NORMAL {
          assert Owners(t, ab, w.handle.filter) == if w.handle.filter in g.live then 1 else 0;
          FreeOne(t, ab, pre + rest, w.handle.filter, ab);
        } else {
          forall p ensures Owners(Subs(g, pre + rest, s.table), ab, p) == if p in g.live then 1 else 0 {
            assert Owners(t, ab, p) == if p in g.live then 1 else 0;
          }
        }
      }
    } else {
      assert pre + ws == pre;
    }
  }

  /** What the sweep keeps: exactly the requests that are not acknowledged and, while the link is up, not
      out of time. */
  lemma {:induction false} SweepKeeps(h: Heap, ws: seq<SubNode>, connected: bool, now: int)
    ensures var (g, rest) := Sweep(h, ws, connected, now);
      && |rest| <= |ws| && g.next == h.next
      && (forall p :: p in g.live ==> p in h.live && g.live[p] == h.live[p])
      && (forall w :: w in rest <==> w in ws && w.state == NORMAL && (!connected || w.deadline > now))
  {
    if ws != [] {
      SweepKeeps(h, ws[1..], connected, now);
    }
  }

  lemma ConsDistinct(h: Heap, w: SubNode, rest: seq<SubNode>)
    requires NodesDistinct(h, rest) && 0 < w.handle.filter < h.next
    requires forall v :: v in rest ==> v.handle.filter != w.handle.filter
    ensures NodesDistinct(h, [w] + rest)
  {
    var r := [w] + rest;
    forall i, j | 0 <= i < j < |r| ensures r[i].handle.filter != r[j].handle.filter {
      assert r[j] == rest[j - 1];
      assert i > 0 ==> r[i] == rest[i - 1];
    }
  }

  lemma ConsIds(w: SubNode, rest: seq<SubNode>)
    requires IdsDistinct(rest) && forall v :: v in rest ==> v.id != w.id
    ensures IdsDistinct([w] + rest)
  {
    var r := [w] + rest;
    forall i, j | 0 <= i < j < |r| ensures r[i].id != r[j].id {
      assert r[j] == rest[j - 1];
      assert i > 0 ==> r[i] == rest[i - 1];
    }
  }

  lemma {:induction false} SweepDistinct(h: Heap, ws: seq<SubNode>, connected: bool, now: int)
    requires NodesDistinct(h, ws)
    ensures NodesDistinct(h, Sweep(h, ws, connected, now).1)
  {
    if ws != [] {
      SweepDistinct(h, ws[1..], connected, now);
      SweepKeeps(h, ws[1..], connected, now);
      var rest := Sweep(h, ws[1..], connected, now).1;
      forall w | w in rest ensures w.handle.filter != ws[0].handle.filter {
        var k :| 0 <= k < |ws[1..]| && ws[1..][k] == w;
        assert ws[k + 1] == w;
      }
      ConsDistinct(h, ws[0], rest);
    }
  }

  lemma {:induction false} SweepIds(h: Heap, ws: seq<SubNode>, connected: bool, now: int)
    requires IdsDistinct(ws)
    ensures IdsDistinct(Sweep(h, ws, connected, now).1)
  {
    if ws != [] {
      SweepIds(h, ws[1..], connected, now);
      SweepKeeps(h, ws[1..], connected, now);
      var rest := Sweep(h, ws[1..], connected, now).1;
      forall w | w in rest ensures w.id != ws[0].id {
        var k :| 0 <= k < |ws[1..]| && ws[1..][k] == w;
        assert ws[k + 1] == w;
      }
      ConsIds(ws[0], rest);
    }
  }

  lemma SweepLinks(s: Subs, connected: bool, now: int)
    requires Linked(s)
    ensures Linked(SweepStep(s, connected, now))
  {
    var r := SweepStep(s, connected, now);
    SweepKeeps(s.heap, s.waits, connected, now);
    forall i, j | 0 <= i < |r.waits| && 0 <= j < |r.table| && r.table[j].filter == r.waits[i].handle.filter
      ensures SameHandlers(r.table[j], r.waits[i].handle)
    {
      assert r.waits[i] in s.waits;
      var k :| 0 <= k < |s.waits| && s.waits[k] == r.waits[i];
      assert s.table[j].filter == s.waits[k].handle.filter;
    }
  }

  /** The sweep keeps every string in one place, whatever the time and the connection. */
  lemma SweepOwnership(s: Subs, ab: set<Ptr>, connected: bool, now: int)
    requires Good(s, ab)
    ensures Good(SweepStep(s, connected, now), ab)
  {
    var r := SweepStep(s, connected, now);
    assert [] + s.waits == s.waits && [] + r.waits == r.waits;
    SweepOwners(s, ab, [], s.waits, connected, now);
    SweepKeeps(s.heap, s.waits, connected, now);
    SweepDistinct(s.heap, s.waits, connected, now);
    SweepLinks(s, connected, now);
    assert PairsDiffer(s.heap, s.table);
    SameSlotsDiffer(s.heap, r.heap, s.table, r.table);
    assert PairsDiffer(r.heap, r.table);
  }

  // ---------- subscribe and unsubscribe requests ----------

  datatype Outcome = SERIALIZE_FAILED | SEND_FAILED | SENT

  /** What both requests do once the filter is allocated: a full wait list, a packet that does not
      fit and a failed write each give the string back. */
  function RequestStep(s: Subs, text: string, node: SubNode, outcome: Outcome): Subs {
    var p, heap := s.heap.next, Malloc(s.heap, text);
    if outcome == SERIALIZE_FAILED || |s.waits| >= MAX_MESSAGE_HANDLERS || outcome == SEND_FAILED then
      s.(heap := Free(heap, p))
    else s.(heap := heap, waits := s.waits + [node.(state := NORMAL, handle := node.handle.(filter := p))])
  }

  lemma MallocOk(h: Heap, text: string)
    requires HeapOk(h)
    ensures HeapOk(Malloc(h, text)) && h.next !in h.live
    ensures HeapOk(Free(Malloc(h, text), h.next)) && Free(Malloc(h, text), h.next).live == h.live
  {
    var g := Malloc(h, text);
    assert h.next !in h.live.Keys + h.freed;
    forall q ensures q in g.live.Keys + g.freed <==> 0 < q < g.next {
      assert q in h.live.Keys + h.freed <==> 0 < q < h.next;
    }
    FreedOk(g, h.next);
    assert g.live - {h.next} == h.live;
  }

  lemma FreshDiffers(heap: Heap, t: seq<Handle>, text: string)
    requires PairsDiffer(heap, t) && forall k :: 0 <= k < |t| && t[k].filter != 0 ==> t[k].filter in heap.live
    requires HeapOk(heap)
    ensures PairsDiffer(Malloc(heap, text), t)
  {
    var g := Malloc(heap, text);
    MallocOk(heap, text);
    assert 0 !in g.live.Keys + g.freed;
    forall i, j | 0 <= i < j < |t| ensures !Identical(g, t[i], t[j]) {
      assert !Identical(heap, t[i], t[j]);
    }
  }

  /** A request keeps every string in one place, whether it is queued or fails. */
  lemma RequestOwnership(s: Subs, ab: set<Ptr>, text: string, node: SubNode, outcome: Outcome)
    requires Good(s, ab)
    ensures Good(RequestStep(s, text, node, outcome), ab)
  {
    var r := RequestStep(s, text, node, outcome);
    MallocOk(s.heap, text);
    OwnerFacts(s, ab);
    assert PairsDiffer(s.heap, s.table);
    FreshDiffers(s.heap, s.table, text);
    if r.waits == s.waits {
      SameSlotsDiffer(s.heap, r.heap, s.table, r.table);
      assert OwnedOnce(r, ab) by { FailedOwners(s, ab, r); }
    } else {
      QueuedOwners(s, ab, r, r.waits[|s.waits|]);
      QueuedLinks(s, ab, r, r.waits[|s.waits|]);
    }
    assert PairsDiffer(r.heap, r.table);
  }

  lemma FailedOwners(s: Subs, ab: set<Ptr>, r: Subs)
    requires OwnedOnce(s, ab) && HeapOk(r.heap) && r.waits == s.waits && r.table == s.table
    requires r.heap.live == s.heap.live
    ensures OwnedOnce(r, ab)
  {
    forall p ensures Owners(r, ab, p) == if p in r.heap.live then 1 else 0 {
      assert Owners(s, ab, p) == if p in s.heap.live then 1 else 0;
    }
  }

  lemma QueuedOwners(s: Subs, ab: set<Ptr>, r: Subs, w: SubNode)
    requires OwnedOnce(s, ab) && HeapOk(r.heap) && r.table == s.table && r.waits == s.waits + [w]
    requires w.state == NORMAL && w.handle.filter !in s.heap.live
    requires r.heap.live.Keys == s.heap.live.Keys + {w.handle.filter}
    ensures OwnedOnce(r, ab)
  {
    forall p ensures Owners(r, ab, p) == if p in r.heap.live then 1 else 0 {
      assert Owners(s, ab, p) == if p in s.heap.live then 1 else 0;
      NodeConcat(s.waits, [w], p);
      assert [w][1..] == [];
    }
  }

  lemma QueuedLinks(s: Subs, ab: set<Ptr>, r: Subs, w: SubNode)
    requires Good(s, ab) && r.table == s.table && r.waits == s.waits + [w]
    requires w.handle.filter == s.heap.next < r.heap.next
    ensures Linked(r) && NodesDistinct(r.heap, r.waits)
  {
    OwnerFacts(s, ab);
    forall j | 0 <= j < |r.table| ensures r.table[j].filter != w.handle.filter {
      assert s.heap.next !in s.heap.live.Keys + s.heap.freed;
    }
    forall i, j | 0 <= i < |r.waits| && 0 <= j < |r.table| && r.table[j].filter == r.waits[i].handle.filter
      ensures SameHandlers(r.table[j], r.waits[i].handle)
    {
      assert i < |s.waits|;
      assert s.table[j].filter == s.waits[i].handle.filter;
    }
  }

  /** The loop of unsubscribe over the first n slots: a slot with the same text goes, and every slot
      goes when the topic holds a wildcard level, free slots too. */
  function Release(h: Heap, t: seq<Handle>, text: string, wild: bool, n: nat): (r: (Heap, seq<Handle>))
    requires n <= |t|
    ensures |r.1| == |t| && r.1[n..] == t[n..]
  {
    if n == 0 then (h, t) else
      var (g, u) := Release(h, t, text, wild, n - 1);
      var p := t[n - 1].filter;
      var g' := if p != 0 && p !in g.live then g.(faulty := true) else g;
      if wild || (p != 0 && p in g.live && g.live[p] == text) then (Free(g', p), u[n - 1 := t[n - 1].(filter := 0)])
      else (g', u)
  }

  lemma {:induction false} ReleaseOwners(s: Subs, ab: set<Ptr>, text: string, wild: bool, n: nat)
    requires OwnedOnce(s, ab) && n <= |s.table|
    ensures var (g, u) := Release(s.heap, s.table, text, wild, n); OwnedOnce(Subs(g, s.waits, u), ab)
  {
    if n > 0 {
      ReleaseOwners(s, ab, text, wild, n - 1);
      var (g, u) := Release(s.heap, s.table, text, wild, n - 1);
      var t := Subs(g, s.waits, u);
      assert u[n - 1] == u[n - 1..][0] == s.table[n - 1];
      OwnerFacts(t, ab);
      var p := s.table[n - 1].filter;
      assert p != 0 ==> p in g.live;
      assert 0 !in g.live.Keys + g.freed;
      if wild || (p != 0 && p in g.live && g.live[p] == text) {
        var v := u[n - 1 := s.table[n - 1].(filter := 0)];
        var r := Subs(Free(g, p), s.waits, v);
        if p != 0 { FreedOk(g, p); }
        forall q ensures Owners(r, ab, q) == if q in r.heap.live then 1 else 0 {
          assert Owners(t, ab, q) == if q in g.live then 1 else 0;
          SlotUpdate(u, n - 1, s.table[n - 1].(filter := 0), q);
        }
      }
    }
  }

  predicate Released(h: Heap, slot: Handle, text: string, wild: bool) {
    wild || (slot.filter != 0 && slot.filter in h.live && h.live[slot.filter] == text)
  }

  lemma {:induction false} ReleaseHeap(h: Heap, t: seq<Handle>, text: string, wild: bool, n: nat)
    requires n <= |t|
    ensures var g := Release(h, t, text, wild, n).0;
      g.next == h.next && forall p :: p in g.live ==> p in h.live && g.live[p] == h.live[p]
  {
    if n > 0 {
      ReleaseHeap(h, t, text, wild, n - 1);
    }
  }

  /** Exactly the slots with the text lose their filter, or all of them; the others are untouched. */
  lemma {:induction false} ReleaseSlots(s: Subs, ab: set<Ptr>, text: string, wild: bool, n: nat, k: nat)
    requires OwnedOnce(s, ab) && k < n <= |s.table|
    ensures Release(s.heap, s.table, text, wild, n).1[k]
         == if wild || (s.table[k].filter in s.heap.live && s.heap.live[s.table[k].filter] == text)
            then s.table[k].(filter := 0) else s.table[k]
  {
    if k < n - 1 {
      ReleaseSlots(s, ab, text, wild, n - 1, k);
    } else {
      var (g, u) := Release(s.heap, s.table, text, wild, k);
      ReleaseOwners(s, ab, text, wild, k);
      ReleaseHeap(s.heap, s.table, text, wild, k);
      OwnerFacts(Subs(g, s.waits, u), ab);
      OwnerFacts(s, ab);
      assert u[k] == u[k..][0] == s.table[k];
      assert 0 !in s.heap.live.Keys + s.heap.freed;
    }
  }

  function ReleaseStep(s: Subs, text: string, wild: bool): Subs {
    var (g, u) := Release(s.heap, s.table, text, wild, |s.table|);
    Subs(g, s.waits, u)
  }

  /** Releasing slots keeps every string in one place. */
  lemma ReleaseOwnership(s: Subs, ab: set<Ptr>, text: string, wild: bool)
    requires Good(s, ab)
    ensures Good(ReleaseStep(s, text, wild), ab)
  {
    var r := ReleaseStep(s, text, wild);
    ReleaseOwners(s, ab, text, wild, |s.table|);
    ReleaseHeap(s.heap, s.table, text, wild, |s.table|);
    forall k | 0 <= k < |s.table|
      ensures r.table[k] == s.table[k] || r.table[k] == s.table[k].(filter := 0)
    {
      ReleaseSlots(s, ab, text, wild, |s.table|, k);
    }
    assert 0 !in r.heap.live.Keys + r.heap.freed;
    forall i, j | 0 <= i < j < |r.table| ensures !Identical(r.heap, r.table[i], r.table[j]) {
      assert !Identical(s.heap, s.table[i], s.table[j]);
    }
    forall i, j | 0 <= i < |r.waits| && 0 <= j < |r.table| && r.table[j].filter == r.waits[i].handle.filter
      ensures SameHandlers(r.table[j], r.waits[i].handle)
    {
      assert s.table[j].filter == s.waits[i].handle.filter;
    }
  }

  // ---------- resubscription ----------

  /** The table already holds what this node asks for. */
  ghost predicate Covered(s: Subs, w: SubNode) {
    exists j :: 0 <= j < |s.table| && s.table[j].filter != 0 && Identical(s.heap, s.table[j], w.handle)
      && s.table[j].userData == w.handle.userData
  }

  lemma Alike(heap: Heap, a: Handle, b: Handle, h: Handle)
    requires Identical(heap, a, h) && Identical(heap, b, h)
    ensures Identical(heap, a, b) && Identical(heap, b, a)
  {}

  /** A positive SUBACK of a subscription that is already there changes nothing but the heap. */
  lemma SubackCovered(s: Subs, ab: set<Ptr>, k: nat)
    requires Good(s, ab) && IdsDistinct(s.waits) && k < |s.waits| && s.waits[k].state == NORMAL
    requires Covered(s, s.waits[k])
    ensures SubackStep(s, s.waits[k].id, false).table == s.table
    ensures SubackStep(s, s.waits[k].id, false).heap == Free(s.heap, s.waits[k].handle.filter)
    ensures AbandonedAfter(s, ab, s.waits[k].id, false) == ab
  {
    var h := s.waits[k].handle;
    MaskedUnique(s.waits, s.waits[k].id, k, NO_HANDLE);
    OwnerFacts(s, ab);
    NodeOwned(s, ab, k);
    NoFault(s.heap, s.table, h);
    var j :| 0 <= j < |s.table| && s.table[j].filter != 0 && Identical(s.heap, s.table[j], h)
             && s.table[j].userData == h.userData;
    var m := Match(s.heap, s.table, h);
    Alike(s.heap, s.table[m], s.table[j], h);
    assert m == j;
    assert s.table[m := s.table[m].(userData := h.userData)] == s.table;
    NodeIn(s.waits, k);
    assert Owners(s, ab, h.filter) == 1;
  }

  function AckAll(s: Subs, ids: seq<nat>): Subs
    decreases |ids|
  {
    if ids == [] then s else AckAll(SubackStep(s, ids[0], false), ids[1..])
  }

  ghost predicate Pending(s: Subs, id: nat) {
    exists k :: 0 <= k < |s.waits| && s.waits[k].id == id && s.waits[k].state == NORMAL && Covered(s, s.waits[k])
  }

  // The table and the other nodes' requests, after node k is acknowledged.
  lemma CoverKept(s: Subs, ab: set<Ptr>, r: Subs, k: nat, i: nat)
    requires Good(s, ab) && k < |s.waits| && i < |s.waits| && i != k && s.waits[k].state == s.waits[i].state == NORMAL
    requires r.heap == Free(s.heap, s.waits[k].handle.filter) && r.table == s.table && Covered(s, s.waits[i])
    ensures Covered(r, s.waits[i])
  {
    var f, h := s.waits[k].handle.filter, s.waits[i].handle;
    var j :| 0 <= j < |s.table| && s.table[j].filter != 0 && Identical(s.heap, s.table[j], h)
             && s.table[j].userData == h.userData;
    NodeIn(s.waits, k);
    SlotIn(s.table, j);
    assert Owners(s, ab, f) <= 1;
    assert s.table[j].filter != f && h.filter != f;
    assert Identical(r.heap, r.table[j], h);
  }

  lemma StillPending(s: Subs, ab: set<Ptr>, r: Subs, k: nat, id: nat)
    requires Good(s, ab) && k < |s.waits| && id != s.waits[k].id && Pending(s, id) && s.waits[k].state == NORMAL
    requires r == Subs(Free(s.heap, s.waits[k].handle.filter), s.waits[k := s.waits[k].(state := INVALID)], s.table)
    ensures Pending(r, id)
  {
    var i :| 0 <= i < |s.waits| && s.waits[i].id == id && s.waits[i].state == NORMAL && Covered(s, s.waits[i]);
    CoverKept(s, ab, r, k, i);
    assert r.waits[i] == s.waits[i];
  }

  lemma AckOneAt(s: Subs, ab: set<Ptr>, k: nat)
    requires Good(s, ab) && IdsDistinct(s.waits) && k < |s.waits| && s.waits[k].state == NORMAL
    requires Covered(s, s.waits[k])
    ensures SubackStep(s, s.waits[k].id, false)
         == Subs(Free(s.heap, s.waits[k].handle.filter), s.waits[k := s.waits[k].(state := INVALID)], s.table)
    ensures Good(SubackStep(s, s.waits[k].id, false), ab)
  {
    SubackCovered(s, ab, k);
    MaskedUnique(s.waits, s.waits[k].id, k, NO_HANDLE);
    SubackOwnership(s, ab, s.waits[k].id, false);
    assert SubackStep(s, s.waits[k].id, false).waits == Masked(s.waits, s.waits[k].id);
  }

  lemma AckOne(s: Subs, ab: set<Ptr>, id: nat)
    requires Good(s, ab) && IdsDistinct(s.waits) && Pending(s, id)
    ensures var r := SubackStep(s, id, false);
      && r.table == s.table && Good(r, ab) && IdsDistinct(r.waits)
      && forall q :: q != id && Pending(s, q) ==> Pending(r, q)
  {
    var k :| 0 <= k < |s.waits| && s.waits[k].id == id && s.waits[k].state == NORMAL && Covered(s, s.waits[k]);
    AckOneAt(s, ab, k);
    var r := SubackStep(s, id, false);
    forall q | q != id && Pending(s, q) ensures Pending(r, q) {
      StillPending(s, ab, r, k, q);
    }
  }

  /** Resubscribing changes nothing: positive acknowledgements, in any order, of requests for what
      the table holds leave the table as it was. */
  lemma {:induction false} ResubscribeKeepsTable(s: Subs, ab: set<Ptr>, ids: seq<nat>)
    requires Good(s, ab) && IdsDistinct(s.waits) && forall i :: 0 <= i < |ids| ==> Pending(s, ids[i])
    requires forall i, j :: 0 <= i < j < |ids| ==> ids[i] != ids[j]
    ensures AckAll(s, ids).table == s.table && Good(AckAll(s, ids), ab)
    decreases |ids|
  {
    if ids != [] {
      AckOne(s, ab, ids[0]);
      var rest := ids[1..];
      forall i | 0 <= i < |rest| ensures Pending(SubackStep(s, ids[0], false), rest[i]) {
        assert rest[i] == ids[i + 1];
      }
      ResubscribeKeepsTable(SubackStep(s, ids[0], false), ab, rest);
    }
  }

  /** The ids of some requests after the first n, none of them twice. */
  ghost predicate Answers(s: Subs, n: nat, ids: seq<nat>) {
    && (forall i :: 0 <= i < |ids| ==> exists k :: n <= k < |s.waits| && s.waits[k].id == ids[i])
    && (forall i, j :: 0 <= i < j < |ids| ==> ids[i] != ids[j])
  }

  /** So whichever of the requests of a resubscription are acknowledged, and in whichever order, the
      table stays as it was. */
  lemma RenewedKeepsTable(s: Subs, ab: set<Ptr>, n: nat, m: nat, ids: seq<nat>)
    requires Good(s, ab) && IdsDistinct(s.waits) && Renewed(s, n, m) && Answers(s, n, ids)
    ensures AckAll(s, ids).table == s.table && Good(AckAll(s, ids), ab)
  {
    forall i | 0 <= i < |ids| ensures Pending(s, ids[i]) {
      var id := ids[i];
      var k :| n <= k < |s.waits| && s.waits[k].id == id;
    }
    ResubscribeKeepsTable(s, ab, ids);
  }

  ghost predicate Extends(g: Heap, h: Heap) { forall p :: p in h.live ==> p in g.live && g.live[p] == h.live[p] }

  lemma CoveredGrows(s: Subs, r: Subs, w: SubNode)
    requires Extends(r.heap, s.heap) && r.table == s.table && Covered(s, w)
    ensures Covered(r, w)
  {
    var i :| 0 <= i < |s.table| && s.table[i].filter != 0 && Identical(s.heap, s.table[i], w.handle)
             && s.table[i].userData == w.handle.userData;
    assert Identical(r.heap, r.table[i], w.handle);
  }

  // A request for what slot j holds, queued or not.
  lemma AskAgain(s: Subs, ab: set<Ptr>, j: nat, node: SubNode, outcome: Outcome, r: Subs) returns (w: SubNode)
    requires Good(s, ab) && j < |s.table| && s.table[j].filter in s.heap.live && s.table[j].filter != 0
    requires SameHandlers(node.handle, s.table[j]) && node.handle.userData == s.table[j].userData
    requires r == RequestStep(s, s.heap.live[s.table[j].filter], node, outcome)
    ensures Good(r, ab) && r.table == s.table && Extends(r.heap, s.heap)
    ensures r.waits == s.waits || r.waits == s.waits + [w]
    ensures r.waits != s.waits ==> w.state == NORMAL && Covered(r, w) && Identical(r.heap, r.table[j], w.handle)
  {
    var text := s.heap.live[s.table[j].filter];
    RequestOwnership(s, ab, text, node, outcome);
    MallocOk(s.heap, text);
    w := node.(state := NORMAL, handle := node.handle.(filter := s.heap.next));
    if r.waits != s.waits {
      assert r.waits == s.waits + [w] && Identical(r.heap, r.table[j], w.handle);
    }
  }

  /** The requests after the first n are for what the table holds, and the first i slots each have
      one. */
  ghost predicate Renewed(s: Subs, n: nat, i: nat) {
    && n <= |s.waits| && i <= |s.table|
    && (forall k :: n <= k < |s.waits| ==> s.waits[k].state == NORMAL && Covered(s, s.waits[k]))
    && (forall j :: 0 <= j < i && s.table[j].filter != 0 ==>
          exists k :: n <= k < |s.waits| && Identical(s.heap, s.table[j], s.waits[k].handle))
  }

  lemma NoneRenewed(s: Subs, n: nat, issued: nat)
    requires n == |s.waits|
    ensures Renewed(s, n, 0) && Newer(s.waits, n, issued)
  {}

  lemma RenewedGrows(s: Subs, r: Subs, n: nat, i: nat)
    requires Renewed(s, n, i) && Extends(r.heap, s.heap) && r.table == s.table && r.waits == s.waits
    ensures Renewed(r, n, i)
  {
    forall k | n <= k < |r.waits| ensures r.waits[k].state == NORMAL && Covered(r, r.waits[k]) {
      CoveredGrows(s, r, s.waits[k]);
    }
    forall j | 0 <= j < i && r.table[j].filter != 0
      ensures exists k :: n <= k < |r.waits| && Identical(r.heap, r.table[j], r.waits[k].handle)
    {
      var k :| n <= k < |s.waits| && Identical(s.heap, s.table[j], s.waits[k].handle);
      assert Identical(r.heap, r.table[j], r.waits[k].handle);
    }
  }

  lemma RenewedSnoc(s: Subs, r: Subs, n: nat, i: nat, w: SubNode)
    requires Renewed(s, n, i) && r.heap == s.heap && r.table == s.table && r.waits == s.waits + [w] && i < |s.table|
    requires w.state == NORMAL && Covered(r, w) && Identical(r.heap, r.table[i], w.handle)
    ensures Renewed(r, n, i + 1)
  {
    forall k | n <= k < |r.waits| ensures r.waits[k].state == NORMAL && Covered(r, r.waits[k]) {
      if k < |s.waits| {
        assert r.waits[k] == s.waits[k];
        CoveredGrows(s, r, s.waits[k]);
      }
    }
    forall j | 0 <= j < i + 1 && r.table[j].filter != 0
      ensures exists k :: n <= k < |r.waits| && Identical(r.heap, r.table[j], r.waits[k].handle)
    {
      if j < i {
        var k :| n <= k < |s.waits| && Identical(s.heap, s.table[j], s.waits[k].handle);
        assert r.waits[k] == s.waits[k];
      } else {
        assert r.waits[|s.waits|] == w;
      }
    }
  }

  lemma RenewedBy(s: Subs, r: Subs, n: nat, i: nat, w: SubNode)
    requires Renewed(s, n, i) && Extends(r.heap, s.heap) && r.table == s.table && i < |s.table|
    requires r.waits == s.waits || r.waits == s.waits + [w]
    requires r.waits != s.waits ==> w.state == NORMAL && Covered(r, w) && Identical(r.heap, r.table[i], w.handle)
    ensures r.waits[..n] == s.waits[..n] && Renewed(r, n, if |r.waits| > |s.waits| then i + 1 else i)
  {
    var g := r.(waits := s.waits);
    RenewedGrows(s, g, n, i);
    if r.waits != s.waits {
      RenewedSnoc(g, r, n, i, w);
    }
  }

  lemma RenewOne(s: Subs, ab: set<Ptr>, n: nat, i: nat, node: SubNode, outcome: Outcome, r: Subs)
    requires Good(s, ab) && Renewed(s, n, i) && i < |s.table| && s.table[i].filter in s.heap.live
    requires s.table[i].filter != 0
    requires SameHandlers(node.handle, s.table[i]) && node.handle.userData == s.table[i].userData
    requires r == RequestStep(s, s.heap.live[s.table[i].filter], node, outcome)
    ensures Good(r, ab) && r.waits[..n] == s.waits[..n] && Renewed(r, n, if |r.waits| > |s.waits| then i + 1 else i)
  {
    var w := AskAgain(s, ab, i, node, outcome, r);
    RenewedBy(s, r, n, i, w);
  }

  // ---------- packet ids ----------

  /** The requests of a client that began its ids at start and has handed out some. */
  datatype Session = Session(subs: Subs, start: nat, issued: nat)

  ghost predicate Increasing(ws: seq<SubNode>) { forall i, j :: 0 <= i < j < |ws| ==> ws[i].issue < ws[j].issue }

  predicate Issued(w: SubNode, start: nat, issued: nat) { 0 < w.issue <= issued && w.id == IdAfter(start, w.issue) }

  /** Every waiting request has the id of its issue, and they wait in the order of issue. */
  ghost predicate Numbered(s: Session) {
    && s.start <= MAX_PACKET_ID && Increasing(s.subs.waits)
    && forall k :: 0 <= k < |s.subs.waits| ==> Issued(s.subs.waits[k], s.start, s.issued)
  }

  /** With n more ids handed out, fewer than 65535 are newer than the oldest waiting request. */
  predicate Room(s: Session, n: nat) { s.subs.waits == [] || s.issued + n - s.subs.waits[0].issue < MAX_PACKET_ID }

  /** Two requests wait under one id exactly if a multiple of 65535 ids were handed out between them. */
  lemma IdsClash(s: Session)
    requires Numbered(s)
    ensures IdsDistinct(s.subs.waits) <==>
      forall i, j ::
        0 <= i < j < |s.subs.waits| ==> (s.subs.waits[j].issue - s.subs.waits[i].issue) % MAX_PACKET_ID != 0
  {
    var ws := s.subs.waits;
    forall i, j | 0 <= i < j < |ws| ensures ws[i].id == ws[j].id <==> (ws[j].issue - ws[i].issue) % MAX_PACKET_ID == 0 {
      IdsRepeat(s.start, ws[i].issue, ws[j].issue);
    }
  }

  lemma RoomDistinct(s: Session)
    requires Numbered(s) && Room(s, 0)
    ensures IdsDistinct(s.subs.waits)
  {
    IdsClash(s);
    var ws := s.subs.waits;
    forall i, j | 0 <= i < j < |ws| ensures (ws[j].issue - ws[i].issue) % MAX_PACKET_ID != 0 {
      assert ws[0].issue <= ws[i].issue;
      Below(ws[j].issue - ws[i].issue);
    }
  }

  lemma Below(d: nat)
    requires 0 < d < MAX_PACKET_ID
    ensures d % MAX_PACKET_ID != 0
  {}

  /** A subscribe or unsubscribe request takes the next id. */
  function Ask(s: Session, text: string, kind: Kind, deadline: int, handle: Handle, outcome: Outcome): Session {
    var n := s.issued + 1;
    var node := SubNode(NORMAL, n, IdAfter(s.start, n), deadline, kind, handle);
    Session(RequestStep(s.subs, text, node, outcome), s.start, n)
  }

  /** A request that is sent and finds room waits under the next id with a copy of its text; any other
      leaves list and live strings as they were. */
  lemma AskQueued(s: Session, text: string, kind: Kind, deadline: int, handle: Handle, outcome: Outcome)
    requires HeapOk(s.subs.heap)
    ensures var r, p := Ask(s, text, kind, deadline, handle, outcome), s.subs.heap.next;
      && r.issued == s.issued + 1 && r.subs.table == s.subs.table
      && if outcome == SENT && |s.subs.waits| < 10 then
           && r.subs.heap.live == s.subs.heap.live[p := text]
           && r.subs.waits == s.subs.waits
              + [SubNode(NORMAL, r.issued, IdAfter(s.start, r.issued), deadline, kind, handle.(filter := p))]
         else r.subs.waits == s.subs.waits && r.subs.heap.live == s.subs.heap.live
  {
    MallocOk(s.subs.heap, text);
  }

  lemma AskNumbered(s: Session, text: string, kind: Kind, deadline: int, handle: Handle, outcome: Outcome)
    requires Numbered(s)
    ensures Numbered(Ask(s, text, kind, deadline, handle, outcome))
  {}

  /** A request that is queued leaves no two waiting under one id exactly if no waiting one is a
      multiple of 65535 ids older. */
  lemma AskDistinct(s: Session, text: string, kind: Kind, deadline: int, handle: Handle)
    requires Numbered(s) && IdsDistinct(s.subs.waits) && |s.subs.waits| < MAX_MESSAGE_HANDLERS
    ensures IdsDistinct(Ask(s, text, kind, deadline, handle, SENT).subs.waits) <==>
      forall k :: 0 <= k < |s.subs.waits| ==> (s.issued + 1 - s.subs.waits[k].issue) % MAX_PACKET_ID != 0
  {
    var ws, n := s.subs.waits, s.issued + 1;
    var r := Ask(s, text, kind, deadline, handle, SENT).subs.waits;
    assert r[|ws|].id == IdAfter(s.start, n);
    forall k | 0 <= k < |ws| ensures r[k].id == r[|ws|].id <==> (n - ws[k].issue) % MAX_PACKET_ID == 0 {
      assert Issued(ws[k], s.start, s.issued);
      IdsRepeat(s.start, ws[k].issue, n);
    }
    forall i, j | 0 <= i < j < |ws| ensures r[i].id != r[j].id {}
  }

  lemma AskIds(s: Session, text: string, kind: Kind, deadline: int, handle: Handle, outcome: Outcome)
    requires Numbered(s) && IdsDistinct(s.subs.waits) && Room(s, 1)
    ensures IdsDistinct(Ask(s, text, kind, deadline, handle, outcome).subs.waits)
  {
    var ws := s.subs.waits;
    if outcome == SENT && |ws| < MAX_MESSAGE_HANDLERS {
      AskDistinct(s, text, kind, deadline, handle);
      forall k | 0 <= k < |ws| ensures (s.issued + 1 - ws[k].issue) % MAX_PACKET_ID != 0 {
        assert ws[0].issue <= ws[k].issue && Issued(ws[k], s.start, s.issued);
        Below(s.issued + 1 - ws[k].issue);
      }
    }
  }

  /** The requests after the first n were made after that many ids. */
  ghost predicate Newer(ws: seq<SubNode>, n: nat, issued: nat) { forall k :: n <= k < |ws| ==> issued < ws[k].issue }

  lemma AskNewer(s: Session, text: string, kind: Kind, deadline: int, handle: Handle, outcome: Outcome, n: nat,
                 issued: nat)
    requires Newer(s.subs.waits, n, issued) && issued <= s.issued
    ensures Newer(Ask(s, text, kind, deadline, handle, outcome).subs.waits, n, issued)
  {}

  lemma RoomKept(s: Session, r: Session, n: nat)
    requires Room(s, n) && n < MAX_PACKET_ID && Numbered(r) && s.subs.waits <= r.subs.waits
    requires s.issued <= r.issued <= s.issued + n
    requires Newer(r.subs.waits, |s.subs.waits|, s.issued)
    ensures Room(r, 0)
  {}

  lemma ConsIncreasing(w: SubNode, rest: seq<SubNode>)
    requires Increasing(rest) && forall v :: v in rest ==> w.issue < v.issue
    ensures Increasing([w] + rest)
  {
    var r := [w] + rest;
    forall i, j | 0 <= i < j < |r| ensures r[i].issue < r[j].issue {
      assert r[j] == rest[j - 1];
      assert i > 0 ==> r[i] == rest[i - 1];
    }
  }

  lemma {:induction false} SweepIncreasing(h: Heap, ws: seq<SubNode>, connected: bool, now: int)
    requires Increasing(ws)
    ensures Increasing(Sweep(h, ws, connected, now).1)
  {
    if ws != [] {
      SweepIncreasing(h, ws[1..], connected, now);
      SweepKeeps(h, ws[1..], connected, now);
      var rest := Sweep(h, ws[1..], connected, now).1;
      forall w | w in rest ensures ws[0].issue < w.issue {
        var k :| 0 <= k < |ws[1..]| && ws[1..][k] == w;
        assert ws[k + 1] == w;
      }
      ConsIncreasing(ws[0], rest);
    }
  }

  lemma SweepNumbered(s: Session, connected: bool, now: int)
    requires Numbered(s)
    ensures Numbered(s.(subs := SweepStep(s.subs, connected, now)))
  {
    var ws := s.subs.waits;
    SweepIncreasing(s.subs.heap, ws, connected, now);
    SweepKeeps(s.subs.heap, ws, connected, now);
    var rest := SweepStep(s.subs, connected, now).waits;
    forall k | 0 <= k < |rest| ensures Issued(rest[k], s.start, s.issued) {
      assert rest[k] in ws;
    }
  }

  lemma MaskedNumbered(s: Session, id: nat, r: Subs)
    requires Numbered(s) && r.waits == Masked(s.subs.waits, id)
    ensures Numbered(s.(subs := r))
  {
    forall k | 0 <= k < |r.waits| ensures Issued(r.waits[k], s.start, s.issued) {
      assert Issued(s.subs.waits[k], s.start, s.issued);
    }
  }

  // ---------- whole runs ----------

  /** OtherRequest is a publish: it takes an id and nothing else of this. */
  datatype Event =
    | Request(text: string, kind: Kind, deadline: int, handle: Handle, outcome: Outcome)
    | OtherRequest
    | Suback(id: nat, nack: bool)
    | Unsuback(id: nat, unset: Handle)
    | Timeouts(connected: bool, now: int)
    | Drop(text: string, wild: bool)

  function Step(s: Session, e: Event): Session {
    match e
    case Request(text, kind, deadline, handle, outcome) => Ask(s, text, kind, deadline, handle, outcome)
    case OtherRequest => s.(issued := s.issued + 1)
    case Suback(id, nack) => s.(subs := SubackStep(s.subs, id, nack))
    case Unsuback(id, unset) => s.(subs := UnsubackStep(s.subs, id, unset))
    case Timeouts(connected, now) => s.(subs := SweepStep(s.subs, connected, now))
    case Drop(text, wild) => s.(subs := ReleaseStep(s.subs, text, wild))
  }

  ghost function Dropped(s: Session, ab: set<Ptr>, e: Event): set<Ptr> {
    match e
    case Suback(id, nack) => AbandonedAfter(s.subs, ab, id, nack)
    case Unsuback(id, unset) => ab - {Found(s.subs.waits, id, unset).filter}
    case _ => ab
  }

  ghost predicate Waits(s: Subs, id: nat) {
    exists k :: 0 <= k < |s.waits| && s.waits[k].id == id && s.waits[k].state == NORMAL
  }

  /** The broker acknowledges only what waits, and a request is not made while one waits that is
      65534 ids older. */
  ghost predicate Orderly(s: Session, e: Event) {
    (e.Request? ==> Room(s, 1)) && (e.Suback? || e.Unsuback? ==> Waits(s.subs, e.id))
  }

  ghost predicate OrderlyRun(s: Session, run: seq<Event>)
    decreases |run|
  {
    run == [] || (Orderly(s, run[0]) && OrderlyRun(Step(s, run[0]), run[1..]))
  }

  ghost function After(s: Session, ab: set<Ptr>, run: seq<Event>): (Session, set<Ptr>)
    decreases |run|
  {
    if run == [] then (s, ab) else After(Step(s, run[0]), Dropped(s, ab, run[0]), run[1..])
  }

  ghost predicate Sound(s: Session, ab: set<Ptr>) { Good(s.subs, ab) && IdsDistinct(s.subs.waits) && Numbered(s) }

  lemma PendingIsClean(s: Subs, ab: set<Ptr>, id: nat, unset: Handle)
    requires IdsDistinct(s.waits) && Waits(s, id)
    ensures Clean(s, ab, id, unset)
  {}

  lemma MaskedIds(ws: seq<SubNode>, id: nat)
    requires IdsDistinct(ws)
    ensures IdsDistinct(Masked(ws, id))
  {}

  lemma StepKeeps(s: Session, ab: set<Ptr>, e: Event)
    requires Sound(s, ab) && Orderly(s, e)
    ensures Sound(Step(s, e), Dropped(s, ab, e))
  {
    hide Good, Numbered, Clean;
    match e
    case Request(text, kind, deadline, handle, outcome) =>
      var n := s.issued + 1;
      RequestOwnership(s.subs, ab, text, SubNode(NORMAL, n, IdAfter(s.start, n), deadline, kind, handle), outcome);
      AskNumbered(s, text, kind, deadline, handle, outcome);
      AskIds(s, text, kind, deadline, handle, outcome);
    case OtherRequest =>
      OtherNumbered(s);
    case Suback(id, nack) =>
      PendingIsClean(s.subs, ab, id, NO_HANDLE);
      SubackOwnership(s.subs, ab, id, nack);
      MaskedIds(s.subs.waits, id);
      MaskedNumbered(s, id, SubackStep(s.subs, id, nack));
    case Unsuback(id, unset) =>
      PendingIsClean(s.subs, ab, id, unset);
      UnsubackOwnership(s.subs, ab, id, unset);
      MaskedIds(s.subs.waits, id);
      MaskedNumbered(s, id, UnsubackStep(s.subs, id, unset));
    case Timeouts(connected, now) =>
      SweepOwnership(s.subs, ab, connected, now);
      SweepIds(s.subs.heap, s.subs.waits, connected, now);
      SweepNumbered(s, connected, now);
    case Drop(text, wild) =>
      ReleaseOwnership(s.subs, ab, text, wild);
      DropNumbered(s, text, wild);
  }

  lemma OtherNumbered(s: Session)
    requires Numbered(s)
    ensures Numbered(s.(issued := s.issued + 1))
  {
    forall k | 0 <= k < |s.subs.waits| ensures Issued(s.subs.waits[k], s.start, s.issued + 1) {
      assert Issued(s.subs.waits[k], s.start, s.issued);
    }
  }

  lemma DropNumbered(s: Session, text: string, wild: bool)
    requires Numbered(s)
    ensures Numbered(s.(subs := ReleaseStep(s.subs, text, wild)))
  {}

  /** In every orderly run every topic filter alive has one owner, none is freed twice or read
      after it was freed, no two live slots are identical, and no two requests wait under one id. */
  lemma {:induction false} RunKeeps(s: Session, ab: set<Ptr>, run: seq<Event>)
    requires Sound(s, ab) && OrderlyRun(s, run)
    ensures var (r, dropped) := After(s, ab, run); Sound(r, dropped)
    decreases |run|
  {
    hide Sound, Orderly, Dropped, Step;
    if run != [] {
      StepKeeps(s, ab, run[0]);
      RunKeeps(Step(s, run[0]), Dropped(s, ab, run[0]), run[1..]);
    }
  }

  function FreeSlots(n: nat): (t: seq<Handle>)
    ensures |t| == n && forall k :: 0 <= k < n ==> t[k] == NO_HANDLE
  {
    if n == 0 then [] else [NO_HANDLE] + FreeSlots(n - 1)
  }

  const START := Subs(Heap(map[], {}, 1, false), [], FreeSlots(MAX_MESSAGE_HANDLERS))

  /** A client just created: free slots, and no id handed out. */
  function Start(start: nat): Session { Session(START, start, 0) }

  lemma StartIsSound(start: nat)
    requires start <= MAX_PACKET_ID
    ensures Sound(Start(start), {})
  {
    forall p ensures Owners(START, {}, p) == 0 {
      NoSlots(START.table, p);
    }
  }

  /** All of it for a client just created. */
  lemma ClientKeeps(start: nat, run: seq<Event>)
    requires start <= MAX_PACKET_ID && OrderlyRun(Start(start), run)
    ensures var (r, dropped) := After(Start(start), {}, run); Good(r.subs, dropped) && IdsDistinct(r.subs.waits)
  {
    StartIsSound(start);
    RunKeeps(Start(start), {}, run);
  }

  // ---------- the fate of one request ----------

  /** A request waits, acknowledged or not, or has left the list. */
  datatype Fate = WAITS(acked: bool) | GONE

  /** What becomes of a request with this id and deadline, by the events alone: an acknowledgement with
      its id marks it, the first sweep after that lets it go, and so does the first sweep at or past its
      deadline on a live link. */
  function FateOf(id: nat, deadline: int, acked: bool, run: seq<Event>): Fate
    decreases |run|
  {
    if run == [] then WAITS(acked)
    else
      match run[0]
      case Suback(i, _) => FateOf(id, deadline, acked || i == id, run[1..])
      case Unsuback(i, _) => FateOf(id, deadline, acked || i == id, run[1..])
      case Timeouts(connected, now) =>
        if acked || (connected && deadline <= now) then GONE else FateOf(id, deadline, acked, run[1..])
      case _ => FateOf(id, deadline, acked, run[1..])
  }

  /** The request whose string has this address has met that fate. */
  ghost predicate Met(s: Subs, w: SubNode, f: Fate) {
    match f
    case WAITS(acked) => w.(state := if acked then INVALID else NORMAL) in s.waits
    case GONE => forall k :: 0 <= k < |s.waits| ==> s.waits[k].handle.filter != w.handle.filter
  }

  lemma AskedMet(s: Session, text: string, kind: Kind, deadline: int, handle: Handle, outcome: Outcome, w: SubNode)
    requires w.handle.filter < s.subs.heap.next
    ensures var r := Ask(s, text, kind, deadline, handle, outcome);
      && w.handle.filter < r.subs.heap.next
      && (w in s.subs.waits ==> w in r.subs.waits)
      && (Met(s.subs, w, GONE) ==> Met(r.subs, w, GONE))
  {}

  lemma MaskedMet(s: Subs, r: Subs, id: nat, w: SubNode)
    requires w in s.waits && r.waits == Masked(s.waits, id)
    ensures Met(r, w, WAITS(w.state == INVALID || w.id == id))
  {
    var k :| 0 <= k < |s.waits| && s.waits[k] == w;
    assert r.waits[k] == if w.id == id then w.(state := INVALID) else w;
  }

  lemma SubackWaits(s: Subs, id: nat, nack: bool)
    ensures SubackStep(s, id, nack).waits == Masked(s.waits, id)
  {}

  lemma UnsubackWaits(s: Subs, id: nat, unset: Handle)
    ensures UnsubackStep(s, id, unset).waits == Masked(s.waits, id)
  {}

  lemma ReleaseWaits(s: Subs, text: string, wild: bool)
    ensures ReleaseStep(s, text, wild).waits == s.waits
  {}

  lemma MaskedGone(ws: seq<SubNode>, id: nat, f: Ptr)
    requires forall k :: 0 <= k < |ws| ==> ws[k].handle.filter != f
    ensures forall k :: 0 <= k < |ws| ==> Masked(ws, id)[k].handle.filter != f
  {}

  lemma SweptMet(s: Subs, connected: bool, now: int, w: SubNode)
    requires NodesDistinct(s.heap, s.waits)
    ensures var r := SweepStep(s, connected, now);
      && r.heap.next == s.heap.next
      && (w in s.waits && w.state == NORMAL && (!connected || w.deadline > now) ==> w in r.waits)
      && (w in s.waits && !(w.state == NORMAL && (!connected || w.deadline > now)) ==> Met(r, w, GONE))
      && (Met(s, w, GONE) ==> Met(r, w, GONE))
  {
    var r := SweepStep(s, connected, now);
    SweepKeeps(s.heap, s.waits, connected, now);
    forall k | 0 <= k < |r.waits| ensures r.waits[k] in s.waits { assert r.waits[k] in r.waits; }
  }

  lemma StepNext(s: Session, e: Event)
    ensures s.subs.heap.next <= Step(s, e).subs.heap.next
  {
    if e.Timeouts? { SweepKeeps(s.subs.heap, s.subs.waits, e.connected, e.now); }
    if e.Drop? { ReleaseHeap(s.subs.heap, s.subs.table, e.text, e.wild, |s.subs.table|); }
  }

  lemma {:induction false} GoneStays(s: Session, ab: set<Ptr>, run: seq<Event>, w: SubNode)
    requires Sound(s, ab) && OrderlyRun(s, run) && Met(s.subs, w, GONE) && w.handle.filter < s.subs.heap.next
    ensures Met(After(s, ab, run).0.subs, w, GONE)
    decreases |run|
  {
    hide Sound, Orderly, Dropped;
    if run != [] {
      var e := run[0];
      StepKeeps(s, ab, e);
      StepNext(s, e);
      NodesOf(s, ab);
      GoneStep(s, e, w);
      GoneStays(Step(s, e), Dropped(s, ab, e), run[1..], w);
    }
  }

  lemma NodesOf(s: Session, ab: set<Ptr>)
    requires Sound(s, ab)
    ensures NodesDistinct(s.subs.heap, s.subs.waits)
  {}

  lemma GoneStep(s: Session, e: Event, w: SubNode)
    requires NodesDistinct(s.subs.heap, s.subs.waits) && Met(s.subs, w, GONE) && w.handle.filter < s.subs.heap.next
    ensures Met(Step(s, e).subs, w, GONE)
  {
    match e
    case Request(text, kind, deadline, handle, outcome) => AskedMet(s, text, kind, deadline, handle, outcome, w);
    case OtherRequest =>
    case Suback(id, nack) => MaskedGone(s.subs.waits, id, w.handle.filter);
    case Unsuback(id, unset) => MaskedGone(s.subs.waits, id, w.handle.filter);
    case Timeouts(connected, now) => SweptMet(s.subs, connected, now, w);
    case Drop(text, wild) =>
  }

  // One event, for a request that waits.
  lemma FateStep(s: Session, e: Event, w: SubNode)
    requires NodesDistinct(s.subs.heap, s.subs.waits) && w in s.subs.waits
    ensures Met(Step(s, e).subs, w, FateOf(w.id, w.deadline, w.state == INVALID, [e]))
  {
    hide Ask, SubackStep, UnsubackStep, SweepStep, ReleaseStep, Masked;
    FateOne(w.id, w.deadline, w.state == INVALID, e);
    var k :| 0 <= k < |s.subs.waits| && s.subs.waits[k] == w;
    match e
    case Request(text, kind, deadline, handle, outcome) => AskedMet(s, text, kind, deadline, handle, outcome, w);
    case OtherRequest =>
    case Suback(id, nack) =>
      SubackWaits(s.subs, id, nack);
      MaskedMet(s.subs, Step(s, e).subs, id, w);
    case Unsuback(id, unset) =>
      UnsubackWaits(s.subs, id, unset);
      MaskedMet(s.subs, Step(s, e).subs, id, w);
    case Timeouts(connected, now) => SweptMet(s.subs, connected, now, w);
    case Drop(text, wild) => ReleaseWaits(s.subs, text, wild);
  }

  lemma FateOne(id: nat, deadline: int, acked: bool, e: Event)
    ensures FateOf(id, deadline, acked, [e]) ==
      match e
      case Suback(i, _) => WAITS(acked || i == id)
      case Unsuback(i, _) => WAITS(acked || i == id)
      case Timeouts(connected, now) => if acked || (connected && deadline <= now) then GONE else WAITS(acked)
      case _ => WAITS(acked)
  {
    assert [e][1..] == [];
  }

  lemma FateNext(id: nat, deadline: int, acked: bool, run: seq<Event>)
    requires run != []
    ensures var f := FateOf(id, deadline, acked, [run[0]]);
      FateOf(id, deadline, acked, run) == if f.GONE? then GONE else FateOf(id, deadline, f.acked, run[1..])
  {
    assert [run[0]][1..] == [];
  }

  /** Over every orderly run the list does to each request in it what the events say, however many
      others wait with it. */
  lemma {:induction false} RequestFate(s: Session, ab: set<Ptr>, run: seq<Event>, w: SubNode)
    requires Sound(s, ab) && OrderlyRun(s, run) && w in s.subs.waits
    ensures Met(After(s, ab, run).0.subs, w, FateOf(w.id, w.deadline, w.state == INVALID, run))
    decreases |run|
  {
    hide Sound, Orderly, Dropped, Step;
    NodesOf(s, ab);
    if run != [] {
      var e := run[0];
      StepKeeps(s, ab, e);
      StepNext(s, e);
      FateStep(s, e, w);
      FateNext(w.id, w.deadline, w.state == INVALID, run);
      var f := FateOf(w.id, w.deadline, w.state == INVALID, [e]);
      if f.WAITS? {
        RequestFate(Step(s, e), Dropped(s, ab, e), run[1..], w.(state := if f.acked then INVALID else NORMAL));
      } else {
        GoneStays(Step(s, e), Dropped(s, ab, e), run[1..], w);
      }
    }
  }

  // ---------- runs that are not orderly ----------

  lemma AfterFirst(s: Session, ab: set<Ptr>, e: Event, run: seq<Event>)
    ensures After(s, ab, [e] + run) == After(Step(s, e), Dropped(s, ab, e), run)
  {
    assert ([e] + run)[1..] == run;
  }

  /** A client just created asks for a subscription: it waits, and its string is the one alive. */
  lemma Asked(start: nat, text: string, handle: Handle, deadline: int) returns (e: Event, s: Session)
    requires start <= MAX_PACKET_ID
    ensures e == Request(text, SUBSCRIBE, deadline, handle, SENT) && s == Step(Start(start), e)
    ensures Sound(s, {}) && s.subs.heap == Malloc(START.heap, text) && s.subs.table == START.table
    ensures s.subs.waits == [SubNode(NORMAL, 1, IdAfter(start, 1), deadline, SUBSCRIBE, handle.(filter := 1))]
  {
    e := Request(text, SUBSCRIBE, deadline, handle, SENT);
    s := Step(Start(start), e);
    StartIsSound(start);
    StepKeeps(Start(start), {}, e);
  }

  /** The string of a refused subscription is freed, but its node stays until a sweep, and a refusal
      ends the cycle before its sweep: a second SUBACK for it frees the string again, or puts the
      freed string into the table. */
  lemma SecondSubackBreaks(start: nat, text: string, handle: Handle, deadline: int, nack: bool)
    requires start <= MAX_PACKET_ID
    ensures var id := IdAfter(start, 1);
      var (r, dropped) := After(Start(start), {},
        [Request(text, SUBSCRIBE, deadline, handle, SENT), Suback(id, true), Suback(id, nack)]);
      && !OwnedOnce(r.subs, dropped) && |r.subs.table| == MAX_MESSAGE_HANDLERS
      && (if nack then r.subs.heap.faulty else r.subs.table[0].filter in r.subs.heap.freed)
  {
    hide FreeSlots, Owners, HeapOk;
    var id := IdAfter(start, 1);
    var e, s := Asked(start, text, handle, deadline);
    var t := Refused(s, id);
    SubackOwnership(t.subs, {}, id, nack);
    AgainstFreed(t.subs, id, nack);
    Three(Start(start), e, Suback(id, true), Suback(id, nack));
  }

  // After the refusal of the one request: its node is marked, its string freed, the table as before.
  lemma Refused(s: Session, id: nat) returns (t: Session)
    requires Sound(s, {}) && |s.subs.waits| == 1 && s.subs.waits[0].state == NORMAL && s.subs.waits[0].id == id
    requires 0 < s.subs.waits[0].handle.filter
    ensures t == Step(s, Suback(id, true)) && Dropped(s, {}, Suback(id, true)) == {} && Sound(t, {})
    ensures t.subs.waits == [s.subs.waits[0].(state := INVALID)] && t.subs.table == s.subs.table
    ensures s.subs.waits[0].handle.filter in t.subs.heap.freed
  {
    hide Good, Numbered;
    t := Step(s, Suback(id, true));
    MaskedUnique(s.subs.waits, id, 0, NO_HANDLE);
    assert Waits(s.subs, id);
    StepKeeps(s, {}, Suback(id, true));
    Live(s.subs, 0);
  }

  lemma Live(s: Subs, k: nat)
    requires Good(s, {}) && k < |s.waits| && s.waits[k].state == NORMAL
    ensures s.waits[k].handle.filter in s.heap.live
  {
    NodeOwned(s, {}, k);
  }

  // A SUBACK for a marked request whose string is freed, while the table is free.
  lemma AgainstFreed(s: Subs, id: nat, nack: bool)
    requires Good(s, {}) && |s.waits| == 1 && s.waits[0].id == id && s.table == START.table
    requires s.waits[0].handle.filter in s.heap.freed
    ensures var r := SubackStep(s, id, nack);
      if nack then r.heap.faulty else r.table[0].filter == s.waits[0].handle.filter && r.heap.freed == s.heap.freed
  {
    var f := s.waits[0].handle.filter;
    assert Found(s.waits, id, NO_HANDLE) == s.waits[0].handle;
    assert f in s.heap.live.Keys + s.heap.freed;
  }

  /** An UNSUBACK for an id under which nothing waits frees whatever the uninitialised handle holds:
      with the handle of a live slot, the slot is left with a freed string. */
  lemma UnknownUnsubackBreaks(start: nat, text: string, handle: Handle, deadline: int, id: nat)
    requires start <= MAX_PACKET_ID && id != IdAfter(start, 1)
    ensures var slot := handle.(filter := 1);
      var (r, dropped) := After(Start(start), {},
        [Request(text, SUBSCRIBE, deadline, handle, SENT), Suback(IdAfter(start, 1), false), Unsuback(id, slot)]);
      && !OwnedOnce(r.subs, dropped) && |r.subs.table| == MAX_MESSAGE_HANDLERS
      && r.subs.table[0] == slot && slot.filter in r.subs.heap.freed
  {
    var first, slot := IdAfter(start, 1), handle.(filter := 1);
    var e, s := Asked(start, text, handle, deadline);
    var acked, other := Suback(first, false), Unsuback(id, slot);
    var t := Step(s, acked);
    MaskedUnique(s.subs.waits, first, 0, NO_HANDLE);
    assert Waits(s.subs, first);
    StepKeeps(s, {}, acked);
    assert Dropped(s, {}, acked) == {} && t.subs.waits == [s.subs.waits[0].(state := INVALID)];
    NoFault(s.subs.heap, s.subs.table, slot);
    assert t.subs == Subs(s.subs.heap, t.subs.waits, START.table[0 := slot]);
    assert Found(t.subs.waits[1..], id, slot) == slot;
    UnsubackOwnership(t.subs, {}, id, slot);
    Three(Start(start), e, acked, other);
  }

  lemma Three(s: Session, a: Event, b: Event, c: Event)
    ensures After(s, {}, [a, b, c])
         == (Step(Step(Step(s, a), b), c),
             Dropped(Step(Step(s, a), b), Dropped(Step(s, a), Dropped(s, {}, a), b), c))
  {
    var t, u := Step(s, a), Step(Step(s, a), b);
    var d := Dropped(s, {}, a);
    AfterFirst(s, {}, a, [b, c]);
    AfterFirst(t, d, b, [c]);
    AfterFirst(u, Dropped(t, d, b), c, []);
    assert [a] + [b, c] == [a, b, c] && [b] + [c] == [b, c] && [c] + [] == [c];
  }

  lemma {:induction false} NoSlots(t: seq<Handle>, p: Ptr)
    requires forall k :: 0 <= k < |t| ==> t[k].filter == 0
    ensures SlotCount(t, p) == 0
  {
    if t != [] {
      NoSlots(t[1..], p);
    }
  }
}
