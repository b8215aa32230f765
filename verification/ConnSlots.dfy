/**
 The lwIP bridge's connection slots against an lwIP that frees and recycles protocol control
 blocks behind its back. A control block (pcb) is an element of a fixed pool; freeing it leaves
 its memory, including `callback_arg`, as it was, and the same element may be handed out again
 for another connection.
 */
module ConnSlots {
  import opened Bytes
  import opened BridgeConfig

  type PcbId = nat

  /** Which lwIP list an element is on: none while free. */
  datatype List = Free | Active | TimeWait

  /** `arg` is the slot index in `callback_arg`. */
  datatype Pcb = Pcb(list: List, arg: int)

  datatype State = Closed | SynSent | Established | CloseWait | FinWait

  /** `TcpConn` with its flow reference. `delivered`, `credited` and `lost` are history: bytes handed
      to the receive callback, acknowledged by `tcp_recved`, and discarded, in this slot's life. */
  datatype Slot = Slot(pcb: Option<PcbId>, state: State, reap: bool, flow: bool, rx: nat, unrecved: nat,
                       delivered: nat, credited: nat, lost: nat)

  /** `fault`: a pcb operation went to an element that is free or belongs to another slot. */
  datatype Bridge = Bridge(slots: seq<Slot>, pcbs: map<PcbId, Pcb>, fault: bool)
  {
    function At(i: int, s: Slot): Bridge
      requires 0 <= i < |slots|
    {
      this.(slots := slots[i := s])
    }
  }

  const EmptySlot := Slot(None, Closed, false, false, 0, 0, 0, 0, 0)

  // ---------------------------------------------------------------- slot updates

  /** A slot loses its pcb abruptly: undelivered bytes are discarded, reuse waits one round. */
  function Cleared(s: Slot): Slot {
    s.(pcb := None, state := Closed, reap := true, rx := 0, unrecved := 0, lost := s.lost + s.unrecved)
  }

  /** `bridge_err`. */
  function Err(b: Bridge, arg: int): Bridge {
    if 0 <= arg < |b.slots| && b.slots[arg].pcb.Some? then b.At(arg, Cleared(b.slots[arg])) else b
  }

  /** `conn_pcb_alive`. */
  predicate Alive(pcbs: map<PcbId, Pcb>, p: PcbId, i: int) {
    p in pcbs && pcbs[p].arg == i && (pcbs[p].list.Active? || pcbs[p].list.TimeWait?)
  }

  function Swept(pcbs: map<PcbId, Pcb>, s: Slot, i: int): Slot {
    if s.pcb.Some? && !Alive(pcbs, s.pcb.value, i) then Cleared(s) else s
  }

  /** `conn_sweep_stale`. */
  function Sweep(b: Bridge): Bridge {
    b.(slots := seq(|b.slots|, i requires 0 <= i < |b.slots| => Swept(b.pcbs, b.slots[i], i)))
  }

  /** `conn_reconcile_rxq`: credit what was drained since the last time. */
  function Reconciled(s: Slot): Slot {
    if s.pcb.None? || s.rx >= s.unrecved then s
    else s.(unrecved := s.rx, credited := s.credited + (s.unrecved - s.rx))
  }

  // ---------------------------------------------------------------- lwIP

  /** What lwIP may do on its own: free a TIME_WAIT pcb without a word, close an active one with an
      error callback, or move an active one to TIME_WAIT once it was connected. */
  datatype Event = SilentFree(p: PcbId) | Fails(p: PcbId) | Lingers(p: PcbId)

  function Happen(b: Bridge, e: Event): (b': Bridge)
    ensures |b'.slots| == |b.slots|
  {
    if e.p !in b.pcbs then b
    else
      var c := b.pcbs[e.p];
      match e
      case SilentFree(p) => if c.list.TimeWait? then b.(pcbs := b.pcbs[p := c.(list := Free)]) else b
      case Lingers(p) =>
        if c.list.Active? && 0 <= c.arg < |b.slots| && !b.slots[c.arg].state.SynSent?
        then b.(pcbs := b.pcbs[p := c.(list := TimeWait)]) else b
      case Fails(p) => if c.list.Active? then Err(b.(pcbs := b.pcbs[p := c.(list := Free)]), c.arg) else b
  }

  function HappenAll(b: Bridge, es: seq<Event>): (b': Bridge)
    ensures |b'.slots| == |b.slots|
    decreases |es|
  {
    if es == [] then b else HappenAll(Happen(b, es[0]), es[1..])
  }

  // ---------------------------------------------------------------- the bridge's own calls

  /** `ns_abort`: `tcp_abort` calls back synchronously unless the pcb lingers in TIME_WAIT. */
  function Abort(b: Bridge, i: int): Bridge
    requires 0 <= i < |b.slots|
  {
    var s := b.slots[i];
    if s.pcb.None? then b
    else
      var p := s.pcb.value;
      if !Alive(b.pcbs, p, i) then b.(fault := true)
      else
        var b' := b.(pcbs := b.pcbs[p := b.pcbs[p].(list := Free)]);
        if b.pcbs[p].list.Active? then Err(b', b.pcbs[p].arg) else b'.At(i, Cleared(s))
  }

  predicate Available(s: Slot) {
    s.pcb.None? && !s.reap && !s.flow
  }

  /** `conn_slot_alloc`: the first available slot, or the number of slots. */
  function FirstAvailable(slots: seq<Slot>): (i: nat)
    ensures i <= |slots| && (i < |slots| ==> Available(slots[i]))
    ensures forall j :: 0 <= j < i ==> !Available(slots[j])
  {
    if slots == [] || Available(slots[0]) then 0 else 1 + FirstAvailable(slots[1..])
  }

  /** `conn_connect_af`: `es` is what `tcp_alloc` does to other pcbs, `pick` the element it returns
      if any, `ok` whether bind and connect succeed. The result is the slot, or -1. */
  function Connect(b: Bridge, es: seq<Event>, pick: Option<PcbId>, ok: bool): (Bridge, int) {
    var i: int := FirstAvailable(b.slots);
    if i == |b.slots| then (b, -1)
    else
      var b1 := HappenAll(b.At(i, EmptySlot), es);
      if pick.None? || pick.value !in b1.pcbs || !b1.pcbs[pick.value].list.Free? then (Sweep(b1), -1)
      else
        var p := pick.value;
        if ok then
          var b2 := b1.(pcbs := b1.pcbs[p := Pcb(Active, i)]);
          (Sweep(b2.At(i, EmptySlot.(pcb := Some(p), state := SynSent))), i)
        else (Sweep(b1.(pcbs := b1.pcbs[p := Pcb(Free, i)])), -1)
  }

  /** Which deadlines have passed for one slot in this round. */
  datatype Due = Due(connect: bool, finWait: bool, lastAck: bool, quiet: bool)

  /** The body of `ns_tick`'s loop for one slot. */
  function TickSlot(b: Bridge, i: int, due: Due): Bridge
    requires 0 <= i < |b.slots|
  {
    var s := b.slots[i];
    if s.pcb.None? then b.At(i, s.(reap := false))
    else
      var b1 := if Alive(b.pcbs, s.pcb.value, i) then b.At(i, Reconciled(s)) else b.(fault := true);
      var active := s.pcb.value in b.pcbs && b.pcbs[s.pcb.value].list.Active?;
      var lingering := s.pcb.value in b.pcbs && b.pcbs[s.pcb.value].list.TimeWait?;
      if || (s.state.SynSent? && due.connect) || (s.state.FinWait? && due.finWait)
         || (s.state.Closed? && active && due.lastAck)
      then Abort(b1, i)
      else if s.state.Closed? && lingering && b1.slots[i].rx == 0 && !s.flow && due.quiet
      then b1.At(i, b1.slots[i].(pcb := None))
      else b1
  }

  function TickSlots(b: Bridge, i: nat, due: seq<Due>): Bridge
    requires i <= |b.slots| <= |due|
    ensures |TickSlots(b, i, due).slots| == |b.slots|
    decreases |b.slots| - i
  {
    if i == |b.slots| then b else TickSlots(TickSlot(b, i, due[i]), i + 1, due)
  }

  /** `ns_tick`: sweep, serve every slot, run lwIP's timers, sweep again. */
  function Tick(b: Bridge, due: seq<Due>, es: seq<Event>): Bridge
    requires |b.slots| <= |due|
  {
    Sweep(HappenAll(TickSlots(Sweep(b), 0, due), es))
  }

  /** Everything else that reaches a slot between two rounds. */
  datatype Action =
    | Connecting(es: seq<Event>, pick: Option<PcbId>, ok: bool)
    | Ticking(due: seq<Due>, es: seq<Event>)
    | Aborting(i: int)
    | Closing(i: int)
    | Established_(p: PcbId)           // bridge_connected
    | Data(p: PcbId, n: nat)           // bridge_recv
    | Fin(p: PcbId)                    // bridge_recv with no buffer
    | Lwip(e: Event)                   // input processing: any event that is not silent
    | Drain(i: int, n: nat)            // the flow layer consumes rxq
    | FlowRef(i: int)
    | FlowUnref(i: int)

  /** A callback for pcb `p` reaches slot `arg`, which ignores it unless the pcb is its own. */
  function OnCallback(b: Bridge, p: PcbId, f: Slot -> Slot): Bridge {
    if p in b.pcbs && b.pcbs[p].list.Active? && 0 <= b.pcbs[p].arg < |b.slots| && b.slots[b.pcbs[p].arg].pcb == Some(p)
    then b.At(b.pcbs[p].arg, f(b.slots[b.pcbs[p].arg]))
    else b
  }

  function Received(s: Slot, n: nat): Slot {
    s.(rx := s.rx + n, unrecved := s.unrecved + n, delivered := s.delivered + n)
  }

  function Finned(s: Slot): Slot {
    if s.state.Established? then s.(state := CloseWait)
    else if s.state.FinWait? then s.(state := Closed)
    else s
  }

  function Connected(s: Slot): Slot {
    s.(state := Established)
  }

  /** `ns_close`. */
  function Close(b: Bridge, i: int): Bridge
    requires 0 <= i < |b.slots|
  {
    var s := b.slots[i];
    if s.pcb.None? || s.state.Closed? then b
    else if !Alive(b.pcbs, s.pcb.value, i) then b.(fault := true)
    else if s.state.SynSent? then
      var p := s.pcb.value;
      var b' := b.(pcbs := b.pcbs[p := b.pcbs[p].(list := Free)]);
      if b.pcbs[p].list.Active? then Err(b', b.pcbs[p].arg) else b'
    else
      var r := Reconciled(s);
      b.At(i, if s.state.Established? then r.(state := FinWait)
              else if s.state.CloseWait? then r.(state := Closed)
              else r)
  }

  function Do(b: Bridge, a: Action): Bridge {
    match a
    case Connecting(es, pick, ok) => Connect(b, es, pick, ok).0
    case Ticking(due, es) => if |b.slots| <= |due| then Tick(b, due, es) else b
    case Aborting(i) => if 0 <= i < |b.slots| then Abort(b, i) else b
    case Closing(i) => if 0 <= i < |b.slots| then Close(b, i) else b
    case Established_(p) => OnCallback(b, p, s => Connected(s))
    case Data(p, n) => OnCallback(b, p, s => Received(s, n))
    case Fin(p) => OnCallback(b, p, s => Finned(s))
    case Lwip(e) => if e.SilentFree? then b else Happen(b, e)
    case Drain(i, n) =>
      if 0 <= i < |b.slots| then b.At(i, b.slots[i].(rx := if n <= b.slots[i].rx then b.slots[i].rx - n else 0)) else b
    case FlowRef(i) => if 0 <= i < |b.slots| then b.At(i, b.slots[i].(flow := true)) else b
    case FlowUnref(i) => if 0 <= i < |b.slots| then b.At(i, b.slots[i].(flow := false)) else b
  }

  function Run(b: Bridge, actions: seq<Action>): Bridge
    decreases |actions|
  {
    if actions == [] then b else Run(Do(b, actions[0]), actions[1..])
  }

  // ---------------------------------------------------------------- the invariant

  /** An active pcb is the one its slot holds, so its callbacks reach the right connection. */
  ghost predicate PcbOk(b: Bridge, p: PcbId)
    requires p in b.pcbs
  {
    b.pcbs[p].list.Active? ==> 0 <= b.pcbs[p].arg < |b.slots| && b.slots[b.pcbs[p].arg].pcb == Some(p)
  }

  /** Every delivered byte is credited, still owed, or was discarded with the connection; what is
      queued is owed; and nothing is discarded while the connection lives. */
  ghost predicate Ledger(s: Slot) {
    && s.delivered == s.credited + s.unrecved + s.lost
    && s.rx <= s.unrecved
    && (s.pcb.Some? ==> s.lost == 0)
  }

  ghost predicate SlotOk(b: Bridge, i: int)
    requires 0 <= i < |b.slots|
  {
    var s := b.slots[i];
    && Ledger(s)
    && (s.pcb.Some? && s.state.SynSent? ==> s.pcb.value in b.pcbs && b.pcbs[s.pcb.value] == Pcb(Active, i))
  }

  /** What holds even in the middle of a call, when silently freed pcbs may still be referenced. */
  ghost predicate Mid(b: Bridge) {
    && !b.fault
    && (forall p :: p in b.pcbs ==> PcbOk(b, p))
    && (forall i :: 0 <= i < |b.slots| ==> SlotOk(b, i))
  }

  ghost predicate AliveAt(b: Bridge, i: int)
    requires 0 <= i < |b.slots|
  {
    b.slots[i].pcb.Some? ==> Alive(b.pcbs, b.slots[i].pcb.value, i)
  }

  /** No slot references a freed or recycled pcb. */
  ghost predicate AllAlive(b: Bridge) {
    forall i :: 0 <= i < |b.slots| ==> AliveAt(b, i)
  }

  ghost predicate Inv(b: Bridge) {
    Mid(b) && AllAlive(b)
  }

  // ---------------------------------------------------------------- steps

  lemma SweepKeeps(b: Bridge)
    requires Mid(b)
    ensures Inv(Sweep(b))
    ensures AllAlive(b) ==> Sweep(b) == b
  {
    var b' := Sweep(b);
    forall p | p in b'.pcbs ensures PcbOk(b', p) {
      assert PcbOk(b, p);
    }
    forall i | 0 <= i < |b'.slots| ensures SlotOk(b', i) && AliveAt(b', i) {
      assert SlotOk(b, i);
    }
    if AllAlive(b) {
      forall i | 0 <= i < |b.slots| ensures b'.slots[i] == b.slots[i] {
        assert AliveAt(b, i);
      }
      assert b'.slots == b.slots;
    }
  }

  lemma HappenKeeps(b: Bridge, e: Event)
    requires Mid(b)
    ensures Mid(Happen(b, e))
    ensures !e.SilentFree? && AllAlive(b) ==> AllAlive(Happen(b, e))
    ensures forall i :: 0 <= i < |b.slots| && b.slots[i].pcb.None? ==> Happen(b, e).slots[i] == b.slots[i]
  {
    var b' := Happen(b, e);
    if e.p in b.pcbs {
      assert PcbOk(b, e.p);
      forall p | p in b'.pcbs ensures PcbOk(b', p) {
        assert PcbOk(b, p);
      }
      forall i | 0 <= i < |b'.slots| ensures SlotOk(b', i) {
        assert SlotOk(b, i);
      }
      if !e.SilentFree? && AllAlive(b) {
        forall i | 0 <= i < |b'.slots| ensures AliveAt(b', i) {
          assert AliveAt(b, i);
        }
      }
    }
  }

  lemma {:induction false} HappenAllKeeps(b: Bridge, es: seq<Event>)
    requires Mid(b)
    ensures Mid(HappenAll(b, es))
    ensures forall i :: 0 <= i < |b.slots| && b.slots[i].pcb.None? ==> HappenAll(b, es).slots[i] == b.slots[i]
    decreases |es|
  {
    hide Mid;
    if es != [] {
      HappenKeeps(b, es[0]);
      HappenAllKeeps(Happen(b, es[0]), es[1..]);
    }
  }

  /** Replacing one slot's contents without touching any pcb. */
  lemma UpdateKeeps(b: Bridge, i: int, s: Slot)
    requires Mid(b) && 0 <= i < |b.slots|
    requires Ledger(s)
    requires s.pcb == b.slots[i].pcb
             || (s.pcb.None? && (b.slots[i].pcb.Some? ==>
                   !(b.slots[i].pcb.value in b.pcbs && b.pcbs[b.slots[i].pcb.value].list.Active?)))
    requires s.pcb.Some? && s.state.SynSent? ==> b.slots[i].state.SynSent?
    ensures Mid(b.At(i, s))
    ensures AllAlive(b) ==> AllAlive(b.At(i, s))
  {
    var b' := b.At(i, s);
    assert SlotOk(b, i);
    forall p | p in b'.pcbs ensures PcbOk(b', p) {
      assert PcbOk(b, p);
    }
    forall j | 0 <= j < |b'.slots| ensures SlotOk(b', j) {
      assert SlotOk(b, j);
    }
    if AllAlive(b) {
      forall j | 0 <= j < |b'.slots| ensures AliveAt(b', j) {
        assert AliveAt(b, j);
      }
    }
  }

  lemma AbortKeeps(b: Bridge, i: int)
    requires Mid(b) && 0 <= i < |b.slots| && AliveAt(b, i)
    ensures Mid(Abort(b, i)) && |Abort(b, i).slots| == |b.slots|
    ensures Abort(b, i).slots[i].pcb.None?
    ensures AllAlive(b) ==> AllAlive(Abort(b, i))
    ensures b.slots[i].pcb.Some? ==> Abort(b, i).slots[i] == Cleared(b.slots[i])
  {
    var b' := Abort(b, i);
    assert SlotOk(b, i);
    if b.slots[i].pcb.Some? {
      assert PcbOk(b, b.slots[i].pcb.value);
      forall p | p in b'.pcbs ensures PcbOk(b', p) {
        assert PcbOk(b, p);
      }
      forall j | 0 <= j < |b'.slots| ensures SlotOk(b', j) {
        assert SlotOk(b, j);
      }
      if AllAlive(b) {
        forall j | 0 <= j < |b'.slots| ensures AliveAt(b', j) {
          assert AliveAt(b, j);
        }
      }
    }
  }

  /** The bridge just before the final sweep of a successful connect. */
  lemma AttachKeeps(b: Bridge, i: int, p: PcbId)
    requires Mid(b) && 0 <= i < |b.slots| && b.slots[i].pcb.None?
    requires p in b.pcbs && b.pcbs[p].list.Free?
    ensures Mid(b.(pcbs := b.pcbs[p := Pcb(Active, i)]).At(i, EmptySlot.(pcb := Some(p), state := SynSent)))
  {
    var b' := b.(pcbs := b.pcbs[p := Pcb(Active, i)]).At(i, EmptySlot.(pcb := Some(p), state := SynSent));
    forall x | x in b'.pcbs ensures PcbOk(b', x) {
      if x != p { assert PcbOk(b, x); }
    }
    forall j | 0 <= j < |b'.slots| ensures SlotOk(b', j) {
      if j != i { assert SlotOk(b, j); }
    }
  }

  lemma DiscardKeeps(b: Bridge, i: int, p: PcbId)
    requires Mid(b) && p in b.pcbs && b.pcbs[p].list.Free?
    ensures Mid(b.(pcbs := b.pcbs[p := Pcb(Free, i)]))
  {
    var b' := b.(pcbs := b.pcbs[p := Pcb(Free, i)]);
    forall x | x in b'.pcbs ensures PcbOk(b', x) {
      assert PcbOk(b, x);
    }
    forall j | 0 <= j < |b'.slots| ensures SlotOk(b', j) {
      assert SlotOk(b, j);
    }
  }

  /** Whatever was silently freed before or during the call, after `ns_connect` no slot references
      a freed or recycled pcb if and only if a slot was available or none did before the call;
      and the slot handed out was referenced by no flow, not pending reap, and is otherwise fresh. */
  lemma ConnectOutcome(b: Bridge, es: seq<Event>, pick: Option<PcbId>, ok: bool)
    requires Mid(b)
    ensures var (b', i) := Connect(b, es, pick, ok);
            && Mid(b') && |b'.slots| == |b.slots|
            && (AllAlive(b') <==> AllAlive(b) || FirstAvailable(b.slots) < |b.slots|)
            && (i >= 0 ==> i < |b.slots| && Available(b.slots[i]) && ok
                           && b'.slots[i] == EmptySlot.(pcb := pick, state := SynSent) && pick.Some?)
            && (FirstAvailable(b.slots) == |b.slots| ==> b' == b && i == -1)
  {
    hide Mid, AllAlive, HappenAll;
    var i := FirstAvailable(b.slots);
    if i < |b.slots| {
      UpdateKeeps(b, i, EmptySlot);
      var b0 := b.At(i, EmptySlot);
      HappenAllKeeps(b0, es);
      var b1 := HappenAll(b0, es);
      assert b1.slots[i] == EmptySlot;
      if pick.None? || pick.value !in b1.pcbs || !b1.pcbs[pick.value].list.Free? {
        SweepKeeps(b1);
      } else if ok {
        AttachKeeps(b1, i, pick.value);
        var b2 := b1.(pcbs := b1.pcbs[pick.value := Pcb(Active, i)]).At(i, EmptySlot.(pcb := pick, state := SynSent));
        SweepKeeps(b2);
        assert Swept(b2.pcbs, b2.slots[i], i) == b2.slots[i];
      } else {
        DiscardKeeps(b1, i, pick.value);
        SweepKeeps(b1.(pcbs := b1.pcbs[pick.value := Pcb(Free, i)]));
      }
    }
  }

  lemma ReconciledKeeps(s: Slot)
    requires Ledger(s)
    ensures Ledger(Reconciled(s)) && Reconciled(s).pcb == s.pcb
    ensures s.pcb.Some? ==> Reconciled(s).unrecved == s.rx && Reconciled(s).credited == s.credited + (s.unrecved - s.rx)
  {
  }

  lemma Pointwise(b: Bridge, i: int)
    requires Inv(b) && 0 <= i < |b.slots|
    ensures SlotOk(b, i) && AliveAt(b, i)
  {
  }

  lemma TickSlotKeeps(b: Bridge, i: int, due: Due)
    requires Inv(b) && 0 <= i < |b.slots|
    ensures Inv(TickSlot(b, i, due)) && |TickSlot(b, i, due).slots| == |b.slots|
  {
    hide Mid, AllAlive;
    var s := b.slots[i];
    assert SlotOk(b, i) && AliveAt(b, i) by { Pointwise(b, i); }
    if s.pcb.None? {
      UpdateKeeps(b, i, s.(reap := false));
    } else {
      ReconciledKeeps(s);
      UpdateKeeps(b, i, Reconciled(s));
      var b1 := b.At(i, Reconciled(s));
      AbortKeeps(b1, i);
      if s.state.Closed? && b.pcbs[s.pcb.value].list.TimeWait? {
        UpdateKeeps(b1, i, b1.slots[i].(pcb := None));
      }
    }
  }

  lemma {:induction false} TickSlotsKeeps(b: Bridge, i: nat, due: seq<Due>)
    requires Inv(b) && i <= |b.slots| <= |due|
    ensures Inv(TickSlots(b, i, due))
    decreases |b.slots| - i
  {
    hide Inv, TickSlot;
    if i < |b.slots| {
      TickSlotKeeps(b, i, due[i]);
      TickSlotsKeeps(TickSlot(b, i, due[i]), i + 1, due);
    }
  }

  /** Whatever was silently freed before or during the call, after `ns_tick` no slot references a
      freed or recycled pcb, and no pcb operation went astray. */
  lemma TickOutcome(b: Bridge, due: seq<Due>, es: seq<Event>)
    requires Mid(b) && |b.slots| <= |due|
    ensures Inv(Tick(b, due, es)) && |Tick(b, due, es).slots| == |b.slots|
  {
    hide Mid, AllAlive, TickSlots, HappenAll;
    SweepKeeps(b);
    TickSlotsKeeps(Sweep(b), 0, due);
    HappenAllKeeps(TickSlots(Sweep(b), 0, due), es);
    SweepKeeps(HappenAll(TickSlots(Sweep(b), 0, due), es));
  }

  lemma CloseKeeps(b: Bridge, i: int)
    requires Inv(b) && 0 <= i < |b.slots|
    ensures Inv(Close(b, i)) && |Close(b, i).slots| == |b.slots|
  {
    var s := b.slots[i];
    assert SlotOk(b, i) && AliveAt(b, i);
    if s.pcb.Some? && !s.state.Closed? {
      if s.state.SynSent? {
        AbortKeeps(b, i);
        assert Close(b, i) == Abort(b, i);
      } else {
        ReconciledKeeps(s);
        UpdateKeeps(b, i, Close(b, i).slots[i]);
      }
    }
  }

  lemma CallbackKeeps(b: Bridge, p: PcbId, f: Slot -> Slot)
    requires Inv(b)
    requires forall s :: Ledger(s) ==> Ledger(f(s)) && f(s).pcb == s.pcb && (f(s).state.SynSent? ==> s.state.SynSent?)
    ensures Inv(OnCallback(b, p, f)) && |OnCallback(b, p, f).slots| == |b.slots|
  {
    if OnCallback(b, p, f) != b {
      var i := b.pcbs[p].arg;
      assert SlotOk(b, i);
      UpdateKeeps(b, i, f(b.slots[i]));
    }
  }

  lemma LocalKeeps(b: Bridge, a: Action)
    requires Inv(b) && (a.Drain? || a.FlowRef? || a.FlowUnref?)
    ensures Inv(Do(b, a)) && |Do(b, a).slots| == |b.slots|
  {
    if 0 <= a.i < |b.slots| {
      assert SlotOk(b, a.i);
      UpdateKeeps(b, a.i, Do(b, a).slots[a.i]);
    }
  }

  lemma StepKeepsInv(b: Bridge, a: Action)
    requires Inv(b)
    ensures Inv(Do(b, a)) && |Do(b, a).slots| == |b.slots|
  {
    hide Connect, Tick, Abort, Close, Happen;
    match a
    case Connecting(es, pick, ok) => ConnectOutcome(b, es, pick, ok);
    case Ticking(due, es) => if |b.slots| <= |due| { TickOutcome(b, due, es); }
    case Aborting(i) => if 0 <= i < |b.slots| { Pointwise(b, i); AbortKeeps(b, i); }
    case Closing(i) => if 0 <= i < |b.slots| { CloseKeeps(b, i); }
    case Lwip(e) => HappenKeeps(b, e);
    case Established_(p) => CallbackKeeps(b, p, s => Connected(s));
    case Data(p, n) => CallbackKeeps(b, p, s => Received(s, n));
    case Fin(p) => CallbackKeeps(b, p, s => Finned(s));
    case Drain(_, _) => LocalKeeps(b, a);
    case FlowRef(_) => LocalKeeps(b, a);
    case FlowUnref(_) => LocalKeeps(b, a);
  }

  // ---------------------------------------------------------------- every run

  /** `ns_init` over a pool of free elements. */
  function Init(pool: set<PcbId>): Bridge {
    Bridge(seq(NS_MAX_CONN, _ => EmptySlot), map p | p in pool :: Pcb(Free, -1), false)
  }

  lemma {:induction false} RunKeepsInv(b: Bridge, actions: seq<Action>)
    requires Inv(b)
    ensures Inv(Run(b, actions)) && |Run(b, actions).slots| == |b.slots|
    decreases |actions|
  {
    hide Inv, Do;
    if actions != [] {
      StepKeepsInv(b, actions[0]);
      RunKeepsInv(Do(b, actions[0]), actions[1..]);
    }
  }

  /** Over every run, whatever lwIP frees and recycles: each occupied slot's pcb is on an lwIP list
      and points back to the slot, no two slots share one, no operation ever touches a freed or
      foreign pcb, and a live connection's delivered bytes are its credited plus its owed ones. */
  lemma SlotsNeverAlias(pool: set<PcbId>, actions: seq<Action>)
    ensures var b := Run(Init(pool), actions);
            && !b.fault
            && (forall i :: 0 <= i < |b.slots| && b.slots[i].pcb.Some? ==> Alive(b.pcbs, b.slots[i].pcb.value, i))
            && (forall i, j :: 0 <= i < j < |b.slots| && b.slots[i].pcb.Some? ==> b.slots[i].pcb != b.slots[j].pcb)
            && (forall i :: 0 <= i < |b.slots| && b.slots[i].pcb.Some? ==>
                  && b.slots[i].delivered == b.slots[i].credited + b.slots[i].unrecved
                  && b.slots[i].rx <= b.slots[i].unrecved)
  {
    RunKeepsInv(Init(pool), actions);
    var b := Run(Init(pool), actions);
    forall i | 0 <= i < |b.slots| && b.slots[i].pcb.Some?
      ensures Alive(b.pcbs, b.slots[i].pcb.value, i) && Ledger(b.slots[i])
    {
      Pointwise(b, i);
    }
  }

  // ---------------------------------------------------------------- a lost slot rests until the next tick

  /** No run ever leaves a silently freed pcb for the first sweep of a tick: it finds nothing to do. */
  lemma FirstSweepIdle(pool: set<PcbId>, actions: seq<Action>)
    ensures Sweep(Run(Init(pool), actions)) == Run(Init(pool), actions)
  {
    RunKeepsInv(Init(pool), actions);
    SweepKeeps(Run(Init(pool), actions));
  }

  /** The slot is empty and pending reap. */
  predicate Marked(b: Bridge, i: int) {
    0 <= i < |b.slots| && b.slots[i].pcb.None? && b.slots[i].reap
  }

  lemma ConnectSpares(b: Bridge, es: seq<Event>, pick: Option<PcbId>, ok: bool, i: int)
    requires Mid(b) && Marked(b, i)
    ensures var (b', j) := Connect(b, es, pick, ok); j != i && Marked(b', i)
  {
    hide Mid, HappenAll;
    var j := FirstAvailable(b.slots);
    if j < |b.slots| {
      UpdateKeeps(b, j, EmptySlot);
      HappenAllKeeps(b.At(j, EmptySlot), es);
    }
  }

  /** Between two ticks nothing takes the mark away or hands the slot out. */
  lemma MarkStep(b: Bridge, a: Action, i: int)
    requires Inv(b) && Marked(b, i) && !a.Ticking?
    ensures Marked(Do(b, a), i)
    ensures a.Connecting? ==> Connect(b, a.es, a.pick, a.ok).1 != i
  {
    hide Connect, Happen;
    match a
    case Connecting(es, pick, ok) => ConnectSpares(b, es, pick, ok, i);
    case Aborting(j) => if 0 <= j < |b.slots| { Pointwise(b, j); }
    case Closing(j) => if 0 <= j < |b.slots| { Pointwise(b, j); }
    case Lwip(e) => HappenKeeps(b, e);
    case _ =>
  }

  lemma {:induction false} MarkHolds(b: Bridge, actions: seq<Action>, i: int, k: nat)
    requires Inv(b) && Marked(b, i) && k <= |actions|
    requires forall n :: 0 <= n < |actions| ==> !actions[n].Ticking?
    ensures Inv(Run(b, actions[..k])) && Marked(Run(b, actions[..k]), i)
    decreases k
  {
    hide Inv, Do;
    if k == 0 {
      assert actions[..0] == [];
    } else {
      assert !actions[0].Ticking?;
      StepKeepsInv(b, actions[0]);
      MarkStep(b, actions[0], i);
      MarkHolds(Do(b, actions[0]), actions[1..], i, k - 1);
      assert actions[..k][1..] == actions[1..][..k - 1];
    }
  }

  lemma HappenLoss(b: Bridge, e: Event, i: int)
    requires Mid(b) && 0 <= i < |b.slots| && b.slots[i].pcb.Some?
    ensures Happen(b, e).slots[i].pcb == b.slots[i].pcb || Marked(Happen(b, e), i)
  {
  }

  lemma {:induction false} HappenAllLoss(b: Bridge, es: seq<Event>, i: int)
    requires Mid(b) && 0 <= i < |b.slots| && b.slots[i].pcb.Some?
    ensures HappenAll(b, es).slots[i].pcb == b.slots[i].pcb || Marked(HappenAll(b, es), i)
    decreases |es|
  {
    hide Mid, Happen;
    if es != [] {
      HappenKeeps(b, es[0]);
      HappenLoss(b, es[0], i);
      var b' := Happen(b, es[0]);
      if b'.slots[i].pcb.Some? {
        HappenAllLoss(b', es[1..], i);
      } else {
        HappenAllKeeps(b', es[1..]);
      }
    }
  }

  lemma ConnectLoss(b: Bridge, es: seq<Event>, pick: Option<PcbId>, ok: bool, i: int)
    requires Mid(b) && 0 <= i < |b.slots| && b.slots[i].pcb.Some?
    ensures var b' := Connect(b, es, pick, ok).0;
            |b'.slots| == |b.slots| && (b'.slots[i].pcb == b.slots[i].pcb || Marked(b', i))
  {
    hide Mid, HappenAll;
    var j := FirstAvailable(b.slots);
    if j < |b.slots| {
      UpdateKeeps(b, j, EmptySlot);
      HappenAllLoss(b.At(j, EmptySlot), es, i);
    }
  }

  /** A connection lost to another connect's sweep, an error callback, an abort or a close leaves its
      slot marked. */
  lemma LossMarks(b: Bridge, a: Action, i: int)
    requires Inv(b) && 0 <= i < |b.slots| && b.slots[i].pcb.Some? && !a.Ticking?
    ensures |Do(b, a).slots| == |b.slots|
    ensures Do(b, a).slots[i].pcb.None? ==> Marked(Do(b, a), i)
  {
    hide Connect, Happen;
    match a
    case Connecting(es, pick, ok) => ConnectLoss(b, es, pick, ok, i);
    case Aborting(j) => if 0 <= j < |b.slots| { Pointwise(b, j); AbortKeeps(b, j); }
    case Closing(j) => if 0 <= j < |b.slots| { Pointwise(b, j); AbortKeeps(b, j); }
    case Lwip(e) => HappenLoss(b, e, i);
    case _ =>
  }

  /** In every run a slot that loses its connection, to whatever but an idle end, stays marked and is
      handed to no other connection until the next tick. */
  lemma LostSlotRests(pool: set<PcbId>, before: seq<Action>, a: Action, after: seq<Action>, i: int, k: nat)
    requires var b := Run(Init(pool), before);
             0 <= i < |b.slots| && b.slots[i].pcb.Some? && |Do(b, a).slots| == |b.slots| && Do(b, a).slots[i].pcb.None?
    requires a.Ticking? && NS_MAX_CONN <= |a.due| ==> !(i < |a.due| && Idle(Run(Init(pool), before).slots[i], a.due[i]))
    requires (forall n :: 0 <= n < |after| ==> !after[n].Ticking?) && k < |after|
    ensures var m := Run(Do(Run(Init(pool), before), a), after[..k]);
            && Marked(m, i)
            && (after[k].Connecting? ==> Connect(m, after[k].es, after[k].pick, after[k].ok).1 != i)
  {
    hide Inv, Do, Connect;
    var b := Run(Init(pool), before);
    RunKeepsInv(Init(pool), before) by { InitInv(pool); }
    if a.Ticking? { TickStepLoss(b, a, i); } else { LossMarks(b, a, i); }
    StepKeepsInv(b, a);
    MarkHolds(Do(b, a), after, i, k);
    MarkStep(Run(Do(b, a), after[..k]), after[k], i);
  }

  lemma TickStepLoss(b: Bridge, a: Action, i: int)
    requires Inv(b) && 0 <= i < |b.slots| && b.slots[i].pcb.Some? && a.Ticking?
    requires |b.slots| <= |a.due| ==> !Idle(b.slots[i], a.due[i])
    ensures |Do(b, a).slots| == |b.slots|
    ensures Do(b, a).slots[i].pcb.None? ==> Marked(Do(b, a), i)
  {
    if |b.slots| <= |a.due| { TickLossMarks(b, a.due, a.es, i); }
  }

  lemma InitInv(pool: set<PcbId>)
    ensures Inv(Init(pool))
  {
  }

  // ---------------------------------------------------------------- and what a tick itself takes away

  lemma OthersUntouched(b: Bridge, j: int, due: Due, i: int)
    requires Inv(b) && 0 <= j < |b.slots| && 0 <= i < |b.slots| && i != j
    ensures TickSlot(b, j, due).slots[i] == b.slots[i]
  {
    Pointwise(b, j);
  }

  /** A gracefully closed connection that is drained, unreferenced and quiet. */
  predicate Idle(s: Slot, due: Due) {
    s.state.Closed? && s.rx == 0 && !s.flow && due.quiet
  }

  lemma TickSlotLoss(b: Bridge, i: int, due: Due)
    requires Inv(b) && 0 <= i < |b.slots| && b.slots[i].pcb.Some?
    ensures var b' := TickSlot(b, i, due);
            b'.slots[i].pcb == b.slots[i].pcb || Marked(b', i) || Idle(b.slots[i], due)
  {
    hide Mid, AllAlive;
    Pointwise(b, i);
    var s := b.slots[i];
    ReconciledKeeps(s);
    UpdateKeeps(b, i, Reconciled(s));
    AbortKeeps(b.At(i, Reconciled(s)), i);
  }

  lemma {:induction false} TickSlotsLoss(b: Bridge, k: nat, due: seq<Due>, i: int)
    requires Inv(b) && k <= |b.slots| <= |due| && 0 <= i < |b.slots|
    requires b.slots[i].pcb.Some? || i < k
    ensures var b' := TickSlots(b, k, due);
            if i < k then b'.slots[i] == b.slots[i]
            else b'.slots[i].pcb == b.slots[i].pcb || Marked(b', i) || Idle(b.slots[i], due[i])
    decreases |b.slots| - k
  {
    hide Inv, TickSlot, Idle;
    if k < |b.slots| {
      TickSlotKeeps(b, k, due[k]);
      if i == k { TickSlotLoss(b, k, due[k]); } else { OthersUntouched(b, k, due[k], i); }
      TickSlotsLoss(TickSlot(b, k, due[k]), k + 1, due, i);
    }
  }

  /** A connection that a tick takes away leaves its slot marked, whether a deadline, lwIP's timers or
      the last sweep took it, unless it was closed, drained and quiet. */
  lemma TickLossMarks(b: Bridge, due: seq<Due>, es: seq<Event>, i: int)
    requires Inv(b) && |b.slots| <= |due| && 0 <= i < |b.slots| && b.slots[i].pcb.Some?
    ensures |Tick(b, due, es).slots| == |b.slots|
    ensures Tick(b, due, es).slots[i].pcb.None? ==> Marked(Tick(b, due, es), i) || Idle(b.slots[i], due[i])
  {
    hide Mid, AllAlive, TickSlots, HappenAll, Idle;
    SweepKeeps(b);
    TickSlotsKeeps(b, 0, due);
    TickSlotsLoss(b, 0, due, i);
    var t := TickSlots(b, 0, due);
    if t.slots[i].pcb.Some? {
      HappenAllLoss(t, es, i);
    } else {
      HappenAllKeeps(t, es);
    }
  }
}
