/** The slot table as the bridge keeps it: the loops of the sweep, the slot search, the periodic
    tick and the window credit, over an array updated in place. */
module ConnTable {
  import opened Bytes
  import opened BridgeConfig
  import opened ConnSlots

  function Sum(s: seq<nat>): nat {
    if s == [] then 0 else Sum(s[..|s| - 1]) + s[|s| - 1]
  }

  class Table {
    const conns: array<Slot>
    var pcbs: map<PcbId, Pcb>
    ghost var fault: bool

    ghost function View(): Bridge
      reads this, conns
    {
      Bridge(conns[..], pcbs, fault)
    }

    constructor (pool: set<PcbId>)
      ensures View() == Init(pool) && fresh(conns)
    {
      conns := new Slot[NS_MAX_CONN](_ => EmptySlot);
      pcbs := map p | p in pool :: Pcb(Free, -1);
      fault := false;
    }

    /** Empty the slots whose control block is no longer theirs. */
    method SweepStale()
      modifies conns
      ensures View() == Sweep(old(View()))
    {
      for i := 0 to conns.Length
        invariant forall j :: 0 <= j < i ==> conns[j] == Swept(pcbs, old(conns[j]), j)
        invariant forall j :: i <= j < conns.Length ==> conns[j] == old(conns[j])
      {
        var c := conns[i];
        if c.pcb.None? || Alive(pcbs, c.pcb.value, i) {
          continue;
        }
        conns[i] := c.(pcb := None, state := Closed, reap := true, rx := 0, unrecved := 0, lost := c.lost + c.unrecved);
      }
    }

    method SlotAlloc() returns (idx: int)
      modifies conns
      ensures idx == -1 <==> FirstAvailable(old(conns[..])) == conns.Length
      ensures idx >= 0 ==> idx == FirstAvailable(old(conns[..])) && conns[..] == old(conns[..])[idx := EmptySlot]
      ensures idx < 0 ==> conns[..] == old(conns[..])
    {
      var i := 0;
      while i < conns.Length && !Available(conns[i])
        invariant 0 <= i <= conns.Length
        invariant forall j :: 0 <= j < i ==> !Available(conns[j])
      {
        i := i + 1;
      }
      if i == conns.Length {
        return -1;
      }
      conns[i] := EmptySlot;
      return i;
    }

    /** Credit what the flow layer drained since the last time, in chunks that fit 16 bits. */
    method ReconcileRxq(i: nat) returns (chunks: seq<nat>)
      requires i < conns.Length
      modifies conns
      ensures conns[..] == old(conns[..])[i := Reconciled(old(conns[i]))]
      ensures forall k :: 0 <= k < |chunks| ==> 0 < chunks[k] <= 0xFFFF
      ensures Sum(chunks) == conns[i].credited - old(conns[i].credited)
    {
      chunks := [];
      var c := conns[i];
      if c.pcb.None? || c.rx >= c.unrecved {
        return;
      }
      var left := c.unrecved - c.rx;
      ghost var total := left;
      conns[i] := c.(unrecved := c.rx, credited := c.credited + left);
      while left > 0
        invariant 0 <= left <= total && Sum(chunks) == total - left
        invariant forall k :: 0 <= k < |chunks| ==> 0 < chunks[k] <= 0xFFFF
      {
        var chunk := if left > 0xFFFF then 0xFFFF else left;
        assert (chunks + [chunk])[..|chunks|] == chunks;
        chunks := chunks + [chunk];
        left := left - chunk;
      }
    }

    method AbortConn(i: nat)
      requires i < conns.Length
      modifies this, conns
      ensures View() == Abort(old(View()), i)
    {
      var c := conns[i];
      if c.pcb.None? {
        return;
      }
      var p := c.pcb.value;
      if !Alive(pcbs, p, i) {
        fault := true;
        return;
      }
      var was := pcbs[p];
      pcbs := pcbs[p := was.(list := Free)];
      if was.list.Active? && conns[was.arg].pcb.Some? {
        conns[was.arg] := Cleared(conns[was.arg]);
      }
      if conns[i].pcb.Some? {
        conns[i] := Cleared(conns[i]);
      }
    }

    method TickOne(i: nat, due: Due)
      requires i < conns.Length
      modifies this, conns
      ensures View() == TickSlot(old(View()), i, due)
    {
      hide Abort;
      ghost var b := View();
      var c := conns[i];
      if c.pcb.None? {
        conns[i] := c.(reap := false);
        return;
      }
      var p := c.pcb.value;
      var active := p in pcbs && pcbs[p].list.Active?;
      var lingering := p in pcbs && pcbs[p].list.TimeWait?;
      if Alive(pcbs, p, i) {
        var chunks := ReconcileRxq(i);
      } else {
        fault := true;
      }
      if || (c.state.SynSent? && due.connect) || (c.state.FinWait? && due.finWait)
         || (c.state.Closed? && active && due.lastAck)
      {
        AbortConn(i);
      } else if c.state.Closed? && lingering && conns[i].rx == 0 && !c.flow && due.quiet {
        conns[i] := conns[i].(pcb := None);
      }
    }

    method TickAll(due: seq<Due>)
      requires conns.Length <= |due|
      modifies this, conns
      ensures View() == TickSlots(Sweep(old(View())), 0, due)
    {
      SweepStale();
      hide Sweep, TickSlot;
      for i := 0 to conns.Length
        invariant TickSlots(View(), i, due) == TickSlots(Sweep(old(View())), 0, due)
      {
        TickOne(i, due[i]);
      }
    }
  }
}
