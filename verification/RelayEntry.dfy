/** The same direction as the event loop runs it: one entry updated in place by loops. */
module RelayEntry {
  import opened Bytes
  import opened RelayConfig
  import opened RelayStream

  class Entry {
    const src: bytes          // everything the peer will ever send
    var taken: nat
    var out: bytes
    var pend: bytes
    var pcap: nat
    var fromEof: bool
    var wrClosed: bool
    ghost var lost: bool
    ghost var broken: bool

    ghost function View(): Ent
      reads this
    {
      Ent(taken, out, pend, pcap, fromEof, wrClosed, lost, broken)
    }

    constructor (src: bytes)
      ensures this.src == src && View() == Start
    {
      this.src := src;
      taken, out, pend, pcap, fromEof, wrClosed := 0, [], [], 0, false, false;
      lost, broken := false, false;
    }

    /** `rp_pend` and what its caller does when it fails. */
    method Stash(p: bytes, room: bool)
      modifies this`pend, this`pcap, this`fromEof, this`lost
      ensures View() == StashOf(old(View()), p, room)
    {
      if |pend| + |p| > pcap {
        var nc := if pcap != 0 then pcap else 65536;
        ghost var want := Grown(nc, |pend| + |p|);
        while nc < |pend| + |p|
          invariant nc > 0 && Grown(nc, |pend| + |p|) == want
          decreases |pend| + |p| - nc
        {
          nc := nc * 2;
        }
        if !room {
          pend := [];
          fromEof, lost := true, true;
          return;
        }
        pcap := nc;
      }
      pend := pend + p;
    }

    /** `rp_flush`: push the backlog until the peer refuses. */
    method Flush(sends: seq<Send>) returns (rest: seq<Send>)
      modifies this`out, this`pend, this`fromEof, this`lost
      ensures (View(), rest) == FlushOf(old(View()), sends)
    {
      rest := sends;
      while |pend| > 0 && rest != []
        invariant FlushOf(View(), rest) == FlushOf(old(View()), sends)
        decreases |rest|
      {
        FlushTurn(View(), rest);
        var w := rest[0];
        rest := rest[1..];
        if w.Took? && w.n > 0 {
          var n := Min(w.n, |pend|);
          out, pend := out + pend[..n], pend[n..];
        } else if w.Busy? {
          return;
        } else {
          pend := [];
          fromEof, lost := true, true;
          return;
        }
      }
      FlushEnds(View(), rest);
    }

    /** The write-through fast path: send the chunk at once, stopping at the first refusal. */
    method SendThrough(chunk: bytes, sends: seq<Send>) returns (off: nat, hard: bool, rest: seq<Send>)
      modifies this`out
      ensures (off, hard, rest) == SendOf(|chunk|, sends)
      ensures off <= |chunk| && out == old(out) + chunk[..off]
    {
      off, hard, rest := 0, false, sends;
      ghost var want := SendOf(|chunk|, sends);
      while off < |chunk| && rest != []
        invariant off <= |chunk| && out == old(out) + chunk[..off] && !hard
        invariant var r := SendOf(|chunk| - off, rest); want == (off + r.0, r.1, r.2)
        decreases |rest|
      {
        var w := rest[0];
        rest := rest[1..];
        if w.Took? && w.n > 0 {
          var n := Min(w.n, |chunk| - off);
          out := out + chunk[off..off + n];
          assert chunk[..off] + chunk[off..off + n] == chunk[..off + n];
          off := off + n;
        } else {
          hard := !w.Busy?;
          return;
        }
      }
    }

    /** One chunk that `recv` returned. The tests in front of the two stashes never fire. */
    method Deliver(chunk: bytes, room: bool, sends: seq<Send>) returns (rest: seq<Send>)
      requires CanRead(View()) && 0 < |chunk| <= RP_BUF
      modifies this`taken, this`out, this`pend, this`pcap, this`fromEof, this`lost
      ensures (View(), rest) == DeliverOf(old(View()), chunk, room, sends)
    {
      hide SendOf, StashOf;
      taken := taken + |chunk|;
      rest := sends;
      if pend == [] {
        var off, hard;
        off, hard, rest := SendThrough(chunk, sends);
        if hard {
          pend := [];
          fromEof, lost := true, true;
        } else if off < |chunk| {
          if |pend| + (|chunk| - off) > RP_PEND_LIMIT {
            assert false;
          }
          Stash(chunk[off..], room);
        }
      } else {
        if |pend| + |chunk| > RP_PEND_LIMIT {
          assert false;
        }
        Stash(chunk, room);
      }
    }

    /** The read loop of one pass. */
    method ReadPass(recvs: seq<Recv>, sends: seq<Send>) returns (rest: seq<Send>)
      requires Inv(src, View())
      modifies this`taken, this`out, this`pend, this`pcap, this`fromEof, this`lost, this`broken
      ensures (View(), rest) == ReadOf(src, old(View()), recvs, sends)
    {
      hide DeliverOf;
      rest := sends;
      var i := 0;
      assert recvs[0..] == recvs;
      while i < |recvs| && !fromEof && |pend| + RP_BUF <= RP_PEND_LIMIT
        invariant 0 <= i <= |recvs| && Inv(src, View())
        invariant ReadOf(src, View(), recvs[i..], rest) == ReadOf(src, old(View()), recvs, sends)
        decreases |recvs| - i
      {
        var r := recvs[i];
        assert recvs[i..][0] == r && recvs[i..][1..] == recvs[i + 1..];
        i := i + 1;
        match r
        case Data(k, room) =>
          var n := Min(Min(k, RP_BUF), |src| - taken);
          if n == 0 {
            return;
          }
          DeliverKeeps(src, View(), n, room, rest);
          hide Inv;
          rest := Deliver(src[taken..taken + n], room, rest);
        case Eof =>
          if taken == |src| {
            fromEof := true;
          }
          return;
        case Again => return;
        case NoBufs => return;
        case Intr =>
        case Broken =>
          fromEof, broken := true, true;
          return;
      }
    }

    /** One round of the event loop and the loop bottom for this entry. */
    method Serve(p: Pass)
      requires Inv(src, View())
      modifies this`taken, this`out, this`pend, this`pcap, this`fromEof, this`wrClosed, this`lost, this`broken
      ensures View() == RoundOf(src, old(View()), p)
    {
      hide FlushOf, ReadOf;
      var rest := p.sends;
      if p.readable && !fromEof && |pend| + RP_BUF <= RP_PEND_LIMIT {
        rest := ReadPass(p.recvs, p.sends);
      } else if p.readable {
        ReadStuck(src, View(), p.recvs, p.sends);
      }
      if |pend| > 0 {
        rest := Flush(rest);
      } else {
        FlushEnds(View(), rest);
      }
      if fromEof && |pend| == 0 && !wrClosed {
        wrClosed := true;
      }
    }

    /** The direction thread's exit (`rp_dir_retire_all`): half-close whatever the state. */
    method Retire()
      modifies this`wrClosed
      ensures View() == old(View()).(shut := true)
    {
      if !wrClosed {
        wrClosed := true;
      }
    }
  }

  lemma FlushTurn(e: Ent, sends: seq<Send>)
    requires e.pend != [] && sends != []
    ensures var w := sends[0];
            FlushOf(e, sends) ==
            if w.Took? && w.n > 0 then
              var n := Min(w.n, |e.pend|);
              FlushOf(e.(out := e.out + e.pend[..n], pend := e.pend[n..]), sends[1..])
            else if w.Busy? then (e, sends[1..])
            else (e.(pend := [], eof := true, lost := true), sends[1..])
  {
    var w := sends[0];
    assert e.out + e.pend[..0] == e.out && e.pend[0..] == e.pend;
    if w.Took? && w.n > 0 {
      var n := Min(w.n, |e.pend|);
      var q := e.pend[n..];
      SendBounds(|q|, sends[1..]);
      var m := SendOf(|q|, sends[1..]).0;
      assert e.out + e.pend[..n] + q[..m] == e.out + e.pend[..n + m] && q[m..] == e.pend[n + m..];
    }
  }

  lemma FlushEnds(e: Ent, sends: seq<Send>)
    requires e.pend == [] || sends == []
    ensures FlushOf(e, sends) == (e, sends)
  {
    assert e.out + e.pend[..0] == e.out && e.pend[0..] == e.pend;
  }

  /** A direction's whole life, thread exit included, is the life of its value. */
  method Live(src: bytes, events: seq<Event>) returns (received: bytes, read: nat, backlog: bytes, shut: bool)
    ensures Inv(src, Start)
    ensures var f := LifeOf(src, Start, events);
            received == f.out && read == f.taken && backlog == f.pend && shut == f.shut
  {
    hide RoundOf, Inv;
    StartInv(src);
    var e := new Entry(src);
    var i := 0;
    assert events[0..] == events;
    while i < |events| && !e.wrClosed
      invariant 0 <= i <= |events| && fresh(e) && e.src == src && Inv(src, e.View())
      invariant LifeOf(src, e.View(), events[i..]) == LifeOf(src, Start, events)
      decreases |events| - i
    {
      assert events[i..][0] == events[i] && events[i..][1..] == events[i + 1..];
      EventKeeps(src, e.View(), events[i]);
      match events[i] {
        case Round(p) => e.Serve(p);
        case Exit => e.Retire();
      }
      i := i + 1;
    }
    received, read, backlog, shut := e.out, e.taken, e.pend, e.wrClosed;
  }
}
