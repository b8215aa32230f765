/** The transmit queue as the bridge keeps it: fixed arrays updated in place, including the
    drain that holds pointers into the ring while it re-arms over the same cells. */
module TxRing {
  import opened BridgeConfig
  import opened TxQueue
  import opened TxRuns

  /** The transmit fields of `Netstack`. */
  class Netstack {
    const ring: array<Item>
    const refs: array<nat>
    const free: array<bool>
    const used: array<nat>
    const pkt: array<Frame>
    var head: nat
    var count: nat

    ghost predicate Valid()
      reads this, ring, refs, free, used, pkt
    {
      refs != used && Inv(View())
    }

    ghost function View(): Queue
      reads this, ring, refs, free, used, pkt
    {
      Queue(ring[..], head, count, refs[..], free[..], used[..], pkt[..])
    }

    constructor ()
      ensures Valid() && View() == EmptyQueue
      ensures fresh(ring) && fresh(refs) && fresh(free) && fresh(used) && fresh(pkt)
    {
      ring := new Item[NS_TX_MAX](_ => Item(0, 0, 0));
      refs := new nat[NS_TX_MAX](_ => 0);
      free := new bool[NS_TX_MAX](_ => true);
      used := new nat[NS_MAX_CONN](_ => 0);
      pkt := new Frame[NS_TX_MAX](_ => Frame([], false));
      head, count := 0, 0;
      new;
      assert View() == EmptyQueue;
      EmptyQueueInv();
    }

    /** The mask words in order, and the lowest set bit of the first word that has one. */
    method FindFreeSlot() returns (p: nat)
      requires Valid()
      ensures p == FirstFree(View().free)
    {
      for w := 0 to 2
        invariant forall j :: 0 <= j < w * 64 ==> !free[j]
      {
        var bit := 0;
        while bit < 64 && !free[w * 64 + bit]
          invariant 0 <= bit <= 64
          invariant forall j :: 0 <= j < w * 64 + bit ==> !free[j]
        {
          bit := bit + 1;
        }
        if bit < 64 {
          return w * 64 + bit;
        }
      }
      return NS_TX_MAX;
    }

    method TxEnqueue(p: nat, conn: nat) returns (ok: bool)
      requires refs != used && Shape(View())
      requires p < NS_TX_MAX && (conn < NS_MAX_CONN || conn == NS_TX_CONN_CTL)
      modifies this`count, ring, refs, free, used
      ensures (View(), ok) == Enqueue(old(View()), p, conn)
      ensures ok == (old(count) < NS_TX_MAX) && count == old(count) + (if ok then 1 else 0)
      ensures forall x :: 0 <= x < NS_TX_MAX && x != Cell(head, old(count)) ==> ring[x] == old(ring[x])
    {
      if count >= NS_TX_MAX {
        return false;
      }
      ring[Cell(head, count)] := Item(p, |pkt[p].buf|, conn);
      count := count + 1;
      var was := refs[p];
      refs[p] := Inc8(was);
      if was == 0 {
        free[p] := false;
      }
      if conn != NS_TX_CONN_CTL {
        used[conn] := Inc8(used[conn]);
      }
      return true;
    }

    /** `bridge_output_frame`; `conn` is what `bridge_output_parse` found. */
    method OutputFrame(conn: int, f: Frame) returns (ok: bool)
      requires Valid() && -1 <= conn < NS_MAX_CONN
      modifies this`count, ring, refs, free, used, pkt
      ensures Valid()
      ensures (View(), ok) == Output(old(View()), conn, f)
    {
      ghost var q := View();
      OutputRefines(q, conn, f);
      if |f.buf| > 8 + 1500 {
        return false;
      }
      if conn >= 0 && f.payload && used[conn] >= NS_TX_CONN_CAP {
        return false;
      }
      var p := FindFreeSlot();
      if p == NS_TX_MAX {
        return false;
      }
      pkt[p] := f;
      assert View() == q.(pkts := q.pkts[p := f]);
      ok := TxEnqueue(p, if conn >= 0 then conn else NS_TX_CONN_CTL);
      return true;
    }

    method TxPop()
      requires Valid() && count > 0
      modifies this`head, this`count, refs, free, used
      ensures Valid()
      ensures ItemOk(old(ring[head])) && View() == Pop(old(View()))
      ensures head == Cell(old(head), 1) && count == old(count) - 1
    {
      ghost var q := View();
      PopKeeps(q);
      var it := ring[head];
      refs[it.seg] := Dec8(refs[it.seg]);
      if refs[it.seg] == 0 {
        free[it.seg] := true;
      }
      if it.conn != NS_TX_CONN_CTL {
        used[it.conn] := Dec8(used[it.conn]);
      }
      head := Cell(head, 1);
      count := count - 1;
      assert View() == Pop(q);
    }

    /** One round of the pop loop. */
    method PopOne() returns (cell: nat, len: nat)
      requires Valid() && count > 0
      modifies this`head, this`count, refs, free, used
      ensures Valid() && PopAll(View()) == PopAll(old(View()))
      ensures cell == old(head) && head == Cell(old(head), 1) && count == old(count) - 1
      ensures cell < ring.Length && ring[cell].seg < pkt.Length && len == |pkt[ring[cell].seg].buf|
    {
      hide Agrees, Contents, Cell;
      PopKeeps(View());
      cell, len := head, |pkt[ring[head].seg].buf|;
      TxPop();
    }

    /** The pop loop of the drain: `items` are the popped ring cells, kept as pointers. */
    method PopBatch() returns (items: seq<nat>, lens: seq<nat>)
      requires Valid()
      modifies this`head, this`count, refs, free, used
      ensures Valid() && count == 0 && View() == PopAll(old(View()))
      ensures head == Cell(old(head), old(count))
      ensures |items| == |lens| == old(count)
      ensures forall m :: 0 <= m < |items| ==> items[m] == Cell(old(head), m)
      ensures forall m :: 0 <= m < |items| ==>
                items[m] < ring.Length && ring[items[m]].seg < pkt.Length && lens[m] == |pkt[ring[items[m]].seg].buf|
    {
      hide Inv, Cell, PopAll;
      items, lens := [], [];
      BatchStart(View());
      ghost var all := PopAll(View());
      PopAllEmpties(View());
      while |items| < NS_TX_MAX && count > 0
        invariant Valid() && PopAll(View()) == all
        invariant count + |items| == old(count) && |items| == |lens| && head == Cell(old(head), |items|)
        invariant forall m :: 0 <= m < |items| ==> items[m] == Cell(old(head), m)
        invariant forall m :: 0 <= m < |items| ==>
                    && items[m] < ring.Length && ring[items[m]].seg < pkt.Length
                    && lens[m] == |pkt[ring[items[m]].seg].buf|
        decreases count
      {
        NextCell(old(head), |items|);
        var cell, len := PopOne();
        items, lens := items + [cell], lens + [len];
      }
      PopNone(View());
    }

    /** Re-arm the entry behind one pointer. */
    method RearmOne(cell: nat)
      requires refs != used && Shape(View()) && count < NS_TX_MAX && cell < NS_TX_MAX && ItemOk(ring[cell])
      modifies this`count, ring, refs, free, used
      ensures Shape(View()) && View() == Enqueue(old(View()), old(ring[cell]).seg, old(ring[cell]).conn).0
      ensures count == old(count) + 1
      ensures forall x :: 0 <= x < NS_TX_MAX && x != Cell(head, old(count)) ==> ring[x] == old(ring[x])
    {
      var it := ring[cell];
      var ok := TxEnqueue(it.seg, it.conn);
    }

    /** Put the entries behind the pointers `items[u..]` back at the tail. A cell may be rewritten
        while later pointers still wait to be read through, yet never before it was read. */
    method RearmFrom(items: seq<nat>, u: nat, ghost s: seq<Item>, ghost head0: nat)
      requires refs != used && Shape(View()) && count == 0 && u <= |s| == |items| <= NS_TX_MAX
      requires head0 < NS_TX_MAX && head == Cell(head0, |s|)
      requires forall m :: 0 <= m < |s| ==> items[m] == Cell(head0, m) && ring[items[m]] == s[m] && ItemOk(s[m])
      modifies this`count, ring, refs, free, used
      ensures View() == RearmAll(old(View()), s[u..])
    {
      hide Cell, Enqueue, ItemOk;
      for m := u to |items|
        invariant Shape(View()) && count == m - u
        invariant forall x :: m <= x < |s| ==> ring[items[x]] == s[x]
        invariant RearmAll(View(), s[m..]) == RearmAll(old(View()), s[u..])
      {
        assert s[m..][0] == s[m] && s[m..][1..] == s[m + 1..];
        RearmOne(items[m]);
        forall x | m < x < |s| ensures ring[items[x]] == s[x] {
          CellsApart(head0, |s|, u, m, x);
        }
      }
      assert s[|s|..] == [];
    }

    /** `sock_drain_tx`: pop the queue, send it, and re-arm from the first frame that did not go
        out. What the socket took goes out, and with what is then queued it is the old queue, in order. */
    method DrainTx(unit: nat, answers: seq<nat>) returns (sent: nat)
      requires Valid()
      modifies this, ring, refs, free, used
      ensures Valid()
      ensures sent == SentOf(Lens(Fifo(old(View()))), unit, answers)
      ensures View() == Drain(old(View()), sent)
      ensures Fifo(View()) == Fifo(old(View()))[sent..]
    {
      hide Agrees, Contents, Pop, Cell, PopAll, RearmAll;
      ghost var q, s := View(), Contents(View());
      CellsOf(q);
      PopAllEmpties(q);
      var items, lens := PopBatch();
      assert lens == Lens(Fifo(q)) by { LensOf(q, lens); }
      sent := SendRuns(lens, unit, answers);
      RearmFrom(items, sent, s, q.head);
      DrainRefines(q, sent);
    }
  }

  /** The lengths of the queued frames. */
  function Lens(f: seq<(Frame, nat)>): seq<nat> {
    seq(|f|, i requires 0 <= i < |f| => |f[i].0.buf|)
  }

  lemma LensOf(q: Queue, lens: seq<nat>)
    requires Inv(q) && |lens| == q.count
    requires forall m :: 0 <= m < q.count ==>
               var it := q.ring[Cell(q.head, m)]; it.seg < NS_TX_MAX && lens[m] == |q.pkts[it.seg].buf|
    ensures lens == Lens(Fifo(q))
  {
    hide Cell;
    CellsOf(q);
  }

  lemma BatchStart(q: Queue)
    requires Inv(q)
    ensures q.count <= NS_TX_MAX && q.head == Cell(q.head, 0)
  {
    hide Cell;
    CellShift(q.head, 0);
  }

  lemma PopNone(q: Queue)
    requires Inv(q) && q.count == 0
    ensures PopAll(q) == q
  {
  }

  lemma NextCell(h: nat, k: nat)
    ensures Cell(Cell(h, k), 1) == Cell(h, k + 1)
  {
  }

  lemma CellsOf(q: Queue)
    requires Inv(q)
    ensures forall m :: 0 <= m < q.count ==> q.ring[Cell(q.head, m)] == Contents(q)[m] && ItemOk(Contents(q)[m])
  {
  }

  lemma Offset(y: nat, d: nat)
    requires 1 <= d < NS_TX_MAX
    ensures (y + d) % NS_TX_MAX != y % NS_TX_MAX
  {
  }

  /** The tail cell a re-arm writes is none of those still to be read through a pointer. */
  lemma CellsApart(head0: nat, n: nat, u: nat, m: nat, x: nat)
    requires head0 < NS_TX_MAX && u <= m < x < n <= NS_TX_MAX
    ensures Cell(Cell(head0, n), m - u) != Cell(head0, x)
  {
    var d := n + m - u - x;
    assert Cell(Cell(head0, n), m - u) == (head0 + n + (m - u)) % NS_TX_MAX;
    assert head0 + n + (m - u) == head0 + x + d;
    Offset(head0 + x, d);
  }
}
