/**
 The lwIP bridge's transmit queue: a ring of entries naming packets of a fixed pool, with
 reference counts, a bitmap of free packets and per-connection fair-share counters. All of
 them describe one first-in first-out queue of frames.
 */
module TxQueue {
  import opened Bytes
  import opened BridgeConfig

  /** A framed packet; `payload` is whether the inner TCP segment carries data. */
  datatype Frame = Frame(buf: bytes, payload: bool)

  /** A ring entry: the packet it names and the connection it is charged to. */
  datatype Item = Item(seg: nat, clen: nat, conn: nat)

  datatype Queue = Queue(
    ring: seq<Item>, head: nat, count: nat,
    refs: seq<nat>, free: seq<bool>, used: seq<nat>,
    pkts: seq<Frame>)

  /** The ring cell `m` places after cell `h`. */
  function Cell(h: nat, m: nat): (c: nat)
    ensures c < NS_TX_MAX
  {
    (h + m) % NS_TX_MAX
  }

  predicate Shape(q: Queue) {
    && |q.ring| == |q.refs| == |q.free| == |q.pkts| == NS_TX_MAX
    && |q.used| == NS_MAX_CONN
    && q.head < NS_TX_MAX && q.count <= NS_TX_MAX
  }

  function Contents(q: Queue): (s: seq<Item>)
    requires Shape(q)
    ensures |s| == q.count
  {
    seq(q.count, i requires 0 <= i < q.count => q.ring[Cell(q.head, i)])
  }

  // ---------------------------------------------------------------- counting

  function Naming(s: seq<Item>, p: nat): nat {
    if s == [] then 0 else (if s[0].seg == p then 1 else 0) + Naming(s[1..], p)
  }

  function Owned(s: seq<Item>, c: nat): nat {
    if s == [] then 0 else (if s[0].conn == c then 1 else 0) + Owned(s[1..], c)
  }

  /** Entries of `c` whose packet carries payload. */
  function Data(s: seq<Item>, pkts: seq<Frame>, c: nat): nat {
    if s == [] then 0
    else (if s[0].conn == c && s[0].seg < |pkts| && pkts[s[0].seg].payload then 1 else 0) + Data(s[1..], pkts, c)
  }

  lemma {:induction false} CountAppend(s: seq<Item>, t: seq<Item>, p: nat, c: nat, pkts: seq<Frame>)
    ensures Naming(s + t, p) == Naming(s, p) + Naming(t, p)
    ensures Owned(s + t, c) == Owned(s, c) + Owned(t, c)
    ensures Data(s + t, pkts, c) == Data(s, pkts, c) + Data(t, pkts, c)
  {
    if s == [] {
      assert s + t == t;
    } else {
      assert (s + t)[1..] == s[1..] + t;
      CountAppend(s[1..], t, p, c, pkts);
    }
  }

  lemma {:induction false} CountBounds(s: seq<Item>, p: nat, c: nat, pkts: seq<Frame>)
    ensures Naming(s, p) <= |s|
    ensures Data(s, pkts, c) <= Owned(s, c) <= |s|
    ensures Naming(s, p) == 0 <==> forall i :: 0 <= i < |s| ==> s[i].seg != p
  {
    if s != [] {
      CountBounds(s[1..], p, c, pkts);
      assert s == [s[0]] + s[1..];
    }
  }

  /** A packet no entry names may change without changing anyone's share. */
  lemma {:induction false} DataIgnoresUnnamed(s: seq<Item>, pkts: seq<Frame>, p: nat, f: Frame, c: nat)
    requires p < |pkts| && Naming(s, p) == 0
    ensures Data(s, pkts[p := f], c) == Data(s, pkts, c)
  {
    if s != [] { DataIgnoresUnnamed(s[1..], pkts, p, f, c); }
  }

  // ---------------------------------------------------------------- the invariant

  predicate ItemOk(it: Item) {
    it.seg < NS_TX_MAX && (it.conn < NS_MAX_CONN || it.conn == NS_TX_CONN_CTL)
  }

  ghost predicate PacketOk(q: Queue, s: seq<Item>, p: nat)
    requires Shape(q) && p < NS_TX_MAX
  {
    q.refs[p] == Naming(s, p) <= 1 && q.free[p] == (q.refs[p] == 0)
  }

  ghost predicate ConnOk(q: Queue, s: seq<Item>, c: nat)
    requires Shape(q) && c < NS_MAX_CONN
  {
    q.used[c] == Owned(s, c) && Data(s, q.pkts, c) <= NS_TX_CONN_CAP
  }

  /** The counters agree with the queue contents `s`. */
  ghost predicate Agrees(q: Queue, s: seq<Item>) {
    && Shape(q)
    && (forall i :: 0 <= i < |s| ==> ItemOk(s[i]) && s[i].clen == |q.pkts[s[i].seg].buf|)
    && (forall p :: 0 <= p < NS_TX_MAX ==> PacketOk(q, s, p))
    && (forall c :: 0 <= c < NS_MAX_CONN ==> ConnOk(q, s, c))
  }

  ghost predicate Inv(q: Queue) {
    Shape(q) && Agrees(q, Contents(q))
  }

  /** What the queue means: frames with their owners, oldest first. */
  function Fifo(q: Queue): (f: seq<(Frame, nat)>)
    requires Inv(q)
  {
    var s := Contents(q);
    seq(|s|, i requires 0 <= i < |s| => (assert ItemOk(s[i]); (q.pkts[s[i].seg], s[i].conn)))
  }

  // ---------------------------------------------------------------- the operations

  /** The counters are bytes. */
  function Inc8(x: nat): nat {
    (x + 1) % 256
  }

  function Dec8(x: nat): nat {
    if x == 0 then 255 else x - 1
  }

  /** `tx_enqueue`. */
  function Enqueue(q: Queue, p: nat, conn: nat): (Queue, bool)
    requires Shape(q) && p < NS_TX_MAX && (conn < NS_MAX_CONN || conn == NS_TX_CONN_CTL)
  {
    if q.count >= NS_TX_MAX then (q, false)
    else
      (Queue(q.ring[Cell(q.head, q.count) := Item(p, |q.pkts[p].buf|, conn)], q.head, q.count + 1,
             q.refs[p := Inc8(q.refs[p])],
             if q.refs[p] == 0 then q.free[p := false] else q.free,
             if conn == NS_TX_CONN_CTL then q.used else q.used[conn := Inc8(q.used[conn])],
             q.pkts), true)
  }

  /** `ns_tx_pop` on a queue that is not empty. */
  function Pop(q: Queue): Queue
    requires Shape(q) && q.count > 0 && ItemOk(q.ring[q.head])
  {
    var it := q.ring[q.head];
    Queue(q.ring, Cell(q.head, 1), q.count - 1,
          q.refs[it.seg := Dec8(q.refs[it.seg])],
          if Dec8(q.refs[it.seg]) == 0 then q.free[it.seg := true] else q.free,
          if it.conn == NS_TX_CONN_CTL then q.used else q.used[it.conn := Dec8(q.used[it.conn])],
          q.pkts)
  }

  /** The lowest set bit of the free mask, or NS_TX_MAX. */
  function FirstFree(free: seq<bool>): (i: nat)
    ensures i <= |free| && (i < |free| ==> free[i])
    ensures forall j :: 0 <= j < i ==> !free[j]
  {
    if free == [] || free[0] then 0 else 1 + FirstFree(free[1..])
  }

  /** `bridge_output_frame`: `conn` is the owner the header names, -1 if it names none. */
  function Output(q: Queue, conn: int, f: Frame): (Queue, bool)
    requires Shape(q) && -1 <= conn < NS_MAX_CONN
  {
    if |f.buf| > 8 + 1500 then (q, false)
    else if conn >= 0 && f.payload && q.used[conn] >= NS_TX_CONN_CAP then (q, false)
    else
      var p := FirstFree(q.free);
      if p == |q.free| then (q, false)
      else (Enqueue(q.(pkts := q.pkts[p := f]), p, if conn >= 0 then conn else NS_TX_CONN_CTL).0, true)
  }

  const EmptyQueue := Queue(seq(NS_TX_MAX, _ => Item(0, 0, 0)), 0, 0,
                            seq(NS_TX_MAX, _ => 0), seq(NS_TX_MAX, _ => true), seq(NS_MAX_CONN, _ => 0),
                            seq(NS_TX_MAX, _ => Frame([], false)))

  // ---------------------------------------------------------------- each operation keeps the invariant

  lemma CellShift(h: nat, i: nat)
    requires h < NS_TX_MAX
    ensures Cell(h, 0) == h && Cell(Cell(h, 1), i) == Cell(h, i + 1)
  {
  }

  lemma CellDistinct(h: nat, i: nat, n: nat)
    requires h < NS_TX_MAX && i < n < NS_TX_MAX
    ensures Cell(h, i) != Cell(h, n)
  {
  }

  lemma EnqueueContents(q: Queue, p: nat, conn: nat)
    requires Shape(q) && p < NS_TX_MAX && (conn < NS_MAX_CONN || conn == NS_TX_CONN_CTL) && q.count < NS_TX_MAX
    ensures var q' := Enqueue(q, p, conn).0;
            Shape(q') && Contents(q') == Contents(q) + [Item(p, |q.pkts[p].buf|, conn)]
  {
    hide Cell, Inc8;
    forall i | 0 <= i < q.count ensures Cell(q.head, i) != Cell(q.head, q.count) {
      CellDistinct(q.head, i, q.count);
    }
  }

  lemma PopContents(q: Queue)
    requires Shape(q) && q.count > 0 && ItemOk(q.ring[q.head])
    ensures Shape(Pop(q)) && Contents(Pop(q)) == Contents(q)[1..] && q.ring[q.head] == Contents(q)[0]
  {
    hide Cell, Dec8;
    CellShift(q.head, 0);
    forall i: nat ensures Cell(Cell(q.head, 1), i) == Cell(q.head, i + 1) {
      CellShift(q.head, i);
    }
    var s, s' := Contents(q), Contents(Pop(q));
    assert forall i :: 0 <= i < |s'| ==> s'[i] == s[1..][i];
  }

  lemma EnqueuePacket(q: Queue, s: seq<Item>, p: nat, conn: nat, x: nat)
    requires Agrees(q, s) && |s| < NS_TX_MAX && q.count < NS_TX_MAX
    requires p < NS_TX_MAX && (conn < NS_MAX_CONN || conn == NS_TX_CONN_CTL)
    requires Naming(s, p) == 0 && x < NS_TX_MAX
    ensures PacketOk(Enqueue(q, p, conn).0, s + [Item(p, |q.pkts[p].buf|, conn)], x)
  {
    hide Cell, Contents;
    assert PacketOk(q, s, x);
    CountAppend(s, [Item(p, |q.pkts[p].buf|, conn)], x, 0, q.pkts);
  }

  lemma EnqueueConn(q: Queue, s: seq<Item>, p: nat, conn: nat, c: nat)
    requires Agrees(q, s) && |s| < NS_TX_MAX && q.count < NS_TX_MAX
    requires p < NS_TX_MAX && (conn < NS_MAX_CONN || conn == NS_TX_CONN_CTL) && c < NS_MAX_CONN
    requires conn < NS_MAX_CONN && q.pkts[p].payload ==> Data(s, q.pkts, conn) < NS_TX_CONN_CAP
    ensures ConnOk(Enqueue(q, p, conn).0, s + [Item(p, |q.pkts[p].buf|, conn)], c)
  {
    hide Cell, Contents, PacketOk, Naming, Owned, Data;
    var it := Item(p, |q.pkts[p].buf|, conn);
    assert ConnOk(q, s, c);
    CountAppend(s, [it], 0, c, q.pkts);
    CountOne(it, c, q.pkts);
    CountBounds(s, 0, c, q.pkts);
  }

  lemma CountOne(it: Item, c: nat, pkts: seq<Frame>)
    ensures Owned([it], c) == if it.conn == c then 1 else 0
    ensures Data([it], pkts, c) == if it.conn == c && it.seg < |pkts| && pkts[it.seg].payload then 1 else 0
  {
    assert [it][1..] == [];
  }

  lemma EnqueueAgrees(q: Queue, s: seq<Item>, p: nat, conn: nat)
    requires Agrees(q, s) && |s| < NS_TX_MAX && q.count < NS_TX_MAX
    requires p < NS_TX_MAX && (conn < NS_MAX_CONN || conn == NS_TX_CONN_CTL)
    requires Naming(s, p) == 0
    requires conn < NS_MAX_CONN && q.pkts[p].payload ==> Data(s, q.pkts, conn) < NS_TX_CONN_CAP
    ensures Agrees(Enqueue(q, p, conn).0, s + [Item(p, |q.pkts[p].buf|, conn)])
  {
    hide Cell, Contents, Naming, Owned, Data, PacketOk, ConnOk, Inc8;
    var q', s' := Enqueue(q, p, conn).0, s + [Item(p, |q.pkts[p].buf|, conn)];
    forall x | 0 <= x < NS_TX_MAX ensures PacketOk(q', s', x) {
      EnqueuePacket(q, s, p, conn, x);
    }
    forall c | 0 <= c < NS_MAX_CONN ensures ConnOk(q', s', c) {
      EnqueueConn(q, s, p, conn, c);
    }
  }

  lemma PopAgrees(q: Queue, s: seq<Item>)
    requires Agrees(q, s) && s != [] && q.count > 0 && q.ring[q.head] == s[0]
    ensures ItemOk(s[0]) && Agrees(Pop(q), s[1..])
  {
    assert ItemOk(s[0]);
    var q', s' := Pop(q), s[1..];
    forall x | 0 <= x < NS_TX_MAX ensures PacketOk(q', s', x) {
      assert PacketOk(q, s, x);
    }
    forall c | 0 <= c < NS_MAX_CONN ensures ConnOk(q', s', c) {
      assert ConnOk(q, s, c);
    }
  }

  lemma StoreAgrees(q: Queue, s: seq<Item>, p: nat, f: Frame)
    requires Agrees(q, s) && p < NS_TX_MAX && Naming(s, p) == 0
    ensures Agrees(q.(pkts := q.pkts[p := f]), s)
  {
    var q' := q.(pkts := q.pkts[p := f]);
    CountBounds(s, p, 0, []);
    forall x | 0 <= x < NS_TX_MAX ensures PacketOk(q', s, x) {
      assert PacketOk(q, s, x);
    }
    forall c | 0 <= c < NS_MAX_CONN ensures ConnOk(q', s, c) {
      assert ConnOk(q, s, c);
      DataIgnoresUnnamed(s, q.pkts, p, f, c);
    }
  }

  // ---------------------------------------------------------------- a free packet means room in the ring

  lemma {:induction false} DistinctFit(s: seq<Item>, u: set<nat>)
    requires forall i :: 0 <= i < |s| ==> s[i].seg in u
    requires forall p :: p in u ==> Naming(s, p) <= 1
    ensures |s| <= |u|
    decreases |s|
  {
    if s != [] {
      var p, rest := s[0].seg, s[1..];
      assert Naming(s, p) == 1 + Naming(rest, p);
      CountBounds(rest, p, 0, []);
      forall x | x in u - {p} ensures Naming(rest, x) <= 1 {
        assert Naming(s, x) <= 1;
      }
      DistinctFit(rest, u - {p});
    }
  }

  ghost function Range(n: nat): (r: set<nat>)
    ensures |r| == n
    ensures forall x: nat :: x in r <==> x < n
  {
    if n == 0 then {} else Range(n - 1) + {n - 1}
  }

  /** Finding a free packet guarantees that the enqueue that follows succeeds. */
  lemma FreeMeansRoom(q: Queue, s: seq<Item>, p: nat)
    requires Agrees(q, s) && p < NS_TX_MAX && q.free[p]
    ensures |s| < NS_TX_MAX && Naming(s, p) == 0
  {
    assert PacketOk(q, s, p);
    CountBounds(s, p, 0, []);
    var u := Range(NS_TX_MAX) - {p};
    forall i | 0 <= i < |s| ensures s[i].seg in u {
      assert ItemOk(s[i]);
    }
    forall x | x in u ensures Naming(s, x) <= 1 {
      assert PacketOk(q, s, x);
    }
    DistinctFit(s, u);
  }

  ghost function Segs(s: seq<Item>): (r: set<nat>)
    ensures |r| <= |s|
    ensures forall p: nat :: Naming(s, p) > 0 ==> p in r
  {
    if s == [] then {} else Segs(s[1..]) + {s[0].seg}
  }

  /** And the other way round: while the ring has room, some packet is free. */
  lemma RoomMeansFree(q: Queue, s: seq<Item>)
    requires Agrees(q, s) && |s| < NS_TX_MAX
    ensures FirstFree(q.free) < NS_TX_MAX
  {
    if FirstFree(q.free) == NS_TX_MAX {
      forall p | p in Range(NS_TX_MAX) ensures p in Segs(s) {
        assert PacketOk(q, s, p);
      }
      SubsetSize(Range(NS_TX_MAX), Segs(s));
    }
  }

  // ---------------------------------------------------------------- refinement of a plain bounded FIFO

  type Entry = (Frame, nat)

  function OwnedBy(f: seq<Entry>, c: nat): nat {
    if f == [] then 0 else (if f[0].1 == c then 1 else 0) + OwnedBy(f[1..], c)
  }

  function DataOf(f: seq<Entry>, c: nat): nat {
    if f == [] then 0 else (if f[0].1 == c && f[0].0.payload then 1 else 0) + DataOf(f[1..], c)
  }

  /** When the plain FIFO takes a frame: it fits a packet, its owner is within its share if it
      carries payload, and fewer than NS_TX_MAX frames wait. */
  predicate Accepts(f: seq<Entry>, conn: int, fr: Frame) {
    && |fr.buf| <= 8 + 1500
    && (conn >= 0 && fr.payload ==> OwnedBy(f, conn) < NS_TX_CONN_CAP)
    && |f| < NS_TX_MAX
  }

  ghost function Frames(s: seq<Item>, pkts: seq<Frame>): seq<Entry>
    requires forall i :: 0 <= i < |s| ==> s[i].seg < |pkts|
  {
    seq(|s|, i requires 0 <= i < |s| => (pkts[s[i].seg], s[i].conn))
  }

  lemma {:induction false} FramesCount(s: seq<Item>, pkts: seq<Frame>, c: nat)
    requires forall i :: 0 <= i < |s| ==> s[i].seg < |pkts|
    ensures OwnedBy(Frames(s, pkts), c) == Owned(s, c)
    ensures DataOf(Frames(s, pkts), c) == Data(s, pkts, c)
  {
    if s != [] {
      assert Frames(s, pkts)[1..] == Frames(s[1..], pkts);
      FramesCount(s[1..], pkts, c);
    }
  }

  /** Sending a frame: accepted exactly when the plain FIFO accepts it, and then appended. */
  lemma OutputRefines(q: Queue, conn: int, fr: Frame)
    requires Inv(q) && -1 <= conn < NS_MAX_CONN
    ensures var (q', ok) := Output(q, conn, fr);
            && Inv(q')
            && (ok <==> Accepts(Fifo(q), conn, fr))
            && Fifo(q') == if ok then Fifo(q) + [(fr, if conn >= 0 then conn else NS_TX_CONN_CTL)] else Fifo(q)
  {
    hide Contents;
    var s := Contents(q);
    var owner := if conn >= 0 then conn else NS_TX_CONN_CTL;
    assert Fifo(q) == Frames(s, q.pkts);
    if conn >= 0 {
      FramesCount(s, q.pkts, conn);
      assert ConnOk(q, s, conn);
      CountBounds(s, 0, conn, q.pkts);
    }
    if |s| < NS_TX_MAX { RoomMeansFree(q, s); }
    if Output(q, conn, fr).1 {
      var p := FirstFree(q.free);
      var q1 := q.(pkts := q.pkts[p := fr]);
      FreeMeansRoom(q, s, p);
      StoreAgrees(q, s, p, fr);
      SameRing(q, q1);
      if conn >= 0 { DataIgnoresUnnamed(s, q.pkts, p, fr, conn); }
      CountBounds(s, p, 0, []);
      EnqueueAgrees(q1, s, p, owner);
      EnqueueContents(q1, p, owner);
    }
  }

  lemma SameRing(q: Queue, q': Queue)
    requires Shape(q) && Shape(q') && q.ring == q'.ring && q.head == q'.head && q.count == q'.count
    ensures Contents(q) == Contents(q')
  {
  }

  /** Everything popped, and the entries in `again` put back. */
  function PopAll(q: Queue): Queue
    requires Inv(q)
    decreases q.count
  {
    if q.count == 0 then q
    else
      PopKeeps(q);
      PopAll(Pop(q))
  }

  lemma PopKeeps(q: Queue)
    requires Inv(q) && q.count > 0
    ensures ItemOk(q.ring[q.head]) && Inv(Pop(q)) && Contents(Pop(q)) == Contents(q)[1..]
  {
    hide Contents;
    assert q.ring[q.head] == Contents(q)[0] by { HeadOf(q); }
    PopAgrees(q, Contents(q));
    PopContents(q);
  }

  lemma HeadOf(q: Queue)
    requires Shape(q) && q.count > 0
    ensures q.ring[q.head] == Contents(q)[0]
  {
  }

  function RearmAll(q: Queue, again: seq<Item>): Queue
    requires Shape(q) && forall i :: 0 <= i < |again| ==> ItemOk(again[i])
    decreases |again|
  {
    if again == [] then q
    else
      assert ItemOk(again[0]);
      RearmAll(Enqueue(q, again[0].seg, again[0].conn).0, again[1..])
  }

  lemma {:induction false} PopAllEmpties(q: Queue)
    requires Inv(q)
    ensures Inv(PopAll(q)) && PopAll(q).count == 0 && PopAll(q).pkts == q.pkts
    decreases q.count
  {
    if q.count > 0 {
      PopKeeps(q);
      PopAllEmpties(Pop(q));
    }
  }

  /** Re-arming entries that were just popped: `done` are those already back. */
  lemma {:induction false} RearmAllKeeps(q: Queue, done: seq<Item>, rest: seq<Item>, pkts: seq<Frame>)
    requires Inv(q) && Contents(q) == done && q.pkts == pkts
    requires Rearmable(done + rest, pkts)
    ensures forall i :: 0 <= i < |rest| ==> ItemOk(rest[i])
    ensures Inv(RearmAll(q, rest)) && Contents(RearmAll(q, rest)) == done + rest && RearmAll(q, rest).pkts == pkts
    decreases |rest|
  {
    hide Contents;
    if rest == [] {
      assert done + rest == done;
    } else {
      var it := rest[0];
      assert done + rest == done + [it] + rest[1..];
      RearmOne(q, done, it, rest[1..], pkts);
      RearmAllKeeps(Enqueue(q, it.seg, it.conn).0, done + [it], rest[1..], pkts);
    }
  }

  /** What a list of entries must satisfy to be a queue over these packets. */
  ghost predicate Rearmable(s: seq<Item>, pkts: seq<Frame>) {
    && |s| <= NS_TX_MAX && |pkts| == NS_TX_MAX
    && (forall i :: 0 <= i < |s| ==> ItemOk(s[i]) && s[i].clen == |pkts[s[i].seg].buf|)
    && (forall p: nat :: p < NS_TX_MAX ==> Naming(s, p) <= 1)
    && (forall c: nat :: c < NS_MAX_CONN ==> Data(s, pkts, c) <= NS_TX_CONN_CAP)
  }

  lemma RearmOne(q: Queue, done: seq<Item>, it: Item, rest: seq<Item>, pkts: seq<Frame>)
    requires Inv(q) && Contents(q) == done && q.pkts == pkts
    requires Rearmable(done + [it] + rest, pkts)
    ensures ItemOk(it)
    ensures var q' := Enqueue(q, it.seg, it.conn).0;
            Inv(q') && Contents(q') == done + [it] && q'.pkts == pkts
  {
    hide Contents;
    var s := done + [it] + rest;
    assert s[|done|] == it;
    CountAppend(done + [it], rest, it.seg, it.conn, pkts);
    CountAppend(done, [it], it.seg, it.conn, pkts);
    EnqueueAgrees(q, done, it.seg, it.conn);
    EnqueueContents(q, it.seg, it.conn);
  }

  /** `sock_drain_tx`: pop everything, send a prefix, put the unsent rest back. */
  function Drain(q: Queue, sent: nat): Queue
    requires Inv(q)
  {
    var s := Contents(q);
    PopAllEmpties(q);
    RearmAll(PopAll(q), if sent <= |s| then s[sent..] else [])
  }

  lemma {:induction false} SuffixRearmable(s: seq<Item>, u: nat, q: Queue)
    requires Agrees(q, s) && u <= |s| <= NS_TX_MAX
    ensures Rearmable(s[u..], q.pkts)
  {
    assert s == s[..u] + s[u..];
    forall p: nat | p < NS_TX_MAX ensures Naming(s[u..], p) <= 1 {
      assert PacketOk(q, s, p);
      CountAppend(s[..u], s[u..], p, 0, []);
    }
    forall c: nat | c < NS_MAX_CONN ensures Data(s[u..], q.pkts, c) <= NS_TX_CONN_CAP {
      assert ConnOk(q, s, c);
      CountAppend(s[..u], s[u..], 0, c, q.pkts);
    }
  }

  lemma DrainRefines(q: Queue, sent: nat)
    requires Inv(q)
    ensures Inv(Drain(q, sent))
    ensures Fifo(Drain(q, sent)) == if sent <= |Fifo(q)| then Fifo(q)[sent..] else []
  {
    hide Contents, PopAll, RearmAll, Rearmable, Naming, Owned, Data, PacketOk, ConnOk;
    var s := Contents(q);
    var u := if sent <= |s| then sent else |s|;
    assert s[|s|..] == [];
    PopAllEmpties(q);
    SuffixRearmable(s, u, q);
    assert [] + s[u..] == s[u..];
    RearmAllKeeps(PopAll(q), [], s[u..], q.pkts);
  }

  // ---------------------------------------------------------------- every run

  datatype Op = Send(conn: int, frame: Frame) | Flush(sent: nat)

  predicate OpOk(op: Op) {
    op.Send? ==> -1 <= op.conn < NS_MAX_CONN
  }

  function Step(q: Queue, op: Op): Queue
    requires Inv(q) && OpOk(op)
  {
    match op
    case Send(conn, f) => Output(q, conn, f).0
    case Flush(sent) => Drain(q, sent)
  }

  /** The plain FIFO. */
  function Plain(f: seq<Entry>, op: Op): seq<Entry> {
    match op
    case Send(conn, fr) =>
      if Accepts(f, conn, fr) then f + [(fr, if conn >= 0 then conn else NS_TX_CONN_CTL)] else f
    case Flush(sent) => if sent <= |f| then f[sent..] else []
  }

  lemma StepRefines(q: Queue, op: Op)
    requires Inv(q) && OpOk(op)
    ensures Inv(Step(q, op)) && Fifo(Step(q, op)) == Plain(Fifo(q), op)
  {
    match op
    case Send(conn, f) => OutputRefines(q, conn, f);
    case Flush(sent) => DrainRefines(q, sent);
  }

  function PlainRun(f: seq<Entry>, ops: seq<Op>): seq<Entry>
    decreases |ops|
  {
    if ops == [] then f else PlainRun(Plain(f, ops[0]), ops[1..])
  }

  ghost function Run(q: Queue, ops: seq<Op>): Queue
    requires Inv(q) && forall i :: 0 <= i < |ops| ==> OpOk(ops[i])
    decreases |ops|
  {
    if ops == [] then q
    else
      StepRefines(q, ops[0]);
      Run(Step(q, ops[0]), ops[1..])
  }

  /** The ring, the reference counts, the bitmap and the share counters together behave as a
      plain bounded FIFO over every run, and no connection's payload ever exceeds its share. */
  lemma {:induction false} EveryRunIsFifo(q: Queue, ops: seq<Op>)
    requires Inv(q) && forall i :: 0 <= i < |ops| ==> OpOk(ops[i])
    ensures Inv(Run(q, ops)) && Fifo(Run(q, ops)) == PlainRun(Fifo(q), ops)
    ensures forall c: nat :: c < NS_MAX_CONN ==> DataOf(PlainRun(Fifo(q), ops), c) <= NS_TX_CONN_CAP
    decreases |ops|
  {
    hide Step, Plain;
    if ops == [] {
      var s := Contents(q);
      assert Fifo(q) == Frames(s, q.pkts);
      forall c: nat | c < NS_MAX_CONN ensures DataOf(Fifo(q), c) <= NS_TX_CONN_CAP {
        FramesCount(s, q.pkts, c);
        assert ConnOk(q, s, c);
      }
    } else {
      StepRefines(q, ops[0]);
      EveryRunIsFifo(Step(q, ops[0]), ops[1..]);
    }
  }

  lemma EmptyQueueInv()
    ensures Inv(EmptyQueue) && Fifo(EmptyQueue) == []
  {
    assert Contents(EmptyQueue) == [];
  }
}
