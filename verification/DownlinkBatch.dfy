/**
 The server's downlink batch: frames staged for one `sendmmsg`, with the message headers and
 I/O vectors pointing into the batch's own cells. A partial send compacts the cells and points
 everything at its new place. Pointers are modelled by what they point at, so a stale one shows
 up as the wrong peer or payload.
 */
module DownlinkBatch {

  import opened Bytes

  const SRV_DL_BATCH := 64
  const SRV_DL_SLOT := 1500
  const IWAN_HDR_LEN := 8

  /** An I/O vector: a pointer into `hdrs` or `pl`, and a length. */
  datatype Ptr = Hdr(i: nat) | Pl(i: nat)
  datatype Iov = Iov(base: Ptr, len: nat)

  /** A message header: `name` points into `peers`, `iov` at the first of its two vectors. */
  datatype Msg = Msg(name: nat, iov: nat)

  /** What goes on the wire. */
  datatype Packet = Packet(peer: int, hdr: seq<byte>, payload: seq<byte>)

  /** What became of a packet that left the batch. */
  datatype Fate = Sent(p: Packet) | Dropped(p: Packet) | Abandoned(p: Packet)

  function Packets(log: seq<Fate>): seq<Packet> {
    seq(|log|, i requires 0 <= i < |log| => log[i].p)
  }

  function CountDropped(log: seq<Fate>): nat {
    if log == [] then 0 else CountDropped(log[..|log| - 1]) + (if log[|log| - 1].Dropped? then 1 else 0)
  }

  lemma {:induction false} LogAppend(a: seq<Fate>, b: seq<Fate>)
    ensures Packets(a + b) == Packets(a) + Packets(b)
    ensures CountDropped(a + b) == CountDropped(a) + CountDropped(b)
  {
    if b == [] {
      assert a + b == a;
    } else {
      assert (a + b)[..|a + b| - 1] == a + b[..|b| - 1];
      LogAppend(a, b[..|b| - 1]);
    }
  }

  // ---------------------------------------------------------------- the batch as a value

  /** The cells of `struct srv_dl_batch` and the number in use. */
  datatype Cells = Cells(hdrs: seq<seq<byte>>, pl: seq<seq<byte>>, peers: seq<int>, iovs: seq<Iov>, msgs: seq<Msg>,
                         n: nat)
  {
    ghost predicate Shape() {
      && |hdrs| == |pl| == |peers| == |msgs| == SRV_DL_BATCH && |iovs| == 2 * SRV_DL_BATCH
      && n <= SRV_DL_BATCH
      && (forall k :: 0 <= k < SRV_DL_BATCH ==> |hdrs[k]| == IWAN_HDR_LEN && |pl[k]| == SRV_DL_SLOT)
    }

    /** The bytes an I/O vector points at. */
    function Deref(v: Iov): seq<byte> {
      var cell := match v.base
        case Hdr(i) => if i < |hdrs| then hdrs[i] else []
        case Pl(i) => if i < |pl| then pl[i] else [];
      if v.len <= |cell| then cell[..v.len] else cell
    }

    /** The datagram the kernel builds from message `k`, following every pointer. */
    function Datagram(k: nat): Packet
      requires k < |msgs|
    {
      var m := msgs[k];
      if m.name < |peers| && m.iov + 1 < |iovs|
      then Packet(peers[m.name], Deref(iovs[m.iov]), Deref(iovs[m.iov + 1]))
      else Packet(-1, [], [])
    }

    /** Message `k` points at the cells of index `k` and at nothing else. */
    predicate Wired(k: nat) {
      && k < |msgs| && 2 * k + 1 < |iovs|
      && msgs[k] == Msg(k, 2 * k)
      && iovs[2 * k] == Iov(Hdr(k), IWAN_HDR_LEN)
      && iovs[2 * k + 1].base == Pl(k) && iovs[2 * k + 1].len <= SRV_DL_SLOT
    }

    ghost predicate Valid() {
      Shape() && forall k :: 0 <= k < n ==> Wired(k)
    }

    function Staged(): (s: seq<Packet>)
      requires n <= |msgs|
      ensures |s| == n
    {
      seq(n, k requires 0 <= k < n => Datagram(k))
    }
  }

  /** The staging branch of `srv_tun_pkt`. */
  function StageOf(c: Cells, p: Packet): Cells
    requires c.Shape() && c.n < SRV_DL_BATCH && |p.payload| <= SRV_DL_SLOT
  {
    var i := c.n;
    Cells(c.hdrs[i := p.hdr],
          c.pl[i := p.payload + c.pl[i][|p.payload|..]],
          c.peers[i := p.peer],
          c.iovs[2 * i := Iov(Hdr(i), IWAN_HDR_LEN)][2 * i + 1 := Iov(Pl(i), |p.payload|)],
          c.msgs[i := Msg(i, 2 * i)],
          i + 1)
  }

  /** `memmove(a, a + from, count)`. */
  function Moved<T>(a: seq<T>, from: nat, count: nat): seq<T>
    requires from + count <= |a|
  {
    a[from..from + count] + a[count..]
  }

  /** The compaction of `srv_dl_flush`: five moves, then every pointer of a kept message rewritten. */
  function CompactOf(c: Cells, sent: nat): Cells
    requires c.Shape() && sent <= c.n
  {
    var kept := c.n - sent;
    var iovs := Moved(c.iovs, 2 * sent, 2 * kept);
    var msgs := Moved(c.msgs, sent, kept);
    Cells(Moved(c.hdrs, sent, kept), Moved(c.pl, sent, kept), Moved(c.peers, sent, kept),
          seq(|iovs|, i requires 0 <= i < |iovs| =>
            if i >= 2 * kept then iovs[i] else Iov(if i % 2 == 0 then Hdr(i / 2) else Pl(i / 2), iovs[i].len)),
          seq(|msgs|, i requires 0 <= i < |msgs| => if i >= kept then msgs[i] else Msg(i, 2 * i)),
          kept)
  }

  /** A wired message is built from its own cells. */
  lemma WiredDatagram(c: Cells, k: nat)
    requires c.Shape() && k < SRV_DL_BATCH && c.Wired(k)
    ensures c.Datagram(k) == Packet(c.peers[k], c.hdrs[k], c.pl[k][..c.iovs[2 * k + 1].len])
  {
    assert c.hdrs[k][..IWAN_HDR_LEN] == c.hdrs[k];
  }

  lemma StageAppends(c: Cells, p: Packet)
    requires c.Valid() && c.n < SRV_DL_BATCH
    requires |p.hdr| == IWAN_HDR_LEN && |p.payload| <= SRV_DL_SLOT
    ensures StageOf(c, p).Valid()
    ensures StageOf(c, p).Staged() == c.Staged() + [p]
  {
    hide Cells.Datagram;
    var c' := StageOf(c, p);
    forall k | 0 <= k < c.n
      ensures c'.Wired(k) && c'.Datagram(k) == c.Datagram(k)
    {
      assert c.Wired(k);
      WiredDatagram(c, k);
      WiredDatagram(c', k);
    }
    WiredDatagram(c', c.n);
    assert c'.Datagram(c.n) == p;
  }

  lemma CompactShape(c: Cells, sent: nat)
    requires c.Shape() && sent <= c.n
    ensures CompactOf(c, sent).Shape()
  {
  }

  /** The cells of a kept message after the moves and the re-pointing. */
  lemma CompactCells(c: Cells, sent: nat, k: nat)
    requires c.Shape() && sent <= c.n && k < c.n - sent
    ensures var c' := CompactOf(c, sent);
            && c'.Shape()
            && c'.hdrs[k] == c.hdrs[sent + k] && c'.pl[k] == c.pl[sent + k] && c'.peers[k] == c.peers[sent + k]
            && c'.msgs[k] == Msg(k, 2 * k)
            && c'.iovs[2 * k] == Iov(Hdr(k), c.iovs[2 * (sent + k)].len)
            && c'.iovs[2 * k + 1] == Iov(Pl(k), c.iovs[2 * (sent + k) + 1].len)
  {
    CompactShape(c, sent);
    assert (2 * k) / 2 == k && (2 * k) % 2 == 0;
    assert (2 * k + 1) / 2 == k && (2 * k + 1) % 2 == 1;
  }

  lemma CompactOne(c: Cells, sent: nat, k: nat)
    requires c.Valid() && sent <= c.n && k < c.n - sent
    ensures CompactOf(c, sent).Wired(k)
    ensures CompactOf(c, sent).Datagram(k) == c.Datagram(sent + k)
  {
    hide CompactOf, Cells.Datagram;
    assert c.Wired(sent + k);
    CompactCells(c, sent, k);
    WiredDatagram(c, sent + k);
    WiredDatagram(CompactOf(c, sent), k);
  }

  /** Compaction keeps exactly the unsent packets, each with its own header, payload and peer. */
  lemma CompactKeepsRest(c: Cells, sent: nat)
    requires c.Valid() && sent <= c.n
    ensures CompactOf(c, sent).Valid()
    ensures CompactOf(c, sent).Staged() == c.Staged()[sent..]
  {
    hide Cells.Datagram, Cells.Wired;
    CompactShape(c, sent);
    forall k | 0 <= k < c.n - sent
      ensures CompactOf(c, sent).Wired(k) && CompactOf(c, sent).Datagram(k) == c.Datagram(sent + k)
    {
      CompactOne(c, sent, k);
    }
  }

  // ---------------------------------------------------------------- flushing and staging

  /** What one `sendmmsg` may answer. */
  datatype Answer = Took(k: nat) | Interrupted | Full | Hard

  /** The send loop over `n` messages: how many went out, and whether a hard error ended it. */
  function SendOf(n: nat, answers: seq<Answer>): (r: (nat, bool))
    ensures r.0 <= n
    ensures r.1 ==> r.0 < n && Hard in answers
    decreases |answers|
  {
    if n == 0 || answers == [] then (0, false)
    else
      match answers[0]
      case Took(k) =>
        if k == 0 then (0, false)
        else
          var t := if k <= n then k else n;
          var r := SendOf(n - t, answers[1..]);
          (t + r.0, r.1)
      case Interrupted => SendOf(n, answers[1..])
      case Full => (0, false)
      case Hard => (0, true)
  }

  /** Packets leaving the batch with a given fate. */
  function Leaving(ps: seq<Packet>, f: Packet -> Fate): seq<Fate> {
    seq(|ps|, i requires 0 <= i < |ps| => f(ps[i]))
  }

  /** `srv_dl_flush`: the batch afterwards, and what left it. */
  function FlushOf(c: Cells, answers: seq<Answer>): (Cells, seq<Fate>)
    requires c.Shape()
  {
    var s := c.Staged();
    var r := SendOf(c.n, answers);
    var out := Leaving(s[..r.0], p => Sent(p));
    if r.1 then (c.(n := 0), out + Leaving(s[r.0..], p => Dropped(p)))
    else if r.0 == c.n then (c.(n := 0), out)
    else (CompactOf(c, r.0), out)
  }

  lemma {:induction false} LeavingCounts(ps: seq<Packet>)
    ensures CountDropped(Leaving(ps, p => Sent(p))) == 0
    ensures CountDropped(Leaving(ps, p => Abandoned(p))) == 0
    ensures CountDropped(Leaving(ps, p => Dropped(p))) == |ps|
    decreases |ps|
  {
    if ps != [] {
      var q := ps[..|ps| - 1];
      LeavingCounts(q);
      assert Leaving(ps, p => Sent(p))[..|q|] == Leaving(q, p => Sent(p));
      assert Leaving(ps, p => Abandoned(p))[..|q|] == Leaving(q, p => Abandoned(p));
      assert Leaving(ps, p => Dropped(p))[..|q|] == Leaving(q, p => Dropped(p));
    }
  }

  /** What left the batch, followed by what it keeps, is what was staged; and either nothing is
      dropped, or everything unsent is, with nothing kept. */
  lemma FlushConserves(c: Cells, answers: seq<Answer>)
    requires c.Valid()
    ensures var (c', gone) := FlushOf(c, answers);
            && c'.Valid()
            && Packets(gone) + c'.Staged() == c.Staged()
            && (Hard !in answers ==> CountDropped(gone) == 0)
            && (CountDropped(gone) > 0 ==> c'.n == 0)
            && CountDropped(gone) == (if SendOf(c.n, answers).1 then c.n - SendOf(c.n, answers).0 else 0)
  {
    hide CompactOf, Cells.Datagram, Cells.Wired;
    var s, r := c.Staged(), SendOf(c.n, answers);
    var a, b := s[..r.0], s[r.0..];
    assert a + b == s;
    LeavingCounts(a);
    LeavingCounts(b);
    var out, lost := Leaving(a, p => Sent(p)), Leaving(b, p => Dropped(p));
    assert Packets(out) == a && Packets(lost) == b;
    LogAppend(out, lost);
    CompactKeepsRest(c, r.0);
    assert c.(n := 0).Staged() == [];
    assert r.0 == c.n ==> b == [];
  }

  // ---------------------------------------------------------------- every run

  /** The session lookup and header of `tun_prep_downlink`. */
  datatype Prep = Unknown | Known(peer: int, hdr: seq<byte>)

  /** One event on a queue: a packet from the TUN, with the kernel's answers should the batch be
      flushed for it and at the reader's flush signal; the signal alone; or the reader's exit. */
  datatype Event =
    | Pkt(pkt: seq<byte>, prep: Prep, last: bool, whenFull: seq<Answer>, atEnd: seq<Answer>)
    | Signal(answers: seq<Answer>)
    | Exit

  predicate EventOk(e: Event) {
    e.Pkt? && e.prep.Known? ==> |e.prep.hdr| == IWAN_HDR_LEN
  }

  /** The batch with its history: what left it, what it accepted, its drop counter, and the packets too
      large for it that were sent on their own. */
  datatype Queue = Queue(c: Cells, log: seq<Fate>, accepted: seq<Packet>, refused: nat, drops: nat,
                         direct: seq<seq<byte>>)

  function Flushed(q: Queue, answers: seq<Answer>): Queue
    requires q.c.Shape()
  {
    var (c, gone) := FlushOf(q.c, answers);
    q.(c := c, log := q.log + gone, drops := q.drops + CountDropped(gone))
  }

  /** The staging part of `srv_tun_pkt`. */
  function Offered(q: Queue, e: Event): Queue
    requires q.c.Valid() && EventOk(e) && e.Pkt?
  {
    if |e.pkt| < 20 then q
    else if |e.pkt| > SRV_DL_SLOT then Flushed(q, e.whenFull).(direct := q.direct + [e.pkt])
    else if e.prep.Unknown? then q
    else if q.c.n >= SRV_DL_BATCH then q.(refused := q.refused + 1, drops := q.drops + 1)
    else
      var p := Packet(e.prep.peer, e.prep.hdr, e.pkt);
      StageAppends(q.c, p);
      var q' := q.(c := StageOf(q.c, p), accepted := q.accepted + [p]);
      if q'.c.n == SRV_DL_BATCH then Flushed(q', e.whenFull) else q'
  }

  ghost predicate Inv(q: Queue) {
    && q.c.Valid()
    && Packets(q.log) + q.c.Staged() == q.accepted
    && q.drops == CountDropped(q.log) + q.refused
  }

  lemma FlushedKeeps(q: Queue, answers: seq<Answer>)
    requires Inv(q)
    ensures Inv(Flushed(q, answers)) && Flushed(q, answers).accepted == q.accepted
  {
    hide FlushOf, Cells.Wired, Cells.Datagram, CountDropped;
    FlushConserves(q.c, answers);
    LogAppend(q.log, FlushOf(q.c, answers).1);
  }

  lemma OfferedKeeps(q: Queue, e: Event)
    requires Inv(q) && EventOk(e) && e.Pkt?
    ensures Inv(Offered(q, e))
  {
    hide Flushed, StageOf, Cells.Wired, Cells.Datagram;
    FlushedKeeps(q, e.whenFull);
    if 20 <= |e.pkt| <= SRV_DL_SLOT && e.prep.Known? && q.c.n < SRV_DL_BATCH {
      var p := Packet(e.prep.peer, e.prep.hdr, e.pkt);
      StageAppends(q.c, p);
      var q' := q.(c := StageOf(q.c, p), accepted := q.accepted + [p]);
      assert Packets(q.log) + (q.c.Staged() + [p]) == q.accepted + [p];
      FlushedKeeps(q', e.whenFull);
    }
  }

  function Step(q: Queue, e: Event): Queue
    requires Inv(q) && EventOk(e)
  {
    match e
    case Pkt(_, _, last, _, atEnd) =>
      OfferedKeeps(q, e);
      if last then Flushed(Offered(q, e), atEnd) else Offered(q, e)
    case Signal(answers) => Flushed(q, answers)
    case Exit => q.(c := q.c.(n := 0), log := q.log + Leaving(q.c.Staged(), p => Abandoned(p)))
  }

  lemma StepKeeps(q: Queue, e: Event)
    requires Inv(q) && EventOk(e)
    ensures Inv(Step(q, e))
  {
    match e
    case Pkt(_, _, last, _, atEnd) =>
      hide Flushed, Offered, Inv;
      OfferedKeeps(q, e);
      FlushedKeeps(Offered(q, e), atEnd);
    case Signal(answers) => FlushedKeeps(q, answers);
    case Exit =>
      var gone := Leaving(q.c.Staged(), p => Abandoned(p));
      LeavingCounts(q.c.Staged());
      LogAppend(q.log, gone);
      assert Packets(gone) == q.c.Staged();
  }

  ghost function Run(q: Queue, events: seq<Event>): (q': Queue)
    requires Inv(q) && forall i :: 0 <= i < |events| ==> EventOk(events[i])
    ensures Inv(q')
    decreases |events|
  {
    if events == [] then q
    else
      StepKeeps(q, events[0]);
      assert EventOk(events[0]);
      Run(Step(q, events[0]), events[1..])
  }

  /** The packet an event brings for a known session. */
  function Offering(e: Event): seq<Packet> {
    if e.Pkt? && 20 <= |e.pkt| <= SRV_DL_SLOT && e.prep.Known? then [Packet(e.prep.peer, e.prep.hdr, e.pkt)] else []
  }

  function Offerings(events: seq<Event>): seq<Packet> {
    if events == [] then [] else Offering(events[0]) + Offerings(events[1..])
  }

  /** The packet an event brings that is too large for a slot. */
  function Oversized(e: Event): seq<seq<byte>> {
    if e.Pkt? && |e.pkt| > SRV_DL_SLOT then [e.pkt] else []
  }

  function AllOversized(events: seq<Event>): seq<seq<byte>> {
    if events == [] then [] else Oversized(events[0]) + AllOversized(events[1..])
  }

  lemma StepDirect(q: Queue, e: Event)
    requires Inv(q) && EventOk(e)
    ensures Step(q, e).direct == q.direct + Oversized(e)
  {
    hide FlushOf, StageOf, Cells.Wired, Cells.Datagram, CountDropped;
    assert q.direct + [] == q.direct;
  }

  /** Every packet too large for a slot is handed to the single-packet path, in order; that path may
      still drop it. */
  lemma {:induction false} EveryOversizedHandedOn(q: Queue, events: seq<Event>)
    requires Inv(q) && forall i :: 0 <= i < |events| ==> EventOk(events[i])
    ensures Run(q, events).direct == q.direct + AllOversized(events)
    decreases |events|
  {
    hide Step, Inv, Oversized, EventOk;
    if events == [] {
      assert q.direct + [] == q.direct;
    } else {
      RunOne(q, events);
      hide Run;
      StepDirect(q, events[0]);
      EveryOversizedHandedOn(Step(q, events[0]), events[1..]);
    }
  }

  lemma StepAccepts(q: Queue, e: Event)
    requires Inv(q) && EventOk(e)
    ensures var q' := Step(q, e);
            || (q'.accepted == q.accepted + Offering(e) && |Offering(e)| <= 1 && q'.refused == q.refused)
            || (q.c.n == SRV_DL_BATCH && |Offering(e)| == 1 && q'.accepted == q.accepted && q'.refused == q.refused + 1)
  {
    hide FlushOf, StageOf, Cells.Wired, Cells.Datagram, CountDropped;
    assert q.accepted + [] == q.accepted;
  }

  /** `a` is `b` with some packets left out. */
  predicate Within(a: seq<Packet>, b: seq<Packet>) {
    a == [] || (b != [] && ((a[0] == b[0] && Within(a[1..], b[1..])) || Within(a, b[1..])))
  }

  lemma WithinKeeps(x: seq<Packet>, a: seq<Packet>, b: seq<Packet>)
    requires |x| <= 1 && Within(a, b)
    ensures Within(x + a, x + b) && Within(a, x + b)
  {
    if x == [] {
      assert x + a == a && x + b == b;
    } else {
      assert (x + a)[1..] == a && (x + b)[1..] == b;
    }
  }

  lemma {:induction false} WithinAll(a: seq<Packet>, b: seq<Packet>)
    requires Within(a, b)
    ensures |a| <= |b| && (|a| == |b| ==> a == b)
    decreases |b|
  {
    if a != [] {
      if a[0] == b[0] && Within(a[1..], b[1..]) {
        WithinAll(a[1..], b[1..]);
        assert a == [a[0]] + a[1..] && b == [b[0]] + b[1..];
      } else {
        WithinAll(a, b[1..]);
      }
    }
  }

  /** The offered packets are accepted in order, except for those that are refused and counted. */
  lemma {:induction false} EveryOfferCounts(q: Queue, events: seq<Event>) returns (kept: seq<Packet>)
    requires Inv(q) && forall i :: 0 <= i < |events| ==> EventOk(events[i])
    ensures var q' := Run(q, events);
            && q'.accepted == q.accepted + kept && Within(kept, Offerings(events))
            && |kept| + (q'.refused - q.refused) == |Offerings(events)|
    decreases |events|
  {
    hide Step, Inv, Offering, EventOk, Within;
    if events == [] {
      kept := [];
      assert q.accepted + [] == q.accepted;
      NoneWithin();
    } else {
      RunOne(q, events);
      hide Run;
      var q1, x, y := Step(q, events[0]), Offering(events[0]), Offerings(events[1..]);
      StepAccepts(q, events[0]);
      var rest := EveryOfferCounts(q1, events[1..]);
      WithinKeeps(x, rest, y);
      Assoc(q.accepted, x, rest);
      kept := if q1.accepted == q.accepted + x && q1.refused == q.refused then x + rest else rest;
    }
  }

  lemma NoneWithin()
    ensures Within([], [])
  {
  }

  lemma Assoc(a: seq<Packet>, b: seq<Packet>, c: seq<Packet>)
    ensures (a + b) + c == a + (b + c)
  {
  }

  lemma RunOne(q: Queue, events: seq<Event>)
    requires Inv(q) && events != [] && forall i :: 0 <= i < |events| ==> EventOk(events[i])
    ensures EventOk(events[0]) && forall i :: 0 <= i < |events[1..]| ==> EventOk(events[1..][i])
    ensures Inv(Step(q, events[0])) && Run(q, events) == Run(Step(q, events[0]), events[1..])
  {
    hide Step, Inv;
    assert EventOk(events[0]);
    StepKeeps(q, events[0]);
  }

  /** A queue's whole life, from an empty batch: every accepted packet left as its own datagram,
      was dropped, was abandoned at an exit, or is still staged, in acceptance order; the batch
      stays within its size; and the counter counts each drop once, refusals included. */
  lemma Conservation(c: Cells, events: seq<Event>)
    requires c.Shape() && c.n == 0
    requires forall i :: 0 <= i < |events| ==> EventOk(events[i])
    ensures var q0 := Queue(c, [], [], 0, 0, []);
            && Inv(q0)
            && var q := Run(q0, events);
               && Packets(q.log) + q.c.Staged() == q.accepted
               && q.c.n <= SRV_DL_BATCH
               && q.drops == CountDropped(q.log) + q.refused
               && Within(q.accepted, Offerings(events)) && |q.accepted| + q.refused == |Offerings(events)|
               && (q.refused == 0 ==> q.accepted == Offerings(events))
               && q.direct == AllOversized(events)
  {
    assert c.Staged() == [];
    var q0 := Queue(c, [], [], 0, 0, []);
    assert Inv(q0);
    var kept := EveryOfferCounts(q0, events);
    assert [] + kept == kept;
    WithinAll(kept, Offerings(events));
    EveryOversizedHandedOn(q0, events);
    assert [] + AllOversized(events) == AllOversized(events);
  }

  // ---------------------------------------------------------------- the batch in place

  class Batch {
    const hdrs: array<seq<byte>>
    const pl: array<seq<byte>>
    const peers: array<int>
    const iovs: array<Iov>
    const msgs: array<Msg>
    var n: nat
    var drops: nat             // server_add_send_drops

    function View(): Cells
      reads this, hdrs, pl, peers, iovs, msgs
    {
      Cells(hdrs[..], pl[..], peers[..], iovs[..], msgs[..], n)
    }

    ghost predicate Valid()
      reads this, hdrs, pl, peers, iovs, msgs
    {
      hdrs != pl && View().Valid()
    }

    constructor ()
      ensures Valid() && n == 0 && drops == 0
      ensures fresh(hdrs) && fresh(pl) && fresh(peers) && fresh(iovs) && fresh(msgs)
    {
      hdrs := new seq<byte>[SRV_DL_BATCH](_ => seq(IWAN_HDR_LEN, _ => 0));
      pl := new seq<byte>[SRV_DL_BATCH](_ => seq(SRV_DL_SLOT, _ => 0));
      peers := new int[SRV_DL_BATCH](_ => 0);
      iovs := new Iov[2 * SRV_DL_BATCH](_ => Iov(Hdr(0), 0));
      msgs := new Msg[SRV_DL_BATCH](_ => Msg(0, 0));
      n, drops := 0, 0;
    }

    method Stage(p: Packet)
      requires Valid() && n < SRV_DL_BATCH
      requires |p.hdr| == IWAN_HDR_LEN && |p.payload| <= SRV_DL_SLOT
      modifies this`n, hdrs, pl, peers, iovs, msgs
      ensures View() == StageOf(old(View()), p)
    {
      var i := n;
      hdrs[i] := p.hdr;
      pl[i] := p.payload + pl[i][|p.payload|..];
      peers[i] := p.peer;
      iovs[2 * i] := Iov(Hdr(i), IWAN_HDR_LEN);
      iovs[2 * i + 1] := Iov(Pl(i), |p.payload|);
      msgs[i] := Msg(i, 2 * i);
      n := n + 1;
    }

    static method MoveDown<T>(a: array<T>, from: nat, count: nat)
      requires from + count <= a.Length
      modifies a
      ensures a[..] == Moved(old(a[..]), from, count)
    {
      forall i | 0 <= i < count {
        a[i] := a[from + i];
      }
    }

    method Compact(sent: nat)
      requires Valid() && sent < n
      modifies this`n, hdrs, pl, peers, iovs, msgs
      ensures View() == CompactOf(old(View()), sent)
    {
      ghost var c := View();
      var kept := n - sent;
      MoveDown(hdrs, sent, kept);
      MoveDown(pl, sent, kept);
      MoveDown(peers, sent, kept);
      MoveDown(msgs, sent, kept);
      MoveDown(iovs, 2 * sent, 2 * kept);
      Repoint(kept);
      n := kept;
      assert iovs[..] == CompactOf(c, sent).iovs;
      assert msgs[..] == CompactOf(c, sent).msgs;
    }

    /** The loop that points the kept messages at their new cells. */
    method Repoint(kept: nat)
      requires kept <= msgs.Length && 2 * kept <= iovs.Length
      modifies iovs, msgs
      ensures forall i :: 0 <= i < kept ==> msgs[i] == Msg(i, 2 * i)
      ensures forall i :: kept <= i < msgs.Length ==> msgs[i] == old(msgs[i])
      ensures forall i :: 0 <= i < 2 * kept ==>
                iovs[i] == Iov(if i % 2 == 0 then Hdr(i / 2) else Pl(i / 2), old(iovs[i].len))
      ensures forall i :: 2 * kept <= i < iovs.Length ==> iovs[i] == old(iovs[i])
    {
      for i := 0 to kept
        invariant forall j :: 0 <= j < i ==> msgs[j] == Msg(j, 2 * j)
        invariant forall j :: i <= j < msgs.Length ==> msgs[j] == old(msgs[j])
        invariant forall j :: 0 <= j < 2 * i ==>
                    iovs[j] == Iov(if j % 2 == 0 then Hdr(j / 2) else Pl(j / 2), old(iovs[j].len))
        invariant forall j :: 2 * i <= j < iovs.Length ==> iovs[j] == old(iovs[j])
      {
        iovs[2 * i] := Iov(Hdr(i), iovs[2 * i].len);
        iovs[2 * i + 1] := Iov(Pl(i), iovs[2 * i + 1].len);
        msgs[i] := Msg(i, 2 * i);
      }
    }
  
    /** The send loop: how many messages the kernel took, and whether a hard error ended it. */
    method SendLoop(answers: seq<Answer>) returns (sent: nat, hard: bool)
      ensures (sent, hard) == SendOf(n, answers)
    {
      sent, hard := 0, false;
      var i := 0;
      while sent < n && i < |answers|
        invariant 0 <= sent <= n && 0 <= i <= |answers| && !hard
        invariant var r := SendOf(n - sent, answers[i..]); SendOf(n, answers) == (sent + r.0, r.1)
      {
        var a := answers[i];
        assert answers[i..][0] == a && answers[i..][1..] == answers[i + 1..];
        i := i + 1;
        match a
        case Took(k) =>
          if k == 0 {
            return;
          }
          sent := sent + if k <= n - sent then k else n - sent;
        case Interrupted =>
        case Full => return;
        case Hard => return sent, true;
      }
    }

    method Flush(answers: seq<Answer>)
      requires Valid()
      modifies this, hdrs, pl, peers, iovs, msgs
      ensures View() == FlushOf(old(View()), answers).0
      ensures drops == old(drops) + CountDropped(FlushOf(old(View()), answers).1)
      ensures Valid()
    {
      hide CompactOf, SendOf;
      FlushConserves(View(), answers);
      var sent, hard := SendLoop(answers);
      if hard {
        drops := drops + (n - sent);
        n := 0;
      } else if sent == n {
        n := 0;
      } else {
        Compact(sent);
      }
    }
  }
}
