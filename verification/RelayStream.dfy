/**
 The byte stream of one relay direction as values: the read loop of `rp_dir_main` with its
 write-through fast path, the bounded backlog (`rp_pend`, `rp_flush`), the half-close and the
 thread's exit, against any sequence of socket answers.
 */
module RelayStream {
  import opened Bytes
  import opened RelayConfig

  // ---------------------------------------------------------------- the environment

  /** What `recv` may answer. `Data(k, room)`: up to `k` bytes of the peer's stream; `room` is
      whether the allocator would serve the backlog if it has to grow. */
  datatype Recv = Data(k: nat, room: bool) | Eof | Again | NoBufs | Intr | Broken

  /** What `send` may answer: a count (0 is treated as an error by the code), a transient
      refusal, or a hard error. A list of answers that runs out is a refusal. */
  datatype Send = Took(n: nat) | Busy | Dead

  /** One event-loop round for an entry. */
  datatype Pass = Pass(readable: bool, recvs: seq<Recv>, sends: seq<Send>) {
    /** Nothing in this round may cost a byte. */
    predicate Lossless() {
      !NoMemory(recvs) && !SendFault(sends)
    }
  }

  /** A direction's life is rounds, possibly cut short by its thread's exit. */
  datatype Event = Round(p: Pass) | Exit

  predicate SendFault(sends: seq<Send>) {
    Dead in sends || Took(0) in sends
  }

  predicate NoMemory(recvs: seq<Recv>) {
    exists r :: r in recvs && r.Data? && !r.room
  }

  function Min(a: nat, b: nat): (m: nat)
    ensures m <= a && m <= b && (m == a || m == b)
  {
    if a <= b then a else b
  }

  // ---------------------------------------------------------------- one entry

  /** `struct rp_ent`, with what was read of the peer's stream and what the other side accepted. */
  datatype Ent = Ent(
    taken: nat,        // bytes read so far
    out: bytes,        // bytes the other side accepted
    pend: bytes,       // pend[0..plen)
    pcap: nat,
    eof: bool,         // from_eof
    shut: bool,        // wr_closed
    lost: bool,        // a hard send error or a failed allocation dropped data
    broken: bool)      // the read side ended in an error

  const Start := Ent(0, [], [], 0, false, false, false, false)

  /** The doubling loop of `rp_pend`. */
  function Grown(nc: nat, need: nat): (r: nat)
    requires nc > 0
    ensures r >= need
    decreases if nc < need then need - nc else 0
  {
    if nc >= need then nc else Grown(2 * nc, need)
  }

  /** `rp_pend`: append to the backlog, or drop everything for want of memory. */
  function StashOf(e: Ent, p: bytes, room: bool): Ent {
    var need := |e.pend| + |p|;
    if need <= e.pcap then e.(pend := e.pend + p)
    else if room then e.(pend := e.pend + p, pcap := Grown(if e.pcap != 0 then e.pcap else 65536, need))
    else e.(pend := [], eof := true, lost := true)
  }

  /** Sending `len` bytes: how many go out, whether a hard error ended it, and the answers left. */
  function SendOf(len: nat, sends: seq<Send>): (nat, bool, seq<Send>)
    decreases |sends|
  {
    if len == 0 || sends == [] then (0, false, sends)
    else
      match sends[0]
      case Took(n) =>
        if n == 0 then (0, true, sends[1..])
        else
          var m := Min(n, len);
          var r := SendOf(len - m, sends[1..]);
          (m + r.0, r.1, r.2)
      case Busy => (0, false, sends[1..])
      case Dead => (0, true, sends[1..])
  }

  lemma {:induction false} SendBounds(len: nat, sends: seq<Send>)
    ensures var r := SendOf(len, sends);
            && r.0 <= len && (r.1 ==> r.0 < len && SendFault(sends))
            && |r.2| <= |sends| && r.2 == sends[|sends| - |r.2|..]
    decreases |sends|
  {
    if len > 0 && sends != [] {
      assert sends[0] in sends;
      if sends[0].Took? && sends[0].n > 0 {
        SendBounds(len - Min(sends[0].n, len), sends[1..]);
      }
    }
  }

  /** `rp_flush`. */
  function FlushOf(e: Ent, sends: seq<Send>): (Ent, seq<Send>) {
    SendBounds(|e.pend|, sends);
    var (n, hard, rest) := SendOf(|e.pend|, sends);
    if hard then (e.(out := e.out + e.pend[..n], pend := [], eof := true, lost := true), rest)
    else (e.(out := e.out + e.pend[..n], pend := e.pend[n..]), rest)
  }

  /** One chunk that `recv` returned: straight through if nothing is pending, else behind it. */
  function DeliverOf(e: Ent, chunk: bytes, room: bool, sends: seq<Send>): (Ent, seq<Send>) {
    var d := e.(taken := e.taken + |chunk|);
    if e.pend != [] then (StashOf(d, chunk, room), sends)
    else
      SendBounds(|chunk|, sends);
      var (n, hard, rest) := SendOf(|chunk|, sends);
      var f := d.(out := e.out + chunk[..n]);
      if hard then (f.(eof := true, lost := true), rest)
      else if n < |chunk| then (StashOf(f, chunk[n..], room), rest)
      else (f, rest)
  }

  predicate CanRead(e: Ent) {
    !e.eof && |e.pend| + RP_BUF <= RP_PEND_LIMIT
  }

  /** What one `recv` yields of the stream. */
  function Yield(src: bytes, e: Ent, k: nat): nat
    requires e.taken <= |src|
  {
    Min(Min(k, RP_BUF), |src| - e.taken)
  }

  /** The read loop of one pass. */
  function ReadOf(src: bytes, e: Ent, recvs: seq<Recv>, sends: seq<Send>): (Ent, seq<Send>)
    requires e.taken <= |src|
    decreases |recvs|
  {
    if recvs == [] || !CanRead(e) then (e, sends)
    else
      match recvs[0]
      case Data(k, room) =>
        var n := Yield(src, e, k);
        if n == 0 then (e, sends)
        else
          var (f, rest) := DeliverOf(e, src[e.taken..e.taken + n], room, sends);
          ReadOf(src, f, recvs[1..], rest)
      case Eof => if e.taken == |src| then (e.(eof := true), sends) else (e, sends)
      case Again => (e, sends)
      case NoBufs => (e, sends)
      case Intr => ReadOf(src, e, recvs[1..], sends)
      case Broken => (e.(eof := true, broken := true), sends)
  }

  /** One round: read if polled readable, then flush, then half-close if the stream has ended with
      nothing pending. */
  function RoundOf(src: bytes, e: Ent, p: Pass): Ent
    requires e.taken <= |src|
  {
    var (f, rest) := if p.readable then ReadOf(src, e, p.recvs, p.sends) else (e, p.sends);
    var g := FlushOf(f, rest).0;
    g.(shut := g.shut || (g.eof && g.pend == []))
  }

  function EventOf(src: bytes, e: Ent, ev: Event): Ent
    requires e.taken <= |src|
  {
    match ev
    case Round(p) => RoundOf(src, e, p)
    case Exit => e.(shut := true)
  }

  // ---------------------------------------------------------------- how much is sent

  /** Bytes the peer takes before it first refuses or fails. */
  function Capacity(sends: seq<Send>): nat {
    if sends == [] || !sends[0].Took? || sends[0].n == 0 then 0 else sends[0].n + Capacity(sends[1..])
  }

  /** Whether what ends that is a hard error. */
  predicate FailsHard(sends: seq<Send>) {
    if sends == [] then false
    else if sends[0].Took? && sends[0].n > 0 then FailsHard(sends[1..])
    else !sends[0].Busy?
  }

  /** A send loop sends exactly what the peer takes, and fails exactly when an error comes before the
      last byte. */
  lemma {:induction false} SendIsMin(len: nat, sends: seq<Send>)
    ensures SendOf(len, sends).0 == Min(len, Capacity(sends))
    ensures SendOf(len, sends).1 <==> Capacity(sends) < len && FailsHard(sends)
    decreases |sends|
  {
    if len > 0 && sends != [] && sends[0].Took? && sends[0].n > 0 {
      SendIsMin(len - Min(sends[0].n, len), sends[1..]);
    }
  }

  // ---------------------------------------------------------------- the stream invariant

  predicate PendCapacity(n: nat) {
    n == 0 || n == 65536 || n == 131072 || n == 262144 || n == 524288 || n == 1048576
  }

  /** Sent bytes are a prefix of the bytes read; unless something was lost, what was read is exactly
      what was sent followed by the backlog; the backlog and its buffer are bounded; and without a
      loss or a read error the end of the stream is noticed only there. */
  predicate Inv(src: bytes, e: Ent) {
    && e.taken <= |src|
    && e.out <= src[..e.taken]
    && (!e.lost ==> src[..e.taken] == e.out + e.pend)
    && (e.lost ==> e.eof && e.pend == [])
    && |e.pend| <= e.pcap <= RP_PEND_LIMIT && PendCapacity(e.pcap)
    && (e.eof && !e.lost && !e.broken ==> e.taken == |src|)
  }

  lemma {:induction false} GrownCapacity(nc: nat, need: nat)
    requires nc > 0 && PendCapacity(nc) && need <= RP_PEND_LIMIT
    ensures PendCapacity(Grown(nc, need)) && Grown(nc, need) <= RP_PEND_LIMIT
    decreases if nc < need then need - nc else 0
  {
    if nc < need { GrownCapacity(2 * nc, need); }
  }

  /** The backlog takes what it is given, whole, or the loss is on record and memory was short. */
  lemma StashKeeps(e: Ent, p: bytes, room: bool)
    requires |e.pend| <= e.pcap <= RP_PEND_LIMIT && PendCapacity(e.pcap)
    requires |e.pend| + |p| <= RP_PEND_LIMIT && !e.lost && !e.eof
    ensures var f := StashOf(e, p, room);
            && |f.pend| <= f.pcap <= RP_PEND_LIMIT && PendCapacity(f.pcap)
            && f == e.(pend := f.pend, pcap := f.pcap, eof := f.lost, lost := f.lost)
            && (f.lost ==> !room) && f.pend == if f.lost then [] else e.pend + p
  {
    GrownCapacity(if e.pcap != 0 then e.pcap else 65536, |e.pend| + |p|);
  }

  lemma FlushKeeps(src: bytes, e: Ent, sends: seq<Send>)
    requires Inv(src, e)
    ensures var (f, rest) := FlushOf(e, sends);
            && Inv(src, f) && f.taken == e.taken && f.broken == e.broken && f.shut == e.shut
            && (f.lost ==> e.lost || SendFault(sends)) && (e.eof ==> f.eof) && (!f.lost ==> f.eof == e.eof)
            && |f.out| == |e.out| + Min(|e.pend|, Capacity(sends))
  {
    hide SendFault, Capacity, SendOf, PendCapacity, FailsHard;
    SendBounds(|e.pend|, sends);
    SendIsMin(|e.pend|, sends);
    var n := SendOf(|e.pend|, sends).0;
    assert e.pend == e.pend[..n] + e.pend[n..];
    assert e.out + e.pend == (e.out + e.pend[..n]) + e.pend[n..];
  }

  /** `chunk` is what the stream holds next. */
  predicate Next(src: bytes, e: Ent, chunk: bytes) {
    && 0 < |chunk| <= RP_BUF && e.taken + |chunk| <= |src|
    && src[..e.taken + |chunk|] == src[..e.taken] + chunk
  }

  ghost predicate Delivered(src: bytes, e: Ent, chunk: bytes, room: bool, sends: seq<Send>, f: Ent, rest: seq<Send>) {
    && Inv(src, f) && f.taken == e.taken + |chunk| && f.broken == e.broken && f.shut == e.shut
    && (f.lost ==> !room || SendFault(sends)) && (f.eof <==> f.lost)
    && |f.out| >= |e.out| && |rest| <= |sends| && rest == sends[|sends| - |rest|..]
  }

  lemma DeliverBehind(src: bytes, e: Ent, chunk: bytes, room: bool, sends: seq<Send>)
    requires Inv(src, e) && CanRead(e) && Next(src, e, chunk) && e.pend != []
    ensures var (f, rest) := DeliverOf(e, chunk, room, sends); Delivered(src, e, chunk, room, sends, f, rest)
  {
    hide SendFault, SendOf, PendCapacity, StashOf;
    var d := e.(taken := e.taken + |chunk|);
    StashKeeps(d, chunk, room);
    assert e.out + (e.pend + chunk) == e.out + e.pend + chunk;
  }

  lemma Sliced(out: bytes, chunk: bytes, m: nat)
    requires m <= |chunk|
    ensures out + chunk == (out + chunk[..m]) + chunk[m..]
    ensures m == |chunk| ==> chunk[..m] == chunk && chunk[m..] == []
  {
  }

  lemma DeliverThrough(src: bytes, e: Ent, chunk: bytes, room: bool, sends: seq<Send>)
    requires Inv(src, e) && CanRead(e) && Next(src, e, chunk) && e.pend == []
    ensures var (f, rest) := DeliverOf(e, chunk, room, sends); Delivered(src, e, chunk, room, sends, f, rest)
  {
    hide SendFault, SendOf, PendCapacity, StashOf;
    SendBounds(|chunk|, sends);
    var m := SendOf(|chunk|, sends).0;
    assert src[..e.taken] == e.out;
    Sliced(e.out, chunk, m);
    if m < |chunk| {
      var d := e.(taken := e.taken + |chunk|, out := e.out + chunk[..m]);
      StashKeeps(d, chunk[m..], room);
      assert d.pend + chunk[m..] == chunk[m..];
    }
  }

  /** A chunk is sent or queued whole and in order; the two branches of the code that would drop a
      chunk already read cannot be reached, for it always fits. */
  lemma DeliverKeeps(src: bytes, e: Ent, n: nat, room: bool, sends: seq<Send>)
    requires Inv(src, e) && CanRead(e) && 0 < n <= RP_BUF && e.taken + n <= |src|
    ensures var chunk := src[e.taken..e.taken + n];
            var (f, rest) := DeliverOf(e, chunk, room, sends); Delivered(src, e, chunk, room, sends, f, rest)
  {
    hide Inv, Delivered, DeliverOf;
    var chunk := src[e.taken..e.taken + n];
    assert src[..e.taken + n] == src[..e.taken] + chunk;
    if e.pend == [] {
      DeliverThrough(src, e, chunk, room, sends);
    } else {
      DeliverBehind(src, e, chunk, room, sends);
    }
  }

  predicate Clean(recvs: seq<Recv>) {
    Broken !in recvs
  }

  lemma {:induction false} ReadKeeps(src: bytes, e: Ent, recvs: seq<Recv>, sends: seq<Send>)
    requires Inv(src, e)
    ensures var (f, rest) := ReadOf(src, e, recvs, sends);
            && Inv(src, f) && f.shut == e.shut && f.taken >= e.taken && |f.out| >= |e.out|
            && (e.eof ==> f == e)
            && (f.lost ==> e.lost || NoMemory(recvs) || SendFault(sends))
            && (f.broken ==> e.broken || !Clean(recvs))
            && |rest| <= |sends| && rest == sends[|sends| - |rest|..]
    decreases |recvs|
  {
    hide DeliverOf, SendFault, Inv, NoMemory, Clean;
    InvTaken(src, e);
    if recvs != [] && CanRead(e) {
      TailAnswers(recvs);
      match recvs[0]
      case Data(k, room) =>
        var n := Yield(src, e, k);
        if n > 0 {
          DeliverKeeps(src, e, n, room, sends);
          var (f, rest) := DeliverOf(e, src[e.taken..e.taken + n], room, sends);
          SuffixFault(sends, rest);
          InvTaken(src, f);
          ReadKeeps(src, f, recvs[1..], rest);
        }
      case Intr => ReadKeeps(src, e, recvs[1..], sends);
      case Eof => EndKeeps(src, e);
      case Broken => EndKeeps(src, e);
      case _ =>
    }
  }

  lemma TailAnswers(recvs: seq<Recv>)
    requires recvs != []
    ensures NoMemory(recvs[1..]) || (recvs[0].Data? && !recvs[0].room) ==> NoMemory(recvs)
    ensures !Clean(recvs[1..]) || recvs[0].Broken? ==> !Clean(recvs)
  {
    assert recvs[0] in recvs;
  }

  lemma EndKeeps(src: bytes, e: Ent)
    requires Inv(src, e)
    ensures e.taken == |src| ==> Inv(src, e.(eof := true))
    ensures Inv(src, e.(eof := true, broken := true))
  {
  }

  lemma SuffixFault(sends: seq<Send>, rest: seq<Send>)
    requires |rest| <= |sends| && rest == sends[|sends| - |rest|..]
    ensures SendFault(rest) ==> SendFault(sends)
  {
  }

  /** Every round keeps the stream exact; a loss or a read error is the round's doing. */
  lemma RoundKeeps(src: bytes, e: Ent, p: Pass)
    requires Inv(src, e)
    ensures var f := RoundOf(src, e, p);
            && Inv(src, f) && f.taken >= e.taken && |f.out| >= |e.out|
            && (f.lost ==> e.lost || !p.Lossless())
            && (f.broken ==> e.broken || !Clean(p.recvs))
            && (f.shut <==> e.shut || (f.eof && f.pend == []))
            && (e.eof ==> f.eof)
  {
    hide ReadOf, FlushOf, SendFault, NoMemory, Clean, Capacity, Inv, Min;
    InvTaken(src, e);
    var (f, rest) := if p.readable then ReadOf(src, e, p.recvs, p.sends) else (e, p.sends);
    if p.readable { ReadKeeps(src, e, p.recvs, p.sends); }
    SuffixFault(p.sends, rest);
    FlushKeeps(src, f, rest);
    ShutKeeps(src, FlushOf(f, rest).0, true);
  }

  lemma InvTaken(src: bytes, e: Ent)
    requires Inv(src, e)
    ensures e.taken <= |src|
  {
  }

  lemma ShutKeeps(src: bytes, e: Ent, b: bool)
    requires Inv(src, e)
    ensures Inv(src, e.(shut := b))
  {
  }

  // ---------------------------------------------------------------- whole lives

  lemma StartInv(src: bytes)
    ensures Inv(src, Start)
  {
    assert src[..0] == [];
  }

  /** A life: events until the half-close. */
  ghost function LifeOf(src: bytes, e: Ent, events: seq<Event>): (f: Ent)
    requires Inv(src, e)
    ensures Inv(src, f) && f.taken >= e.taken
    decreases |events|
  {
    if events == [] || e.shut then e
    else
      EventKeeps(src, e, events[0]);
      LifeOf(src, EventOf(src, e, events[0]), events[1..])
  }

  predicate Harmless(ev: Event) {
    ev.Round? ==> ev.p.Lossless() && Clean(ev.p.recvs)
  }

  lemma EventKeeps(src: bytes, e: Ent, ev: Event)
    requires Inv(src, e)
    ensures var f := EventOf(src, e, ev);
            && Inv(src, f) && f.taken >= e.taken
            && (Harmless(ev) && !e.lost && !e.broken ==> !f.lost && !f.broken)
            && (f.shut <==> e.shut || ev.Exit? || (f.eof && f.pend == []))
  {
    hide RoundOf, Inv;
    InvTaken(src, e);
    match ev
    case Round(p) => RoundKeeps(src, e, p);
    case Exit => ShutKeeps(src, e, true);
  }

  ghost predicate AllHarmless(events: seq<Event>) {
    forall i :: 0 <= i < |events| ==> Harmless(events[i])
  }

  /** In every life the other side receives a prefix of what was read and that of what the peer sent;
      without a hard send error or a failed allocation nothing is lost, duplicated or reordered. */
  lemma {:induction false} LifeConserves(src: bytes, e: Ent, events: seq<Event>)
    requires Inv(src, e) && !e.lost && !e.broken && AllHarmless(events)
    ensures var f := LifeOf(src, e, events);
            && !f.lost && !f.broken && src[..f.taken] == f.out + f.pend && |f.pend| <= RP_PEND_LIMIT
    decreases |events|
  {
    hide EventOf, Harmless;
    if events != [] && !e.shut {
      EventKeeps(src, e, events[0]);
      hide Inv;
      LifeConserves(src, EventOf(src, e, events[0]), events[1..]);
    }
  }

  /** After a harmless life the other side has everything if and only if everything was read and
      nothing is pending, half-closed or not. */
  lemma CompleteIff(src: bytes, events: seq<Event>)
    requires AllHarmless(events)
    ensures Inv(src, Start)
    ensures var f := LifeOf(src, Start, events);
            && (f.out == src <==> f.taken == |src| && f.pend == [])
            && (f.eof && f.pend == [] ==> f.out == src)
  {
    hide LifeOf;
    StartInv(src);
    LifeConserves(src, Start, events);
    var f := LifeOf(src, Start, events);
    assert src[..|src|] == src;
    assert |src[..f.taken]| == |f.out| + |f.pend|;
    if f.out == src {
      assert f.taken == |src|;
    }
  }

  /** A half-close that is not the thread's exit certifies delivery: rounds alone close only at the
      noticed end of the stream with nothing pending. */
  lemma {:induction false} RoundsCloseComplete(src: bytes, e: Ent, events: seq<Event>)
    requires Inv(src, e) && !e.lost && !e.broken && AllHarmless(events) && Exit !in events
    requires e.shut ==> e.out == src
    ensures LifeOf(src, e, events).shut ==> LifeOf(src, e, events).out == src
    decreases |events|
  {
    hide EventOf, Harmless;
    if events != [] && !e.shut {
      var f := EventOf(src, e, events[0]);
      EventKeeps(src, e, events[0]);
      if f.shut { assert src[..|src|] == src && f.out + [] == f.out; }
      RoundsCloseComplete(src, f, events[1..]);
    }
  }

  /** The exit half-closes whatever is pending: the last byte read never reaches the other side. */
  lemma ExitCutsBacklog(b: byte)
    ensures var src, life := [b], [Round(Pass(true, [Data(1, true)], [Busy])), Exit];
            && AllHarmless(life) && Inv(src, Start)
            && var f := LifeOf(src, Start, life);
               f.shut && f.pend == [b] && f.out == [] && f.out != src
  {
    hide RoundOf, Inv;
    var src := [b];
    var p := Pass(true, [Data(1, true)], [Busy]);
    var life := [Round(p), Exit];
    assert Took(0) !in p.sends && Dead !in p.sends;
    StartInv(src);
    FirstRoundStalls(src, p);
    var e := Start.(taken := 1, pend := src, pcap := 65536);
    assert life[1..] == [Exit] && life[1..][1..] == [];
    EventKeeps(src, Start, life[0]);
    EventKeeps(src, e, Exit);
    assert LifeOf(src, Start, life) == LifeOf(src, e, [Exit]);
    assert LifeOf(src, e, [Exit]) == LifeOf(src, e.(shut := true), []);
  }

  lemma FirstRoundStalls(src: bytes, p: Pass)
    requires |src| == 1 && p == Pass(true, [Data(1, true)], [Busy])
    ensures RoundOf(src, Start, p) == Start.(taken := 1, pend := src, pcap := 65536)
  {
    hide DeliverOf;
    assert src[0..1] == src;
    BusyStashes(Start, src, p.sends);
    ReadDataStep(src, Start, p.recvs, p.sends);
  }

  lemma BusyStashes(e: Ent, chunk: bytes, sends: seq<Send>)
    requires e.pend == [] && e.pcap == 0 && 0 < |chunk| <= 65536 && sends == [Busy]
    ensures DeliverOf(e, chunk, true, sends) == (e.(taken := e.taken + |chunk|, pend := chunk, pcap := 65536), [])
  {
    assert sends[1..] == [];
    assert chunk[0..] == chunk && e.out + chunk[..0] == e.out && [] + chunk == chunk;
  }

  lemma ReadEofStep(src: bytes, e: Ent, recvs: seq<Recv>, sends: seq<Send>)
    requires e.taken == |src| && CanRead(e) && recvs != [] && recvs[0].Eof?
    ensures ReadOf(src, e, recvs, sends) == (e.(eof := true), sends)
  {
    hide DeliverOf;
  }

  lemma ReadDataStep(src: bytes, e: Ent, recvs: seq<Recv>, sends: seq<Send>)
    requires e.taken <= |src| && CanRead(e) && recvs != [] && recvs[0].Data? && Yield(src, e, recvs[0].k) > 0
    ensures var n := Yield(src, e, recvs[0].k);
            var (f, rest) := DeliverOf(e, src[e.taken..e.taken + n], recvs[0].room, sends);
            f.taken == e.taken + n && ReadOf(src, e, recvs, sends) == ReadOf(src, f, recvs[1..], rest)
  {
    hide SendOf;
  }

  // ---------------------------------------------------------------- progress

  /** The sockets do their part: data or the end of the stream is there to read, and the other side
      takes at least a byte. */
  predicate Prompt(src: bytes, e: Ent, p: Pass)
    requires e.taken <= |src|
  {
    && p.readable && p.Lossless() && Clean(p.recvs) && p.recvs != [] && p.sends != []
    && p.sends[0].Took? && p.sends[0].n > 0
    && (if e.taken < |src| then p.recvs[0].Data? && p.recvs[0].k > 0 else p.recvs[0].Eof?)
  }

  function Remaining(src: bytes, e: Ent): nat
    requires e.taken <= |src| && |e.out| <= |src|
  {
    (|src| - e.taken) + (|src| - |e.out|) + (if e.eof then 0 else 1)
  }

  lemma InvOut(src: bytes, e: Ent)
    requires Inv(src, e)
    ensures e.taken <= |src| && |e.out| <= |src|
    ensures !e.lost ==> |e.out| + |e.pend| == e.taken
    ensures e.eof && e.pend == [] && !e.lost && !e.broken ==> e.out == src
  {
    assert src[..|src|] == src;
    assert |e.out| <= |src[..e.taken]|;
    if !e.lost {
      assert |src[..e.taken]| == |e.out + e.pend|;
      if e.pend == [] { assert e.out + [] == e.out; }
    }
  }

  /** A prompt read pass gets on. */
  lemma ReadProgress(src: bytes, e: Ent, p: Pass)
    requires Inv(src, e) && CanRead(e) && e.taken <= |src| && Prompt(src, e, p)
    ensures var f := ReadOf(src, e, p.recvs, p.sends).0; f.taken > e.taken || f.eof
  {
    hide DeliverOf, SendFault, NoMemory, Clean, ReadOf, Inv;
    if e.taken == |src| {
      ReadEofStep(src, e, p.recvs, p.sends);
    } else {
      ReadDataStep(src, e, p.recvs, p.sends);
      var n := Yield(src, e, p.recvs[0].k);
      DeliverKeeps(src, e, n, p.recvs[0].room, p.sends);
      var (f, rest) := DeliverOf(e, src[e.taken..e.taken + n], p.recvs[0].room, p.sends);
      ReadKeeps(src, f, p.recvs[1..], rest);
    }
  }

  lemma TakesSome(sends: seq<Send>)
    requires sends != [] && sends[0].Took? && sends[0].n > 0
    ensures Capacity(sends) > 0
  {
  }

  /** A prompt round closes the direction or brings it nearer to its end. */
  lemma RoundProgress(src: bytes, e: Ent, p: Pass)
    requires Inv(src, e) && !e.lost && !e.broken && !e.shut && e.taken <= |src| && Prompt(src, e, p)
    ensures var f := RoundOf(src, e, p);
            && Inv(src, f) && !f.lost && !f.broken && f.taken <= |src| && |f.out| <= |src| && |e.out| <= |src|
            && (f.shut || Remaining(src, f) < Remaining(src, e))
            && (f.shut ==> f.out == src)
  {
    hide Inv, ReadOf, FlushOf, Capacity;
    RoundKeeps(src, e, p);
    InvOut(src, e);
    InvOut(src, RoundOf(src, e, p));
    TakesSome(p.sends);
    if CanRead(e) {
      ReadProgress(src, e, p);
      var (f, rest) := ReadOf(src, e, p.recvs, p.sends);
      ReadKeeps(src, e, p.recvs, p.sends);
      FlushKeeps(src, f, rest);
    } else {
      assert ReadOf(src, e, p.recvs, p.sends) == (e, p.sends) by { ReadStuck(src, e, p.recvs, p.sends); }
      FlushKeeps(src, e, p.sends);
    }
  }

  lemma ReadStuck(src: bytes, e: Ent, recvs: seq<Recv>, sends: seq<Send>)
    requires e.taken <= |src| && !CanRead(e)
    ensures ReadOf(src, e, recvs, sends) == (e, sends)
  {
  }

  ghost predicate PromptLife(src: bytes, e: Ent, events: seq<Event>)
    requires Inv(src, e)
    decreases |events|
  {
    events == [] || e.shut ||
    (events[0].Round? && Prompt(src, e, events[0].p) &&
     (EventKeeps(src, e, events[0]); PromptLife(src, EventOf(src, e, events[0]), events[1..])))
  }

  /** The relay delivers: a life of prompt rounds, more of them than there is left to do, half-closes
      with everything received. From the start that is at most `2 * |src| + 2` rounds. */
  lemma {:induction false} PromptLifeDelivers(src: bytes, e: Ent, events: seq<Event>)
    requires Inv(src, e) && !e.lost && !e.broken && (e.shut ==> e.out == src)
    requires e.taken <= |src| && |e.out| <= |src|
    requires PromptLife(src, e, events) && |events| > Remaining(src, e)
    ensures var f := LifeOf(src, e, events); f.shut && f.out == src
    decreases |events|
  {
    hide RoundOf, Prompt, Inv;
    if !e.shut {
      var f := RoundOf(src, e, events[0].p);
      RoundProgress(src, e, events[0].p);
      if !f.shut { PromptLifeDelivers(src, f, events[1..]); }
    }
  }
}
