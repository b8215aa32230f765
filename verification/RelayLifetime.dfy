/**
 The relay as a concurrent protocol: any number of handshake threads, the two global
 direction threads, one mutex and one atomic counter. Each critical section and each
 atomic operation is one action; a schedule is any sequence of actions, and an action
 that is not enabled leaves the state alone. Everything below holds for every schedule.
 */
module RelayLifetime {
  import opened RelayTable

  type ThreadId = nat

  /** Where a handshake thread (`rp_conn_main`) is. `Refused` is inside `rp_add`, before its own
      decrement; `Out` is the label every earlier failure jumps to. */
  datatype Phase = Fresh | Reserved | Cleared | Answered | Adding | Refused | Out | Done

  /** A handshake thread with its one-shot `hs->reserved` flag. */
  datatype Handshake = Hs(phase: Phase, reserved: bool) {
    /** The thread accounts for one unit of `g_rp_est_n`: by its flag, or inside `rp_add`. */
    predicate Counts() {
      reserved || phase.Adding? || phase.Refused?
    }

    /** The flag is up from the reservation until `rp_add` or the label takes it down. */
    predicate Ok() {
      && (phase.Reserved? || phase.Cleared? || phase.Answered? ==> reserved)
      && (reserved ==> phase.Reserved? || phase.Cleared? || phase.Answered? || phase.Out?)
    }
  }

  /** One direction thread (`rp_dir_main`); `snap` is the snapshot it holds references on, `gen` the
      array generation read in the same critical section. */
  datatype Direction =
    | Top
    | Entering
    | Holding(snap: seq<ConnId>, gen: nat)
    | Leaving(snap: seq<ConnId>)
    | Announcing
    | Exited
  {
    function Snap(): seq<ConnId> {
      if Holding? || Leaving? then snap else []
    }

    predicate Dead() {
      Announcing? || Exited?
    }
  }

  datatype Sys = Sys(
    t: Table,
    cap: nat,
    stop: bool,
    hs: map<ThreadId, Handshake>,
    du: Direction,
    dd: Direction,
    next: ConnId,       // allocator: identifiers are never reused
    answers: nat        // history: success replies sent
  )
  {
    function Thread(d: Dir): Direction {
      if d.Up? then du else dd
    }

    function WithThread(d: Dir, x: Direction): Sys {
      if d.Up? then this.(du := x) else this.(dd := x)
    }

    /** `rp_plane_dead`. */
    predicate PlaneDead() {
      du.Dead() || dd.Dead()
    }

    function Go(i: ThreadId, h: Handshake): Sys {
      this.(hs := hs[i := h])
    }

    function Est(delta: int): Sys {
      this.(t := t.(pool := t.pool.(estN := t.pool.estN + delta)))
    }
  }

  function Init(cap: nat): Sys {
    Sys(EmptyTable, cap, false, map[], Top, Top, 0, 0)
  }

  datatype Action =
    | Accept(i: ThreadId)
    | Reserve(i: ThreadId)                                  // rp_est_reserve
    | Gate(i: ThreadId)                                     // rp_plane_dead before the reply
    | Answer(i: ThreadId)                                   // rep=0 / 200 / forwarded head
    | Fail(i: ThreadId)                                     // any handler failure after the reservation
    | BeginAdd(i: ThreadId)                                 // rp_add takes the token
    | AddFails(i: ThreadId)                                 // calloc or set_nonblock fails
    | Lock(i: ThreadId, growUp: bool, growDn: bool)         // rp_add's critical section
    | Rollback(i: ThreadId)                                 // the decrement inside rp_add
    | Release(i: ThreadId)                                  // a trip through the label `out`
    | Test(d: Dir)                                          // while (!g_rp_stop)
    | Snapshot(d: Dir, room: bool)
    | Interrupted(d: Dir)                                   // poll EINTR
    | Bottom(d: Dir, ended: set<ConnId>)
    | Break(d: Dir)                                         // realloc or poll failure
    | Cleanup(d: Dir)
    | Announce(d: Dir)                                      // g_rp_stop = 1 after an unexpected exit
    | Stop                                                  // relay_proxy_stop

  function Locked(s: Sys, i: ThreadId, growUp: bool, growDn: bool): Sys {
    var r := Register(s.t, s.next, s.PlaneDead(), growUp, growDn);
    s.(t := r.0, next := s.next + 1).Go(i, Hs(if r.1 then Done else Refused, false))
  }

  function Snapshotted(s: Sys, d: Dir): Sys {
    s.(t := s.t.(pool := RefAll(s.t.pool, s.t.Arr(d)))).WithThread(d, Holding(s.t.Arr(d), s.t.arrGen))
  }

  /** The end of a critical section that drops a thread's snapshot references. */
  function Dropped(s: Sys, d: Dir, t: Table, x: Direction): Sys {
    s.(t := t.(pool := UnrefAll(t.pool, s.Thread(d).Snap()))).WithThread(d, x)
  }

  /** What a handshake thread does. The label `out` may be passed any number of times; only the flag
      keeps it from giving a slot back twice. */
  function DoHandshake(s: Sys, a: Action, i: ThreadId, h: Handshake): Sys {
    var p := h.phase;
    match a
    case Reserve(_) =>
      if !p.Fresh? then s
      else if s.t.pool.estN < s.cap then s.Est(1).Go(i, Hs(Reserved, true))
      else s.Go(i, h.(phase := Out))
    case Gate(_) => if p.Reserved? then s.Go(i, h.(phase := if s.PlaneDead() then Out else Cleared)) else s
    case Answer(_) => if p.Cleared? then s.Go(i, h.(phase := Answered)).(answers := s.answers + 1) else s
    case Fail(_) => if p.Fresh? || p.Reserved? || p.Cleared? || p.Answered? then s.Go(i, h.(phase := Out)) else s
    case BeginAdd(_) =>
      if !p.Answered? then s
      else if h.reserved then s.Go(i, Hs(Adding, false))
      else if s.t.pool.estN >= s.cap then s.Go(i, Hs(Done, false))
      else s.Est(1).Go(i, Hs(Adding, false))
    case AddFails(_) => if p.Adding? then s.Go(i, h.(phase := Refused)) else s
    case Lock(_, growUp, growDn) => if p.Adding? then Locked(s, i, growUp, growDn) else s
    case Rollback(_) => if p.Refused? then s.Est(-1).Go(i, Hs(Done, h.reserved)) else s
    case Release(_) => if p.Out? && h.reserved then s.Est(-1).Go(i, Hs(Out, false)) else s
    case _ => s
  }

  /** What the direction thread `d` in phase `x` does. */
  function DoDirection(s: Sys, a: Action, d: Dir, x: Direction): Sys {
    match a
    case Test(_) => if x.Top? then s.WithThread(d, if s.stop then Leaving([]) else Entering) else s
    case Snapshot(_, room) =>
      if !x.Entering? then s else if room then Snapshotted(s, d) else s.WithThread(d, Leaving([]))
    case Interrupted(_) => if x.Holding? then Dropped(s, d, s.t, Top) else s
    case Bottom(_, ended) => if x.Holding? then Dropped(s, d, RetireEnded(s.t, d, x.snap, ended), Top) else s
    case Break(_) => if x.Holding? then s.WithThread(d, Leaving(x.snap)) else s
    case Cleanup(_) =>
      if x.Leaving? then Dropped(s, d, RetireAll(s.t, d), if s.stop then Exited else Announcing) else s
    case Announce(_) => if x.Announcing? then s.(stop := true).WithThread(d, Exited) else s
    case _ => s
  }

  /** What one action does. */
  function Do(s: Sys, a: Action): Sys {
    match a
    case Stop => s.(stop := true)
    case Accept(i) => if i !in s.hs then s.Go(i, Hs(Fresh, false)) else s
    case Test(d) => DoDirection(s, a, d, s.Thread(d))
    case Snapshot(d, _) => DoDirection(s, a, d, s.Thread(d))
    case Interrupted(d) => DoDirection(s, a, d, s.Thread(d))
    case Bottom(d, _) => DoDirection(s, a, d, s.Thread(d))
    case Break(d) => DoDirection(s, a, d, s.Thread(d))
    case Cleanup(d) => DoDirection(s, a, d, s.Thread(d))
    case Announce(d) => DoDirection(s, a, d, s.Thread(d))
    case _ => if a.i in s.hs then DoHandshake(s, a, a.i, s.hs[a.i]) else s
  }

  function Run(s: Sys, schedule: seq<Action>): Sys
    decreases |schedule|
  {
    if schedule == [] then s else Run(Do(s, schedule[0]), schedule[1..])
  }

  // ---------------------------------------------------------------- the invariant

  ghost function Counting(hs: map<ThreadId, Handshake>): set<ThreadId> {
    set i | i in hs && hs[i].Counts()
  }

  /** A thread's snapshot is always part of its own array: nobody else retires from it. */
  ghost predicate ThreadInv(t: Table, d: Dir, x: Direction) {
    && NoDup(x.Snap())
    && Elems(x.Snap()) <= Elems(t.Arr(d))
    && (x.Dead() ==> t.Arr(d) == [])
  }

  ghost predicate Inv(s: Sys) {
    && TableInv(s.t, Elems(s.du.Snap()), Elems(s.dd.Snap()))
    && ThreadInv(s.t, Up, s.du)
    && ThreadInv(s.t, Down, s.dd)
    && Spare(s.t.pool) == |Counting(s.hs)|
    && s.t.pool.estN <= s.cap
    && (forall i :: i in s.hs ==> s.hs[i].Ok())
    && (forall c :: c in s.t.registered ==> c < s.next)
    && (s.du.Exited? || s.dd.Exited? ==> s.stop)
  }

  lemma CountingGo(hs: map<ThreadId, Handshake>, i: ThreadId, p: Handshake)
    ensures var was := i in hs && hs[i].Counts();
            |Counting(hs[i := p])| == |Counting(hs)| - One(was) + One(p.Counts())
  {
    var was := i in hs && hs[i].Counts();
    var rest := Counting(hs) - {i};
    assert Counting(hs) == if was then rest + {i} else rest;
    assert Counting(hs[i := p]) == if p.Counts() then rest + {i} else rest;
  }

  lemma PhaseChange(s: Sys, i: ThreadId, p: Handshake, delta: int)
    requires Inv(s) && p.Ok()
    requires delta == One(p.Counts()) - One(i in s.hs && s.hs[i].Counts())
    requires s.t.pool.estN + delta <= s.cap
    ensures Inv(s.Est(delta).Go(i, p))
  {
    CountingGo(s.hs, i, p);
    var s' := s.Est(delta).Go(i, p);
    assert s'.t.pool.conns == s.t.pool.conns;
    assert PoolInv(s'.t.pool, Elems(s.t.up), Elems(s.t.dn), Elems(s.du.Snap()), Elems(s.dd.Snap()));
  }

  lemma HandshakeStep(s: Sys, a: Action, i: ThreadId)
    requires Inv(s)
    requires i in s.hs && !a.Lock?
    ensures Inv(DoHandshake(s, a, i, s.hs[i]))
  {
    hide TableInv, ThreadInv;
    var s' := DoHandshake(s, a, i, s.hs[i]);
    if s' != s {
      var p := s'.hs[i];
      var delta := One(p.Counts()) - One(s.hs[i].Counts());
      PhaseChange(s, i, p, delta);
      assert s' == s.Est(delta).Go(i, p).(answers := s'.answers);
    }
  }

  lemma NextIsFresh(s: Sys)
    requires Inv(s)
    ensures s.next !in s.t.registered && s.next !in s.t.up && s.next !in s.t.dn
  {
    assert s.next !in s.t.pool.conns;
    assert s.next !in Elems(s.t.up) && s.next !in Elems(s.t.dn);
  }

  lemma LockRefused(s: Sys, i: ThreadId, growUp: bool, growDn: bool)
    requires Inv(s) && i in s.hs && s.hs[i].phase.Adding?
    requires s.PlaneDead() || !growUp || !growDn
    ensures Inv(Locked(s, i, growUp, growDn))
    ensures Locked(s, i, growUp, growDn) ==
            s.(t := s.t.(arrGen := s.t.arrGen + 1), next := s.next + 1).Go(i, Hs(Refused, false))
  {
    hide PoolInv, NoDup, Elems, Counting;
    NextIsFresh(s);
    RegisterRefused(s.t, s.next, s.PlaneDead(), growUp, growDn);
    CountingGo(s.hs, i, Hs(Refused, false));
  }

  lemma LockAccepted(s: Sys, i: ThreadId)
    requires Inv(s) && i in s.hs && s.hs[i].phase.Adding?
    requires !s.PlaneDead()
    ensures Inv(Locked(s, i, true, true))
  {
    hide PoolInv, NoDup;
    NextIsFresh(s);
    RegisterAccepted(s.t, s.next, Elems(s.du.Snap()), Elems(s.dd.Snap()));
    CountingGo(s.hs, i, Hs(Done, false));
  }

  /** `UnrefAllKeeps` for the thread of direction `d`. */
  lemma UnrefThread(t: Table, d: Dir, mine: seq<ConnId>, other: set<ConnId>)
    requires NoDup(mine)
    requires if d.Up? then TableInv(t, Elems(mine), other) else TableInv(t, other, Elems(mine))
    ensures var t' := t.(pool := UnrefAll(t.pool, mine));
            && (if d.Up? then TableInv(t', {}, other) else TableInv(t', other, {}))
            && Moves(t.pool, t'.pool)
  {
    var au, ad := Elems(t.up), Elems(t.dn);
    if d.Down? { SwapHeld(t.pool, au, ad, other, Elems(mine)); }
    UnrefAllKeeps(t.pool, mine, au, ad, other);
    if d.Down? { SwapHeld(UnrefAll(t.pool, mine), au, ad, {}, other); }
  }

  lemma RefThread(t: Table, d: Dir, other: set<ConnId>)
    requires if d.Up? then TableInv(t, {}, other) else TableInv(t, other, {})
    ensures var t' := t.(pool := RefAll(t.pool, t.Arr(d)));
            && (if d.Up? then TableInv(t', Elems(t.Arr(d)), other) else TableInv(t', other, Elems(t.Arr(d))))
            && Moves(t.pool, t'.pool)
  {
    var au, ad, mine := Elems(t.up), Elems(t.dn), t.Arr(d);
    if d.Down? { SwapHeld(t.pool, au, ad, other, {}); }
    RefAllKeeps(t.pool, {}, mine, au, ad, other);
    assert {} + Elems(mine) == Elems(mine);
    if d.Down? { SwapHeld(RefAll(t.pool, mine), au, ad, Elems(mine), other); }
  }

  /** The counter never rises on a direction thread's step. */
  lemma EstFalls(s: Sys, p: Pool)
    requires Inv(s)
    requires Moves(s.t.pool, p)
    ensures p.estN <= s.cap
  {
    assert s.t.pool.conns.Keys == p.conns.Keys + (s.t.pool.conns.Keys - p.conns.Keys);
    assert |p.conns.Keys| == |p.conns| && |s.t.pool.conns.Keys| == |s.t.pool.conns|;
  }

  /** A direction thread's new table and phase fit the rest of the system. */
  lemma DirectionChange(s: Sys, d: Dir, t: Table, x: Direction, stop: bool)
    requires Inv(s)
    requires if d.Up? then TableInv(t, Elems(x.Snap()), Elems(s.dd.Snap()))
             else TableInv(t, Elems(s.du.Snap()), Elems(x.Snap()))
    requires ThreadInv(t, d, x)
    requires t.Arr(d.Other()) == s.t.Arr(d.Other())
    requires t.registered == s.t.registered
    requires Moves(s.t.pool, t.pool)
    requires s.stop ==> stop
    requires x.Exited? ==> stop
    ensures Inv(s.(t := t, stop := stop).WithThread(d, x))
  {
    EstFalls(s, t.pool);
  }

  lemma PhaseOnly(s: Sys, d: Dir, x: Direction, stop: bool)
    requires Inv(s)
    requires x.Snap() == s.Thread(d).Snap() && x.Dead() == s.Thread(d).Dead()
    requires s.stop ==> stop
    requires x.Exited? ==> stop
    ensures Inv(s.(stop := stop).WithThread(d, x))
  {
    DirectionChange(s, d, s.t, x, stop);
  }

  lemma SnapshotStep(s: Sys, d: Dir)
    requires Inv(s) && s.Thread(d).Entering?
    ensures Inv(Snapshotted(s, d))
  {
    hide TableInv, Moves;
    ElemsNone();
    RefThread(s.t, d, Elems(s.Thread(d.Other()).Snap()));
    DirectionChange(s, d, s.t.(pool := RefAll(s.t.pool, s.t.Arr(d))), Holding(s.t.Arr(d), s.t.arrGen), s.stop);
  }

  /** Retire, then drop the references: the order of the loop bottom and of the cleanup. */
  lemma RetireThenUnref(t0: Table, t: Table, d: Dir, snap: seq<ConnId>, other: set<ConnId>, gone: set<ConnId>)
    requires NoDup(snap)
    requires if d.Up? then TableInv(t, Elems(snap), other) else TableInv(t, other, Elems(snap))
    requires Retired(t0, t, d, gone)
    ensures var t' := t.(pool := UnrefAll(t.pool, snap));
            && (if d.Up? then TableInv(t', {}, other) else TableInv(t', other, {}))
            && Moves(t0.pool, t'.pool)
  {
    hide TableInv;
    UnrefThread(t, d, snap, other);
  }

  lemma DroppedKeeps(s: Sys, d: Dir, t: Table, x: Direction, gone: set<ConnId>)
    requires Inv(s)
    requires TableInv(t, Elems(s.du.Snap()), Elems(s.dd.Snap()))
    requires Retired(s.t, t, d, gone)
    requires x == Top || (x.Dead() && t.Arr(d) == [] && (x.Exited? ==> s.stop))
    ensures Inv(Dropped(s, d, t, x))
  {
    hide TableInv, Moves;
    var snap := s.Thread(d).Snap();
    RetireThenUnref(s.t, t, d, snap, Elems(s.Thread(d.Other()).Snap()), gone);
    ElemsNone();
    DirectionChange(s, d, t.(pool := UnrefAll(t.pool, snap)), x, s.stop);
  }

  lemma InterruptedStep(s: Sys, d: Dir)
    requires Inv(s)
    ensures Inv(Dropped(s, d, s.t, Top))
  {
    DroppedKeeps(s, d, s.t, Top, {});
  }

  lemma BottomStep(s: Sys, d: Dir, ended: set<ConnId>)
    requires Inv(s)
    ensures Inv(Dropped(s, d, RetireEnded(s.t, d, s.Thread(d).Snap(), ended), Top))
  {
    var snap := s.Thread(d).Snap();
    RetireEndedKeeps(s.t, d, snap, ended, Elems(s.du.Snap()), Elems(s.dd.Snap()));
    DroppedKeeps(s, d, RetireEnded(s.t, d, snap, ended), Top, Elems(snap) * ended);
  }

  lemma CleanupStep(s: Sys, d: Dir)
    requires Inv(s)
    ensures Inv(Dropped(s, d, RetireAll(s.t, d), if s.stop then Exited else Announcing))
  {
    RetireAllKeeps(s.t, d, Elems(s.du.Snap()), Elems(s.dd.Snap()));
    DroppedKeeps(s, d, RetireAll(s.t, d), if s.stop then Exited else Announcing, Elems(s.t.Arr(d)));
  }

  lemma DirectionStep(s: Sys, a: Action, d: Dir)
    requires Inv(s)
    ensures Inv(DoDirection(s, a, d, s.Thread(d)))
  {
    hide TableInv, ThreadInv;
    var x := s.Thread(d);
    match a
    case Test(_) => if x.Top? { PhaseOnly(s, d, if s.stop then Leaving([]) else Entering, s.stop); }
    case Snapshot(_, room) =>
      if x.Entering? {
        if room { SnapshotStep(s, d); } else { PhaseOnly(s, d, Leaving([]), s.stop); }
      }
    case Interrupted(_) => InterruptedStep(s, d);
    case Bottom(_, ended) => BottomStep(s, d, ended);
    case Break(_) => if x.Holding? { PhaseOnly(s, d, Leaving(x.snap), s.stop); }
    case Cleanup(_) => CleanupStep(s, d);
    case Announce(_) => if x.Announcing? { PhaseOnly(s, d, Exited, true); }
    case _ =>
  }

  lemma ElemsNone()
    ensures Elems([]) == {}
  {
  }

  lemma StepKeepsInv(s: Sys, a: Action)
    requires Inv(s)
    ensures Inv(Do(s, a))
  {
    hide TableInv;
    if a.Stop? {
    } else if a.Accept? {
      PhaseChange(s, a.i, Hs(Fresh, false), if a.i in s.hs then -One(s.hs[a.i].Counts()) else 0);
      assert s.Est(0) == s;
    } else if a.Test? || a.Snapshot? || a.Interrupted? || a.Bottom? || a.Break? || a.Cleanup? || a.Announce? {
      DirectionStep(s, a, a.d);
    } else if a.i in s.hs {
      if !a.Lock? { HandshakeStep(s, a, a.i); }
      else if s.hs[a.i].phase.Adding? {
        if s.PlaneDead() || !a.growUp || !a.growDn { LockRefused(s, a.i, a.growUp, a.growDn); }
        else { LockAccepted(s, a.i); }
      }
    }
  }

  lemma {:induction false} RunKeepsInv(s: Sys, schedule: seq<Action>)
    requires Inv(s)
    ensures Inv(Run(s, schedule))
    decreases |schedule|
  {
    if schedule != [] {
      StepKeepsInv(s, schedule[0]);
      RunKeepsInv(Do(s, schedule[0]), schedule[1..]);
    }
  }

  lemma EveryRun(cap: nat, schedule: seq<Action>)
    ensures Inv(Run(Init(cap), schedule))
  {
    ElemsNone();
    assert Counting(map[]) == {};
    RunKeepsInv(Init(cap), schedule);
  }
}
