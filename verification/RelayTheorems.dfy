/** What the relay protocol guarantees over every schedule of its threads. */
module RelayTheorems {
  import opened RelayTable
  import opened RelayLifetime
  import opened RelayConfig

  /** A connection's counts are exactly the arrays and the held snapshots it is in; what an
      array or a snapshot names is allocated; every registered connection is live or freed,
      never both; and it is freed as soon as nothing holds it, not before. */
  lemma LifetimeSafety(cap: nat, schedule: seq<Action>)
    ensures var s := Run(Init(cap), schedule);
            var p := s.t.pool;
            && !p.fault
            && p.conns.Keys !! p.freed && p.conns.Keys + p.freed == s.t.registered
            && (forall c :: c in p.conns ==>
                  && p.conns[c].dirs == One(c in s.t.up) + One(c in s.t.dn)
                  && p.conns[c].inUse == One(c in s.du.Snap()) + One(c in s.dd.Snap()))
            && (forall c :: c in s.t.registered ==>
                  (c in p.conns <==> c in s.t.up || c in s.t.dn || c in s.du.Snap() || c in s.dd.Snap()))
            && (forall c :: c in s.t.up || c in s.t.dn || c in s.du.Snap() || c in s.dd.Snap() ==> c in p.conns)
  {
    EveryRun(cap, schedule);
    var s := Run(Init(cap), schedule);
    var p, au, ad, hu, hd := s.t.pool, Elems(s.t.up), Elems(s.t.dn), Elems(s.du.Snap()), Elems(s.dd.Snap());
    forall c | c in s.t.up || c in s.t.dn || c in s.du.Snap() || c in s.dd.Snap() ensures c in p.conns {
      assert c in au + ad + hu + hd;
    }
    forall c | c in p.conns
      ensures p.conns[c].dirs == One(c in s.t.up) + One(c in s.t.dn)
      ensures p.conns[c].inUse == One(c in s.du.Snap()) + One(c in s.dd.Snap())
      ensures c in s.t.up || c in s.t.dn || c in s.du.Snap() || c in s.dd.Snap()
    {
      assert Counted(p.conns[c], c, au, ad, hu, hd);
    }
  }

  /** The counter is the reservations in flight plus the unfreed connections, within the cap;
      a thread that has answered success is among them until it is registered or rolled back. */
  lemma SlotAccounting(cap: nat, schedule: seq<Action>)
    ensures var s := Run(Init(cap), schedule);
            && s.t.pool.estN == |Counting(s.hs)| + |s.t.pool.conns|
            && 0 <= s.t.pool.estN <= cap
            && (forall i :: i in s.hs && (s.hs[i].phase.Answered? || s.hs[i].phase.Adding?) ==>
                  i in Counting(s.hs))
            && (forall i :: i in s.hs && s.hs[i].phase.Answered? ==> s.hs[i].reserved)
  {
    EveryRun(cap, schedule);
    RunKeepsCap(Init(cap), schedule);
  }

  lemma {:induction false} RunKeepsCap(s: Sys, schedule: seq<Action>)
    ensures Run(s, schedule).cap == s.cap
    decreases |schedule|
  {
    if schedule != [] { RunKeepsCap(Do(s, schedule[0]), schedule[1..]); }
  }

  lemma {:induction false} RunAppend(s: Sys, a: seq<Action>, b: seq<Action>)
    ensures Run(s, a + b) == Run(Run(s, a), b)
    decreases |a|
  {
    if a == [] {
      assert a + b == b;
    } else {
      assert (a + b)[1..] == a[1..] + b;
      RunAppend(Do(s, a[0]), a[1..], b);
    }
  }

  // ---------------------------------------------------------------- teardown

  lemma RetirementsRegisterNothing(s: Sys, d: Dir, ended: set<ConnId>)
    requires Inv(s)
    ensures RetireAll(s.t, d).registered == s.t.registered
    ensures RetireEnded(s.t, d, s.Thread(d).Snap(), ended).registered == s.t.registered
  {
    RetireAllKeeps(s.t, d, Elems(s.du.Snap()), Elems(s.dd.Snap()));
    RetireEndedKeeps(s.t, d, s.Thread(d).Snap(), ended, Elems(s.du.Snap()), Elems(s.dd.Snap()));
  }

  lemma DeathIsFinal(s: Sys, a: Action)
    requires Inv(s) && s.PlaneDead()
    ensures Do(s, a).PlaneDead() && Do(s, a).t.registered == s.t.registered
  {
    hide Inv, RefAll, UnrefAll, RetireAll, RetireEnded;
    if a.Bottom? { RetirementsRegisterNothing(s, a.d, a.ended); }
    if a.Cleanup? { RetirementsRegisterNothing(s, a.d, {}); }
  }

  lemma {:induction false} DeadPlaneRegistersNothing(s: Sys, schedule: seq<Action>)
    requires Inv(s) && s.PlaneDead()
    ensures Run(s, schedule).PlaneDead() && Run(s, schedule).t.registered == s.t.registered
    decreases |schedule|
  {
    hide Inv, Do;
    if schedule != [] {
      DeathIsFinal(s, schedule[0]);
      StepKeepsInv(s, schedule[0]);
      DeadPlaneRegistersNothing(Do(s, schedule[0]), schedule[1..]);
    }
  }

  /** Once a direction thread has published its death, no connection is ever registered again. */
  lemma NoRegistrationAfterDeath(cap: nat, before: seq<Action>, after: seq<Action>)
    requires Run(Init(cap), before).PlaneDead()
    ensures Run(Init(cap), before + after).t.registered == Run(Init(cap), before).t.registered
  {
    hide Inv, Do;
    EveryRun(cap, before);
    RunAppend(Init(cap), before, after);
    DeadPlaneRegistersNothing(Run(Init(cap), before), after);
  }

  /** Once both have, nothing is left: no array entry, no unfreed connection, and the counter
      holds only the handshakes still in flight. */
  lemma TeardownComplete(cap: nat, schedule: seq<Action>)
    requires var s := Run(Init(cap), schedule); s.du.Dead() && s.dd.Dead()
    ensures var s := Run(Init(cap), schedule);
            && s.t.up == [] && s.t.dn == []
            && s.t.pool.conns == map[]
            && s.t.pool.freed == s.t.registered
            && s.t.pool.estN == |Counting(s.hs)|
  {
    EveryRun(cap, schedule);
    var s := Run(Init(cap), schedule);
    var p := s.t.pool;
    ElemsNone();
    assert p.conns.Keys == {};
  }

  /** Exit steps of one direction thread, from whatever phase it is in. */
  function Finish(d: Dir): seq<Action> {
    [Snapshot(d, false), Break(d), Test(d), Cleanup(d), Announce(d)]
  }

  lemma FinishExits(s: Sys, d: Dir)
    requires s.stop
    ensures Run(s, Finish(d)).Thread(d).Exited?
    ensures Run(s, Finish(d)).stop
    ensures Run(s, Finish(d)).Thread(d.Other()) == s.Thread(d.Other())
  {
    hide RefAll, UnrefAll, RetireAll, RetireEnded;
    var s1 := Do(s, Snapshot(d, false));
    var s2 := Do(s1, Break(d));
    var s3 := Do(s2, Test(d));
    var s4 := Do(s3, Cleanup(d));
    var s5 := Do(s4, Announce(d));
    assert s3.Thread(d).Leaving? || s3.Thread(d).Dead();
    assert s4.Thread(d).Dead();
    RunFive(s, Snapshot(d, false), Break(d), Test(d), Cleanup(d), Announce(d));
  }

  lemma RunCons(s: Sys, a: Action, rest: seq<Action>)
    ensures Run(s, [a] + rest) == Run(Do(s, a), rest)
  {
    assert ([a] + rest)[1..] == rest;
  }

  lemma RunFive(s: Sys, a: Action, b: Action, c: Action, d: Action, e: Action)
    ensures Run(s, [a, b, c, d, e]) == Do(Do(Do(Do(Do(s, a), b), c), d), e)
  {
    hide Do;
    assert [a, b, c, d, e] == [a] + ([b] + ([c] + ([d] + ([e] + []))));
    RunCons(s, a, [b] + ([c] + ([d] + ([e] + []))));
    RunCons(Do(s, a), b, [c] + ([d] + ([e] + [])));
    RunCons(Do(Do(s, a), b), c, [d] + ([e] + []));
    RunCons(Do(Do(Do(s, a), b), c), d, [e] + []);
    RunCons(Do(Do(Do(Do(s, a), b), c), d), e, []);
  }

  /** No reachable state is stuck: stopping the relay and letting the two direction threads
      run on frees every connection ever registered. */
  lemma TeardownAlwaysPossible(cap: nat, schedule: seq<Action>)
    ensures var s := Run(Init(cap), schedule + [Stop] + Finish(Up) + Finish(Down));
            s.du.Exited? && s.dd.Exited? && s.t.pool.conns == map[] && s.t.pool.freed == s.t.registered
  {
    hide Finish, DoDirection, DoHandshake;
    var all := schedule + [Stop] + Finish(Up) + Finish(Down);
    RunAppend(Init(cap), schedule + [Stop] + Finish(Up), Finish(Down));
    RunAppend(Init(cap), schedule + [Stop], Finish(Up));
    RunAppend(Init(cap), schedule, [Stop]);
    var s := Run(Init(cap), schedule);
    assert [Stop][1..] == [];
    assert Run(s, [Stop]) == Run(Do(s, Stop), []);
    FinishExits(Do(s, Stop), Up);
    FinishExits(Run(Do(s, Stop), Finish(Up)), Down);
    TeardownComplete(cap, all);
  }

  /** The direction thread `d` in phase `x` can take step `a`. */
  predicate Enabled(x: Direction, a: Action, d: Dir) {
    match a
    case Test(e) => e == d && x.Top?
    case Snapshot(e, _) => e == d && x.Entering?
    case Interrupted(e) => e == d && x.Holding?
    case Bottom(e, _) => e == d && x.Holding?
    case Break(e) => e == d && x.Holding?
    case Cleanup(e) => e == d && x.Leaving?
    case Announce(e) => e == d && x.Announcing?
    case _ => false
  }

  /** Steps a thread has ahead of it once the relay is stopped. */
  function Rank(x: Direction): nat {
    match x
    case Entering => 4
    case Holding(_, _) => 3
    case Top => 2
    case Leaving(_) => 1
    case Announcing => 1
    case Exited => 0
  }

  function StepsOf(s: Sys, schedule: seq<Action>, d: Dir): nat
    decreases |schedule|
  {
    if schedule == [] then 0
    else One(Enabled(s.Thread(d), schedule[0], d)) + StepsOf(Do(s, schedule[0]), schedule[1..], d)
  }

  lemma StepRanks(s: Sys, a: Action, d: Dir)
    requires s.stop
    ensures Do(s, a).stop
    ensures Rank(Do(s, a).Thread(d)) + One(Enabled(s.Thread(d), a, d)) <= Rank(s.Thread(d))
  {
    hide RefAll, UnrefAll, RetireAll, RetireEnded, Register;
  }

  /** Once the relay is stopped a direction thread takes at most four more steps, whatever the schedule. */
  lemma {:induction false} StopBoundsSteps(s: Sys, schedule: seq<Action>, d: Dir)
    requires s.stop
    ensures Run(s, schedule).stop
    ensures StepsOf(s, schedule, d) + Rank(Run(s, schedule).Thread(d)) <= Rank(s.Thread(d)) <= 4
    decreases |schedule|
  {
    hide Do, Enabled;
    if schedule != [] {
      StepRanks(s, schedule[0], d);
      StopBoundsSteps(Do(s, schedule[0]), schedule[1..], d);
    }
  }

  /** Every schedule that leaves neither direction thread a step to take has freed every connection. */
  lemma QuietMeansTornDown(cap: nat, schedule: seq<Action>)
    requires var s := Run(Init(cap), schedule); forall a, d :: !Enabled(s.Thread(d), a, d)
    ensures var s := Run(Init(cap), schedule);
            s.du.Exited? && s.dd.Exited? && s.t.pool.conns == map[] && s.t.pool.freed == s.t.registered
  {
    var s := Run(Init(cap), schedule);
    NotStuck(s, Up);
    NotStuck(s, Down);
    TeardownComplete(cap, schedule);
  }

  lemma NotStuck(s: Sys, d: Dir)
    ensures s.Thread(d).Exited? || exists a :: Enabled(s.Thread(d), a, d)
  {
    var x := s.Thread(d);
    if x.Top? { assert Enabled(x, Test(d), d); }
    if x.Entering? { assert Enabled(x, Snapshot(d, false), d); }
    if x.Holding? { assert Enabled(x, Break(d), d); }
    if x.Leaving? { assert Enabled(x, Cleanup(d), d); }
    if x.Announcing? { assert Enabled(x, Announce(d), d); }
  }

  // ---------------------------------------------------------------- arrays and their generation

  ghost predicate Stamped(t: Table, t': Table) {
    t'.arrGen >= t.arrGen && (t'.arrGen == t.arrGen ==> t'.up == t.up && t'.dn == t.dn)
  }

  lemma RetirementsMoveGen(s: Sys, d: Dir, ended: set<ConnId>)
    requires Inv(s)
    ensures Stamped(s.t, RetireAll(s.t, d))
    ensures Stamped(s.t, RetireEnded(s.t, d, s.Thread(d).Snap(), ended))
  {
    hide PoolInv, NoDup;
    RetireAllKeeps(s.t, d, Elems(s.du.Snap()), Elems(s.dd.Snap()));
    RetireEndedKeeps(s.t, d, s.Thread(d).Snap(), ended, Elems(s.du.Snap()), Elems(s.dd.Snap()));
  }

  lemma StepMovesGen(s: Sys, a: Action)
    requires Inv(s)
    ensures Stamped(s.t, Do(s, a).t)
  {
    hide Inv, RefAll, UnrefAll, RetireAll, RetireEnded;
    if a.Bottom? { RetirementsMoveGen(s, a.d, a.ended); }
    if a.Cleanup? { RetirementsMoveGen(s, a.d, {}); }
  }

  /** The generation is a faithful stamp: two states of a run with the same generation have
      the same arrays, entry by entry. */
  lemma {:induction false} SameGenSameArrays(s: Sys, schedule: seq<Action>)
    requires Inv(s)
    ensures Stamped(s.t, Run(s, schedule).t)
    decreases |schedule|
  {
    hide Inv, Do;
    if schedule != [] {
      StepMovesGen(s, schedule[0]);
      StepKeepsInv(s, schedule[0]);
      SameGenSameArrays(Do(s, schedule[0]), schedule[1..]);
    }
  }

  /** A snapshot and the generation read with it. */
  datatype Snap = Snap(arr: seq<ConnId>, gen: nat)

  /** The snapshot direction `d` takes in one step, if it takes one. */
  function Taken(s: Sys, d: Dir, a: Action): (q: seq<Snap>)
    ensures |q| <= 1
  {
    var x := Do(s, a).Thread(d);
    if a == Snapshot(d, true) && s.Thread(d).Entering? && x.Holding? then [Snap(x.snap, x.gen)] else []
  }

  /** The snapshots it takes along a schedule. */
  function Snaps(s: Sys, d: Dir, schedule: seq<Action>): seq<Snap>
    decreases |schedule|
  {
    if schedule == [] then [] else Taken(s, d, schedule[0]) + Snaps(Do(s, schedule[0]), d, schedule[1..])
  }

  lemma TakenIs(s: Sys, d: Dir, a: Action)
    ensures Taken(s, d, a) != [] ==> Taken(s, d, a)[0] == Snap(Do(s, a).t.Arr(d), Do(s, a).t.arrGen)
  {
    hide RefAll, UnrefAll, RetireAll, RetireEnded, Register;
  }

  ghost predicate StampedBy(x: Snap, t: Table, d: Dir) {
    x.gen >= t.arrGen && (x.gen == t.arrGen ==> x.arr == t.Arr(d))
  }

  /** Every snapshot of a run is stamped as the run's first state is. */
  lemma {:induction false} SnapsStamped(s: Sys, d: Dir, schedule: seq<Action>, t: Table)
    requires Inv(s) && Stamped(t, s.t)
    ensures forall k :: 0 <= k < |Snaps(s, d, schedule)| ==> StampedBy(Snaps(s, d, schedule)[k], t, d)
    decreases |schedule|
  {
    hide Inv, Do, Taken;
    if schedule != [] {
      var s', q := Do(s, schedule[0]), Snaps(s, d, schedule);
      StepMovesGen(s, schedule[0]);
      StepKeepsInv(s, schedule[0]);
      TakenIs(s, d, schedule[0]);
      SnapsStamped(s', d, schedule[1..], t);
      assert q == Taken(s, d, schedule[0]) + Snaps(s', d, schedule[1..]);
    }
  }

  ghost predicate GenDecides(q: seq<Snap>) {
    forall i, j :: 0 <= i < j < |q| ==> (q[i].gen == q[j].gen ==> q[i].arr == q[j].arr)
  }

  lemma GenDecidesCons(x: Snap, q: seq<Snap>, t: Table, d: Dir)
    requires GenDecides(q) && x == Snap(t.Arr(d), t.arrGen)
    requires forall k :: 0 <= k < |q| ==> StampedBy(q[k], t, d)
    ensures GenDecides([x] + q)
  {
  }

  /** Along every schedule, two snapshots of one direction with the same generation are the same. */
  lemma {:induction false} SameGenSameSnap(s: Sys, d: Dir, schedule: seq<Action>)
    requires Inv(s)
    ensures GenDecides(Snaps(s, d, schedule))
    decreases |schedule|
  {
    hide Inv, Do, Taken, GenDecides, StampedBy;
    if schedule == [] {
      assert GenDecides([]) by { NoSnaps(); }
    } else {
      var a, rest := schedule[0], schedule[1..];
      var s' := Do(s, a);
      StepKeepsInv(s, a);
      TakenIs(s, d, a);
      SameGenSameSnap(s', d, rest);
      SnapsStamped(s', d, rest, s'.t);
      var q, tail := Taken(s, d, a), Snaps(s', d, rest);
      if q == [] {
        assert q + tail == tail;
      } else {
        GenDecidesCons(q[0], tail, s'.t, d);
        assert q == [q[0]];
      }
    }
  }

  lemma NoSnaps()
    ensures GenDecides([])
  {
  }

  // ---------------------------------------------------------------- is a success answer ever taken back?

  const Promise := [Accept(0), Reserve(0), Gate(0), Answer(0), Stop]
  const Retraction := [Test(Up), Cleanup(Up), BeginAdd(0), Lock(0, true, true), Rollback(1)]

  function Promised(): Sys {
    Sys(EmptyTable.(pool := EmptyTable.pool.(estN := 1)), 1, true, map[0 := Hs(Answered, true)], Top, Top, 0, 1)
  }

  lemma PromiseMade()
    ensures Run(Init(1), Promise) == Promised()
  {
    hide RefAll, UnrefAll, RetireAll, RetireEnded, Register;
    var s0 := Init(1);
    RunFive(s0, Accept(0), Reserve(0), Gate(0), Answer(0), Stop);
    var s1 := Do(s0, Accept(0));
    assert s1 == s0.Go(0, Hs(Fresh, false));
    var s2 := Do(s1, Reserve(0));
    assert s2 == s1.Est(1).Go(0, Hs(Reserved, true));
    var s3 := Do(s2, Gate(0));
    assert s3 == s2.Go(0, Hs(Cleared, true));
    var s4 := Do(s3, Answer(0));
    assert s4 == s3.Go(0, Hs(Answered, true)).(answers := 1);
    assert s4.hs == map[0 := Hs(Answered, true)];
  }

  lemma PromiseRetracted()
    ensures var s := Run(Promised(), Retraction);
            s.answers == 1 && 0 in s.hs && s.hs[0].phase == Refused && s.t.registered == {}
  {
    hide RefAll, RetireEnded;
    var s0 := Promised();
    RunFive(s0, Test(Up), Cleanup(Up), BeginAdd(0), Lock(0, true, true), Rollback(1));
    var s1 := Do(s0, Test(Up));
    assert s1 == s0.(du := Leaving([]));
    var s2 := Do(s1, Cleanup(Up));
    assert s2 == s0.(du := Exited);
    var s3 := Do(s2, BeginAdd(0));
    assert s3 == s2.Go(0, Hs(Adding, false));
    var s4 := Do(s3, Lock(0, true, true));
    assert s4 == Locked(s3, 0, true, true);
  }

  /** The dead-plane gate runs before the reply and the registration after it, so a death
      published in between takes back a success already sent. */
  lemma AnswerCanBeTakenBack()
    ensures exists schedule: seq<Action> ::
              var s := Run(Init(1), schedule);
              s.answers == 1 && 0 in s.hs && s.hs[0].phase == Refused && s.t.registered == {}
  {
    hide Do, Promised;
    PromiseMade();
    PromiseRetracted();
    RunAppend(Init(1), Promise, Retraction);
    var s := Run(Init(1), Promise + Retraction);
  }

  predicate ByThread(a: Action, i: ThreadId) {
    && (a.Accept? || a.Reserve? || a.Gate? || a.Answer? || a.Fail? || a.BeginAdd? || a.AddFails? || a.Lock? ||
        a.Rollback? || a.Release?)
    && a.i == i
  }

  lemma {:induction false} OthersLeaveThreadAlone(s: Sys, i: ThreadId, schedule: seq<Action>)
    requires i in s.hs
    requires forall k :: 0 <= k < |schedule| ==> !ByThread(schedule[k], i)
    ensures i in Run(s, schedule).hs && Run(s, schedule).hs[i] == s.hs[i]
    decreases |schedule|
  {
    if schedule != [] {
      assert !ByThread(schedule[0], i);
      OthersLeaveThreadAlone(Do(s, schedule[0]), i, schedule[1..]);
    }
  }

  lemma LockOutcome(m: Sys, i: ThreadId, growUp: bool, growDn: bool)
    requires Inv(m) && i in m.hs && m.hs[i].phase.Adding?
    ensures var s' := Do(m, Lock(i, growUp, growDn));
            && i in s'.hs
            && (if m.PlaneDead() || !growUp || !growDn
                then s'.hs[i].phase.Refused? && s'.t == m.t.(arrGen := m.t.arrGen + 1)
                else s'.hs[i].phase.Done? && m.next !in m.t.registered && s'.t.registered == m.t.registered + {m.next})
  {
    hide PoolInv;
    NextIsFresh(m);
    assert Do(m, Lock(i, growUp, growDn)) == Locked(m, i, growUp, growDn);
    if m.PlaneDead() || !growUp || !growDn { LockRefused(m, i, growUp, growDn); }
  }

  ghost predicate NotBy(schedule: seq<Action>, i: ThreadId) {
    forall k :: 0 <= k < |schedule| ==> !ByThread(schedule[k], i)
  }

  /** A thread that has answered success and enters `rp_add` is registered if and only if, when it
      locks the table, no direction thread has published its death and both arrays can grow, whatever
      the other threads do before it enters and before it locks. */
  lemma AnswerHonouredIff(s: Sys, i: ThreadId, before: seq<Action>, during: seq<Action>, growUp: bool, growDn: bool)
    requires Inv(s) && i in s.hs && s.hs[i].phase.Answered? && NotBy(before, i) && NotBy(during, i)
    ensures var m := Run(Do(Run(s, before), BeginAdd(i)), during);
            var s' := Do(m, Lock(i, growUp, growDn));
            && i in s'.hs
            && (s'.hs[i].phase.Done? <==> !m.PlaneDead() && growUp && growDn)
            && (s'.hs[i].phase.Done? ==> m.next !in m.t.registered && s'.t.registered == m.t.registered + {m.next})
            && (!s'.hs[i].phase.Done? ==> s'.hs[i].phase.Refused? && s'.t.registered == m.t.registered)
  {
    hide Inv, Do, Run;
    OthersLeaveThreadAlone(s, i, before);
    RunKeepsInv(s, before);
    var e := Run(s, before);
    EntersAdd(e, i);
    var b := Do(e, BeginAdd(i));
    OthersLeaveThreadAlone(b, i, during);
    RunKeepsInv(b, during);
    LockOutcome(Run(b, during), i, growUp, growDn);
  }

  /** The flag is up when `rp_add` is entered, so its own check of the cap is never reached. */
  lemma EntersAdd(s: Sys, i: ThreadId)
    requires Inv(s) && i in s.hs && s.hs[i].phase.Answered?
    ensures Do(s, BeginAdd(i)) == s.Go(i, Hs(Adding, false)) && Inv(Do(s, BeginAdd(i)))
  {
    hide Inv, Locked, DoDirection;
    FlagUp(s, i);
    StepKeepsInv(s, BeginAdd(i));
  }

  lemma FlagUp(s: Sys, i: ThreadId)
    requires Inv(s) && i in s.hs && s.hs[i].phase.Answered?
    ensures s.hs[i].reserved
  {
    hide TableInv, ThreadInv;
    assert s.hs[i].Ok();
  }

  // ---------------------------------------------------------------- the descriptor budget

  /** Descriptors set aside out of a limit of `lim`. */
  function FdReserve(lim: nat): nat {
    var quarter := if lim / 4 > RP_FD_RESERVE then RP_FD_RESERVE else lim / 4;
    if quarter < lim / 2 < 2 * RP_MAX_CONNS then lim / 2
    else if quarter < 2 * RP_MAX_CONNS then 2 * RP_MAX_CONNS
    else quarter
  }

  /** Division as in C, towards zero. */
  function Half(n: int): int {
    if n >= 0 then n / 2 else -(-n / 2)
  }

  /** The established cap that `relay_proxy_start` derives. */
  function EstCap(lim: nat): (cap: nat)
    ensures 1 <= cap <= RP_MAX_ESTABLISHED
  {
    var room := Half(lim - FdReserve(lim));
    var atLeast1 := if room < 1 then 1 else room;
    if atLeast1 < RP_MAX_ESTABLISHED then atLeast1 else RP_MAX_ESTABLISHED
  }

  /** Two descriptors per established connection and the reserve fit the limit in every run exactly
      when the limit is at least 3. */
  lemma BudgetIff(lim: nat)
    ensures (forall schedule :: 2 * Run(Init(EstCap(lim)), schedule).t.pool.estN + FdReserve(lim) <= lim)
        <==> lim >= 3
  {
    var cap := EstCap(lim);
    assert 2 * cap + FdReserve(lim) <= lim <==> lim >= 3;
    if lim >= 3 {
      forall schedule ensures 2 * Run(Init(cap), schedule).t.pool.estN + FdReserve(lim) <= lim {
        SlotAccounting(cap, schedule);
      }
    } else {
      var one := [Accept(0), Reserve(0)];
      assert Run(Init(cap), one).t.pool.estN == 1;
    }
  }

  /** The reserve covers a full set of handshakes exactly from a limit of 1024 on (and at the two
      limits where nothing fits anyway), not from 512 on. */
  lemma ReserveCoversIff(lim: nat)
    ensures FdReserve(lim) >= 2 * RP_MAX_CONNS <==> lim >= 1024 || lim <= 1
  {
  }

  /** Threads that all want a slot, one after the other. */
  function Fill(n: nat): seq<Action> {
    if n == 0 then [] else Fill(n - 1) + [Accept(n - 1), Reserve(n - 1)]
  }

  lemma {:induction false} FillFills(cap: nat, n: nat)
    requires n <= cap
    ensures var s := Run(Init(cap), Fill(n));
            s.cap == cap && s.t.pool.estN == n && forall i :: i in s.hs ==> i < n
  {
    if n > 0 {
      FillFills(cap, n - 1);
      var s, a, b := Run(Init(cap), Fill(n - 1)), Accept(n - 1), Reserve(n - 1);
      RunAppend(Init(cap), Fill(n - 1), [a, b]);
      assert [a, b][1..] == [b] && [b][1..] == [];
      assert Run(s, [a, b]) == Run(Do(s, a), [b]) == Run(Do(Do(s, a), b), []);
      assert Do(s, a) == s.Go(n - 1, Hs(Fresh, false));
    }
  }

  /** No run, a full set of handshakes included, overspends the limit if and only if the limit is at
      least 1024 or exactly 1022; the code's comment has it from 512 on. */
  lemma NeverOverspendsIff(lim: nat)
    ensures (forall schedule :: 2 * Run(Init(EstCap(lim)), schedule).t.pool.estN + 2 * RP_MAX_CONNS <= lim)
        <==> lim >= 1024 || lim == 1022
  {
    var cap := EstCap(lim);
    assert 2 * cap + 2 * RP_MAX_CONNS <= lim <==> lim >= 1024 || lim == 1022;
    hide EstCap;
    FillFills(cap, cap);
    if lim >= 1024 || lim == 1022 {
      forall schedule ensures 2 * Run(Init(cap), schedule).t.pool.estN + 2 * RP_MAX_CONNS <= lim {
        SlotAccounting(cap, schedule);
      }
    }
  }
}
