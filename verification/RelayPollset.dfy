/**
 The cached pollset of a direction thread. It is rebuilt only when the thread knows it is
 stale; the theorem is that in every round, rebuilt or not, it is the pollset a rebuild from
 that round's snapshot would give.
 */
module RelayPollset {

  import opened RelayConfig
  import opened RelayTable
  import RelayLifetime
  import RelayTheorems

  /** One direction of a connection: the fields the pollset depends on. */
  datatype Ent = Ent(from: int, to: int, fromEof: bool, plen: nat) {
    predicate WantsIn() {
      !fromEof && plen + RP_BUF <= RP_PEND_LIMIT
    }

    predicate WantsOut() {
      plen > 0
    }

    function Fds(): seq<PollFd> {
      (if WantsIn() then [In(from)] else []) + (if WantsOut() then [Out(to)] else [])
    }
  }

  datatype PollFd = In(fd: int) | Out(fd: int)

  /** The pollset of a list of entries: one or two descriptors each, in order. */
  function Pollset(es: seq<Ent>): seq<PollFd> {
    if es == [] then [] else Pollset(es[..|es| - 1]) + es[|es| - 1].Fds()
  }

  /** Where entry `i` finds its descriptors, -1 for none. */
  function SlotFrom(es: seq<Ent>, i: nat): int
    requires i < |es|
  {
    if es[i].WantsIn() then |Pollset(es[..i])| else -1
  }

  function SlotTo(es: seq<Ent>, i: nat): int
    requires i < |es|
  {
    if es[i].WantsOut() then |Pollset(es[..i])| + (if es[i].WantsIn() then 1 else 0) else -1
  }

  function WakeFd(wake: int): seq<PollFd> {
    if wake >= 0 then [In(wake)] else []
  }

  /** The thread's tables, restricted to what this round may look at. */
  datatype View = View(pf: seq<PollFd>, slotFrom: seq<int>, slotTo: seq<int>)

  /** What a rebuild produces. */
  function Built(es: seq<Ent>, wake: int): View {
    View(Pollset(es) + WakeFd(wake),
         seq(|es|, i requires 0 <= i < |es| => SlotFrom(es, i)),
         seq(|es|, i requires 0 <= i < |es| => SlotTo(es, i)))
  }

  // ---------------------------------------------------------------- what the built tables mean

  lemma {:induction false} PollsetPrefix(es: seq<Ent>, i: nat)
    requires i <= |es|
    ensures Pollset(es[..i]) <= Pollset(es)
    ensures |Pollset(es)| <= 2 * |es|
    decreases |es| - i, |es|
  {
    if i == |es| {
      assert es[..i] == es;
      if es != [] { PollsetPrefix(es[..|es| - 1], |es| - 1); }
    } else {
      PollsetPrefix(es, i + 1);
      assert es[..i + 1][..i] == es[..i];
    }
  }

  lemma EntryInPollset(es: seq<Ent>, i: nat)
    requires i < |es|
    ensures Pollset(es[..i]) + es[i].Fds() <= Pollset(es)
    ensures |Pollset(es[..i])| + |es[i].Fds()| <= |Pollset(es)| <= 2 * |es|
  {
    PollsetPrefix(es, i + 1);
    assert es[..i + 1][..i] == es[..i];
  }

  /** Every slot is in range and names its own connection's descriptor; the tables need at most
      two descriptors per entry and one for the wake pipe, which comes last. */
  lemma SlotsPointHome(es: seq<Ent>, wake: int, i: nat)
    requires i < |es|
    ensures var b := Built(es, wake);
            && |b.pf| <= 2 * |es| + 1
            && (es[i].WantsIn() <==> b.slotFrom[i] >= 0)
            && (es[i].WantsOut() <==> b.slotTo[i] >= 0)
            && (es[i].WantsIn() ==> b.slotFrom[i] < |Pollset(es)| && b.pf[b.slotFrom[i]] == In(es[i].from))
            && (es[i].WantsOut() ==> b.slotTo[i] < |Pollset(es)| && b.pf[b.slotTo[i]] == Out(es[i].to))
  {
    hide Pollset;
    EntryInPollset(es, i);
    var k := |Pollset(es[..i])|;
    assert Pollset(es)[k..k + |es[i].Fds()|] == es[i].Fds();
    assert forall x :: 0 <= x < |es[i].Fds()| ==> Pollset(es)[k + x] == es[i].Fds()[x];
  }

  /** No two slots coincide: an entry's slots lie before those of every later entry. */
  lemma SlotsAscend(es: seq<Ent>, wake: int, j: nat, i: nat)
    requires j < i < |es|
    ensures var b := Built(es, wake);
            && b.slotFrom[j] < |Pollset(es[..i])| && b.slotTo[j] < |Pollset(es[..i])|
            && (b.slotFrom[j] >= 0 && b.slotTo[j] >= 0 ==> b.slotFrom[j] != b.slotTo[j])
  {
    EntryInPollset(es[..i], j);
    assert es[..i][..j] == es[..j];
  }

  /** Entries that want the same descriptors have the same tables. */
  lemma {:induction false} SamePollset(es: seq<Ent>, es': seq<Ent>)
    requires |es| == |es'|
    requires forall i :: 0 <= i < |es| ==> es[i].Fds() == es'[i].Fds()
    ensures Pollset(es) == Pollset(es')
  {
    if es != [] { SamePollset(es[..|es| - 1], es'[..|es| - 1]); }
  }

  lemma SameTables(es: seq<Ent>, es': seq<Ent>, wake: int)
    requires |es| == |es'|
    requires forall i :: 0 <= i < |es| ==>
               && es[i].from == es'[i].from && es[i].to == es'[i].to
               && es[i].WantsIn() == es'[i].WantsIn() && es[i].WantsOut() == es'[i].WantsOut()
    ensures Built(es, wake) == Built(es', wake)
  {
    forall i | 0 <= i <= |es| ensures Pollset(es[..i]) == Pollset(es'[..i]) {
      SamePollset(es[..i], es'[..i]);
    }
    assert es[..|es|] == es && es'[..|es|] == es';
  }

  // ---------------------------------------------------------------- the cache

  /** The buffers of one `rp_dir_main`, with their capacities and staleness marks. */
  class Cache {
    const wake: int
    var pf: seq<PollFd>        // pfcap cells
    var pfN: nat
    var slotFrom: seq<int>     // slotcap cells
    var slotTo: seq<int>
    var dirty: bool
    var builtGen: nat
    ghost var snap: seq<ConnId>  // the snapshot the tables were built from
    ghost var es: seq<Ent>       // its entries as of the last staleness check

    ghost predicate Sized(n: nat)
      reads this
    {
      && 2 * n + 1 <= |pf|
      && n <= |slotFrom| && |slotFrom| == |slotTo|
      && pfN <= |pf|
    }

    ghost function Tables(n: nat): View
      requires Sized(n)
      reads this
    {
      View(pf[..pfN], slotFrom[..n], slotTo[..n])
    }

    ghost predicate Valid()
      reads this
    {
      && pfN <= |pf| && |slotFrom| == |slotTo|
      && (!dirty ==> |es| == |snap| && Sized(|snap|) && Tables(|snap|) == Built(es, wake))
    }

    constructor (wake: int)
      ensures Valid() && dirty && this.wake == wake
    {
      this.wake := wake;
      pf, pfN, slotFrom, slotTo, dirty, builtGen := [], 0, [], [], true, 0;
      snap, es := [], [];
    }

    /** Grow the buffers to this round's size; false when an allocation fails. */
    method Grow(n: nat, room: bool) returns (ok: bool)
      requires Valid()
      modifies this
      ensures Valid()
      ensures ok ==> Sized(n)
      ensures room ==> ok
      ensures builtGen == old(builtGen) && snap == old(snap) && es == old(es)
      ensures dirty == (old(dirty) || (ok && n > |old(slotFrom)|))
    {
      if !room && (2 * n + 1 > |pf| || n > |slotFrom|) {
        return false;
      }
      if 2 * n + 1 > |pf| {
        pf := pf + seq(2 * n + 1 - |pf|, _ => In(-1));
      }
      if n > |slotFrom| {
        var more := seq(n - |slotFrom|, _ => 0);
        slotFrom, slotTo := slotFrom + more, slotTo + more;
        dirty := true;
      }
      return true;
    }

    /** One entry's descriptors at `k`, and its slots. */
    method PutEntry(e: Ent, i: nat, k: nat) returns (end: nat)
      requires i < |slotFrom| == |slotTo| && k + 2 <= |pf|
      modifies this`pf, this`slotFrom, this`slotTo
      ensures |pf| == old(|pf|) && end == k + |e.Fds()| <= k + 2 && pf[..end] == old(pf[..k]) + e.Fds()
      ensures slotFrom == old(slotFrom)[i := if e.WantsIn() then k else -1]
      ensures slotTo == old(slotTo)[i := if e.WantsOut() then end - 1 else -1]
    {
      end := k;
      slotFrom, slotTo := slotFrom[i := -1], slotTo[i := -1];
      if e.WantsIn() {
        pf := pf[end := In(e.from)];
        slotFrom := slotFrom[i := end];
        end := end + 1;
      }
      if e.WantsOut() {
        pf := pf[end := Out(e.to)];
        slotTo := slotTo[i := end];
        end := end + 1;
      }
    }

    /** The rebuild loop. */
    method Rebuild(now: seq<Ent>, gen: nat, ghost who: seq<ConnId>)
      requires |who| == |now| && Sized(|now|)
      modifies this
      ensures Valid() && !dirty && builtGen == gen && snap == who && es == now
      ensures Sized(|now|) && Tables(|now|) == Built(now, wake)
    {
      var k := 0;
      for i := 0 to |now|
        invariant |pf| == old(|pf|) && |slotFrom| == |slotTo| == old(|slotFrom|)
        invariant k == |Pollset(now[..i])| <= 2 * i && pf[..k] == Pollset(now[..i])
        invariant forall j :: 0 <= j < i ==> slotFrom[j] == SlotFrom(now, j) && slotTo[j] == SlotTo(now, j)
      {
        assert now[..i + 1][..i] == now[..i];
        k := PutEntry(now[i], i, k);
      }
      assert now[..|now|] == now;
      if wake >= 0 {
        pf := pf[k := In(wake)];
        k := k + 1;
      }
      pfN, dirty, builtGen := k, false, gen;
      snap, es := who, now;
      assert pf[..pfN] == Pollset(now) + WakeFd(wake);
      assert slotFrom[..|now|] == Built(now, wake).slotFrom;
      assert slotTo[..|now|] == Built(now, wake).slotTo;
    }

    /** Rebuild if stale. `who`/`now`: this round's snapshot. The two preconditions are what the
        array generation and the single owner of the entries guarantee. */
    method Refresh(now: seq<Ent>, gen: nat, ghost who: seq<ConnId>) returns (rebuilt: bool)
      requires Valid() && |who| == |now| && Sized(|now|)
      requires gen == builtGen && !dirty ==> who == snap
      requires !dirty && who == snap ==> now == es
      modifies this
      ensures Valid() && !dirty && snap == who && es == now && builtGen == gen
      ensures Sized(|now|) && Tables(|now|) == Built(now, wake)
      ensures !rebuilt ==> unchanged(this)
    {
      rebuilt := dirty || gen != builtGen;
      if rebuilt {
        Rebuild(now, gen, who);
      }
    }

    /** The registration-state check after the entries were served. */
    method Recheck(later: seq<Ent>, woken: bool)
      requires Valid() && !dirty && |later| == |es| == |snap|
      requires forall i :: 0 <= i < |es| ==> later[i].from == es[i].from && later[i].to == es[i].to
      modifies this`dirty, this`es
      ensures Valid() && es == later
      ensures !dirty <==> !woken && forall i :: 0 <= i < |later| ==>
                later[i].WantsIn() == old(es)[i].WantsIn() && later[i].WantsOut() == old(es)[i].WantsOut()
    {
      ghost var before := es;
      forall i | 0 <= i < |es| ensures
        (slotFrom[i] >= 0 <==> es[i].WantsIn()) && (slotTo[i] >= 0 <==> es[i].WantsOut())
      {
        SlotsPointHome(es, wake, i);
        assert slotFrom[..|es|][i] == slotFrom[i] && slotTo[..|es|][i] == slotTo[i];
      }
      dirty := woken;
      var i := 0;
      while !dirty && i < |later|
        invariant 0 <= i <= |later|
        invariant woken ==> dirty
        invariant !dirty ==> forall j :: 0 <= j < i ==>
                    later[j].WantsIn() == before[j].WantsIn() && later[j].WantsOut() == before[j].WantsOut()
        invariant dirty && !woken ==>
                    !(forall j :: 0 <= j < |later| ==>
                        later[j].WantsIn() == before[j].WantsIn() && later[j].WantsOut() == before[j].WantsOut())
        decreases |later| - i, !dirty
      {
        if later[i].WantsIn() != (slotFrom[i] >= 0) || later[i].WantsOut() != (slotTo[i] >= 0) {
          dirty := true;
        } else {
          i := i + 1;
        }
      }
      if !dirty { SameTables(before, later, wake); }
      es := later;
    }
  }

  // ---------------------------------------------------------------- every run of the loop

  /** One pass of the loop: the snapshot with its generation, this direction's entries when it
      is taken and after they were served, and what the environment decided. */
  datatype Round = Round(snap: seq<ConnId>, gen: nat, now: seq<Ent>, later: seq<Ent>,
                         room: bool, woken: bool, interrupted: bool)

  ghost predicate RoundOk(r: Round) {
    && |r.now| == |r.snap| == |r.later|
    && (forall i :: 0 <= i < |r.now| ==> r.later[i].from == r.now[i].from && r.later[i].to == r.now[i].to)
    && (r.interrupted ==> r.later == r.now)
  }

  /** The rounds are those of direction `d` along a schedule of the whole relay. */
  ghost predicate Observed(rounds: seq<Round>, d: Dir, cap: nat, schedule: seq<RelayLifetime.Action>) {
    var snaps := RelayTheorems.Snaps(RelayLifetime.Init(cap), d, schedule);
    && |rounds| <= |snaps|
    && forall i :: 0 <= i < |rounds| ==> rounds[i].snap == snaps[i].arr && rounds[i].gen == snaps[i].gen
  }

  /** This direction's entries are this thread's alone. */
  ghost predicate Owned(rounds: seq<Round>) {
    && (forall i :: 0 <= i < |rounds| ==> RoundOk(rounds[i]))
    && (forall i :: 0 < i < |rounds| && rounds[i].snap == rounds[i - 1].snap ==> rounds[i].now == rounds[i - 1].later)
  }

  /** Whatever the other threads do, an unchanged generation means an unchanged snapshot. */
  lemma GenTells(rounds: seq<Round>, d: Dir, cap: nat, schedule: seq<RelayLifetime.Action>)
    requires Observed(rounds, d, cap, schedule)
    ensures forall i, j :: 0 <= i < j < |rounds| && rounds[i].gen == rounds[j].gen ==> rounds[i].snap == rounds[j].snap
  {
    hide RelayTheorems.Snaps, RelayLifetime.Inv;
    RelayLifetime.EveryRun(cap, []);
    assert RelayLifetime.Run(RelayLifetime.Init(cap), []) == RelayLifetime.Init(cap);
    RelayTheorems.SameGenSameSnap(RelayLifetime.Init(cap), d, schedule);
    var snaps := RelayTheorems.Snaps(RelayLifetime.Init(cap), d, schedule);
    forall i, j | 0 <= i < j < |rounds| && rounds[i].gen == rounds[j].gen ensures rounds[i].snap == rounds[j].snap {
      assert snaps[i].gen == snaps[j].gen ==> snaps[i].arr == snaps[j].arr;
    }
  }

  /** In every round of every run of the whole relay, rebuilt or not, the polled tables are those of a
      rebuild; the run ends early only where an allocation fails. */
  method Rounds(rounds: seq<Round>, wake: int, ghost d: Dir, ghost cap: nat, ghost schedule: seq<RelayLifetime.Action>)
    returns (polled: seq<View>)
    requires Observed(rounds, d, cap, schedule) && Owned(rounds)
    ensures |polled| <= |rounds|
    ensures |polled| < |rounds| ==> !rounds[|polled|].room
    ensures forall i :: 0 <= i < |polled| ==> polled[i] == Built(rounds[i].now, wake)
  {
    GenTells(rounds, d, cap, schedule);
    hide Observed;
    var c := new Cache(wake);
    polled := [];
    for k := 0 to |rounds|
      invariant fresh(c) && c.wake == wake && c.Valid()
      invariant |polled| == k
      invariant forall i :: 0 <= i < k ==> polled[i] == Built(rounds[i].now, wake)
      invariant !c.dirty ==>
                  && k > 0 && c.snap == rounds[k - 1].snap && c.builtGen == rounds[k - 1].gen
                  && c.es == rounds[k - 1].later
    {
      hide Built;
      var r := rounds[k];
      var n := |r.snap|;
      assert RoundOk(r);
      var ok := c.Grow(n, r.room);
      if !ok {
        return;
      }
      var rebuilt := c.Refresh(r.now, r.gen, r.snap);
      polled := polled + [View(c.pf[..c.pfN], c.slotFrom[..n], c.slotTo[..n])];
      if !r.interrupted {
        c.Recheck(r.later, r.woken);
      }
    }
  }
}
