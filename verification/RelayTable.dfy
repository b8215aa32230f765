/**
 The relay's connection table: the two direction arrays, the reference counts of every
 connection and the established-connection counter, with the routines that run on them
 under the relay mutex.

 A connection is named by an identifier that is never reused, so a dangling pointer stays
 visible: an operation that dereferences a connection that is not allocated raises `fault`.
 */
module RelayTable {

  type ConnId = nat

  datatype Dir = Up | Down {
    function Other(): Dir {
      if this.Up? then Down else Up
    }
  }

  /** The part of `struct rp_conn` that decides its lifetime. */
  datatype Conn = Conn(dirs: int, inUse: int, retired: bool)

  /** The connection objects and the atomic counter `g_rp_est_n`. */
  datatype Pool = Pool(
    conns: map<ConnId, Conn>,   // allocated and registered
    freed: set<ConnId>,         // closed and freed
    estN: int,
    fault: bool                 // a connection that is not allocated was dereferenced
  )

  /** The shared state that `g_rp_mu` guards. */
  datatype Table = Table(
    pool: Pool,
    up: seq<ConnId>,
    dn: seq<ConnId>,
    arrGen: nat,
    registered: set<ConnId>     // every connection that ever entered both arrays
  )
  {
    function Arr(d: Dir): seq<ConnId> {
      if d.Up? then up else dn
    }

    function WithArr(d: Dir, a: seq<ConnId>): Table {
      if d.Up? then this.(up := a) else this.(dn := a)
    }
  }

  const EmptyTable := Table(Pool(map[], {}, 0, false), [], [], 0, {})

  // ---------------------------------------------------------------- the routines

  /** `rp_reap_maybe`. */
  function Reap(p: Pool, c: ConnId): Pool {
    if c !in p.conns then p.(fault := true)
    else if p.conns[c].retired && p.conns[c].inUse == 0 then
      Pool(p.conns - {c}, p.freed + {c}, p.estN - 1, p.fault)
    else p
  }

  /** `rp_release`. */
  function Release(p: Pool, c: ConnId): Pool {
    if c !in p.conns then p.(fault := true)
    else
      var cn := p.conns[c];
      var p' := p.(conns := p.conns[c := Conn(cn.dirs - 1, cn.inUse, cn.retired || cn.dirs == 1)]);
      if cn.dirs == 1 then Reap(p', c) else p'
  }

  /** One round of `rp_snap_unref_all`. */
  function Unref(p: Pool, c: ConnId): Pool {
    if c !in p.conns then p.(fault := true)
    else
      var cn := p.conns[c];
      var p' := p.(conns := p.conns[c := cn.(inUse := cn.inUse - 1)]);
      if cn.inUse == 1 then Reap(p', c) else p'
  }

  function UnrefAll(p: Pool, snap: seq<ConnId>): Pool
    decreases |snap|
  {
    if snap == [] then p else UnrefAll(Unref(p, snap[0]), snap[1..])
  }

  /** One round of the reference loop at the top of `rp_dir_main`. */
  function Ref(p: Pool, c: ConnId): Pool {
    if c !in p.conns then p.(fault := true)
    else p.(conns := p.conns[c := p.conns[c].(inUse := p.conns[c].inUse + 1)])
  }

  function RefAll(p: Pool, snap: seq<ConnId>): Pool
    decreases |snap|
  {
    if snap == [] then p else RefAll(Ref(p, snap[0]), snap[1..])
  }

  /** The first index holding `c`, or the length. */
  function Find(a: seq<ConnId>, c: ConnId): (i: nat)
    ensures i <= |a|
    ensures i < |a| ==> a[i] == c
    ensures i == |a| ==> c !in a
  {
    if a == [] || a[0] == c then 0 else 1 + Find(a[1..], c)
  }

  /** `a[i] = a[--n]` at the first match. */
  function RemoveSwap(a: seq<ConnId>, c: ConnId): seq<ConnId> {
    var i := Find(a, c);
    if i == |a| then a else a[i := a[|a| - 1]][..|a| - 1]
  }

  /** One array slot given up: the array shrinks, the generation moves, the entry is released. */
  function Drop(t: Table, d: Dir, a: seq<ConnId>, c: ConnId): Table {
    t.WithArr(d, a).(arrGen := t.arrGen + 1, pool := Release(t.pool, c))
  }

  /** The retire step of one snapshot entry at the bottom of `rp_dir_main`. */
  function RetireOne(t: Table, d: Dir, c: ConnId): Table {
    if c in t.Arr(d) then Drop(t, d, RemoveSwap(t.Arr(d), c), c)
    else t.(pool := Release(t.pool, c))
  }

  /** The whole retire loop: `ended` are the entries with `from_eof && plen == 0`. */
  function RetireEnded(t: Table, d: Dir, snap: seq<ConnId>, ended: set<ConnId>): Table
    decreases |snap|
  {
    if snap == [] then t
    else RetireEnded(if snap[0] in ended then RetireOne(t, d, snap[0]) else t, d, snap[1..], ended)
  }

  /** `rp_dir_retire_all`: empties the live array from its end. */
  function RetireAll(t: Table, d: Dir): Table
    decreases |t.Arr(d)|
  {
    var a := t.Arr(d);
    if a == [] then t else RetireAll(Drop(t, d, a[..|a| - 1], a[|a| - 1]), d)
  }

  /** The critical section of `rp_add`: append to both arrays, or append what the allocator
      allows and roll it back. `growUp`/`growDn` tell whether `rp_arr_add` finds room. */
  function Register(t: Table, c: ConnId, dead: bool, growUp: bool, growDn: bool): (Table, bool) {
    if !dead && growUp && growDn then
      (Table(t.pool.(conns := t.pool.conns[c := Conn(2, 0, false)]), t.up + [c], t.dn + [c],
             t.arrGen + 1, t.registered + {c}), true)
    else
      var up := if !dead && growUp then t.up + [c] else t.up;
      (t.(up := RemoveSwap(up, c), dn := RemoveSwap(t.dn, c), arrGen := t.arrGen + 1), false)
  }

  // ---------------------------------------------------------------- the invariant

  function One(b: bool): int {
    if b then 1 else 0
  }

  /** The counts agree with what holds the connection, and an unheld connection is gone.
      `au`, `ad` are the direction arrays as sets, `hu`, `hd` the held snapshots. */
  ghost predicate Counted(cn: Conn, c: ConnId, au: set<ConnId>, ad: set<ConnId>, hu: set<ConnId>, hd: set<ConnId>) {
    && cn.dirs == One(c in au) + One(c in ad)
    && cn.inUse == One(c in hu) + One(c in hd)
    && cn.retired == (cn.dirs == 0)
    && cn.dirs + cn.inUse > 0
  }

  ghost predicate PoolInv(p: Pool, au: set<ConnId>, ad: set<ConnId>, hu: set<ConnId>, hd: set<ConnId>) {
    && !p.fault
    && au <= p.conns.Keys && ad <= p.conns.Keys && hu <= p.conns.Keys && hd <= p.conns.Keys
    && (forall c :: c in p.conns ==> Counted(p.conns[c], c, au, ad, hu, hd))
    && p.conns.Keys !! p.freed
  }

  /** What the counter counts besides live connections. */
  ghost function Spare(p: Pool): int {
    p.estN - |p.conns|
  }

  ghost predicate NoDup(a: seq<ConnId>) {
    forall i, j :: 0 <= i < j < |a| ==> a[i] != a[j]
  }

  ghost function Elems(a: seq<ConnId>): set<ConnId> {
    set c | c in a
  }

  /** `hu`, `hd`: the snapshots the up and the down thread hold references on. */
  ghost predicate TableInv(t: Table, hu: set<ConnId>, hd: set<ConnId>) {
    && NoDup(t.up) && NoDup(t.dn)
    && PoolInv(t.pool, Elems(t.up), Elems(t.dn), hu, hd)
    && t.registered == t.pool.conns.Keys + t.pool.freed
  }

  // ---------------------------------------------------------------- array facts

  lemma ElemsRemoveSwap(a: seq<ConnId>, c: ConnId)
    requires NoDup(a)
    ensures NoDup(RemoveSwap(a, c))
    ensures Elems(RemoveSwap(a, c)) == Elems(a) - {c}
    ensures c !in a ==> RemoveSwap(a, c) == a
  {
    var i := Find(a, c);
    if i < |a| {
      var r := RemoveSwap(a, c);
      forall x | x in Elems(a) - {c}
        ensures x in r
      {
        var k :| 0 <= k < |a| && a[k] == x;
        assert r[if k == |a| - 1 then i else k] == x;
      }
    }
  }

  lemma ElemsDropLast(a: seq<ConnId>)
    requires NoDup(a) && a != []
    ensures NoDup(a[..|a| - 1])
    ensures Elems(a[..|a| - 1]) == Elems(a) - {a[|a| - 1]}
  {
    assert a == a[..|a| - 1] + [a[|a| - 1]];
  }

  lemma ElemsHead(a: seq<ConnId>)
    requires NoDup(a) && a != []
    ensures NoDup(a[1..]) && a[0] !in a[1..]
    ensures Elems(a) == {a[0]} + Elems(a[1..])
    ensures Elems(a) - {a[0]} == Elems(a[1..])
  {
    assert a == [a[0]] + a[1..];
  }

  lemma ElemsAppend(a: seq<ConnId>, c: ConnId)
    requires NoDup(a) && c !in a
    ensures NoDup(a + [c])
    ensures Elems(a + [c]) == Elems(a) + {c}
  {
  }

  lemma {:induction false} FindIs(a: seq<ConnId>, c: ConnId, j: nat)
    requires j <= |a| && c !in a[..j] && (j < |a| ==> a[j] == c)
    ensures Find(a, c) == j
  {
    if a != [] && j > 0 {
      assert a[..j][0] == a[0];
      assert forall x :: x in a[1..][..j - 1] ==> x in a[..j];
      FindIs(a[1..], c, j - 1);
    }
  }

  lemma RemoveSwapUndoesAppend(a: seq<ConnId>, c: ConnId)
    requires c !in a
    ensures RemoveSwap(a + [c], c) == a
  {
    assert (a + [c])[..|a|] == a;
    FindIs(a + [c], c, |a|);
  }

  // ---------------------------------------------------------------- each routine keeps the invariant

  /** Nothing is lost or invented: a step only moves connections from live to freed, and
      the counter follows. */
  ghost predicate Moves(p: Pool, p': Pool) {
    && p'.conns.Keys + p'.freed == p.conns.Keys + p.freed
    && p'.conns.Keys <= p.conns.Keys
    && Spare(p') == Spare(p)
  }

  /** Both ways of letting go of a connection end here: store its new counts, or free it. */
  ghost function Settle(p: Pool, c: ConnId, cn: Conn): Pool {
    if cn.dirs == 0 && cn.inUse == 0 then Pool(p.conns - {c}, p.freed + {c}, p.estN - 1, p.fault)
    else p.(conns := p.conns[c := cn])
  }

  lemma MapWithout<V>(m: map<ConnId, V>, c: ConnId)
    requires c in m
    ensures (m - {c}).Keys == m.Keys - {c}
    ensures |m - {c}| == |m| - 1
  {
    var r := m - {c};
    assert r.Keys == m.Keys - {c};
    assert |r.Keys| == |m.Keys| - 1;
  }

  lemma MapUpdated<V>(m: map<ConnId, V>, c: ConnId, v: V)
    requires c in m
    ensures m[c := v].Keys == m.Keys
    ensures |m[c := v]| == |m|
  {
  }

  lemma SettleMoves(p: Pool, c: ConnId, cn: Conn)
    requires c in p.conns
    ensures Moves(p, Settle(p, c, cn))
  {
    MapWithout(p.conns, c);
    MapUpdated(p.conns, c, cn);
  }

  /** `(au, ad, hu, hd)` lose at most `c`, and `cn` counts what is left of it. */
  lemma SettleKeeps(p: Pool, c: ConnId, cn: Conn, au: set<ConnId>, ad: set<ConnId>, hu: set<ConnId>, hd: set<ConnId>,
                    au': set<ConnId>, hu': set<ConnId>)
    requires PoolInv(p, au, ad, hu, hd) && c in p.conns
    requires (au' == au || au' == au - {c}) && (hu' == hu || hu' == hu - {c})
    requires cn.dirs == One(c in au') + One(c in ad)
    requires cn.inUse == One(c in hu') + One(c in hd)
    requires cn.retired == (cn.dirs == 0)
    ensures PoolInv(Settle(p, c, cn), au', ad, hu', hd)
  {
    var p' := Settle(p, c, cn);
    forall x | x in p'.conns
      ensures Counted(p'.conns[x], x, au', ad, hu', hd)
    {
      if x != c { assert Counted(p.conns[x], x, au, ad, hu, hd); }
    }
  }

  lemma ReleaseKeeps(p: Pool, c: ConnId, mine: set<ConnId>, other: set<ConnId>, hu: set<ConnId>, hd: set<ConnId>)
    requires PoolInv(p, mine, other, hu, hd)
    requires c in mine
    ensures PoolInv(Release(p, c), mine - {c}, other, hu, hd)
    ensures Moves(p, Release(p, c))
  {
    var cn := p.conns[c];
    assert Counted(cn, c, mine, other, hu, hd);
    var cn' := Conn(cn.dirs - 1, cn.inUse, cn.dirs == 1);
    assert p.conns[c := cn'] - {c} == p.conns - {c};
    assert Release(p, c) == Settle(p, c, cn');
    SettleKeeps(p, c, cn', mine, other, hu, hd, mine - {c}, hu);
    SettleMoves(p, c, cn');
  }

  lemma UnrefKeeps(p: Pool, c: ConnId, au: set<ConnId>, ad: set<ConnId>, mine: set<ConnId>, other: set<ConnId>)
    requires PoolInv(p, au, ad, mine, other)
    requires c in mine
    ensures PoolInv(Unref(p, c), au, ad, mine - {c}, other)
    ensures Moves(p, Unref(p, c))
  {
    var cn := p.conns[c];
    assert Counted(cn, c, au, ad, mine, other);
    var cn' := cn.(inUse := cn.inUse - 1);
    assert p.conns[c := cn'] - {c} == p.conns - {c};
    assert Unref(p, c) == Settle(p, c, cn');
    SettleKeeps(p, c, cn', au, ad, mine, other, au, mine - {c});
    SettleMoves(p, c, cn');
  }

  lemma SwapArrays(p: Pool, au: set<ConnId>, ad: set<ConnId>, hu: set<ConnId>, hd: set<ConnId>)
    requires PoolInv(p, au, ad, hu, hd)
    ensures PoolInv(p, ad, au, hu, hd)
  {
    forall c | c in p.conns ensures Counted(p.conns[c], c, ad, au, hu, hd) {
      assert Counted(p.conns[c], c, au, ad, hu, hd);
    }
  }

  lemma SwapHeld(p: Pool, au: set<ConnId>, ad: set<ConnId>, hu: set<ConnId>, hd: set<ConnId>)
    requires PoolInv(p, au, ad, hu, hd)
    ensures PoolInv(p, au, ad, hd, hu)
  {
    forall c | c in p.conns ensures Counted(p.conns[c], c, au, ad, hd, hu) {
      assert Counted(p.conns[c], c, au, ad, hu, hd);
    }
  }

  lemma DropKeeps(t: Table, d: Dir, a: seq<ConnId>, c: ConnId, hu: set<ConnId>, hd: set<ConnId>)
    requires TableInv(t, hu, hd)
    requires c in t.Arr(d) && NoDup(a) && Elems(a) == Elems(t.Arr(d)) - {c}
    ensures TableInv(Drop(t, d, a, c), hu, hd)
    ensures Moves(t.pool, Drop(t, d, a, c).pool)
  {
    if d.Up? {
      ReleaseKeeps(t.pool, c, Elems(t.up), Elems(t.dn), hu, hd);
    } else {
      SwapArrays(t.pool, Elems(t.up), Elems(t.dn), hu, hd);
      ReleaseKeeps(t.pool, c, Elems(t.dn), Elems(t.up), hu, hd);
      SwapArrays(Release(t.pool, c), Elems(a), Elems(t.up), hu, hd);
    }
  }

  /** What a batch of retirements may change: its own array loses `gone`, nothing else moves. */
  ghost predicate Retired(t: Table, t': Table, d: Dir, gone: set<ConnId>) {
    && Elems(t'.Arr(d)) == Elems(t.Arr(d)) - gone
    && t'.Arr(d.Other()) == t.Arr(d.Other())
    && t'.registered == t.registered
    && Moves(t.pool, t'.pool)
    && t'.arrGen >= t.arrGen
    && (t'.arrGen == t.arrGen ==> t'.Arr(d) == t.Arr(d))
  }

  lemma RetiredTrans(t: Table, t1: Table, t2: Table, d: Dir, g1: set<ConnId>, g2: set<ConnId>)
    requires Retired(t, t1, d, g1) && Retired(t1, t2, d, g2)
    ensures Retired(t, t2, d, g1 + g2)
  {
  }

  lemma RetireOneKeeps(t: Table, d: Dir, c: ConnId, hu: set<ConnId>, hd: set<ConnId>)
    requires TableInv(t, hu, hd)
    requires c in t.Arr(d)
    ensures TableInv(RetireOne(t, d, c), hu, hd)
    ensures Retired(t, RetireOne(t, d, c), d, {c})
  {
    ElemsRemoveSwap(t.Arr(d), c);
    DropKeeps(t, d, RemoveSwap(t.Arr(d), c), c, hu, hd);
  }

  ghost predicate RetireReady(t: Table, d: Dir, snap: seq<ConnId>, hu: set<ConnId>, hd: set<ConnId>) {
    && TableInv(t, hu, hd)
    && NoDup(snap) && Elems(snap) <= Elems(t.Arr(d))
  }

  lemma EndedHead(snap: seq<ConnId>, ended: set<ConnId>)
    requires snap != []
    ensures {snap[0]} * ended + Elems(snap[1..]) * ended == Elems(snap) * ended
  {
    assert snap == [snap[0]] + snap[1..];
  }

  lemma RetireStep(t: Table, d: Dir, snap: seq<ConnId>, ended: set<ConnId>, hu: set<ConnId>, hd: set<ConnId>)
    requires RetireReady(t, d, snap, hu, hd) && snap != []
    ensures var t' := if snap[0] in ended then RetireOne(t, d, snap[0]) else t;
            && RetireReady(t', d, snap[1..], hu, hd)
            && Retired(t, t', d, {snap[0]} * ended)
  {
    hide PoolInv;
    ElemsHead(snap);
    assert snap[0] in Elems(t.Arr(d));
    if snap[0] in ended {
      RetireOneKeeps(t, d, snap[0], hu, hd);
      assert {snap[0]} * ended == {snap[0]};
    } else {
      assert {snap[0]} * ended == {};
    }
  }

  lemma {:induction false} RetireEndedKeeps(t: Table, d: Dir, snap: seq<ConnId>, ended: set<ConnId>,
                                            hu: set<ConnId>, hd: set<ConnId>)
    requires RetireReady(t, d, snap, hu, hd)
    ensures TableInv(RetireEnded(t, d, snap, ended), hu, hd)
    ensures Retired(t, RetireEnded(t, d, snap, ended), d, Elems(snap) * ended)
    decreases |snap|
  {
    if snap != [] {
      var t' := if snap[0] in ended then RetireOne(t, d, snap[0]) else t;
      RetireStep(t, d, snap, ended, hu, hd);
      EndedHead(snap, ended);
      RetireEndedKeeps(t', d, snap[1..], ended, hu, hd);
      RetiredTrans(t, t', RetireEnded(t', d, snap[1..], ended), d, {snap[0]} * ended, Elems(snap[1..]) * ended);
    }
  }

  lemma DropLastKeeps(t: Table, d: Dir, hu: set<ConnId>, hd: set<ConnId>)
    requires TableInv(t, hu, hd) && t.Arr(d) != []
    ensures var a := t.Arr(d);
            var t' := Drop(t, d, a[..|a| - 1], a[|a| - 1]);
            && TableInv(t', hu, hd)
            && Retired(t, t', d, {a[|a| - 1]})
            && {a[|a| - 1]} + Elems(t'.Arr(d)) == Elems(a)
  {
    hide PoolInv;
    var a := t.Arr(d);
    ElemsDropLast(a);
    DropKeeps(t, d, a[..|a| - 1], a[|a| - 1], hu, hd);
  }

  lemma {:induction false} RetireAllKeeps(t: Table, d: Dir, hu: set<ConnId>, hd: set<ConnId>)
    requires TableInv(t, hu, hd)
    ensures TableInv(RetireAll(t, d), hu, hd)
    ensures Retired(t, RetireAll(t, d), d, Elems(t.Arr(d)))
    ensures RetireAll(t, d).Arr(d) == []
    decreases |t.Arr(d)|
  {
    hide TableInv, NoDup;
    var a := t.Arr(d);
    if a != [] {
      var t' := Drop(t, d, a[..|a| - 1], a[|a| - 1]);
      DropLastKeeps(t, d, hu, hd);
      RetireAllKeeps(t', d, hu, hd);
      RetiredTrans(t, t', RetireAll(t', d), d, {a[|a| - 1]}, Elems(t'.Arr(d)));
    }
  }

  /** Dropping a thread's references one by one, each possibly the last one out. */
  lemma {:induction false} UnrefAllKeeps(
      p: Pool, snap: seq<ConnId>, au: set<ConnId>, ad: set<ConnId>, other: set<ConnId>)
    requires PoolInv(p, au, ad, Elems(snap), other)
    requires NoDup(snap)
    ensures PoolInv(UnrefAll(p, snap), au, ad, {}, other)
    ensures Moves(p, UnrefAll(p, snap))
    decreases |snap|
  {
    if snap == [] {
      assert Elems(snap) == {};
    } else {
      ElemsHead(snap);
      UnrefKeeps(p, snap[0], au, ad, Elems(snap), other);
      UnrefAllKeeps(Unref(p, snap[0]), snap[1..], au, ad, other);
    }
  }

  lemma RefKeeps(p: Pool, c: ConnId, au: set<ConnId>, ad: set<ConnId>, mine: set<ConnId>, other: set<ConnId>)
    requires PoolInv(p, au, ad, mine, other)
    requires c in p.conns && c !in mine
    ensures PoolInv(Ref(p, c), au, ad, mine + {c}, other)
    ensures Moves(p, Ref(p, c)) && Ref(p, c).conns.Keys == p.conns.Keys
  {
    var p' := Ref(p, c);
    assert p'.conns.Keys == p.conns.Keys && |p'.conns| == |p'.conns.Keys| == |p.conns.Keys| == |p.conns|;
    forall x | x in p'.conns
      ensures Counted(p'.conns[x], x, au, ad, mine + {c}, other)
    {
      assert Counted(p.conns[x], x, au, ad, mine, other);
    }
  }

  ghost predicate RefReady(p: Pool, done: set<ConnId>, rest: seq<ConnId>, au: set<ConnId>, ad: set<ConnId>,
                           other: set<ConnId>)
  {
    && PoolInv(p, au, ad, done, other)
    && NoDup(rest) && Elems(rest) !! done && Elems(rest) <= p.conns.Keys
  }

  lemma RefStep(p: Pool, done: set<ConnId>, rest: seq<ConnId>, au: set<ConnId>, ad: set<ConnId>, other: set<ConnId>)
    requires RefReady(p, done, rest, au, ad, other) && rest != []
    ensures RefReady(Ref(p, rest[0]), done + {rest[0]}, rest[1..], au, ad, other)
    ensures Moves(p, Ref(p, rest[0]))
    ensures done + {rest[0]} + Elems(rest[1..]) == done + Elems(rest)
  {
    ElemsHead(rest);
    RefKeeps(p, rest[0], au, ad, done, other);
  }

  /** Taking one reference per array entry; `done` are those already referenced. */
  lemma {:induction false} RefAllKeeps(
      p: Pool, done: set<ConnId>, rest: seq<ConnId>, au: set<ConnId>, ad: set<ConnId>, other: set<ConnId>)
    requires RefReady(p, done, rest, au, ad, other)
    ensures PoolInv(RefAll(p, rest), au, ad, done + Elems(rest), other)
    ensures Moves(p, RefAll(p, rest))
    decreases |rest|
  {
    if rest == [] {
      assert done + Elems(rest) == done;
    } else {
      RefStep(p, done, rest, au, ad, other);
      RefAllKeeps(Ref(p, rest[0]), done + {rest[0]}, rest[1..], au, ad, other);
    }
  }

  lemma MapGrown<V>(m: map<ConnId, V>, c: ConnId, v: V)
    requires c !in m
    ensures m[c := v].Keys == m.Keys + {c}
    ensures |m[c := v]| == |m| + 1
  {
  }

  lemma FreshConnCounted(p: Pool, c: ConnId, au: set<ConnId>, ad: set<ConnId>, hu: set<ConnId>, hd: set<ConnId>)
    requires PoolInv(p, au, ad, hu, hd)
    requires c !in p.conns && c !in p.freed
    ensures PoolInv(p.(conns := p.conns[c := Conn(2, 0, false)]), au + {c}, ad + {c}, hu, hd)
  {
    var conns := p.conns[c := Conn(2, 0, false)];
    forall x | x in conns
      ensures Counted(conns[x], x, au + {c}, ad + {c}, hu, hd)
    {
      if x != c { assert Counted(p.conns[x], x, au, ad, hu, hd); }
    }
  }

  lemma RegisterAccepted(t: Table, c: ConnId, hu: set<ConnId>, hd: set<ConnId>)
    requires TableInv(t, hu, hd)
    requires c !in t.registered && c !in t.up && c !in t.dn
    ensures var t' := Register(t, c, false, true, true).0;
            && TableInv(t', hu, hd)
            && Spare(t'.pool) == Spare(t.pool) - 1
  {
    hide PoolInv;
    ElemsAppend(t.up, c);
    ElemsAppend(t.dn, c);
    FreshConnCounted(t.pool, c, Elems(t.up), Elems(t.dn), hu, hd);
    MapGrown(t.pool.conns, c, Conn(2, 0, false));
  }

  /** A refused registration leaves the table as it found it, whichever append had gone through. */
  lemma RegisterRefused(t: Table, c: ConnId, dead: bool, growUp: bool, growDn: bool)
    requires NoDup(t.up) && NoDup(t.dn) && c !in t.up && c !in t.dn
    requires dead || !growUp || !growDn
    ensures Register(t, c, dead, growUp, growDn) == (t.(arrGen := t.arrGen + 1), false)
  {
    RemoveSwapUndoesAppend(t.up, c);
    ElemsRemoveSwap(t.up, c);
    ElemsRemoveSwap(t.dn, c);
  }
}
