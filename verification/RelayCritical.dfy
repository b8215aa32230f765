/** The routines that hold the relay mutex, as loops over the shared arrays updated in place,
    each proved to do what the transition of the same name does to the whole table. */
module RelayCritical {
  import opened RelayTable

  class Relay {
    var conns: map<ConnId, Conn>
    var estN: int
    var up: seq<ConnId>
    var dn: seq<ConnId>
    var arrGen: nat
    ghost var freed: set<ConnId>
    ghost var fault: bool
    ghost var registered: set<ConnId>

    ghost function PoolView(): Pool
      reads this
    {
      Pool(conns, freed, estN, fault)
    }

    ghost function View(): Table
      reads this
    {
      Table(PoolView(), up, dn, arrGen, registered)
    }

    constructor ()
      ensures View() == EmptyTable
    {
      conns, estN, up, dn, arrGen := map[], 0, [], [], 0;
      freed, fault, registered := {}, false, {};
    }

    method ReapMaybe(c: ConnId)
      modifies this`conns, this`estN, this`freed, this`fault
      ensures PoolView() == Reap(old(PoolView()), c)
    {
      if c !in conns {
        fault := true;
      } else if conns[c].retired && conns[c].inUse == 0 {
        conns := conns - {c};
        freed := freed + {c};
        estN := estN - 1;
      }
    }

    method ReleaseConn(c: ConnId)
      modifies this`conns, this`estN, this`freed, this`fault
      ensures PoolView() == Release(old(PoolView()), c)
    {
      if c !in conns {
        fault := true;
        return;
      }
      var cn := conns[c];
      conns := conns[c := cn.(dirs := cn.dirs - 1)];
      if cn.dirs == 1 {
        conns := conns[c := conns[c].(retired := true)];
        assert conns == old(conns)[c := Conn(0, cn.inUse, true)];
        ReapMaybe(c);
      }
    }

    /** Drop every reference of a snapshot. */
    method SnapUnrefAll(snap: seq<ConnId>)
      modifies this`conns, this`estN, this`freed, this`fault
      ensures PoolView() == UnrefAll(old(PoolView()), snap)
    {
      for i := 0 to |snap|
        invariant UnrefAll(PoolView(), snap[i..]) == UnrefAll(old(PoolView()), snap)
      {
        ghost var before := PoolView();
        var c := snap[i];
        if c !in conns {
          fault := true;
        } else {
          conns := conns[c := conns[c].(inUse := conns[c].inUse - 1)];
          if conns[c].inUse == 0 {
            ReapMaybe(c);
          }
        }
        assert PoolView() == Unref(before, c);
        assert snap[i..][1..] == snap[i + 1..];
      }
    }

    /** Take one reference per snapshot entry. */
    method SnapRefAll(snap: seq<ConnId>)
      modifies this`conns, this`fault
      ensures PoolView() == RefAll(old(PoolView()), snap)
    {
      for i := 0 to |snap|
        invariant RefAll(PoolView(), snap[i..]) == RefAll(old(PoolView()), snap)
      {
        var c := snap[i];
        if c !in conns {
          fault := true;
        } else {
          conns := conns[c := conns[c].(inUse := conns[c].inUse + 1)];
        }
        assert snap[i..][1..] == snap[i + 1..];
      }
    }

    /** Scan an array for an entry and overwrite it with the last one. */
    static method RemoveFrom(a: seq<ConnId>, c: ConnId) returns (b: seq<ConnId>, found: bool)
      ensures b == RemoveSwap(a, c)
      ensures found <==> c in a
    {
      var j := 0;
      while j < |a| && a[j] != c
        invariant 0 <= j <= |a|
        invariant c !in a[..j]
      {
        j := j + 1;
      }
      FindIs(a, c, j);
      found := j < |a|;
      b := if found then a[j := a[|a| - 1]][..|a| - 1] else a;
    }

    method SetArr(d: Dir, a: seq<ConnId>)
      modifies this`up, this`dn
      ensures View() == old(View()).WithArr(d, a)
    {
      if d.Up? { up := a; } else { dn := a; }
    }

    /** A direction thread's exit: retire every entry it still owns. */
    method DirRetireAll(d: Dir)
      modifies this
      ensures View() == RetireAll(old(View()), d)
    {
      while (if d.Up? then up else dn) != []
        invariant RetireAll(View(), d) == RetireAll(old(View()), d)
        decreases |if d.Up? then up else dn|
      {
        hide Release;
        ghost var before := View();
        var a := if d.Up? then up else dn;
        SetArr(d, a[..|a| - 1]);
        arrGen := arrGen + 1;
        ReleaseConn(a[|a| - 1]);
        assert View() == Drop(before, d, a[..|a| - 1], a[|a| - 1]);
      }
    }

    /** The loop bottom: retire the entries whose stream has ended. */
    method RetireLoop(d: Dir, snap: seq<ConnId>, ended: set<ConnId>)
      modifies this
      ensures View() == RetireEnded(old(View()), d, snap, ended)
    {
      for i := 0 to |snap|
        invariant RetireEnded(View(), d, snap[i..], ended) == RetireEnded(old(View()), d, snap, ended)
      {
        hide Release, RemoveSwap;
        ghost var before := View();
        if snap[i] in ended {
          var b, found := RemoveFrom(if d.Up? then up else dn, snap[i]);
          if found {
            SetArr(d, b);
            arrGen := arrGen + 1;
          }
          ReleaseConn(snap[i]);
          assert View() == RetireOne(before, d, snap[i]);
        }
        assert snap[i..][1..] == snap[i + 1..];
      }
    }

    /** The locked part of `rp_add`, with the rollback scan of both arrays. */
    method Add(c: ConnId, dead: bool, growUp: bool, growDn: bool) returns (ok: bool)
      modifies this
      ensures (View(), ok) == Register(old(View()), c, dead, growUp, growDn)
    {
      hide RemoveSwap;
      ok := !dead && growUp;
      if ok { up := up + [c]; }
      if ok { ok := growDn; }
      if ok {
        dn := dn + [c];
        conns := conns[c := Conn(2, 0, false)];
        registered := registered + {c};
      } else {
        var found;
        up, found := RemoveFrom(up, c);
        dn, found := RemoveFrom(dn, c);
      }
      arrGen := arrGen + 1;
    }
  }
}
