/**
 The failure lockout table: a fixed number of records, scanned and overwritten in place, standing
 in for one record per key. Times are milliseconds of a clock that never runs backwards. A key
 stands for one fixed-length byte blob, so comparing keys is comparing the blobs.
 */
module Lockout {
  import opened Bytes

  type Key = nat

  /** What a table's callers fix once: the failure threshold and the window. */
  datatype Config = Config(maxFails: nat, window: nat)

  /** `lockout_rec`; `until == 0` means not blocked. */
  datatype Rec = Rec(key: Key, fail: nat, first: nat, until: nat, inUse: bool)

  const ZeroRec := Rec(0, 0, 0, 0, false)

  // ---------------------------------------------------------------- one record

  /** A fresh record after its first failure. */
  function FreshRec(cfg: Config, key: Key, now: nat): Rec {
    Rec(key, 1, now, if 1 >= cfg.maxFails then now + cfg.window else 0, true)
  }

  /** A further failure of the record's own key. */
  function Again(cfg: Config, r: Rec, now: nat): Rec {
    if now - r.first >= cfg.window then
      if r.until != 0 && r.until > now then r.(fail := 1, first := now) else FreshRec(cfg, r.key, now)
    else r.(fail := r.fail + 1, until := if r.fail + 1 >= cfg.maxFails then now + cfg.window else r.until)
  }

  // ---------------------------------------------------------------- the table

  predicate Has(r: Rec, key: Key) {
    r.inUse && r.key == key
  }

  predicate Live(r: Rec, now: nat) {
    r.inUse && r.until > now
  }

  /** The scan of `lockout_note` from index `i`: `oldest` and `earliest` are the candidates so far. */
  function Scan(t: seq<Rec>, key: Key, now: nat, i: nat, oldest: int, earliest: nat): (e: nat)
    requires i <= |t| && -1 <= oldest < |t| && earliest < |t|
    ensures e < |t|
    decreases |t| - i
  {
    if i == |t| then (if oldest >= 0 then oldest else earliest)
    else if Has(t[i], key) then i
    else
      Scan(t, key, now, i + 1,
           if !t[i].inUse || (t[i].until <= now && (oldest == -1 || t[i].first < t[oldest].first)) then i else oldest,
           if t[i].first < t[earliest].first then i else earliest)
  }

  function Chosen(t: seq<Rec>, key: Key, now: nat): (e: nat)
    requires t != []
    ensures e < |t|
  {
    Scan(t, key, now, 0, -1, 0)
  }

  /** `lockout_note` for a failure. */
  function NoteFail(cfg: Config, t: seq<Rec>, key: Key, now: nat): (t': seq<Rec>)
    requires t != []
    ensures |t'| == |t|
  {
    var e := Chosen(t, key, now);
    t[e := if Has(t[e], key) then Again(cfg, t[e], now) else FreshRec(cfg, key, now)]
  }

  /** The first in-use record of a key, or the length. */
  function Holder(t: seq<Rec>, key: Key): (i: nat)
    ensures i <= |t| && (i < |t| ==> Has(t[i], key))
    ensures forall j :: 0 <= j < i ==> !Has(t[j], key)
  {
    if t == [] || Has(t[0], key) then 0 else 1 + Holder(t[1..], key)
  }

  /** `lockout_note` for a success: forget the key. */
  function NoteOk(t: seq<Rec>, key: Key): (t': seq<Rec>)
    ensures |t'| == |t|
  {
    var i := Holder(t, key);
    if i < |t| then t[i := ZeroRec] else t
  }

  /** `lockout_blocked`. */
  function Blocked(t: seq<Rec>, key: Key, now: nat): bool {
    if t == [] then false
    else if t[0].until != 0 && t[0].key == key then t[0].until > now
    else Blocked(t[1..], key, now)
  }

  // ---------------------------------------------------------------- the unbounded map it stands for

  function MapFail(cfg: Config, m: map<Key, Rec>, key: Key, now: nat): map<Key, Rec> {
    m[key := if key in m then Again(cfg, m[key], now) else FreshRec(cfg, key, now)]
  }

  predicate MapBlocked(m: map<Key, Rec>, key: Key, now: nat) {
    key in m && m[key].until > now
  }

  ghost predicate RecOk(cfg: Config, r: Rec, now: nat) {
    && (!r.inUse ==> r == ZeroRec)
    && (r.inUse ==> r.fail >= 1 && r.first <= now && r.until <= now + cfg.window)
  }

  /** Well-formed records, at most one in use per key. */
  ghost predicate Inv(cfg: Config, t: seq<Rec>, now: nat) {
    && t != []
    && (forall i :: 0 <= i < |t| ==> RecOk(cfg, t[i], now))
    && (forall i, j :: 0 <= i < j < |t| && t[i].inUse && t[j].inUse ==> t[i].key != t[j].key)
  }

  /** The table holds exactly the records of the map. */
  ghost predicate Holds(t: seq<Rec>, m: map<Key, Rec>) {
    && (forall i :: 0 <= i < |t| && t[i].inUse ==> t[i].key in m && m[t[i].key] == t[i])
    && (forall key :: key in m ==> Holder(t, key) < |t|)
  }

  // ---------------------------------------------------------------- what the scan picks

  /** The scan picks the key's own record if there is one; otherwise an unused one if there is one;
      otherwise, unless every record is a live ban, one that is not. */
  lemma {:induction false} ScanPicks(t: seq<Rec>, key: Key, now: nat, i: nat, oldest: int, earliest: nat)
    requires i <= |t| && -1 <= oldest < |t| && earliest < |t|
    requires forall j :: 0 <= j < |t| && !t[j].inUse ==> t[j] == ZeroRec
    requires forall j :: 0 <= j < i ==> !Has(t[j], key)
    requires oldest == -1 ==> forall j :: 0 <= j < i ==> Live(t[j], now)
    requires oldest >= 0 ==> oldest < i && !Live(t[oldest], now)
    requires oldest >= 0 && t[oldest].inUse ==> forall j :: 0 <= j < i ==> t[j].inUse
    requires earliest == 0 || earliest < i
    ensures var e := Scan(t, key, now, i, oldest, earliest);
            && (Holder(t, key) < |t| ==> e == Holder(t, key))
            && (Holder(t, key) == |t| && t[e].inUse ==> forall j :: 0 <= j < |t| ==> t[j].inUse)
            && (Holder(t, key) == |t| && Live(t[e], now) ==> forall j :: 0 <= j < |t| ==> Live(t[j], now))
    decreases |t| - i
  {
    if i < |t| && !Has(t[i], key) {
      var o := if !t[i].inUse || (t[i].until <= now && (oldest == -1 || t[i].first < t[oldest].first)) then i
               else oldest;
      var e := if t[i].first < t[earliest].first then i else earliest;
      ScanPicks(t, key, now, i + 1, o, e);
    }
  }

  lemma ChosenPicks(cfg: Config, t: seq<Rec>, key: Key, now: nat)
    requires Inv(cfg, t, now)
    ensures var e := Chosen(t, key, now);
            && (Holder(t, key) < |t| ==> e == Holder(t, key))
            && (Holder(t, key) == |t| && t[e].inUse ==> forall j :: 0 <= j < |t| ==> t[j].inUse)
            && (Holder(t, key) == |t| && Live(t[e], now) ==> forall j :: 0 <= j < |t| ==> Live(t[j], now))
  {
    forall j | 0 <= j < |t| && !t[j].inUse ensures t[j] == ZeroRec {
      assert RecOk(cfg, t[j], now);
    }
    ScanPicks(t, key, now, 0, -1, 0);
  }

  // ---------------------------------------------------------------- refinement

  /** A record of `key` may take place `e`: it is the key's own place, or the key has none. */
  ghost predicate Takes(cfg: Config, t: seq<Rec>, e: nat, r: Rec, now: nat) {
    && Inv(cfg, t, now) && e < |t|
    && RecOk(cfg, r, now) && r.inUse
    && (Holder(t, r.key) == e || Holder(t, r.key) == |t|)
  }

  ghost function Displaced(t: seq<Rec>, m: map<Key, Rec>, e: nat): map<Key, Rec>
    requires e < |t|
  {
    if t[e].inUse then m - {t[e].key} else m
  }

  lemma HolderIs(cfg: Config, t: seq<Rec>, i: nat, now: nat)
    requires Inv(cfg, t, now) && i < |t| && t[i].inUse
    ensures Holder(t, t[i].key) == i
  {
    assert Has(t[i], t[i].key);
  }

  lemma ReplaceInv(cfg: Config, t: seq<Rec>, e: nat, r: Rec, now: nat)
    requires Takes(cfg, t, e, r, now)
    ensures Inv(cfg, t[e := r], now)
  {
    var t' := t[e := r];
    forall i, j | 0 <= i < j < |t'| && t'[i].inUse && t'[j].inUse ensures t'[i].key != t'[j].key {
      HolderIs(cfg, t, if i == e then j else i, now);
    }
  }

  /** Table and map move together; the record that was overwritten leaves the map. */
  lemma ReplaceHolds(cfg: Config, t: seq<Rec>, m: map<Key, Rec>, e: nat, r: Rec, now: nat)
    requires Takes(cfg, t, e, r, now) && Holds(t, m)
    ensures Holds(t[e := r], Displaced(t, m, e)[r.key := r])
  {
    hide RecOk;
    var t', m' := t[e := r], Displaced(t, m, e)[r.key := r];
    forall i | 0 <= i < |t'| && t'[i].inUse ensures t'[i].key in m' && m'[t'[i].key] == t'[i] {
      if i != e { HolderIs(cfg, t, i, now); }
    }
    ReplaceInv(cfg, t, e, r, now);
    forall k | k in m' ensures Holder(t', k) < |t'| {
      HolderIs(cfg, t', if k == r.key then e else Holder(t, k), now);
    }
  }

  lemma Later(cfg: Config, t: seq<Rec>, now: nat, now': nat)
    requires Inv(cfg, t, now) && now <= now'
    ensures Inv(cfg, t, now')
  {
    forall i | 0 <= i < |t| ensures RecOk(cfg, t[i], now') {
      assert RecOk(cfg, t[i], now);
    }
  }

  ghost function KeysOf(t: seq<Rec>): (ks: set<Key>)
    ensures forall i :: 0 <= i < |t| ==> t[i].key in ks
    ensures forall k :: k in ks ==> exists i :: 0 <= i < |t| && t[i].key == k
  {
    if t == [] then {} else {t[0].key} + KeysOf(t[1..])
  }

  lemma {:induction false} DistinctKeys(t: seq<Rec>)
    requires forall i, j :: 0 <= i < j < |t| ==> t[i].key != t[j].key
    ensures |KeysOf(t)| == |t|
  {
    if t != [] {
      assert t[0].key !in KeysOf(t[1..]);
      DistinctKeys(t[1..]);
    }
  }

  /** While the keys fit, an unused record is left. */
  lemma RoomLeft(cfg: Config, t: seq<Rec>, m: map<Key, Rec>, now: nat)
    requires Inv(cfg, t, now) && Holds(t, m)
    ensures |m| < |t| <==> exists i :: 0 <= i < |t| && !t[i].inUse
    ensures |m| <= |t|
  {
    hide RecOk;
    MapFits(cfg, t, m, now);
    if forall i :: 0 <= i < |t| ==> t[i].inUse {
      DistinctKeys(t);
      assert KeysOf(t) <= m.Keys;
      SubsetSize(KeysOf(t), m.Keys);
    } else {
      var i :| 0 <= i < |t| && !t[i].inUse;
      var rest := t[..i] + t[i + 1..];
      forall k | k in m.Keys ensures k in KeysOf(rest) {
        var h := Holder(t, k);
        assert rest[if h < i then h else h - 1] == t[h];
      }
      SubsetSize(m.Keys, KeysOf(rest));
      KeysBound(rest);
    }
  }

  lemma {:induction false} KeysBound(t: seq<Rec>)
    ensures |KeysOf(t)| <= |t|
  {
    if t != [] { KeysBound(t[1..]); }
  }

  lemma MapFits(cfg: Config, t: seq<Rec>, m: map<Key, Rec>, now: nat)
    requires Inv(cfg, t, now) && Holds(t, m)
    ensures |m| <= |t|
  {
    forall k | k in m.Keys ensures k in KeysOf(t) {
      assert t[Holder(t, k)].key == k;
    }
    SubsetSize(m.Keys, KeysOf(t));
    KeysBound(t);
  }

  lemma AgainKeeps(cfg: Config, r: Rec, now: nat)
    requires RecOk(cfg, r, now) && r.inUse
    ensures RecOk(cfg, Again(cfg, r, now), now) && Again(cfg, r, now).inUse && Again(cfg, r, now).key == r.key
    ensures r.until > now ==> Again(cfg, r, now).until >= r.until
  {
  }

  /** A failure updates the table as it updates the map, if and only if the key is already tracked
      or fewer keys are tracked than the table has records. Otherwise one record makes way, and it
      is a live ban only if every record is one. */
  lemma FailRefines(cfg: Config, t: seq<Rec>, m: map<Key, Rec>, key: Key, now: nat)
    requires Inv(cfg, t, now) && Holds(t, m)
    ensures var t' := NoteFail(cfg, t, key, now);
            && Inv(cfg, t', now)
            && (Holds(t', MapFail(cfg, m, key, now)) <==> key in m || |m| < |t|)
            && (key !in m && |m| >= |t| ==>
                  var v := t[Chosen(t, key, now)];
                  && v.inUse
                  && Holds(t', MapFail(cfg, m - {v.key}, key, now))
                  && (Live(v, now) ==> forall i :: 0 <= i < |t| ==> Live(t[i], now)))
  {
    hide Chosen, Live;
    var e := Chosen(t, key, now);
    ChosenPicks(cfg, t, key, now);
    RoomLeft(cfg, t, m, now);
    var h := Holder(t, key);
    assert RecOk(cfg, t[e], now);
    var r := if Has(t[e], key) then Again(cfg, t[e], now) else FreshRec(cfg, key, now);
    if Has(t[e], key) { AgainKeeps(cfg, t[e], now); }
    assert key in m <==> h < |t|;
    ReplaceInv(cfg, t, e, r, now);
    ReplaceHolds(cfg, t, m, e, r, now);
    var m' := Displaced(t, m, e)[key := r];
    if h < |t| {
      assert m' == MapFail(cfg, m, key, now);
    } else if t[e].inUse {
      assert m' == MapFail(cfg, m - {t[e].key}, key, now);
      assert t[e].key in MapFail(cfg, m, key, now) && t[e].key !in m';
      assert Holder(t[e := r], t[e].key) == |t|;
    }
  }

  lemma OkRefines(cfg: Config, t: seq<Rec>, m: map<Key, Rec>, key: Key, now: nat)
    requires Inv(cfg, t, now) && Holds(t, m)
    ensures Inv(cfg, NoteOk(t, key), now) && Holds(NoteOk(t, key), m - {key})
  {
    var h, t' := Holder(t, key), NoteOk(t, key);
    if h < |t| {
      assert Inv(cfg, t', now);
      forall i | 0 <= i < |t'| && t'[i].inUse ensures t'[i].key in m - {key} && (m - {key})[t'[i].key] == t'[i] {
        HolderIs(cfg, t, i, now);
      }
      forall k | k in m - {key} ensures Holder(t', k) < |t'| {
        HolderIs(cfg, t', Holder(t, k), now);
      }
    }
  }

  lemma {:induction false} BlockedScan(t: seq<Rec>, key: Key, now: nat)
    requires forall i :: 0 <= i < |t| && !t[i].inUse ==> t[i] == ZeroRec
    requires forall i, j :: 0 <= i < j < |t| && t[i].inUse && t[j].inUse ==> t[i].key != t[j].key
    ensures Blocked(t, key, now) <==> Holder(t, key) < |t| && t[Holder(t, key)].until > now
  {
    if t != [] && !Has(t[0], key) {
      assert t[0].inUse || t[0] == ZeroRec;
      BlockedScan(t[1..], key, now);
    } else if t != [] && t[0].until == 0 {
      forall i | 0 <= i < |t[1..]| ensures !Has(t[1..][i], key) {
        assert t[1..][i] == t[i + 1];
      }
      BlockedScan(t[1..], key, now);
    }
  }

  /** Whenever it is asked, the table blocks a key exactly when the map does. */
  lemma BlockedRefines(cfg: Config, t: seq<Rec>, m: map<Key, Rec>, key: Key, now: nat, ask: nat)
    requires Inv(cfg, t, now) && Holds(t, m)
    ensures Blocked(t, key, ask) <==> MapBlocked(m, key, ask)
  {
    forall i | 0 <= i < |t| && !t[i].inUse ensures t[i] == ZeroRec {
      assert RecOk(cfg, t[i], now);
    }
    BlockedScan(t, key, ask);
  }

  // ---------------------------------------------------------------- every run

  datatype Op = Failed(key: Key, now: nat) | Passed(key: Key, now: nat) | Ask(key: Key, now: nat)

  ghost predicate Monotone(ops: seq<Op>, now: nat)
    decreases |ops|
  {
    ops != [] ==> now <= ops[0].now && Monotone(ops[1..], ops[0].now)
  }

  /** What the table answers to the questions of a run. */
  function Answers(cfg: Config, t: seq<Rec>, ops: seq<Op>): seq<bool>
    requires t != []
    decreases |ops|
  {
    if ops == [] then []
    else
      match ops[0]
      case Failed(key, now) => Answers(cfg, NoteFail(cfg, t, key, now), ops[1..])
      case Passed(key, now) => Answers(cfg, NoteOk(t, key), ops[1..])
      case Ask(key, now) => [Blocked(t, key, now)] + Answers(cfg, t, ops[1..])
  }

  /** What an unbounded per-key map answers. */
  function MapAnswers(cfg: Config, m: map<Key, Rec>, ops: seq<Op>): seq<bool>
    decreases |ops|
  {
    if ops == [] then []
    else
      match ops[0]
      case Failed(key, now) => MapAnswers(cfg, MapFail(cfg, m, key, now), ops[1..])
      case Passed(key, now) => MapAnswers(cfg, m - {key}, ops[1..])
      case Ask(key, now) => [MapBlocked(m, key, now)] + MapAnswers(cfg, m, ops[1..])
  }

  /** The distinct keys tracked at any time of the run fit in `n` records. */
  ghost predicate Fits(cfg: Config, m: map<Key, Rec>, ops: seq<Op>, n: nat)
    decreases |ops|
  {
    ops != [] ==>
      match ops[0]
      case Failed(key, now) => (key in m || |m| < n) && Fits(cfg, MapFail(cfg, m, key, now), ops[1..], n)
      case Passed(key, now) => Fits(cfg, m - {key}, ops[1..], n)
      case Ask(key, now) => Fits(cfg, m, ops[1..], n)
  }

  /** Over every run of a clock that never runs backwards, the fixed table is indistinguishable from
      one record per key, as long as the tracked keys fit. */
  lemma {:induction false} AnswersLikeMap(cfg: Config, t: seq<Rec>, m: map<Key, Rec>, ops: seq<Op>, now: nat)
    requires t != [] && Inv(cfg, t, now) && Holds(t, m) && Monotone(ops, now) && Fits(cfg, m, ops, |t|)
    ensures Answers(cfg, t, ops) == MapAnswers(cfg, m, ops)
    decreases |ops|
  {
    hide Holds, Inv, NoteFail, NoteOk, MapFail, MapBlocked, Blocked, Chosen;
    if ops != [] {
      Later(cfg, t, now, ops[0].now);
      match ops[0]
      case Failed(key, at) =>
        FailRefines(cfg, t, m, key, at);
        AnswersLikeMap(cfg, NoteFail(cfg, t, key, at), MapFail(cfg, m, key, at), ops[1..], at);
      case Passed(key, at) =>
        OkRefines(cfg, t, m, key, at);
        AnswersLikeMap(cfg, NoteOk(t, key), m - {key}, ops[1..], at);
      case Ask(key, at) =>
        BlockedRefines(cfg, t, m, key, at, at);
        AnswersLikeMap(cfg, t, m, ops[1..], at);
    }
  }

  // ---------------------------------------------------------------- how many failures it takes

  /** A key's record after failures at the given times. */
  function Failures(cfg: Config, r: Rec, times: seq<nat>): Rec
    decreases |times|
  {
    if times == [] then r else Failures(cfg, Again(cfg, r, times[0]), times[1..])
  }

  ghost predicate Ascending(times: seq<nat>) {
    forall i, j :: 0 <= i <= j < |times| ==> times[i] <= times[j]
  }

  /** A ban that outlasts the burst is never shortened by it. */
  lemma {:induction false} BanStands(cfg: Config, r: Rec, times: seq<nat>, last: nat)
    requires RecOk(cfg, r, if times == [] then last else times[0]) && r.inUse
    requires Ascending(times) && (forall i :: 0 <= i < |times| ==> times[i] <= last)
    requires r.until > last
    ensures Failures(cfg, r, times).until >= r.until
    decreases |times|
  {
    if times != [] {
      AgainKeeps(cfg, r, times[0]);
      var r' := Again(cfg, r, times[0]);
      assert RecOk(cfg, r', if times[1..] == [] then last else times[1..][0]);
      BanStands(cfg, r', times[1..], last);
    }
  }

  /** Inside one counting window every failure counts. */
  lemma {:induction false} WindowBans(cfg: Config, r: Rec, times: seq<nat>, last: nat)
    requires cfg.window > 0 && RecOk(cfg, r, if times == [] then last else times[0]) && r.inUse
    requires Ascending(times) && (forall i :: 0 <= i < |times| ==> times[i] <= last)
    requires r.first <= last < r.first + cfg.window
    requires r.fail + |times| >= cfg.maxFails
    requires times == [] ==> r.until > last
    ensures Failures(cfg, r, times).until > last
    decreases |times|
  {
    if times != [] {
      var r' := Again(cfg, r, times[0]);
      AgainKeeps(cfg, r, times[0]);
      assert RecOk(cfg, r', if times[1..] == [] then last else times[1..][0]);
      if r'.fail >= cfg.maxFails {
        BanStands(cfg, r', times[1..], last);
      } else {
        WindowBans(cfg, r', times[1..], last);
      }
    }
  }

  /** How many leading times are below a limit. */
  function Leading(times: seq<nat>, limit: nat): (k: nat)
    ensures k <= |times|
  {
    if times == [] || times[0] >= limit then 0 else 1 + Leading(times[1..], limit)
  }

  lemma {:induction false} LeadingAll(times: seq<nat>, limit: nat)
    requires forall i :: 0 <= i < |times| ==> times[i] < limit
    ensures Leading(times, limit) == |times|
  {
    if times != [] { LeadingAll(times[1..], limit); }
  }

  /** Whether a burst of failures leaves the key blocked: the old ban outlasts it, the failures that
      still fall in the record's window fill it up, or those behind it fill a new one. */
  predicate BurstBlocks(cfg: Config, r: Rec, times: seq<nat>)
    requires times != []
  {
    var k := Leading(times, r.first + cfg.window);
    r.until > times[|times| - 1] || (k > 0 && r.fail + k >= cfg.maxFails) || |times| - k >= cfg.maxFails
  }

  /** For every history of a tracked key and every burst shorter than a window, the key is blocked at
      the end of the burst if and only if one of those three holds. */
  lemma {:induction false} BurstIff(cfg: Config, r: Rec, times: seq<nat>)
    requires times != []
    requires RecOk(cfg, r, times[0]) && r.inUse
    requires Ascending(times) && times[|times| - 1] < times[0] + cfg.window
    ensures Failures(cfg, r, times).until > times[|times| - 1] <==> BurstBlocks(cfg, r, times)
    decreases |times|
  {
    var now, rest, r' := times[0], times[1..], Again(cfg, r, times[0]);
    AgainKeeps(cfg, r, now);
    if rest == [] {
      assert Failures(cfg, r', rest) == r';
    } else {
      assert forall i :: 0 <= i < |rest| ==> rest[i] == times[i + 1];
      assert RecOk(cfg, r', rest[0]);
      BurstIff(cfg, r', rest);
      if now - r.first >= cfg.window { LeadingAll(rest, now + cfg.window); }
    }
  }

  /** The failures a record can absorb before its counting window restarts without banning. */
  function Slack(cfg: Config, r: Rec): nat {
    if r.fail + 1 < cfg.maxFails then cfg.maxFails - 1 - r.fail else 0
  }

  /** So `maxFails` failures beyond the record's slack, all within one window's length, always block. */
  lemma BurstBans(cfg: Config, r: Rec, times: seq<nat>)
    requires cfg.maxFails >= 1 && cfg.window > 0 && times != []
    requires RecOk(cfg, r, times[0]) && r.inUse
    requires Ascending(times) && times[|times| - 1] < times[0] + cfg.window
    requires |times| >= cfg.maxFails + Slack(cfg, r)
    ensures Failures(cfg, r, times).until > times[|times| - 1]
  {
    BurstIff(cfg, r, times);
  }

  /** So do `2 * maxFails - 2` for a tracked key whatever its record. */
  lemma BurstBansTracked(cfg: Config, r: Rec, times: seq<nat>)
    requires cfg.maxFails >= 2 && cfg.window > 0 && |times| >= 2 * cfg.maxFails - 2
    requires RecOk(cfg, r, times[0]) && r.inUse
    requires Ascending(times) && times[|times| - 1] < times[0] + cfg.window
    ensures Failures(cfg, r, times).until > times[|times| - 1]
  {
    BurstIff(cfg, r, times);
  }

  /** A key not tracked before is blocked by a burst if and only if it has `maxFails` failures. */
  lemma BurstNewIff(cfg: Config, key: Key, times: seq<nat>)
    requires times != []
    requires Ascending(times) && times[|times| - 1] < times[0] + cfg.window
    ensures Failures(cfg, FreshRec(cfg, key, times[0]), times[1..]).until > times[|times| - 1]
        <==> |times| >= cfg.maxFails
  {
    var r, rest := FreshRec(cfg, key, times[0]), times[1..];
    if rest == [] {
      assert Failures(cfg, r, rest) == r;
    } else {
      assert forall i :: 0 <= i < |rest| ==> rest[i] == times[i + 1];
      BurstIff(cfg, r, rest);
      LeadingAll(rest, times[0] + cfg.window);
    }
  }

  lemma {:induction false} FailuresAppend(cfg: Config, r: Rec, a: seq<nat>, b: seq<nat>)
    ensures Failures(cfg, r, a + b) == Failures(cfg, Failures(cfg, r, a), b)
    decreases |a|
  {
    if a == [] {
      assert a + b == b;
    } else {
      assert (a + b)[1..] == a[1..] + b;
      FailuresAppend(cfg, Again(cfg, r, a[0]), a[1..], b);
    }
  }

  function Repeat(at: nat, n: nat): (ts: seq<nat>)
    ensures |ts| == n && forall i :: 0 <= i < n ==> ts[i] == at
  {
    if n == 0 then [] else [at] + Repeat(at, n - 1)
  }

  lemma {:induction false} RepeatCounts(cfg: Config, r: Rec, at: nat, n: nat)
    requires r.first <= at < r.first + cfg.window && r.fail + n < cfg.maxFails
    ensures Failures(cfg, r, Repeat(at, n)) == r.(fail := r.fail + n)
    decreases n
  {
    if n > 0 {
      assert Repeat(at, n)[1..] == Repeat(at, n - 1);
      RepeatCounts(cfg, Again(cfg, r, at), at, n - 1);
    }
  }

  /** One failure less need not: the window is counted from the first failure, so for every threshold
      and window `2 * maxFails - 3` failures, one millisecond apart at most, may straddle its restart
      and ban nobody. */
  lemma OneLessMayPass(cfg: Config, key: Key)
    requires cfg.maxFails >= 2 && cfg.window >= 2
    ensures var times := Repeat(cfg.window - 1, cfg.maxFails - 2) + Repeat(cfg.window, cfg.maxFails - 1);
            && |times| == 2 * cfg.maxFails - 3 && Ascending(times)
            && times[|times| - 1] < times[0] + cfg.window
            && RecOk(cfg, FreshRec(cfg, key, 0), times[0])
            && Failures(cfg, FreshRec(cfg, key, 0), times).until == 0
  {
    var r, w, n := FreshRec(cfg, key, 0), cfg.window, cfg.maxFails;
    FailuresAppend(cfg, r, Repeat(w - 1, n - 2), Repeat(w, n - 1));
    RepeatCounts(cfg, r, w - 1, n - 2);
    var r1 := r.(fail := n - 1);
    assert Repeat(w, n - 1)[1..] == Repeat(w, n - 2);
    assert Again(cfg, r1, w) == FreshRec(cfg, key, w);
    RepeatCounts(cfg, FreshRec(cfg, key, w), w, n - 2);
  }

  // ---------------------------------------------------------------- bursts among other keys

  /** The table after a run. */
  function TableRun(cfg: Config, t: seq<Rec>, ops: seq<Op>): seq<Rec>
    requires t != []
    decreases |ops|
  {
    if ops == [] then t
    else
      match ops[0]
      case Failed(key, now) => TableRun(cfg, NoteFail(cfg, t, key, now), ops[1..])
      case Passed(key, now) => TableRun(cfg, NoteOk(t, key), ops[1..])
      case Ask(_, _) => TableRun(cfg, t, ops[1..])
  }

  function MapRun(cfg: Config, m: map<Key, Rec>, ops: seq<Op>): map<Key, Rec>
    decreases |ops|
  {
    if ops == [] then m
    else
      match ops[0]
      case Failed(key, now) => MapRun(cfg, MapFail(cfg, m, key, now), ops[1..])
      case Passed(key, now) => MapRun(cfg, m - {key}, ops[1..])
      case Ask(_, _) => MapRun(cfg, m, ops[1..])
  }

  function EndOf(ops: seq<Op>, now: nat): nat {
    if ops == [] then now else ops[|ops| - 1].now
  }

  lemma EndTail(ops: seq<Op>, now: nat)
    requires ops != []
    ensures EndOf(ops, now) == EndOf(ops[1..], ops[0].now)
  {
  }

  lemma {:induction false} RunHolds(cfg: Config, t: seq<Rec>, m: map<Key, Rec>, ops: seq<Op>, now: nat)
    requires Inv(cfg, t, now) && Holds(t, m) && Monotone(ops, now) && Fits(cfg, m, ops, |t|)
    ensures Inv(cfg, TableRun(cfg, t, ops), EndOf(ops, now)) && Holds(TableRun(cfg, t, ops), MapRun(cfg, m, ops))
    decreases |ops|
  {
    assert t != [];
    hide Holds, NoteFail, NoteOk, MapFail, Chosen;
    if ops != [] {
      Later(cfg, t, now, ops[0].now);
      EndTail(ops, now);
      hide Inv;
      match ops[0]
      case Failed(key, at) =>
        FailRefines(cfg, t, m, key, at);
        RunHolds(cfg, NoteFail(cfg, t, key, at), MapFail(cfg, m, key, at), ops[1..], at);
      case Passed(key, at) =>
        OkRefines(cfg, t, m, key, at);
        RunHolds(cfg, NoteOk(t, key), m - {key}, ops[1..], at);
      case Ask(key, at) =>
        RunHolds(cfg, t, m, ops[1..], at);
    }
  }

  /** When a key failed in a run. */
  function TimesOf(ops: seq<Op>, key: Key): seq<nat> {
    if ops == [] then []
    else (if ops[0].Failed? && ops[0].key == key then [ops[0].now] else []) + TimesOf(ops[1..], key)
  }

  ghost predicate NeverPasses(ops: seq<Op>, key: Key) {
    forall i :: 0 <= i < |ops| ==> !(ops[i].Passed? && ops[i].key == key)
  }

  /** Other keys' operations leave a tracked key's record to its own failures. */
  lemma {:induction false} MapRunOf(cfg: Config, m: map<Key, Rec>, ops: seq<Op>, key: Key)
    requires key in m && NeverPasses(ops, key)
    ensures key in MapRun(cfg, m, ops) && MapRun(cfg, m, ops)[key] == Failures(cfg, m[key], TimesOf(ops, key))
    decreases |ops|
  {
    hide Again;
    if ops != [] {
      var times, rest := TimesOf(ops, key), ops[1..];
      assert !(ops[0].Passed? && ops[0].key == key);
      match ops[0]
      case Failed(k, at) =>
        MapRunOf(cfg, MapFail(cfg, m, k, at), rest, key);
        assert times[if k == key then 1 else 0..] == TimesOf(rest, key);
      case Passed(k, _) =>
        MapRunOf(cfg, m - {k}, rest, key);
        assert times == TimesOf(rest, key);
      case Ask(_, _) =>
        MapRunOf(cfg, m, rest, key);
        assert times == TimesOf(rest, key);
    }
  }

  lemma {:induction false} MapRunOfNew(cfg: Config, m: map<Key, Rec>, ops: seq<Op>, key: Key)
    requires key !in m && NeverPasses(ops, key) && TimesOf(ops, key) != []
    ensures var times := TimesOf(ops, key);
            && key in MapRun(cfg, m, ops)
            && MapRun(cfg, m, ops)[key] == Failures(cfg, FreshRec(cfg, key, times[0]), times[1..])
    decreases |ops|
  {
    hide Again;
    var times, rest := TimesOf(ops, key), ops[1..];
    assert !(ops[0].Passed? && ops[0].key == key);
    if ops[0].Failed? && ops[0].key == key {
      MapRunOf(cfg, MapFail(cfg, m, key, ops[0].now), rest, key);
      assert times[1..] == TimesOf(rest, key);
    } else {
      assert times == TimesOf(rest, key);
      match ops[0]
      case Failed(k, at) => MapRunOfNew(cfg, MapFail(cfg, m, k, at), rest, key);
      case Passed(k, _) => MapRunOfNew(cfg, m - {k}, rest, key);
      case Ask(_, _) => MapRunOfNew(cfg, m, rest, key);
    }
  }

  lemma {:induction false} TimesAscend(ops: seq<Op>, key: Key, now: nat)
    requires Monotone(ops, now)
    ensures Ascending(TimesOf(ops, key)) && forall i :: 0 <= i < |TimesOf(ops, key)| ==> TimesOf(ops, key)[i] >= now
    decreases |ops|
  {
    if ops != [] { TimesAscend(ops[1..], key, ops[0].now); }
  }

  /** In a run in which other keys fail, pass and ask in between, a tracked key that fails for less than
      a window is blocked at its last failure if and only if its record and its own times say so. */
  lemma TableBlocksIff(cfg: Config, t: seq<Rec>, m: map<Key, Rec>, ops: seq<Op>, key: Key, now: nat)
    requires t != [] && Inv(cfg, t, now) && Holds(t, m) && Monotone(ops, now) && Fits(cfg, m, ops, |t|)
    requires key in m && NeverPasses(ops, key)
    requires var times := TimesOf(ops, key); times != [] && times[|times| - 1] < times[0] + cfg.window
    ensures var times := TimesOf(ops, key);
            Blocked(TableRun(cfg, t, ops), key, times[|times| - 1]) <==> BurstBlocks(cfg, m[key], times)
  {
    hide BurstBlocks, Failures, Blocked, TableRun, MapRun, Monotone, Fits;
    var times := TimesOf(ops, key);
    var last := times[|times| - 1];
    RunHolds(cfg, t, m, ops, now);
    BlockedRefines(cfg, TableRun(cfg, t, ops), MapRun(cfg, m, ops), key, EndOf(ops, now), last);
    MapRunOf(cfg, m, ops, key);
    TimesAscend(ops, key, now);
    var h := Holder(t, key);
    assert t[h] == m[key] && RecOk(cfg, t[h], now);
    assert RecOk(cfg, m[key], times[0]);
    BurstIff(cfg, m[key], times);
  }

  /** And an untracked one if and only if it failed `maxFails` times. */
  lemma TableBlocksNewIff(cfg: Config, t: seq<Rec>, m: map<Key, Rec>, ops: seq<Op>, key: Key, now: nat)
    requires t != [] && Inv(cfg, t, now) && Holds(t, m) && Monotone(ops, now) && Fits(cfg, m, ops, |t|)
    requires key !in m && NeverPasses(ops, key)
    requires var times := TimesOf(ops, key); times != [] && times[|times| - 1] < times[0] + cfg.window
    ensures var times := TimesOf(ops, key);
            Blocked(TableRun(cfg, t, ops), key, times[|times| - 1]) <==> |times| >= cfg.maxFails
  {
    hide Failures, Blocked, TableRun, MapRun, Monotone, Fits, Inv, Holds;
    var times := TimesOf(ops, key);
    RunHolds(cfg, t, m, ops, now);
    BlockedRefines(cfg, TableRun(cfg, t, ops), MapRun(cfg, m, ops), key, EndOf(ops, now), times[|times| - 1]);
    MapRunOfNew(cfg, m, ops, key);
    TimesAscend(ops, key, now);
    BurstNewIff(cfg, key, times);
  }

  // ---------------------------------------------------------------- the table in place

  /** The records, overwritten in place by the scan loops. */
  class Table {
    const recs: array<Rec>
    const cfg: Config

    constructor (n: nat, cfg: Config)
      ensures this.cfg == cfg && fresh(recs) && recs.Length == n
      ensures n > 0 ==> Inv(cfg, recs[..], 0) && Holds(recs[..], map[])
    {
      this.cfg := cfg;
      recs := new Rec[n](_ => ZeroRec);
    }

    /** `None` stands for a key that is null, empty or too long. */
    method Note(arg: Option<Key>, success: bool, now: nat)
      modifies recs
      ensures recs[..] == if recs.Length == 0 || arg.None? then old(recs[..])
                else if success then NoteOk(old(recs[..]), arg.value)
                else NoteFail(cfg, old(recs[..]), arg.value, now)
    {
      if recs.Length == 0 || arg.None? {
        return;
      }
      var key := arg.value;
      if success {
        Forget(key);
        return;
      }
      var e := Pick(key, now);
      var r := recs[e];
      if !r.inUse || r.key != key || now - r.first >= cfg.window {
        if r.inUse && r.key == key && r.until != 0 && r.until > now {
          recs[e] := r.(fail := 1, first := now);
          return;
        }
        recs[e] := Rec(key, 1, now, if 1 >= cfg.maxFails then now + cfg.window else 0, true);
        return;
      }
      recs[e] := r.(fail := r.fail + 1, until := if r.fail + 1 >= cfg.maxFails then now + cfg.window else r.until);
    }

    method Forget(key: Key)
      modifies recs
      ensures recs[..] == NoteOk(old(recs[..]), key)
    {
      var i := 0;
      while i < recs.Length && !Has(recs[i], key)
        invariant 0 <= i <= recs.Length
        invariant forall j :: 0 <= j < i ==> !Has(recs[j], key)
      {
        i := i + 1;
      }
      assert i == Holder(recs[..], key);
      if i < recs.Length {
        recs[i] := ZeroRec;
      }
    }

    method Pick(key: Key, now: nat) returns (e: nat)
      requires recs.Length > 0
      ensures e < recs.Length && e == Chosen(recs[..], key, now)
    {
      var oldest, earliest, i := -1, 0, 0;
      while i < recs.Length
        invariant 0 <= i <= recs.Length && -1 <= oldest < recs.Length && 0 <= earliest < recs.Length
        invariant Chosen(recs[..], key, now) == Scan(recs[..], key, now, i, oldest, earliest)
      {
        var r := recs[i];
        if Has(r, key) {
          return i;
        }
        if !r.inUse || (r.until <= now && (oldest == -1 || r.first < recs[oldest].first)) {
          oldest := i;
        }
        if r.first < recs[earliest].first {
          earliest := i;
        }
        i := i + 1;
      }
      return if oldest >= 0 then oldest else earliest;
    }

    method IsBlocked(arg: Option<Key>, now: nat) returns (hit: bool)
      ensures hit == (arg.Some? && Blocked(recs[..], arg.value, now))
    {
      if arg.None? {
        return false;
      }
      var key := arg.value;
      var i := 0;
      while i < recs.Length
        invariant 0 <= i <= recs.Length
        invariant Blocked(recs[..], key, now) == Blocked(recs[i..], key, now)
      {
        assert recs[i..][0] == recs[i] && recs[i..][1..] == recs[i + 1..];
        if recs[i].until != 0 && recs[i].key == key {
          return recs[i].until > now;
        }
        i := i + 1;
      }
      return false;
    }
  }
}
