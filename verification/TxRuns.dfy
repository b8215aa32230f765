/**
 How the drain hands the popped frames to the socket: in runs of equal length that fit one send, until
 a run is cut short.
 */
module TxRuns {

  /** Frames of the run that starts a batch, when `j` of them with `total` bytes are already in it. */
  function Grown(lens: seq<nat>, unit: nat, j: nat, total: nat): (n: nat)
    requires 0 < j <= |lens|
    ensures j <= n <= |lens|
    decreases |lens| - j
  {
    if j < |lens| && lens[j] == lens[0] && total + lens[0] <= unit then Grown(lens, unit, j + 1, total + lens[0]) else j
  }

  function RunLen(lens: seq<nat>, unit: nat): (n: nat)
    requires lens != []
    ensures 0 < n <= |lens|
  {
    Grown(lens, unit, 1, lens[0])
  }

  /** The lengths of the runs of a batch. */
  function Runs(lens: seq<nat>, unit: nat): (runs: seq<nat>)
    ensures forall i :: 0 <= i < |runs| ==> runs[i] > 0
    decreases |lens|
  {
    if lens == [] then [] else [RunLen(lens, unit)] + Runs(lens[RunLen(lens, unit)..], unit)
  }

  /** How many frames of a run the socket takes. */
  function Taken(answers: seq<nat>, n: nat): nat {
    if answers == [] then 0 else if answers[0] < n then answers[0] else n
  }

  /** How many frames go out; `answers` are the counts the socket takes, run by run. */
  function SentOf(lens: seq<nat>, unit: nat, answers: seq<nat>): (sent: nat)
    ensures sent <= |lens|
    decreases |lens|
  {
    if lens == [] then 0
    else
      var n := RunLen(lens, unit);
      if Taken(answers, n) < n then Taken(answers, n) else n + SentOf(lens[n..], unit, answers[1..])
  }

  // ---------------------------------------------------------------- what a run is

  /** A run is as long as it can be: equal lengths that together fit one send. */
  lemma {:induction false} GrownIs(lens: seq<nat>, unit: nat, j: nat, total: nat)
    requires 0 < j <= |lens| && total == j * lens[0] && (j > 1 ==> total <= unit)
    requires forall k :: 0 <= k < j ==> lens[k] == lens[0]
    ensures var n := Grown(lens, unit, j, total);
            && (forall k :: 0 <= k < n ==> lens[k] == lens[0])
            && (n > 1 ==> n * lens[0] <= unit)
            && (n < |lens| ==> lens[n] != lens[0] || (n + 1) * lens[0] > unit)
    decreases |lens| - j
  {
    assert (j + 1) * lens[0] == total + lens[0];
    if j < |lens| && lens[j] == lens[0] && total + lens[0] <= unit {
      GrownIs(lens, unit, j + 1, total + lens[0]);
    }
  }

  function Sum(ns: seq<nat>): nat {
    if ns == [] then 0 else ns[0] + Sum(ns[1..])
  }

  lemma {:induction false} RunsCover(lens: seq<nat>, unit: nat)
    ensures Sum(Runs(lens, unit)) == |lens|
    decreases |lens|
  {
    if lens != [] {
      var n := RunLen(lens, unit);
      RunsCover(lens[n..], unit);
      assert Runs(lens, unit)[1..] == Runs(lens[n..], unit);
    }
  }

  // ---------------------------------------------------------------- what goes out

  function Behind(answers: seq<nat>, k: nat): seq<nat> {
    if k < |answers| then answers[k..] else []
  }

  ghost predicate TookRun(runs: seq<nat>, answers: seq<nat>, i: nat) {
    i < |runs| && i < |answers| && answers[i] >= runs[i]
  }

  /** `k` whole runs went out, and of the next one what the socket took. */
  ghost predicate CutAt(runs: seq<nat>, answers: seq<nat>, k: nat, sent: nat) {
    && k <= |runs|
    && (forall i: nat :: i < k ==> TookRun(runs, answers, i))
    && sent == Sum(runs[..k]) + (if k == |runs| then 0 else Taken(Behind(answers, k), runs[k]))
    && (k < |runs| ==> !TookRun(runs, answers, k))
  }

  /** What goes out is the runs the socket took whole and its part of the first it did not. */
  lemma {:induction false} SentIs(lens: seq<nat>, unit: nat, answers: seq<nat>) returns (k: nat)
    ensures CutAt(Runs(lens, unit), answers, k, SentOf(lens, unit, answers))
    decreases |lens|
  {
    var runs := Runs(lens, unit);
    k := 0;
    assert runs[..0] == [];
    assert Behind(answers, 0) == answers;
    if lens != [] {
      var n := RunLen(lens, unit);
      var rest, more := lens[n..], if answers == [] then [] else answers[1..];
      assert runs[0] == n && runs[1..] == Runs(rest, unit);
      if Taken(answers, n) == n {
        var j := SentIs(rest, unit, more);
        k := j + 1;
        CutCons(runs, answers, j, SentOf(rest, unit, more));
      }
    }
  }

  lemma CutCons(runs: seq<nat>, answers: seq<nat>, j: nat, sent: nat)
    requires runs != [] && answers != [] && answers[0] >= runs[0] && CutAt(runs[1..], answers[1..], j, sent)
    ensures CutAt(runs, answers, j + 1, runs[0] + sent)
  {
    var k := j + 1;
    assert runs[..k][1..] == runs[1..][..j];
    assert TookRun(runs, answers, 0);
    forall i: nat | 0 < i < k ensures TookRun(runs, answers, i) {
      assert TookRun(runs[1..], answers[1..], i - 1);
    }
    if k < |runs| {
      assert !TookRun(runs[1..], answers[1..], j);
      assert runs[k] == runs[1..][j];
      if k < |answers| { assert answers[1..][j..] == answers[k..]; }
    }
  }

  /** The whole batch goes out exactly when the socket takes every run whole. */
  lemma AllSentIff(lens: seq<nat>, unit: nat, answers: seq<nat>)
    ensures SentOf(lens, unit, answers) == |lens| <==>
              forall i: nat :: i < |Runs(lens, unit)| ==> TookRun(Runs(lens, unit), answers, i)
  {
    hide SentOf, Runs;
    var runs := Runs(lens, unit);
    RunsCover(lens, unit);
    var k := SentIs(lens, unit, answers);
    if k < |runs| {
      assert !TookRun(runs, answers, k);
      SumSplit(runs, k);
      assert Taken(Behind(answers, k), runs[k]) < runs[k];
    } else {
      assert runs[..k] == runs;
    }
  }

  lemma {:induction false} SumSplit(ns: seq<nat>, k: nat)
    requires k < |ns|
    ensures Sum(ns) >= Sum(ns[..k]) + ns[k]
    decreases k
  {
    if k > 0 {
      SumSplit(ns[1..], k - 1);
      assert ns[..k][1..] == ns[1..][..k - 1];
    } else {
      assert ns[..0] == [];
    }
  }

  // ---------------------------------------------------------------- the loop

  /** The send loop of `sock_drain_tx`. */
  method SendRuns(lens: seq<nat>, unit: nat, answers: seq<nat>) returns (sent: nat)
    ensures sent == SentOf(lens, unit, answers)
  {
    var k, run := 0, 0;
    assert lens[0..] == lens && answers[0..] == answers;
    while k < |lens|
      invariant k <= |lens| && run <= |answers|
      invariant k + SentOf(lens[k..], unit, answers[run..]) == SentOf(lens, unit, answers)
    {
      ghost var rest := lens[k..];
      var j: nat, total: nat := k, lens[k];
      while j + 1 < |lens| && lens[j + 1] == lens[k] && total + lens[k] <= unit
        invariant k <= j < |lens| && Grown(rest, unit, j - k + 1, total) == RunLen(rest, unit)
      {
        assert rest[j + 1 - k] == lens[j + 1];
        total, j := total + lens[k], j + 1;
      }
      var n := j - k + 1;
      var got := if run == |answers| then 0 else if answers[run] < n then answers[run] else n;
      assert got == Taken(answers[run..], n);
      if got < n {
        return k + got;
      }
      assert rest[n..] == lens[j + 1..] && answers[run..][1..] == answers[run + 1..];
      k, run := j + 1, run + 1;
    }
    return |lens|;
  }
}
