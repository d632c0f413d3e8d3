/**
 The fan-in benchmark: `n` goroutines each call a producer and report on a buffered error channel
 and, after a success, on a buffered capability channel; the collector takes one of each in turn.

 A step is one atomic action of one goroutine.  A schedule is any sequence of steps.
 */
module FanIn {
  import opened Options
  import opened Sums

  /** Where a goroutine is: in its call, about to send an error or nil, about to send its capability, done. */
  datatype Worker = Calling | HasErr | HasNil | HasCapability | DoneErr | DoneOk

  /** Where the collector is: starting goroutines, waiting for an error or a capability, or finished. */
  datatype Main = Starting | AwaitErr | AwaitCapability | Failed | Reduced

  /** Channels are queues; an entry of the error channel is whether it is nil. */
  datatype State = State(workers: seq<Worker>, errs: seq<bool>, caps: seq<string>, main: Main, list: seq<string>)

  datatype Step =
    | Start | Return(i: nat) | SendErr(i: nat) | SendCapability(i: nat) | ReceiveErr | ReceiveCapability | Reduce

  const INIT := State([], [], [], Starting, [])

  predicate Enabled(n: nat, s: State, step: Step) {
    match step
    case Start => s.main == Starting
    case Return(i) => i < |s.workers| && s.workers[i] == Calling
    case SendErr(i) => i < |s.workers| && (s.workers[i] == HasErr || s.workers[i] == HasNil) && |s.errs| < n
    case SendCapability(i) => i < |s.workers| && s.workers[i] == HasCapability && |s.caps| < n
    case ReceiveErr => s.main == AwaitErr && |s.list| < n && s.errs != []
    case ReceiveCapability => s.main == AwaitCapability && s.caps != []
    case Reduce => s.main == AwaitErr && |s.list| == n
  }

  /** What producer `i` answers: its capability, or None if the call fails. */
  function Answer(results: seq<Option<string>>, i: nat): Option<string> {
    if i < |results| then results[i] else None
  }

  function Apply(n: nat, results: seq<Option<string>>, s: State, step: Step): State
    requires Enabled(n, s, step)
  {
    match step
    case Start =>
      if |s.workers| < n then s.(workers := s.workers + [Calling]) else s.(main := AwaitErr)
    case Return(i) => s.(workers := s.workers[i := if Answer(results, i).Some? then HasNil else HasErr])
    case SendErr(i) =>
      s.(workers := s.workers[i := if s.workers[i] == HasNil then HasCapability else DoneErr],
         errs := s.errs + [s.workers[i] == HasNil])
    case SendCapability(i) =>
      s.(workers := s.workers[i := DoneOk],
         caps := s.caps + (if Answer(results, i).Some? then [Answer(results, i).value] else []))
    case ReceiveErr => s.(errs := s.errs[1..], main := if s.errs[0] then AwaitCapability else Failed)
    case ReceiveCapability => s.(caps := s.caps[1..], list := s.list + [s.caps[0]], main := AwaitErr)
    case Reduce => s.(main := Reduced)
  }

  /** The state after a schedule; None if some step of it was not enabled. */
  function Run(n: nat, results: seq<Option<string>>, steps: seq<Step>): Option<State> {
    if steps == [] then Some(INIT)
    else
      match Run(n, results, steps[..|steps| - 1])
      case None => None
      case Some(s) =>
        var step := steps[|steps| - 1];
        if Enabled(n, s, step) then Some(Apply(n, results, s, step)) else None
  }

  // ---------- The invariant ----------

  function SentErr(w: Worker): int { if w in {HasCapability, DoneErr, DoneOk} then 1 else 0 }
  function SentNil(w: Worker): int { if w in {HasCapability, DoneOk} then 1 else 0 }
  function SentCap(w: Worker): int { if w == DoneOk then 1 else 0 }
  function OfBool(b: bool): int { if b then 1 else 0 }

  /** How often goroutine `i` has put `v` on the capability channel. */
  function SentBy(w: Worker, answer: Option<string>, v: string): int {
    if w == DoneOk && answer == Some(v) then 1 else 0
  }

  /** How often `v` has been put on the capability channel. */
  function Sent(workers: seq<Worker>, results: seq<Option<string>>, v: string): int {
    if workers == [] then 0
    else
      var m := |workers| - 1;
      Sent(workers[..m], results, v) + SentBy(workers[m], Answer(results, m), v)
  }

  function Occurs(s: seq<string>, v: string): nat {
    if s == [] then 0 else (if s[0] == v then 1 else 0) + Occurs(s[1..], v)
  }

  lemma {:induction false} OccursAppend(s: seq<string>, x: string, v: string)
    ensures Occurs(s + [x], v) == Occurs(s, v) + (if x == v then 1 else 0)
  {
    if s == [] {
      assert s + [x] == [x];
    } else {
      OccursAppend(s[1..], x, v);
      assert (s + [x])[1..] == s[1..] + [x];
    }
  }

  lemma OccursHead(s: seq<string>, v: string)
    requires s != []
    ensures Occurs(s, v) == (if s[0] == v then 1 else 0) + Occurs(s[1..], v)
  {
  }

  lemma SentStart(workers: seq<Worker>, results: seq<Option<string>>, v: string)
    ensures Sent(workers + [Calling], results, v) == Sent(workers, results, v)
  {
    assert (workers + [Calling])[..|workers|] == workers;
  }

  lemma {:induction false} SentUpdate(workers: seq<Worker>, results: seq<Option<string>>, i: nat, w: Worker, v: string)
    requires i < |workers| && workers[i] != DoneOk
    ensures Sent(workers[i := w], results, v) == Sent(workers, results, v) + SentBy(w, Answer(results, i), v)
  {
    var m := |workers| - 1;
    if i == m {
      assert workers[i := w][..m] == workers[..m];
    } else {
      SentUpdate(workers[..m], results, i, w, v);
      assert workers[i := w][..m] == workers[..m][i := w];
    }
  }

  /** A goroutine is where its call's outcome sends it. */
  predicate FitsAnswer(w: Worker, answer: Option<string>) {
    w == Calling || (w in {HasNil, HasCapability, DoneOk} <==> answer.Some?)
  }

  /** Nothing is lost: what was sent is in a channel or was received. */
  ghost predicate Inv(n: nat, results: seq<Option<string>>, s: State) {
    && |results| == n >= |s.workers|
    && (s.main != Starting ==> |s.workers| == n)
    && (s.main == Starting ==> s.list == [])
    && (forall i :: 0 <= i < |s.workers| ==> FitsAnswer(s.workers[i], Answer(results, i)))
    && |s.list| <= n && (s.main == Reduced ==> |s.list| == n)
    && Counts(s)
    && (forall v :: Occurs(s.list, v) + Occurs(s.caps, v) == Sent(s.workers, results, v))
  }

  ghost predicate Counts(s: State) {
    && Sum(s.workers, SentErr) ==
         |s.errs| + |s.list| + OfBool(s.main == AwaitCapability) + OfBool(s.main == Failed)
    && Sum(s.workers, SentNil) == Sum(s.errs, OfBool) + |s.list| + OfBool(s.main == AwaitCapability)
    && Sum(s.workers, SentCap) == |s.caps| + |s.list|
  }

  lemma CountBounds(s: State)
    requires Counts(s)
    ensures |s.errs| + |s.list| + OfBool(s.main == AwaitCapability) <= |s.workers|
    ensures |s.caps| + |s.list| <= |s.workers|
  {
    SumBound(s.workers, SentErr);
    SumBound(s.workers, SentCap);
    SumBound(s.errs, OfBool);
  }

  lemma WorkerMoves(s: State, i: nat, w: Worker)
    requires i < |s.workers|
    ensures Sum(s.workers[i := w], SentErr) == Sum(s.workers, SentErr) - SentErr(s.workers[i]) + SentErr(w)
    ensures Sum(s.workers[i := w], SentNil) == Sum(s.workers, SentNil) - SentNil(s.workers[i]) + SentNil(w)
    ensures Sum(s.workers[i := w], SentCap) == Sum(s.workers, SentCap) - SentCap(s.workers[i]) + SentCap(w)
  {
    SumUpdate(s.workers, i, w, SentErr);
    SumUpdate(s.workers, i, w, SentNil);
    SumUpdate(s.workers, i, w, SentCap);
  }

  lemma StepKeepsCounts(n: nat, results: seq<Option<string>>, s: State, step: Step)
    requires Inv(n, results, s) && Enabled(n, s, step)
    ensures Counts(Apply(n, results, s, step))
  {
    hide Sum, Sent;
    match step
    case Start =>
      SumAppend(s.workers, Calling, SentErr);
      SumAppend(s.workers, Calling, SentNil);
      SumAppend(s.workers, Calling, SentCap);
    case Return(i) =>
      WorkerMoves(s, i, if Answer(results, i).Some? then HasNil else HasErr);
    case SendErr(i) =>
      WorkerMoves(s, i, if s.workers[i] == HasNil then HasCapability else DoneErr);
      SumAppend(s.errs, s.workers[i] == HasNil, OfBool);
    case SendCapability(i) =>
      WorkerMoves(s, i, DoneOk);
      assert FitsAnswer(s.workers[i], Answer(results, i));
    case ReceiveErr => SumHead(s.errs, OfBool);
    case ReceiveCapability =>
    case Reduce =>
  }

  lemma StepKeepsSent(n: nat, results: seq<Option<string>>, s: State, step: Step, v: string)
    requires Enabled(n, s, step)
    requires Occurs(s.list, v) + Occurs(s.caps, v) == Sent(s.workers, results, v)
    ensures var t := Apply(n, results, s, step); Occurs(t.list, v) + Occurs(t.caps, v) == Sent(t.workers, results, v)
  {
    hide Sent, Occurs;
    var t := Apply(n, results, s, step);
    match step
    case Start => SentStart(s.workers, results, v);
    case Return(i) => SentUpdate(s.workers, results, i, t.workers[i], v);
    case SendErr(i) => SentUpdate(s.workers, results, i, t.workers[i], v);
    case SendCapability(i) =>
      SentUpdate(s.workers, results, i, DoneOk, v);
      if Answer(results, i).Some? { OccursAppend(s.caps, Answer(results, i).value, v); }
      else { assert s.caps + [] == s.caps; }
    case ReceiveErr =>
    case ReceiveCapability =>
      OccursAppend(s.list, s.caps[0], v);
      OccursHead(s.caps, v);
    case Reduce =>
  }

  lemma StepKeepsShape(n: nat, results: seq<Option<string>>, s: State, step: Step)
    requires Inv(n, results, s) && Enabled(n, s, step)
    ensures var t := Apply(n, results, s, step);
            && n >= |t.workers|
            && (t.main != Starting ==> |t.workers| == n)
            && (t.main == Starting ==> t.list == [])
            && (forall i :: 0 <= i < |t.workers| ==> FitsAnswer(t.workers[i], Answer(results, i)))
            && |t.list| <= n && (t.main == Reduced ==> |t.list| == n)
  {
    if step.ReceiveCapability? {
      CountBounds(s);
    }
  }

  lemma StepKeepsInv(n: nat, results: seq<Option<string>>, s: State, step: Step)
    requires Inv(n, results, s) && Enabled(n, s, step)
    ensures Inv(n, results, Apply(n, results, s, step))
  {
    hide Counts, Sent, Occurs, Apply, Enabled, FitsAnswer;
    StepKeepsCounts(n, results, s, step);
    StepKeepsShape(n, results, s, step);
    var t := Apply(n, results, s, step);
    forall v ensures Occurs(t.list, v) + Occurs(t.caps, v) == Sent(t.workers, results, v) {
      StepKeepsSent(n, results, s, step, v);
    }
  }

  /** The invariant holds after every schedule. */
  lemma {:induction false} AlwaysInv(n: nat, results: seq<Option<string>>, steps: seq<Step>)
    requires |results| == n && Run(n, results, steps).Some?
    ensures Inv(n, results, Run(n, results, steps).value)
  {
    if steps != [] {
      var before := steps[..|steps| - 1];
      AlwaysInv(n, results, before);
      StepKeepsInv(n, results, Run(n, results, before).value, steps[|steps| - 1]);
    }
  }

  // ---------- What it means ----------

  /** No goroutine ever waits to send: both channels have room for it, even after the collector gave up. */
  lemma SendsNeverBlock(n: nat, results: seq<Option<string>>, steps: seq<Step>, i: nat)
    requires |results| == n && Run(n, results, steps).Some?
    requires i < |Run(n, results, steps).value.workers|
    ensures var s := Run(n, results, steps).value;
            && (s.workers[i] in {HasErr, HasNil} ==> Enabled(n, s, SendErr(i)))
            && (s.workers[i] == HasCapability ==> Enabled(n, s, SendCapability(i)))
  {
    hide Run;
    AlwaysInv(n, results, steps);
    var s := Run(n, results, steps).value;
    SumBound(s.workers, SentErr);
    SumBound(s.workers, SentCap);
  }

  /** Until the collector has finished, some step is enabled: it is never stuck. */
  lemma NeverStuck(n: nat, results: seq<Option<string>>, steps: seq<Step>) returns (next: Step)
    requires |results| == n && Run(n, results, steps).Some?
    requires Run(n, results, steps).value.main !in {Failed, Reduced}
    ensures Enabled(n, Run(n, results, steps).value, next)
  {
    hide Run;
    AlwaysInv(n, results, steps);
    var s := Run(n, results, steps).value;
    SumBound(s.workers, SentErr);
    SumBound(s.workers, SentNil);
    SumBound(s.workers, SentCap);
    SumBound(s.errs, OfBool);
    if s.main == Starting {
      next := Start;
    } else if s.main == AwaitCapability {
      if s.caps != [] {
        next := ReceiveCapability;
      } else {
        NilPromisesCapability(s);
        var i :| 0 <= i < |s.workers| && s.workers[i] == HasCapability;
        next := SendCapability(i);
      }
    } else if |s.list| == n {
      next := Reduce;
    } else if s.errs != [] {
      next := ReceiveErr;
    } else {
      var i :| 0 <= i < |s.workers| && SentErr(s.workers[i]) == 0;
      next := if s.workers[i] == Calling then Return(i) else SendErr(i);
    }
  }

  /** Each nil that was received stands for a capability that was sent or is about to be. */
  lemma NilPromisesCapability(s: State)
    requires Counts(s) && s.main == AwaitCapability && s.caps == []
    ensures exists i :: 0 <= i < |s.workers| && s.workers[i] == HasCapability
  {
    SumBound(s.errs, OfBool);
    if forall i :: 0 <= i < |s.workers| ==> s.workers[i] != HasCapability {
      SameShares(s.workers);
    }
  }

  lemma {:induction false} SameShares(workers: seq<Worker>)
    requires forall i :: 0 <= i < |workers| ==> workers[i] != HasCapability
    ensures Sum(workers, SentNil) == Sum(workers, SentCap)
  {
    if workers != [] {
      SameShares(workers[..|workers| - 1]);
    }
  }

  // ---------- What is handed on ----------

  ghost predicate AllSucceed(results: seq<Option<string>>) {
    forall i :: 0 <= i < |results| ==> results[i].Some?
  }

  ghost function Capabilities(results: seq<Option<string>>): (r: seq<string>)
    requires AllSucceed(results)
    ensures |r| == |results| && forall i :: 0 <= i < |r| ==> results[i] == Some(r[i])
  {
    seq(|results|, i requires 0 <= i < |results| => results[i].value)
  }

  lemma {:induction false} OccursIsMultiplicity(s: seq<string>, v: string)
    ensures multiset(s)[v] == Occurs(s, v)
  {
    if s != [] {
      OccursIsMultiplicity(s[1..], v);
      assert s == [s[0]] + s[1..];
    }
  }

  lemma {:induction false} SentAll(workers: seq<Worker>, results: seq<Option<string>>, k: nat, v: string)
    requires AllSucceed(results) && k <= |workers| && k <= |results|
    requires forall i :: 0 <= i < |workers| ==> workers[i] == DoneOk
    ensures Sent(workers[..k], results, v) == Occurs(Capabilities(results)[..k], v)
  {
    if k > 0 {
      SentAll(workers, results, k - 1, v);
      assert workers[..k][..k - 1] == workers[..k - 1];
      OccursAppend(Capabilities(results)[..k - 1], results[k - 1].value, v);
      assert Capabilities(results)[..k] == Capabilities(results)[..k - 1] + [results[k - 1].value];
    }
  }

  /** When all was gathered, every goroutine has sent its capability and the channel is empty. */
  lemma AllGathered(n: nat, results: seq<Option<string>>, s: State)
    requires Inv(n, results, s) && s.main == Reduced
    ensures AllSucceed(results) && s.caps == [] && forall i :: 0 <= i < |s.workers| ==> s.workers[i] == DoneOk
  {
    hide Sent, Occurs;
    SumBound(s.workers, SentCap);
    forall i | 0 <= i < n ensures s.workers[i] == DoneOk && results[i].Some? {
      assert SentCap(s.workers[i]) != 0;
      assert FitsAnswer(s.workers[i], Answer(results, i));
    }
  }

  /** The reduction is started only if all producers succeeded, on exactly their capabilities in some order. */
  lemma ReducedIsPermutation(n: nat, results: seq<Option<string>>, steps: seq<Step>)
    requires |results| == n && Run(n, results, steps).Some? && Run(n, results, steps).value.main == Reduced
    ensures AllSucceed(results)
    ensures multiset(Run(n, results, steps).value.list) == multiset(Capabilities(results))
  {
    hide Run;
    AlwaysInv(n, results, steps);
    var s := Run(n, results, steps).value;
    AllGathered(n, results, s);
    var all := Capabilities(results);
    forall v ensures multiset(s.list)[v] == multiset(all)[v] {
      SentAll(s.workers, results, n, v);
      assert s.workers[..n] == s.workers && all[..n] == all;
      OccursIsMultiplicity(s.list, v);
      OccursIsMultiplicity(all, v);
    }
  }

  lemma {:induction false} MoreErrsThanNils(workers: seq<Worker>)
    requires Sum(workers, SentErr) > Sum(workers, SentNil)
    ensures exists i :: 0 <= i < |workers| && workers[i] == DoneErr
  {
    var m := |workers| - 1;
    if workers[m] != DoneErr {
      MoreErrsThanNils(workers[..m]);
      var i :| 0 <= i < m && workers[..m][i] == DoneErr;
      assert workers[i] == DoneErr;
    }
  }

  /** The collector gives up only if some producer's call failed. */
  lemma FailedHasFailure(n: nat, results: seq<Option<string>>, steps: seq<Step>)
    requires |results| == n && Run(n, results, steps).Some? && Run(n, results, steps).value.main == Failed
    ensures !AllSucceed(results)
  {
    hide Run, Sent, Occurs;
    AlwaysInv(n, results, steps);
    var s := Run(n, results, steps).value;
    SumBound(s.errs, OfBool);
    MoreErrsThanNils(s.workers);
    var i :| 0 <= i < |s.workers| && s.workers[i] == DoneErr;
    assert FitsAnswer(s.workers[i], Answer(results, i));
  }

  // ---------- Every schedule ends ----------

  function Left(w: Worker): int {
    match w
    case Calling => 3
    case HasNil => 2
    case HasErr => 1
    case HasCapability => 1
    case DoneErr => 0
    case DoneOk => 0
  }

  function MainLeft(n: nat, s: State): int {
    match s.main
    case Starting => 2 * n + 2
    case AwaitErr => 2 * (n - |s.list|) + 1
    case AwaitCapability => 2 * (n - |s.list|)
    case Failed => 0
    case Reduced => 0
  }

  /** More than the number of steps that can still be taken. */
  function Remaining(n: nat, s: State): int {
    4 * (n - |s.workers|) + Sum(s.workers, Left) + MainLeft(n, s)
  }

  lemma StepDecreases(n: nat, results: seq<Option<string>>, s: State, step: Step)
    requires Inv(n, results, s) && Enabled(n, s, step)
    ensures Remaining(n, Apply(n, results, s, step)) < Remaining(n, s)
  {
    hide Sum, Sent, Occurs;
    CountBounds(s);
    match step
    case Start => SumAppend(s.workers, Calling, Left);
    case Return(i) => SumUpdate(s.workers, i, if Answer(results, i).Some? then HasNil else HasErr, Left);
    case SendErr(i) => SumUpdate(s.workers, i, if s.workers[i] == HasNil then HasCapability else DoneErr, Left);
    case SendCapability(i) => SumUpdate(s.workers, i, DoneOk, Left);
    case ReceiveErr =>
    case ReceiveCapability =>
    case Reduce =>
  }

  /**
   No schedule is longer than 6n + 2 steps.  Since the collector is never stuck before it has
   finished, every schedule that cannot go on has let it finish.
   */
  lemma {:induction false} SchedulesAreShort(n: nat, results: seq<Option<string>>, steps: seq<Step>)
    requires |results| == n && Run(n, results, steps).Some?
    ensures |steps| + Remaining(n, Run(n, results, steps).value) <= 6 * n + 2
    ensures |steps| <= 6 * n + 2
  {
    AlwaysInv(n, results, steps);
    if steps != [] {
      var before := steps[..|steps| - 1];
      AlwaysInv(n, results, before);
      SchedulesAreShort(n, results, before);
      StepDecreases(n, results, Run(n, results, before).value, steps[|steps| - 1]);
    }
    RemainingNotNegative(n, results, Run(n, results, steps).value);
  }

  lemma RemainingNotNegative(n: nat, results: seq<Option<string>>, s: State)
    requires Inv(n, results, s)
    ensures Remaining(n, s) >= 0
  {
    SumNonNegative(s.workers, Left);
  }
}
