/**
 Scatter and gather, as the producer's fan-out and broadcast and the consumer's fetch do it: `n`
 goroutines report on one buffered error channel, and the caller takes `n` reports, giving up at the
 first error.  With a transfer type that the code does not know, no goroutine is started.
 */
module Gather {
  import opened Options
  import opened Sums

  datatype Worker = Calling | HasErr | HasNil | DoneErr | DoneOk

  datatype Main = Starting | Collecting | Returned(ok: bool)

  /** `got` counts the reports taken; a report is whether the error is nil. */
  datatype State = State(workers: seq<Worker>, errs: seq<bool>, got: nat, main: Main)

  datatype Step = Start | Return(i: nat) | Send(i: nat) | Receive | Finish

  /** `n` calls, whether goroutines are started for them, and how each call turns out. */
  datatype Setting = Setting(n: nat, starts: bool, results: seq<bool>) {
    predicate Valid() {
      |results| == n
    }

    predicate Succeeds(i: nat) {
      i < |results| && results[i]
    }
  }

  const INIT := State([], [], 0, Starting)

  predicate Enabled(c: Setting, s: State, step: Step) {
    match step
    case Start => s.main == Starting
    case Return(i) => i < |s.workers| && s.workers[i] == Calling
    case Send(i) => i < |s.workers| && s.workers[i] in {HasErr, HasNil} && |s.errs| < c.n
    case Receive => s.main == Collecting && s.got < c.n && s.errs != []
    case Finish => s.main == Collecting && s.got == c.n
  }

  function Apply(c: Setting, s: State, step: Step): State
    requires Enabled(c, s, step)
  {
    match step
    case Start =>
      if c.starts && |s.workers| < c.n then s.(workers := s.workers + [Calling]) else s.(main := Collecting)
    case Return(i) => s.(workers := s.workers[i := if c.Succeeds(i) then HasNil else HasErr])
    case Send(i) =>
      s.(workers := s.workers[i := if s.workers[i] == HasNil then DoneOk else DoneErr],
         errs := s.errs + [s.workers[i] == HasNil])
    case Receive =>
      s.(errs := s.errs[1..], got := s.got + 1, main := if s.errs[0] then Collecting else Returned(false))
    case Finish => s.(main := Returned(true))
  }

  function Run(c: Setting, steps: seq<Step>): Option<State> {
    if steps == [] then Some(INIT)
    else
      match Run(c, steps[..|steps| - 1])
      case None => None
      case Some(s) =>
        var step := steps[|steps| - 1];
        if Enabled(c, s, step) then Some(Apply(c, s, step)) else None
  }

  // ---------- The invariant ----------

  function Sent(w: Worker): int { if w in {DoneErr, DoneOk} then 1 else 0 }
  function SentNil(w: Worker): int { if w == DoneOk then 1 else 0 }
  function OfBool(b: bool): int { if b then 1 else 0 }

  predicate FitsAnswer(w: Worker, ok: bool) {
    w == Calling || (w in {HasNil, DoneOk} <==> ok)
  }

  ghost predicate Inv(c: Setting, s: State) {
    && c.Valid() && |s.workers| <= c.n && s.got <= c.n
    && (s.main == Starting ==> s.got == 0)
    && (!c.starts ==> s.workers == []) && (c.starts && s.main != Starting ==> |s.workers| == c.n)
    && (s.main == Returned(true) ==> s.got == c.n) && (s.main == Returned(false) ==> s.got > 0)
    && (forall i :: 0 <= i < |s.workers| ==> FitsAnswer(s.workers[i], c.Succeeds(i)))
    && Sum(s.workers, Sent) == |s.errs| + s.got
    && Sum(s.workers, SentNil) == Sum(s.errs, OfBool) + s.got - OfBool(s.main == Returned(false))
  }

  lemma StepKeepsInv(c: Setting, s: State, step: Step)
    requires Inv(c, s) && Enabled(c, s, step)
    ensures Inv(c, Apply(c, s, step))
  {
    hide Sum;
    match step
    case Start =>
      SumAppend(s.workers, Calling, Sent);
      SumAppend(s.workers, Calling, SentNil);
    case Return(i) =>
      var w := if c.Succeeds(i) then HasNil else HasErr;
      SumUpdate(s.workers, i, w, Sent);
      SumUpdate(s.workers, i, w, SentNil);
    case Send(i) =>
      var w := if s.workers[i] == HasNil then DoneOk else DoneErr;
      SumUpdate(s.workers, i, w, Sent);
      SumUpdate(s.workers, i, w, SentNil);
      SumAppend(s.errs, s.workers[i] == HasNil, OfBool);
    case Receive => SumHead(s.errs, OfBool);
    case Finish =>
  }

  lemma {:induction false} AlwaysInv(c: Setting, steps: seq<Step>)
    requires c.Valid() && Run(c, steps).Some?
    ensures Inv(c, Run(c, steps).value)
  {
    if steps != [] {
      var before := steps[..|steps| - 1];
      AlwaysInv(c, before);
      StepKeepsInv(c, Run(c, before).value, steps[|steps| - 1]);
    }
  }

  // ---------- What it means ----------

  lemma SendsNeverBlock(c: Setting, steps: seq<Step>, i: nat)
    requires c.Valid() && Run(c, steps).Some? && i < |Run(c, steps).value.workers|
    requires Run(c, steps).value.workers[i] in {HasErr, HasNil}
    ensures Enabled(c, Run(c, steps).value, Send(i))
  {
    hide Run;
    AlwaysInv(c, steps);
    SumBound(Run(c, steps).value.workers, Sent);
  }

  /** The caller answers yes exactly if every call succeeded. */
  lemma AnswerIsRight(c: Setting, steps: seq<Step>)
    requires c.Valid() && Run(c, steps).Some? && Run(c, steps).value.main.Returned?
    requires c.starts || c.n == 0
    ensures Run(c, steps).value.main.ok <==> forall i :: 0 <= i < c.n ==> c.results[i]
  {
    hide Run;
    AlwaysInv(c, steps);
    var s := Run(c, steps).value;
    SumBound(s.errs, OfBool);
    if s.main.ok {
      SumBound(s.workers, Sent);
      SumBound(s.workers, SentNil);
      ErrsAndNils(s.workers);
      forall i | 0 <= i < c.n ensures c.results[i] {
        assert SentNil(s.workers[i]) != 0;
        assert FitsAnswer(s.workers[i], c.Succeeds(i));
      }
    } else {
      MoreSentThanNils(s.workers);
      var i :| 0 <= i < |s.workers| && s.workers[i] == DoneErr;
      assert FitsAnswer(s.workers[i], c.Succeeds(i));
    }
  }

  lemma {:induction false} ErrsAndNils(workers: seq<Worker>)
    ensures Sum(workers, SentNil) <= Sum(workers, Sent)
  {
    if workers != [] {
      ErrsAndNils(workers[..|workers| - 1]);
    }
  }

  lemma {:induction false} MoreSentThanNils(workers: seq<Worker>)
    requires Sum(workers, Sent) > Sum(workers, SentNil)
    ensures exists i :: 0 <= i < |workers| && workers[i] == DoneErr
  {
    var m := |workers| - 1;
    if workers[m] != DoneErr {
      MoreSentThanNils(workers[..m]);
      var i :| 0 <= i < m && workers[..m][i] == DoneErr;
      assert workers[i] == DoneErr;
    }
  }

  /** The caller waits for reports that can never come. */
  ghost predicate Stuck(c: Setting, steps: seq<Step>) {
    Run(c, steps).Some? && !Run(c, steps).value.main.Returned? && forall step :: !Enabled(c, Run(c, steps).value, step)
  }

  lemma NextStep(c: Setting, steps: seq<Step>) returns (next: Step)
    requires c.Valid() && Run(c, steps).Some? && !Run(c, steps).value.main.Returned?
    requires c.starts || c.n == 0
    ensures Enabled(c, Run(c, steps).value, next)
  {
    hide Run;
    AlwaysInv(c, steps);
    var s := Run(c, steps).value;
    SumBound(s.workers, Sent);
    if s.main == Starting {
      next := Start;
    } else if s.got == c.n {
      next := Finish;
    } else if s.errs != [] {
      next := Receive;
    } else {
      var i :| 0 <= i < |s.workers| && Sent(s.workers[i]) == 0;
      next := if s.workers[i] == Calling then Return(i) else Send(i);
    }
  }

  /** The caller can get stuck exactly if goroutines are wanted but the transfer type starts none. */
  lemma StuckIffNothingStarts(c: Setting)
    requires c.Valid()
    ensures (exists steps :: Stuck(c, steps)) <==> !c.starts && c.n > 0
  {
    if c.starts || c.n == 0 {
      forall steps ensures !Stuck(c, steps) {
        if Run(c, steps).Some? && !Run(c, steps).value.main.Returned? {
          var next := NextStep(c, steps);
        }
      }
    } else {
      assert [Start][..0] == [];
      assert Run(c, []) == Some(INIT);
      assert Run(c, [Start]) == Some(INIT.(main := Collecting));
      assert Stuck(c, [Start]);
    }
  }

  // ---------- Every schedule ends ----------

  function Left(w: Worker): int {
    if w == Calling then 2 else if w in {HasErr, HasNil} then 1 else 0
  }

  function Remaining(c: Setting, s: State): int {
    3 * (c.n - |s.workers|) + Sum(s.workers, Left) +
    (match s.main
     case Starting => c.n + 2
     case Collecting => c.n - s.got + 1
     case Returned(_) => 0)
  }

  lemma StepDecreases(c: Setting, s: State, step: Step)
    requires Inv(c, s) && Enabled(c, s, step)
    ensures Remaining(c, Apply(c, s, step)) < Remaining(c, s)
  {
    hide Sum;
    match step
    case Start => SumAppend(s.workers, Calling, Left);
    case Return(i) => SumUpdate(s.workers, i, if c.Succeeds(i) then HasNil else HasErr, Left);
    case Send(i) => SumUpdate(s.workers, i, if s.workers[i] == HasNil then DoneOk else DoneErr, Left);
    case Receive =>
    case Finish =>
  }

  /** No schedule is longer than 4n + 2 steps. */
  lemma {:induction false} SchedulesAreShort(c: Setting, steps: seq<Step>)
    requires c.Valid() && Run(c, steps).Some?
    ensures |steps| + Remaining(c, Run(c, steps).value) <= 4 * c.n + 2
    ensures |steps| <= 4 * c.n + 2
  {
    AlwaysInv(c, steps);
    SumNonNegative(Run(c, steps).value.workers, Left);
    if steps != [] {
      var before := steps[..|steps| - 1];
      AlwaysInv(c, before);
      SchedulesAreShort(c, before);
      StepDecreases(c, Run(c, before).value, steps[|steps| - 1]);
    }
  }
}
