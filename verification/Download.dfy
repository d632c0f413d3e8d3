/**
 The trace downloader: a fixed number of goroutines take trace indices from a shared counter under a
 mutex; each stops when its index is past the end.
 */
module Download {
  import opened Options
  import opened Sums

  /** Where a goroutine is, with the index it has read once it has one. */
  datatype Worker =
    | Idle | Inside | HasRead(index: int) | HasBumped(index: int) | Claimed(index: int) | Loading(index: int) | Exited

  /** The shared counter, the goroutines, whether the main goroutine is back, and the finished indices. */
  datatype State = State(counter: int, locked: bool, workers: seq<Worker>, waiting: nat, back: bool, finished: seq<int>)

  datatype Step = Lock(i: nat) | Read(i: nat) | Bump(i: nat) | Unlock(i: nat) | Test(i: nat) | Load(i: nat) | Back

  datatype Setting = Setting(threads: nat, traces: nat)

  function Init(c: Setting): State {
    State(0, false, seq(c.threads, _ => Idle), c.threads, false, [])
  }

  predicate Enabled(s: State, step: Step) {
    match step
    case Lock(i) => i < |s.workers| && s.workers[i] == Idle && !s.locked
    case Read(i) => i < |s.workers| && s.workers[i] == Inside
    case Bump(i) => i < |s.workers| && s.workers[i].HasRead?
    case Unlock(i) => i < |s.workers| && s.workers[i].HasBumped?
    case Test(i) => i < |s.workers| && s.workers[i].Claimed? && s.waiting > 0
    case Load(i) => i < |s.workers| && s.workers[i].Loading?
    case Back => s.waiting == 0 && !s.back
  }

  function Apply(c: Setting, s: State, step: Step): State
    requires Enabled(s, step)
  {
    match step
    case Lock(i) => s.(locked := true, workers := s.workers[i := Inside])
    case Read(i) => s.(workers := s.workers[i := HasRead(s.counter)])
    case Bump(i) => s.(counter := s.counter + 1, workers := s.workers[i := HasBumped(s.workers[i].index)])
    case Unlock(i) => s.(locked := false, workers := s.workers[i := Claimed(s.workers[i].index)])
    case Test(i) =>
      if s.workers[i].index >= c.traces then s.(waiting := s.waiting - 1, workers := s.workers[i := Exited])
      else s.(workers := s.workers[i := Loading(s.workers[i].index)])
    case Load(i) => s.(finished := s.finished + [s.workers[i].index], workers := s.workers[i := Idle])
    case Back => s.(back := true)
  }

  function Run(c: Setting, steps: seq<Step>): Option<State> {
    if steps == [] then Some(Init(c))
    else
      match Run(c, steps[..|steps| - 1])
      case None => None
      case Some(s) =>
        var step := steps[|steps| - 1];
        if Enabled(s, step) then Some(Apply(c, s, step)) else None
  }

  // ---------- The invariant ----------

  function Holds(w: Worker): int { if w.Inside? || w.HasRead? || w.HasBumped? then 1 else 0 }
  function Active(w: Worker): int { if w.Exited? then 0 else 1 }

  /** The goroutine has claimed index `k` and not finished with it. */
  function Owns(k: int): Worker -> int {
    (w: Worker) => if (w.HasBumped? || w.Claimed? || w.Loading?) && w.index == k then 1 else 0
  }

  /** The goroutine has claimed an index past the end. */
  function Past(c: Setting): Worker -> int {
    (w: Worker) => if w.Exited? || ((w.HasBumped? || w.Claimed? || w.Loading?) && w.index >= c.traces) then 1 else 0
  }

  function Times(finished: seq<int>, k: int): int {
    if finished == [] then 0
    else Times(finished[..|finished| - 1], k) + (if finished[|finished| - 1] == k then 1 else 0)
  }

  lemma TimesAppend(finished: seq<int>, x: int, k: int)
    ensures Times(finished + [x], k) == Times(finished, k) + (if x == k then 1 else 0)
  {
    assert (finished + [x])[..|finished|] == finished;
  }

  ghost predicate Shape(c: Setting, s: State) {
    && |s.workers| == c.threads && s.counter >= 0
    && (forall i :: 0 <= i < |s.workers| && s.workers[i].HasRead? ==> s.workers[i].index == s.counter)
    && (forall i :: 0 <= i < |s.workers| && s.workers[i].Loading? ==> s.workers[i].index < c.traces)
    && (s.back ==> s.waiting == 0)
  }

  /** One goroutine holds the mutex, or none; the counter of waiting counts those not gone. */
  ghost predicate Guarded(s: State) {
    && Sum(s.workers, Holds) == (if s.locked then 1 else 0)
    && Sum(s.workers, Active) == s.waiting
  }

  /** Every index below the counter was claimed once; each index past the end sends one goroutine home. */
  ghost predicate Accounted(c: Setting, s: State) {
    && (forall k :: 0 <= k < c.traces ==>
          Times(s.finished, k) + Sum(s.workers, Owns(k)) == if k < s.counter then 1 else 0)
    && Sum(s.workers, Past(c)) == if s.counter > c.traces then s.counter - c.traces else 0
  }

  ghost predicate Inv(c: Setting, s: State) {
    Shape(c, s) && Guarded(s) && Accounted(c, s)
  }

  lemma {:induction false} SumSame(n: nat, w: Worker, f: Worker -> int)
    ensures Sum(seq(n, _ => w), f) == n * f(w)
  {
    if n > 0 {
      SumSame(n - 1, w, f);
      assert seq(n, _ => w)[..n - 1] == seq(n - 1, _ => w);
    }
  }

  lemma InitInv(c: Setting)
    ensures Inv(c, Init(c))
  {
    SumSame(c.threads, Idle, Holds);
    SumSame(c.threads, Idle, Active);
    SumSame(c.threads, Idle, Past(c));
    forall k ensures Sum(Init(c).workers, Owns(k)) == 0 { SumSame(c.threads, Idle, Owns(k)); }
  }

  /** Two shares make a sum of at least two. */
  lemma {:induction false} TwoShares(workers: seq<Worker>, f: Worker -> int, i: nat, j: nat)
    requires forall w :: 0 <= f(w) <= 1
    requires i < j < |workers| && f(workers[i]) == 1 && f(workers[j]) == 1
    ensures Sum(workers, f) >= 2
  {
    var m := |workers| - 1;
    if j == m {
      SumBound(workers[..m], f);
      assert workers[..m][i] == workers[i];
    } else {
      TwoShares(workers[..m], f, i, j);
    }
  }

  lemma StepKeepsShape(c: Setting, s: State, step: Step)
    requires Inv(c, s) && Enabled(s, step)
    ensures Shape(c, Apply(c, s, step))
  {
    hide Sum, Accounted;
    if step.Bump? {
      forall j | 0 <= j < |s.workers| && j != step.i ensures !s.workers[j].HasRead? {
        if s.workers[j].HasRead? {
          if j < step.i { TwoShares(s.workers, Holds, j, step.i); } else { TwoShares(s.workers, Holds, step.i, j); }
        }
      }
    }
  }

  /** The state of the goroutine that a step moves. */
  function Moved(c: Setting, s: State, step: Step): Worker
    requires Enabled(s, step) && !step.Back?
  {
    Apply(c, s, step).workers[step.i]
  }

  lemma StepKeepsGuarded(c: Setting, s: State, step: Step)
    requires Inv(c, s) && Enabled(s, step)
    ensures Guarded(Apply(c, s, step))
  {
    hide Sum, Accounted;
    SumBound(s.workers, Holds);
    if !step.Back? {
      SumUpdate(s.workers, step.i, Moved(c, s, step), Holds);
      SumUpdate(s.workers, step.i, Moved(c, s, step), Active);
    }
  }

  lemma StepKeepsAccounted(c: Setting, s: State, step: Step)
    requires Inv(c, s) && Enabled(s, step)
    ensures Accounted(c, Apply(c, s, step))
  {
    hide Sum, Guarded, Times;
    var t := Apply(c, s, step);
    if !step.Back? {
      SumUpdate(s.workers, step.i, Moved(c, s, step), Past(c));
      forall k | 0 <= k < c.traces
        ensures Times(t.finished, k) + Sum(t.workers, Owns(k)) == if k < t.counter then 1 else 0
      {
        SumUpdate(s.workers, step.i, Moved(c, s, step), Owns(k));
        if step.Load? { TimesAppend(s.finished, s.workers[step.i].index, k); }
      }
    }
  }

  lemma {:induction false} AlwaysInv(c: Setting, steps: seq<Step>)
    requires Run(c, steps).Some?
    ensures Inv(c, Run(c, steps).value)
  {
    if steps == [] {
      InitInv(c);
    } else {
      var before := steps[..|steps| - 1];
      AlwaysInv(c, before);
      var s := Run(c, before).value;
      StepKeepsShape(c, s, steps[|steps| - 1]);
      StepKeepsGuarded(c, s, steps[|steps| - 1]);
      StepKeepsAccounted(c, s, steps[|steps| - 1]);
    }
  }

  // ---------- What it means ----------

  /** The goroutine is between Lock and Unlock. */
  predicate InsideMutex(w: Worker) {
    w.Inside? || w.HasRead? || w.HasBumped?
  }

  /** In no schedule are two goroutines inside the mutex together. */
  lemma MutualExclusion(c: Setting, steps: seq<Step>, i: nat, j: nat)
    requires Run(c, steps).Some? && i < j < |Run(c, steps).value.workers|
    ensures var workers := Run(c, steps).value.workers; !(InsideMutex(workers[i]) && InsideMutex(workers[j]))
  {
    hide Run;
    AlwaysInv(c, steps);
    var workers := Run(c, steps).value.workers;
    if InsideMutex(workers[i]) && InsideMutex(workers[j]) {
      TwoShares(workers, Holds, i, j);
    }
  }

  /** The goroutine has claimed trace `k` and has not attempted it yet. */
  predicate HasClaimed(w: Worker, k: int) {
    (w.HasBumped? || w.Claimed? || w.Loading?) && w.index == k
  }

  lemma {:induction false} TimesIsMultiplicity(finished: seq<int>, k: int)
    ensures multiset(finished)[k] == Times(finished, k)
  {
    if finished != [] {
      TimesIsMultiplicity(finished[..|finished| - 1], k);
      assert finished == finished[..|finished| - 1] + [finished[|finished| - 1]];
    }
  }

  /** No trace is claimed by two goroutines, or claimed once it has been attempted, or attempted twice. */
  lemma NeverTwice(c: Setting, steps: seq<Step>, k: nat, i: nat, j: nat)
    requires Run(c, steps).Some? && k < c.traces && i < |Run(c, steps).value.workers|
    ensures var s := Run(c, steps).value;
            && multiset(s.finished)[k] <= 1
            && (HasClaimed(s.workers[i], k) ==> k !in s.finished)
            && (i < j < |s.workers| ==> !(HasClaimed(s.workers[i], k) && HasClaimed(s.workers[j], k)))
  {
    AlwaysInv(c, steps);
    hide Run;
    var s := Run(c, steps).value;
    TimesIsMultiplicity(s.finished, k);
    SumBound(s.workers, Owns(k));
    if HasClaimed(s.workers[i], k) {
      assert Owns(k)(s.workers[i]) == 1;
      if i < j < |s.workers| && HasClaimed(s.workers[j], k) {
        assert Owns(k)(s.workers[j]) == 1;
        TwoShares(s.workers, Owns(k), i, j);
      }
    }
  }

  /** At any moment each trace is claimed by one goroutine, finished, or not yet claimed: never twice. */
  lemma ClaimedOnce(c: Setting, steps: seq<Step>, k: nat)
    requires Run(c, steps).Some? && k < c.traces
    ensures var s := Run(c, steps).value;
            Times(s.finished, k) + Sum(s.workers, Owns(k)) == if k < s.counter then 1 else 0
  {
    AlwaysInv(c, steps);
  }

  lemma {:induction false} AllExited(workers: seq<Worker>, f: Worker -> int)
    requires forall i :: 0 <= i < |workers| ==> workers[i] == Exited
    ensures Sum(workers, f) == |workers| * f(Exited)
  {
    if workers != [] {
      AllExited(workers[..|workers| - 1], f);
    }
  }

  /**
   The main goroutine comes back only after every goroutine has stopped; then every trace was
   attempted exactly once and the counter stands at the number of traces and goroutines together.
   */
  lemma BackWhenAllAttempted(c: Setting, steps: seq<Step>)
    requires c.threads > 0 && Run(c, steps).Some? && Run(c, steps).value.back
    ensures var s := Run(c, steps).value;
            && (forall i :: 0 <= i < |s.workers| ==> s.workers[i] == Exited)
            && (forall k :: 0 <= k < c.traces ==> Times(s.finished, k) == 1)
            && (forall k :: 0 <= k < c.traces ==> multiset(s.finished)[k] == 1)
            && s.counter == c.traces + c.threads
  {
    hide Run;
    AlwaysInv(c, steps);
    var s := Run(c, steps).value;
    SumBound(s.workers, Active);
    forall i | 0 <= i < |s.workers| ensures s.workers[i] == Exited {
      assert Active(s.workers[i]) != 1;
    }
    AllExited(s.workers, Past(c));
    forall k | 0 <= k < c.traces ensures Times(s.finished, k) == 1 == multiset(s.finished)[k] {
      AllExited(s.workers, Owns(k));
      TimesIsMultiplicity(s.finished, k);
    }
  }

  /** Until the main goroutine is back, some step is enabled. */
  lemma NeverStuck(c: Setting, steps: seq<Step>) returns (next: Step)
    requires Run(c, steps).Some? && !Run(c, steps).value.back
    ensures Enabled(Run(c, steps).value, next)
  {
    hide Run;
    AlwaysInv(c, steps);
    var s := Run(c, steps).value;
    SumBound(s.workers, Active);
    SumBound(s.workers, Holds);
    if s.waiting == 0 {
      next := Back;
    } else if s.locked {
      var i :| 0 <= i < |s.workers| && Holds(s.workers[i]) == 1;
      next := if s.workers[i].Inside? then Read(i) else if s.workers[i].HasRead? then Bump(i) else Unlock(i);
    } else {
      var i :| 0 <= i < |s.workers| && Active(s.workers[i]) == 1;
      assert Holds(s.workers[i]) != 1;
      next := if s.workers[i].Idle? then Lock(i) else if s.workers[i].Claimed? then Test(i) else Load(i);
    }
  }

  // ---------- Every schedule ends ----------

  function Left(w: Worker): int {
    match w
    case HasBumped(_) => 6
    case Claimed(_) => 5
    case Loading(_) => 4
    case Idle => 3
    case Inside => 2
    case HasRead(_) => 1
    case Exited => 0
  }

  function Remaining(c: Setting, s: State): int {
    6 * (c.traces + c.threads - s.counter) + Sum(s.workers, Left) + (if s.back then 0 else 1)
  }

  lemma StepDecreases(c: Setting, s: State, step: Step)
    requires Inv(c, s) && Enabled(s, step)
    ensures Remaining(c, Apply(c, s, step)) < Remaining(c, s)
  {
    hide Sum;
    if !step.Back? {
      SumUpdate(s.workers, step.i, Moved(c, s, step), Left);
    }
  }

  lemma CounterBounded(c: Setting, s: State)
    requires Inv(c, s)
    ensures s.counter <= c.traces + c.threads
  {
    SumBound(s.workers, Past(c));
  }

  /** No schedule is longer than six steps for each trace and nine for each goroutine, plus one. */
  lemma {:induction false} SchedulesAreShort(c: Setting, steps: seq<Step>)
    requires Run(c, steps).Some?
    ensures |steps| + Remaining(c, Run(c, steps).value) <= 6 * c.traces + 9 * c.threads + 1
    ensures |steps| <= 6 * c.traces + 9 * c.threads + 1
  {
    AlwaysInv(c, steps);
    SumNonNegative(Run(c, steps).value.workers, Left);
    CounterBounded(c, Run(c, steps).value);
    if steps == [] {
      SumSame(c.threads, Idle, Left);
    } else {
      var before := steps[..|steps| - 1];
      AlwaysInv(c, before);
      SchedulesAreShort(c, before);
      StepDecreases(c, Run(c, before).value, steps[|steps| - 1]);
    }
  }
}
