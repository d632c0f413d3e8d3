/**
 The deployer: one token of a buffered channel for each deployment in flight.  The caller takes a
 token before it starts a deployment, the deployment gives one back when it ends, and at last the
 caller fills the channel itself.
 */
module Deploy {
  import opened Options
  import opened Sums
  import opened Text

  // ---------- What is deployed ----------

  datatype Function = Function(name: string, count: int)

  /** Copies `0` to `count - 1` of one function. */
  function Copies(f: Function, count: int): seq<string> {
    if count <= 0 then [] else Copies(f, count - 1) + [f.name + "-" + Decimal(count - 1)]
  }

  /** Every copy of every function, in order. */
  function Jobs(functions: seq<Function>): seq<string> {
    if functions == [] then []
    else Jobs(functions[..|functions| - 1]) + Copies(functions[|functions| - 1], functions[|functions| - 1].count)
  }

  /** Copy `i` of a function is named after it and numbered `i`; a count below one has no copies. */
  lemma {:induction false} CopiesAre(f: Function, count: int)
    ensures |Copies(f, count)| == if count > 0 then count else 0
    ensures forall i :: 0 <= i < |Copies(f, count)| ==> Copies(f, count)[i] == f.name + "-" + Decimal(i)
  {
    hide Decimal;
    if count > 0 {
      CopiesAre(f, count - 1);
      var front, last := Copies(f, count - 1), f.name + "-" + Decimal(count - 1);
      assert Copies(f, count) == front + [last];
      hide Copies;
      AppendedAt(front, last);
    }
  }

  lemma AppendedAt(front: seq<string>, last: string)
    ensures |front + [last]| == |front| + 1 && (front + [last])[|front|] == last
    ensures forall i :: 0 <= i < |front| ==> (front + [last])[i] == front[i]
  {
  }

  /** How many copies the functions before number `k` have. */
  function CopiesBefore(functions: seq<Function>, k: nat): nat
    requires k <= |functions|
  {
    if k == 0 then 0
    else CopiesBefore(functions, k - 1) + (if functions[k - 1].count > 0 then functions[k - 1].count else 0)
  }

  /** There is one job for each copy, and copy `i` of function `k` comes after all copies of earlier functions. */
  lemma {:induction false} JobsAre(functions: seq<Function>, k: nat, i: nat)
    ensures |Jobs(functions)| == CopiesBefore(functions, |functions|)
    ensures k < |functions| && i < functions[k].count ==>
        && CopiesBefore(functions, k) + i < |Jobs(functions)|
        && Jobs(functions)[CopiesBefore(functions, k) + i] == functions[k].name + "-" + Decimal(i)
  {
    hide Decimal;
    if functions != [] {
      var m := |functions| - 1;
      var before, copies := Jobs(functions[..m]), Copies(functions[m], functions[m].count);
      JobsAre(functions[..m], k, i);
      CopiesAre(functions[m], functions[m].count);
      SameBefore(functions, m, m);
      if k < m { SameBefore(functions, m, k); }
      assert Jobs(functions) == before + copies;
      hide Jobs, Copies;
      assert k == m && i < functions[m].count ==> (before + copies)[|before| + i] == copies[i];
    }
  }

  lemma {:induction false} SameBefore(functions: seq<Function>, m: nat, k: nat)
    requires k <= m <= |functions|
    ensures CopiesBefore(functions[..m], k) == CopiesBefore(functions, k)
  {
    if k > 0 {
      SameBefore(functions, m, k - 1);
    }
  }

  // ---------- The protocol ----------

  datatype Worker = Deploying | Deployed | Gone

  /** The caller: about to take a token, holding one, filling up the channel, or back. */
  datatype Main = NeedToken | HaveToken | Filling(tokens: nat) | Returned

  datatype State = State(sem: nat, workers: seq<Worker>, urls: seq<string>, main: Main)

  datatype Step = TakeToken | Launch | FillToken | Finish | EndDeployment(i: nat) | GiveBack(i: nat)

  /** The number of tokens that the channel holds at most, and the functions to deploy. */
  datatype Setting = Setting(concurrency: nat, functions: seq<Function>) {
    const jobs: seq<string> := Jobs(functions)
  }

  const INIT := State(0, [], [], NeedToken)

  predicate Enabled(c: Setting, s: State, step: Step) {
    match step
    case TakeToken => s.main == NeedToken && |s.workers| < |c.jobs| && s.sem < c.concurrency
    case Launch => s.main == HaveToken
    case FillToken =>
      || (s.main == NeedToken && |s.workers| >= |c.jobs|)
      || (s.main.Filling? && s.main.tokens < c.concurrency && s.sem < c.concurrency)
    case Finish => s.main == Filling(c.concurrency)
    case EndDeployment(i) => i < |s.workers| && s.workers[i] == Deploying
    case GiveBack(i) => i < |s.workers| && s.workers[i] == Deployed && s.sem > 0
  }

  /** `FillToken` first leaves the loop over the jobs and then puts in one token at a time. */
  function Apply(c: Setting, s: State, step: Step): State
    requires Enabled(c, s, step)
  {
    match step
    case TakeToken => s.(sem := s.sem + 1, main := HaveToken)
    case Launch =>
      s.(urls := s.urls + (if |s.workers| < |c.jobs| then [c.jobs[|s.workers|]] else []),
         workers := s.workers + [Deploying], main := NeedToken)
    case FillToken =>
      if s.main == NeedToken then s.(main := Filling(0)) else s.(sem := s.sem + 1, main := Filling(s.main.tokens + 1))
    case Finish => s.(main := Returned)
    case EndDeployment(i) => s.(workers := s.workers[i := Deployed])
    case GiveBack(i) => s.(workers := s.workers[i := Gone], sem := s.sem - 1)
  }

  function Run(c: Setting, steps: seq<Step>): Option<State> {
    if steps == [] then Some(INIT)
    else
      match Run(c, steps[..|steps| - 1])
      case None => None
      case Some(s) =>
        var step := steps[|steps| - 1];
        if Enabled(c, s, step) then Some(Apply(c, s, step)) else None
  }

  // ---------- The invariant ----------

  function InFlight(w: Worker): int { if w == Gone then 0 else 1 }

  function MainTokens(c: Setting, main: Main): int {
    match main
    case NeedToken => 0
    case HaveToken => 1
    case Filling(tokens) => tokens
    case Returned => c.concurrency
  }

  /** Every token in the channel belongs to a deployment in flight or to the caller. */
  ghost predicate Inv(c: Setting, s: State) {
    && |s.workers| <= |c.jobs| && s.sem <= c.concurrency
    && (s.main == HaveToken ==> |s.workers| < |c.jobs|)
    && (s.main.Filling? || s.main.Returned? ==> |s.workers| == |c.jobs|)
    && (s.main.Filling? ==> s.main.tokens <= c.concurrency)
    && s.sem == Sum(s.workers, InFlight) + MainTokens(c, s.main)
    && s.urls == c.jobs[..|s.workers|]
  }

  lemma StepKeepsInv(c: Setting, s: State, step: Step)
    requires Inv(c, s) && Enabled(c, s, step)
    ensures Inv(c, Apply(c, s, step))
  {
    hide Sum;
    match step
    case TakeToken =>
    case Launch => SumAppend(s.workers, Deploying, InFlight);
    case FillToken =>
    case Finish =>
    case EndDeployment(i) => SumUpdate(s.workers, i, Deployed, InFlight);
    case GiveBack(i) => SumUpdate(s.workers, i, Gone, InFlight);
  }

  lemma {:induction false} AlwaysInv(c: Setting, steps: seq<Step>)
    requires Run(c, steps).Some?
    ensures Inv(c, Run(c, steps).value)
  {
    if steps != [] {
      var before := steps[..|steps| - 1];
      AlwaysInv(c, before);
      StepKeepsInv(c, Run(c, before).value, steps[|steps| - 1]);
    }
  }

  // ---------- What it means ----------

  /** Never more deployments in flight than allowed. */
  lemma ConcurrencyBounded(c: Setting, steps: seq<Step>)
    requires Run(c, steps).Some?
    ensures 0 <= Sum(Run(c, steps).value.workers, InFlight) <= c.concurrency
  {
    hide Run;
    AlwaysInv(c, steps);
    SumBound(Run(c, steps).value.workers, InFlight);
  }

  /** The caller returns only when every deployment has ended, with one url for each, in order. */
  lemma ReturnsWhenAllDone(c: Setting, steps: seq<Step>)
    requires Run(c, steps).Some? && Run(c, steps).value.main == Returned
    ensures var s := Run(c, steps).value;
            s.urls == c.jobs && |s.workers| == |c.jobs| && forall i :: 0 <= i < |s.workers| ==> s.workers[i] == Gone
  {
    hide Run;
    AlwaysInv(c, steps);
    var s := Run(c, steps).value;
    SumBound(s.workers, InFlight);
    forall i | 0 <= i < |s.workers| ensures s.workers[i] == Gone {
      assert InFlight(s.workers[i]) != 1;
    }
  }

  /** A deployment that has ended can always give its token back. */
  lemma GiveBackNeverBlocks(c: Setting, steps: seq<Step>, i: nat)
    requires Run(c, steps).Some? && i < |Run(c, steps).value.workers| && Run(c, steps).value.workers[i] == Deployed
    ensures Enabled(c, Run(c, steps).value, GiveBack(i))
  {
    hide Run;
    AlwaysInv(c, steps);
    SumBound(Run(c, steps).value.workers, InFlight);
    assert InFlight(Run(c, steps).value.workers[i]) == 1;
  }

  ghost predicate Stuck(c: Setting, steps: seq<Step>) {
    Run(c, steps).Some? && Run(c, steps).value.main != Returned && forall step :: !Enabled(c, Run(c, steps).value, step)
  }

  lemma NextStep(c: Setting, steps: seq<Step>) returns (next: Step)
    requires Run(c, steps).Some? && Run(c, steps).value.main != Returned
    requires c.concurrency >= 1 || c.jobs == []
    ensures Enabled(c, Run(c, steps).value, next)
  {
    hide Run;
    AlwaysInv(c, steps);
    var s := Run(c, steps).value;
    SumBound(s.workers, InFlight);
    if s.main == HaveToken {
      next := Launch;
    } else if s.main == NeedToken && |s.workers| >= |c.jobs| {
      next := FillToken;
    } else if s.main.Filling? && s.main.tokens == c.concurrency {
      next := Finish;
    } else if s.sem < c.concurrency {
      next := if s.main == NeedToken then TakeToken else FillToken;
    } else {
      var i :| 0 <= i < |s.workers| && InFlight(s.workers[i]) == 1;
      next := if s.workers[i] == Deploying then EndDeployment(i) else GiveBack(i);
    }
  }

  /** The caller can get stuck exactly if it may have no deployment in flight but has some to start. */
  lemma StuckIffNoConcurrency(c: Setting)
    ensures (exists steps :: Stuck(c, steps)) <==> c.concurrency == 0 && c.jobs != []
  {
    if c.concurrency >= 1 || c.jobs == [] {
      forall steps ensures !Stuck(c, steps) {
        if Run(c, steps).Some? && Run(c, steps).value.main != Returned {
          var next := NextStep(c, steps);
        }
      }
    } else {
      assert Run(c, []) == Some(INIT);
      assert Stuck(c, []);
    }
  }

  // ---------- Every schedule ends ----------

  function Left(w: Worker): int {
    match w case Deploying => 2 case Deployed => 1 case Gone => 0
  }

  function Remaining(c: Setting, s: State): int {
    4 * (|c.jobs| - |s.workers|) + Sum(s.workers, Left) +
    (match s.main
     case NeedToken => c.concurrency + 2
     case HaveToken => c.concurrency + 1
     case Filling(tokens) => c.concurrency - tokens + 1
     case Returned => 0)
  }

  lemma StepDecreases(c: Setting, s: State, step: Step)
    requires Inv(c, s) && Enabled(c, s, step)
    ensures Remaining(c, Apply(c, s, step)) < Remaining(c, s)
  {
    hide Sum;
    match step
    case TakeToken =>
    case Launch => SumAppend(s.workers, Deploying, Left);
    case FillToken =>
    case Finish =>
    case EndDeployment(i) => SumUpdate(s.workers, i, Deployed, Left);
    case GiveBack(i) => SumUpdate(s.workers, i, Gone, Left);
  }

  /** No schedule is longer than four steps for each deployment and one for each token, plus two. */
  lemma {:induction false} SchedulesAreShort(c: Setting, steps: seq<Step>)
    requires Run(c, steps).Some?
    ensures |steps| + Remaining(c, Run(c, steps).value) <= 4 * |c.jobs| + c.concurrency + 2
    ensures |steps| <= 4 * |c.jobs| + c.concurrency + 2
  {
    AlwaysInv(c, steps);
    SumNonNegative(Run(c, steps).value.workers, Left);
    if steps != [] {
      var before := steps[..|steps| - 1];
      AlwaysInv(c, before);
      SchedulesAreShort(c, before);
      StepDecreases(c, Run(c, before).value, steps[|steps| - 1]);
    }
  }
}
