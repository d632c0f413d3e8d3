/**
 The trace plotter on the heap: trace objects whose `Child` lists are linked in place, the two
 recursive walks over them, and the two parses of one download.
 */
module TraceHeap {
  import opened Options
  import opened Maxima
  import opened TraceForest
  import StableSort

  class Trace {
    const id: string
    const parentId: string
    const duration: int
    const tags: Option<Option<int>>
    var systemDuration: int
    var child: seq<Trace>

    constructor (span: Span)
      ensures AsSpan() == span && child == []
    {
      id, parentId, duration, tags := span.id, span.parentId, span.duration, span.tags;
      systemDuration, child := 0, [];
    }

    function AsSpan(): Span {
      Span(id, parentId, duration, tags)
    }

    /** The end of a longest branch below this trace, and how many traces the branch has. */
    method DeepestLeaf(ghost traces: seq<Trace>, ghost k: nat, ghost path: seq<nat>)
      returns (deepest: Trace, depth: nat)
      requires Linked(traces, k) && k > 0
      requires IsPath(Spans(traces), path) && this == traces[Last(path)]
      ensures deepest == traces[Last(Deepest(Spans(traces), path))]
      ensures depth == |Deepest(Spans(traces), path)| - |path| + 1
      decreases |traces| - |path|
    {
      hide Rep, Kids, KidsUpTo, Repeat, Linked, LinkedAt, Objects, Deepest, ScanOrder, IsDeepest, BestThrough;
      ghost var spans, last := Spans(traces), Last(path);
      ghost var kids := Kids(spans, last);
      ghost var seen := Repeat(kids, k);
      RepeatScanOrder(kids, k);
      ChildrenAre(traces, last, k);
      DeepestEnds(spans, path);
      if |child| == 0 {
        LeafIsDeepest(spans, path);
        DeepestUnique(spans, path, path, Deepest(spans, path));
        return this, 1;
      }
      deepest, depth := this, 0;
      ghost var best: seq<nat> := [];
      var children := child;
      for j := 0 to |children|
        invariant Linked(traces, k)
        invariant depth == 0 <==> j == 0
        invariant j > 0 ==>
            && BestThrough(spans, path, Visited(seen, j), best)
            && |best| == |path| + depth && Last(best) < |traces|
            && deepest == traces[Last(best)]
      {
        ghost var c := seen[j];
        PathExtend(spans, path, c);
        hide IsPath;
        var leaf, d := children[j].DeepestLeaf(traces, k, path + [c]);
        ghost var below := Deepest(spans, path + [c]);
        DeepestEnds(spans, path + [c]);
        ScanChild(spans, path, seen, j, best, below);
        if d > depth {
          depth := d;
          deepest := leaf;
          best := below;
        }
      }
      AllChildren(spans, path, Visited(seen, |seen|), best);
      DeepestUnique(spans, path, best, Deepest(spans, path));
      depth := depth + 1;
    }

    /** The status code of the branch: this trace's own, or the largest of its children's. */
    method GetHTTPStatusCode(ghost traces: seq<Trace>, ghost k: nat, ghost path: seq<nat>)
      returns (code: Option<int>)
      requires Linked(traces, k) && k > 0
      requires IsPath(Spans(traces), path) && this == traces[Last(path)]
      ensures code == Code(Spans(traces), path)
      decreases |traces| - |path|
    {
      hide Rep, Kids, KidsUpTo, Repeat, Linked, LinkedAt, Objects;
      ghost var spans := Spans(traces);
      ghost var kids := Kids(spans, Last(path));
      ghost var seen := Repeat(kids, k);
      ChildrenAre(traces, Last(path), k);
      if tags.Some? {
        return tags.value;
      }
      var children := child;
      var childCodes: seq<int> := [];
      for j := 0 to |children|
        invariant Elements(childCodes) == OwnCodes(spans, seen[..j])
      {
        OwnCodesStep(spans, seen, j);
        if children[j].tags.Some? && children[j].tags.value.Some? {
          childCodes := childCodes + [children[j].tags.value.value];
        }
      }
      assert seen[..|children|] == seen;
      assert OwnCodes(spans, seen) == OwnCodes(spans, kids);
      if |childCodes| == 0 {
        for j := 0 to |children|
          invariant Linked(traces, k)
          invariant Elements(childCodes) == DeepCodes(spans, path, seen[..j])
        {
          ghost var c := seen[j];
          PathExtend(spans, path, c);
          DeepCodesStep(spans, path, seen, j);
          var e := children[j].GetHTTPStatusCode(traces, k, path + [c]);
          if e.Some? {
            childCodes := childCodes + [e.value];
          }
        }
        assert DeepCodes(spans, path, seen) == DeepCodes(spans, path, kids);
      }
      if |childCodes| == 0 {
        return None;
      }
      var top := Largest(childCodes);
      return Some(top);
    }
  }

  /** Sorts the codes and takes the one at the end. */
  method Largest(codes: seq<int>) returns (top: int)
    requires codes != []
    ensures top == MaxOf(Elements(codes))
  {
    var order := StableSort.Order(codes);
    top := codes[order[0]];
    forall i | 0 <= i < |codes| ensures codes[i] <= top {
      StableSort.HeadFirst(codes, order, i);
    }
    assert top in Elements(codes);
  }

  ghost function Spans(traces: seq<Trace>): seq<Span> {
    seq(|traces|, i requires 0 <= i < |traces| => traces[i].AsSpan())
  }

  ghost predicate Distinct(traces: seq<Trace>) {
    forall i, j :: 0 <= i < j < |traces| ==> traces[i] != traces[j]
  }

  /** `k` copies of a list, one after the other. */
  ghost function Repeat(s: seq<nat>, k: nat): (r: seq<nat>)
    ensures forall c :: c in r <==> k > 0 && c in s
    ensures r == [] <==> k == 0 || s == []
  {
    if k == 0 then [] else Repeat(s, k - 1) + s
  }

  lemma ChildrenAre(traces: seq<Trace>, p: nat, k: nat)
    requires p < |traces| && Linked(traces, k) && k > 0
    ensures var kids, child := Kids(Spans(traces), p), traces[p].child;
            && |child| == |Repeat(kids, k)| && (child == [] <==> kids == [])
            && forall j :: 0 <= j < |child| ==> Repeat(kids, k)[j] in kids && child[j] == traces[Repeat(kids, k)[j]]
  {
    hide Kids, Repeat;
    assert LinkedAt(traces, p, k);
    var seen := Repeat(Kids(Spans(traces), p), k);
    assert forall j :: 0 <= j < |seen| ==> seen[j] in seen;
  }

  lemma {:induction false} RepeatScanOrder(s: seq<nat>, k: nat)
    requires forall i, j :: 0 <= i < j < |s| ==> s[i] < s[j]
    ensures ScanOrder(Repeat(s, k))
  {
    if k > 0 {
      RepeatScanOrder(s, k - 1);
      var before, r := Repeat(s, k - 1), Repeat(s, k);
      forall j | 0 <= j < |r|
        ensures r[j] in Visited(r, j) || forall i :: 0 <= i < j ==> r[i] < r[j]
      {
        if j < |before| {
          assert forall i :: 0 <= i < |before| ==> r[i] == before[i];
          assert Visited(r, j) == Visited(before, j);
        } else if k > 1 {
          assert r[j] in s && r[j] in before;
          var i :| 0 <= i < |before| && before[i] == r[j];
          assert r[i] == r[j];
        } else {
          assert r == s;
        }
      }
    }
  }

  /** The objects at the given indices. */
  ghost function Objects(traces: seq<Trace>, at: seq<nat>): seq<Trace>
    requires forall c :: c in at ==> c < |traces|
  {
    seq(|at|, i requires 0 <= i < |at| => assert at[i] in at; traces[at[i]])
  }

  /** The child list of every trace holds exactly its children, the whole list `k` times over. */
  ghost predicate Linked(traces: seq<Trace>, k: nat)
    reads traces`child
  {
    && Distinct(traces)
    && forall p :: 0 <= p < |traces| ==> LinkedAt(traces, p, k)
  }

  ghost predicate LinkedAt(traces: seq<Trace>, p: nat, k: nat)
    requires p < |traces|
    reads {traces[p]}`child
  {
    traces[p].child == Objects(traces, Repeat(Kids(Spans(traces), p), k))
  }

  // ---------- Parsing a download ----------

  /** What the reported list of roots satisfies, whatever order the map was walked in. */
  ghost predicate ReportsRoots(traces: seq<Trace>, parsed: seq<Trace>) {
    && Distinct(parsed)
    && (forall j :: 0 <= j < |parsed| ==> parsed[j] in traces)
    && (forall i :: 0 <= i < |traces| ==> (traces[i] in parsed <==> IsRoot(Spans(traces), i)))
  }

  /** Every root's system duration is set to its own duration less that of its deepest leaf. */
  ghost predicate SystemDurationsSet(traces: seq<Trace>)
    reads traces`systemDuration
  {
    forall i: nat :: IsRoot(Spans(traces), i) ==> DurationSet(traces, i)
  }

  ghost predicate DurationSet(traces: seq<Trace>, root: nat)
    requires IsRoot(Spans(traces), root)
    reads {traces[root]}`systemDuration
  {
    traces[root].systemDuration == SystemDuration(Spans(traces), root)
  }

  /** The quantity that a latency type sorts and plots by; other types leave the list as it is. */
  function LatencyKey(latencyType: string, t: Trace): int
    reads t
  {
    if latencyType == "e2e" then t.duration
    else if latencyType == "system" then t.systemDuration
    else 0
  }

  function PlottedDuration(latencyType: string, t: Trace): real
    reads t
  {
    if latencyType == "e2e" then t.duration as real
    else if latencyType == "system" then
      if t.systemDuration > 0 then t.systemDuration as real else 0.000000000001
    else 0.0
  }

  ghost predicate Ascends(latencyType: string, parsed: seq<Trace>)
    reads parsed
  {
    forall i, j :: 0 <= i < j < |parsed| ==> LatencyKey(latencyType, parsed[i]) <= LatencyKey(latencyType, parsed[j])
  }

  /** The list ascends by latency, with the number to plot for each entry. */
  ghost predicate Plots(latencyType: string, parsed: seq<Trace>, durations: seq<real>)
    reads parsed
  {
    && Ascends(latencyType, parsed)
    && |durations| == |parsed|
    && (forall j :: 0 <= j < |parsed| ==> durations[j] == PlottedDuration(latencyType, parsed[j]))
  }

  /** By system latency: the numbers are the system durations where these are positive, else just above zero. */
  ghost predicate PlotsSystemDurations(parsed: seq<Trace>, durations: seq<real>)
    reads parsed
  {
    && (forall i, j :: 0 <= i < j < |parsed| ==> parsed[i].systemDuration <= parsed[j].systemDuration)
    && |durations| == |parsed|
    && (forall j :: 0 <= j < |parsed| ==>
          && durations[j] > 0.0
          && durations[j] ==
               (if parsed[j].systemDuration > 0 then parsed[j].systemDuration as real else 0.000000000001))
  }

  lemma PlotsBySystemDuration(parsed: seq<Trace>, durations: seq<real>)
    ensures Plots("system", parsed, durations) <==> PlotsSystemDurations(parsed, durations)
  {
    assert "system" != "e2e" by { assert "system"[0] == 's' && "e2e"[0] == 'e'; }
  }

  /** By end-to-end latency, which no pass changes. */
  ghost predicate PlotsDurations(parsed: seq<Trace>, durations: seq<real>) {
    && (forall i, j :: 0 <= i < j < |parsed| ==> parsed[i].duration <= parsed[j].duration)
    && |durations| == |parsed|
    && (forall j :: 0 <= j < |parsed| ==> durations[j] == parsed[j].duration as real)
  }

  lemma PlotsByDuration(parsed: seq<Trace>, durations: seq<real>)
    ensures Plots("e2e", parsed, durations) <==> PlotsDurations(parsed, durations)
  {
  }

  /** Any other latency type leaves the numbers at zero. */
  lemma PlotsNothing(latencyType: string, parsed: seq<Trace>, durations: seq<real>)
    requires latencyType != "e2e" && latencyType != "system"
    ensures Plots(latencyType, parsed, durations) <==>
              |durations| == |parsed| && forall j :: 0 <= j < |parsed| ==> durations[j] == 0.0
  {
  }

  /** A root's system duration is its own duration less that of the end of the deepest path below it. */
  ghost predicate LessDeepest(traces: seq<Trace>, root: nat)
    requires root < |traces|
    reads {traces[root]}`systemDuration
  {
    exists leaf ::
      && IsDeepest(Spans(traces), [root], leaf) && Last(leaf) < |traces|
      && traces[root].systemDuration == traces[root].duration - traces[Last(leaf)].duration
  }

  lemma DurationsAre(traces: seq<Trace>)
    requires SystemDurationsSet(traces)
    ensures forall i: nat :: IsRoot(Spans(traces), i) ==> LessDeepest(traces, i)
  {
    forall i: nat | IsRoot(Spans(traces), i) ensures LessDeepest(traces, i) {
      assert DurationSet(traces, i);
      RootPath(Spans(traces), i);
      assert IsDeepest(Spans(traces), [i], Deepest(Spans(traces), [i]));
    }
  }

  /** The places of the traces whose parent is `p`, in order. */
  ghost predicate ChildPlaces(traces: seq<Trace>, p: nat, at: seq<nat>) {
    && (forall i, j :: 0 <= i < j < |at| ==> at[i] < at[j])
    && (forall c: nat :: c in at <==> c < |traces| && Parent(Spans(traces), c) == p)
  }

  /** The child list of `p` holds its children, each once and in list order, and then all of them again. */
  ghost predicate ChildrenTwiceOver(traces: seq<Trace>, p: nat)
    requires p < |traces|
    reads {traces[p]}`child
  {
    exists at: seq<nat> ::
      && ChildPlaces(traces, p, at) && |traces[p].child| == 2 * |at|
      && forall j :: 0 <= j < |at| ==>
           at[j] < |traces| && traces[p].child[j] == traces[at[j]] && traces[p].child[|at| + j] == traces[at[j]]
  }

  lemma ObjectsTwice(traces: seq<Trace>, at: seq<nat>)
    requires forall c :: c in at ==> c < |traces|
    ensures forall c :: c in Repeat(at, 2) ==> c < |traces|
    ensures Objects(traces, Repeat(at, 2)) == Objects(traces, at) + Objects(traces, at)
  {
    assert Repeat(at, 1) == Repeat(at, 0) + at == at;
    assert Repeat(at, 2) == at + at;
    var twice := at + at;
    assert forall j :: 0 <= j < |at| ==> twice[j] == at[j] && twice[|at| + j] == at[j];
  }

  lemma ChildrenTwice(traces: seq<Trace>, p: nat)
    requires Linked(traces, 2) && p < |traces|
    ensures ChildrenTwiceOver(traces, p)
  {
    hide Kids, Parent, Repeat;
    var kids := Kids(Spans(traces), p);
    assert LinkedAt(traces, p, 2);
    ObjectsTwice(traces, kids);
    assert forall j :: 0 <= j < |kids| ==> kids[j] in kids;
    assert ChildPlaces(traces, p, kids);
  }

  lemma IndexStep(traces: seq<Trace>, i: nat, m: map<string, Trace>)
    requires i < |traces| && IsIndex(traces[..i], m)
    ensures IsIndex(traces[..i + 1], m[traces[i].id := traces[i]])
  {
    var spans := Spans(traces[..i + 1]);
    assert spans[..i] == Spans(traces[..i]);
    forall id ensures Rep(spans, id) == if traces[i].id == id then i else Rep(Spans(traces[..i]), id) {
    }
  }

  /** Points the id map at the last trace of every id. */
  method IndexById(traces: seq<Trace>) returns (m: map<string, Trace>)
    ensures IsIndex(traces, m)
  {
    m := map[];
    assert Spans(traces[..0]) == [];
    for i := 0 to |traces|
      invariant IsIndex(traces[..i], m)
    {
      IndexStep(traces, i, m);
      m := m[traces[i].id := traces[i]];
    }
    assert traces[..|traces|] == traces;
  }

  /** The child list of `p` after `k` whole passes and the part of one more before index `n`. */
  ghost predicate PartlyLinkedAt(traces: seq<Trace>, p: nat, k: nat, n: nat)
    requires p < |traces| && n <= |traces|
    reads {traces[p]}`child
  {
    traces[p].child ==
      Objects(traces, Repeat(Kids(Spans(traces), p), k)) + Objects(traces, KidsUpTo(Spans(traces), p, n))
  }

  lemma WholePass(traces: seq<Trace>, p: nat, k: nat)
    requires p < |traces|
    ensures PartlyLinkedAt(traces, p, k, |traces|) <==> LinkedAt(traces, p, k + 1)
    ensures PartlyLinkedAt(traces, p, k, 0) <==> LinkedAt(traces, p, k)
  {
    var kids := Kids(Spans(traces), p);
    assert Objects(traces, Repeat(kids, k) + kids) == Objects(traces, Repeat(kids, k)) + Objects(traces, kids);
  }

  lemma NextKid(traces: seq<Trace>, p: nat, i: nat)
    requires i < |traces|
    ensures Objects(traces, KidsUpTo(Spans(traces), p, i + 1)) ==
              Objects(traces, KidsUpTo(Spans(traces), p, i)) +
              (if Parent(Spans(traces), i) == p then [traces[i]] else [])
  {
    hide Rep, Parent;
  }

  /** Appends every trace to the child list of the trace that its parent id names. */
  method LinkChildren(traces: seq<Trace>, m: map<string, Trace>, ghost k: nat)
    requires Linked(traces, k)
    requires IsIndex(traces, m)
    modifies traces`child
    ensures Linked(traces, k + 1)
  {
    hide Rep, Kids, KidsUpTo, Repeat, Objects;
    ghost var spans := Spans(traces);
    forall p | 0 <= p < |traces| ensures PartlyLinkedAt(traces, p, k, 0) { WholePass(traces, p, k); }
    for i := 0 to |traces|
      invariant forall p :: 0 <= p < |traces| ==> PartlyLinkedAt(traces, p, k, i)
    {
      assert Parent(spans, i) == Rep(spans, traces[i].parentId);
      label Before:
      if traces[i].parentId in m {
        var parent := m[traces[i].parentId];
        parent.child := parent.child + [traces[i]];
      }
      ghost var next := i + 1;
      forall p | 0 <= p < |traces| ensures PartlyLinkedAt(traces, p, k, next) {
        assert old@Before(PartlyLinkedAt(traces, p, k, i));
        NextKid(traces, p, i);
      }
    }
    ghost var whole := k + 1;
    forall p | 0 <= p < |traces| ensures LinkedAt(traces, p, whole) { WholePass(traces, p, k); }
  }

  /** `parsed` lists the roots whose ids are not among those still to visit. */
  ghost predicate Collected(traces: seq<Trace>, parsed: seq<Trace>, rest: set<string>) {
    && Distinct(parsed)
    && (forall j :: 0 <= j < |parsed| ==> parsed[j] in traces)
    && (forall i :: 0 <= i < |traces| ==>
          (traces[i] in parsed <==> IsRoot(Spans(traces), i) && traces[i].id !in rest))
  }

  lemma CollectNext(traces: seq<Trace>, parsed: seq<Trace>, rest: set<string>, id: string)
    requires Distinct(traces) && Collected(traces, parsed, rest)
    requires id in rest && Rep(Spans(traces), id) >= 0
    ensures var at := Rep(Spans(traces), id);
            && IsRoot(Spans(traces), at) == (Parent(Spans(traces), at) < 0)
            && (forall i: nat :: IsRoot(Spans(traces), i) && traces[i].id == id ==> i == at)
            && Collected(traces, if Parent(Spans(traces), at) < 0 then parsed + [traces[at]] else parsed, rest - {id})
  {
    hide Rep;
    var spans, at := Spans(traces), Rep(Spans(traces), id);
    assert spans[at].id == traces[at].id == id;
    var next := if Parent(spans, at) < 0 then parsed + [traces[at]] else parsed;
    assert traces[at] !in parsed;
    assert forall t :: t in next <==> t in parsed || (Parent(spans, at) < 0 && t == traces[at]);
    forall i | 0 <= i < |traces|
      ensures traces[i] in next <==> IsRoot(spans, i) && traces[i].id !in rest - {id}
    {
      assert spans[i].id == traces[i].id;
      assert i == at || traces[i] != traces[at];
    }
  }

  method SetSystemDuration(traces: seq<Trace>, root: Trace, ghost at: nat, ghost k: nat)
    requires Linked(traces, k) && k > 0
    requires IsRoot(Spans(traces), at) && root == traces[at]
    modifies root`systemDuration
    ensures DurationSet(traces, at)
    ensures forall i: nat :: IsRoot(Spans(traces), i) && old(DurationSet(traces, i)) ==> DurationSet(traces, i)
  {
    hide Rep, Kids, KidsUpTo, Repeat, IsPath, Deepest, SystemDuration;
    RootPath(Spans(traces), at);
    var deepest, _ := root.DeepestLeaf(traces, k, [at]);
    root.systemDuration := root.duration - deepest.duration;
    assert DurationSet(traces, at);
  }

  /** Collects the roots, in whatever order the map is walked, and sets their system durations. */
  method CollectRoots(traces: seq<Trace>, m: map<string, Trace>, ghost k: nat) returns (parsed: seq<Trace>)
    requires Linked(traces, k) && k > 0
    requires IsIndex(traces, m)
    modifies traces`systemDuration
    ensures ReportsRoots(traces, parsed)
    ensures SystemDurationsSet(traces)
    ensures forall t :: t in traces && t !in parsed ==> t.systemDuration == old(t.systemDuration)
  {
    hide Rep, Kids, KidsUpTo, Repeat, IsPath, Deepest, SystemDuration, DurationSet;
    ghost var spans := Spans(traces);
    parsed := [];
    var rest := m.Keys;
    StartCollecting(traces, m);
    while rest != {}
      invariant rest <= m.Keys
      invariant Collected(traces, parsed, rest)
      invariant forall i: nat :: IsRoot(spans, i) && traces[i].id !in rest ==> DurationSet(traces, i)
      invariant forall t :: t in traces && t !in parsed ==> t.systemDuration == old(t.systemDuration)
      decreases rest
    {
      var id :| id in rest;
      var trace := m[id];
      ghost var at := Rep(spans, id);
      CollectNext(traces, parsed, rest, id);
      rest := rest - {id};
      if trace.parentId !in m {
        SetSystemDuration(traces, trace, at, k);
        parsed := parsed + [trace];
      }
    }
  }

  lemma StartCollecting(traces: seq<Trace>, m: map<string, Trace>)
    requires IsIndex(traces, m)
    ensures Collected(traces, [], m.Keys)
    ensures forall i: nat :: IsRoot(Spans(traces), i) ==> traces[i].id in m.Keys
  {
  }

  /** `m` maps every id to the last trace that has it. */
  ghost predicate IsIndex(traces: seq<Trace>, m: map<string, Trace>) {
    && (forall id :: id in m <==> Rep(Spans(traces), id) >= 0)
    && (forall id :: id in m ==> m[id] == traces[Rep(Spans(traces), id)])
  }

  /** The numbers to plot. */
  method PlotNumbers(parsed: seq<Trace>, latencyType: string) returns (durations: seq<real>)
    requires Ascends(latencyType, parsed)
    ensures Plots(latencyType, parsed, durations)
    ensures latencyType == "e2e" ==> PlotsDurations(parsed, durations)
    ensures latencyType == "system" ==> PlotsSystemDurations(parsed, durations)
    ensures latencyType !in {"e2e", "system"} ==> forall j :: 0 <= j < |durations| ==> durations[j] == 0.0
  {
    hide PlotsDurations, PlotsSystemDurations;
    durations := seq(|parsed|, i requires 0 <= i < |parsed| reads parsed => PlottedDuration(latencyType, parsed[i]));
    PlotsByDuration(parsed, durations);
    PlotsBySystemDuration(parsed, durations);
    if latencyType !in {"e2e", "system"} { PlotsNothing(latencyType, parsed, durations); }
  }

  /**
   Links the children once more, collects the roots and sorts them.  `k` is how often the children
   had been linked before.
   */
  method ParseTraces(traces: seq<Trace>, latencyType: string, ghost k: nat)
    returns (parsed: seq<Trace>, durations: seq<real>)
    requires Linked(traces, k)
    modifies traces
    ensures Linked(traces, k + 1)
    ensures ReportsRoots(traces, parsed)
    ensures SystemDurationsSet(traces)
    ensures forall t :: t in traces && t !in parsed ==> t.systemDuration == old(t.systemDuration)
    ensures Plots(latencyType, parsed, durations)
    ensures forall i: nat :: IsRoot(Spans(traces), i) ==> LessDeepest(traces, i)
    ensures latencyType == "e2e" ==> PlotsDurations(parsed, durations)
    ensures latencyType == "system" ==> PlotsSystemDurations(parsed, durations)
    ensures latencyType !in {"e2e", "system"} ==> forall j :: 0 <= j < |durations| ==> durations[j] == 0.0
  {
    hide Linked, IsIndex, ReportsRoots, SystemDurationsSet, Ascends, Distinct;
    var m := IndexById(traces);
    LinkChildren(traces, m, k);
    var found := CollectRoots(traces, m, k + 1);
    parsed := SortByLatency(found, latencyType);
    SortedReports(traces, found, parsed);
    hide Plots, PlotsDurations, PlotsSystemDurations, LessDeepest;
    DurationsAre(traces);
    durations := PlotNumbers(parsed, latencyType);
  }

  lemma SortedReports(traces: seq<Trace>, found: seq<Trace>, parsed: seq<Trace>)
    requires ReportsRoots(traces, found) && forall t :: t in parsed <==> t in found
    requires Distinct(found) ==> Distinct(parsed)
    ensures ReportsRoots(traces, parsed)
    ensures forall t :: t in parsed <==> t in found
  {
    hide IsRoot;
    assert forall t :: t in found ==> exists j :: 0 <= j < |found| && found[j] == t;
    assert forall j :: 0 <= j < |parsed| ==> parsed[j] in parsed;
  }

  method SortByLatency(found: seq<Trace>, latencyType: string) returns (parsed: seq<Trace>)
    ensures |parsed| == |found| && forall t :: t in parsed <==> t in found
    ensures Distinct(found) ==> Distinct(parsed)
    ensures Ascends(latencyType, parsed)
  {
    var keys := seq(|found|, i requires 0 <= i < |found| reads found => -LatencyKey(latencyType, found[i]));
    var order := StableSort.Order(keys);
    parsed := seq(|found|, i requires 0 <= i < |found| => found[order[i]]);
    forall i, j | 0 <= i < j < |parsed|
      ensures order[i] != order[j] && LatencyKey(latencyType, parsed[i]) <= LatencyKey(latencyType, parsed[j])
    {
      assert StableSort.Before(keys, order[i], order[j]);
    }
    forall t | t in found ensures t in parsed {
      var i :| 0 <= i < |found| && found[i] == t;
      assert i in order;
      var j :| 0 <= j < |order| && order[j] == i;
      assert parsed[j] == t;
    }
  }

  /**
   The plotter parses the same objects twice, once for each chart.  The second pass doubles every
   child list and leaves the reported roots and their system durations as the first pass set them.
   */
  method ParseTwice(traces: seq<Trace>)
    returns (e2e: seq<Trace>, e2eDurations: seq<real>, system: seq<Trace>, systemDurations: seq<real>)
    requires Distinct(traces) && forall t :: t in traces ==> t.child == []
    modifies traces
    ensures Linked(traces, 2)
    ensures ReportsRoots(traces, e2e) && ReportsRoots(traces, system)
    ensures forall t :: t in e2e <==> t in system
    ensures SystemDurationsSet(traces)
    ensures forall t :: t in traces && t !in e2e ==> t.systemDuration == old(t.systemDuration)
    ensures forall i: nat :: IsRoot(Spans(traces), i) ==> LessDeepest(traces, i)
    ensures PlotsDurations(e2e, e2eDurations) && PlotsSystemDurations(system, systemDurations)
    ensures forall p: nat :: p < |traces| ==> ChildrenTwiceOver(traces, p)
  {
    hide *;
    NotYetLinked(traces);
    e2e, e2eDurations := ParseTraces(traces, "e2e", 0);
    PlotsByDuration(e2e, e2eDurations);
    system, systemDurations := ParseTraces(traces, "system", 1);
    PlotsBySystemDuration(system, systemDurations);
    DurationsAre(traces);
    forall p: nat | p < |traces| ensures ChildrenTwiceOver(traces, p) { ChildrenTwice(traces, p); }
    SameRoots(traces, e2e, system);
  }

  lemma NotYetLinked(traces: seq<Trace>)
    requires Distinct(traces) && forall t :: t in traces ==> t.child == []
    ensures Linked(traces, 0)
  {
  }

  lemma SameRoots(traces: seq<Trace>, a: seq<Trace>, b: seq<Trace>)
    requires ReportsRoots(traces, a) && ReportsRoots(traces, b)
    ensures forall t :: t in a <==> t in b
  {
    assert forall t :: t in traces ==> exists i :: 0 <= i < |traces| && traces[i] == t;
    assert forall t :: t in a || t in b ==> t in traces;
  }
}
