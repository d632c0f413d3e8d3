/**
 The link structure that the trace plotter reads out of a flat list of spans, as values.

 A span hangs under the last span whose id is its parent id.  Ids may repeat and parents may form
 cycles; what hangs below a span without a parent is still a tree, because every span has at most
 one parent.
 */
module TraceForest {
  import opened Options
  import opened Maxima

  /** The tags of a span: none at all, or a status code that may not parse as a number. */
  datatype Span = Span(id: string, parentId: string, duration: int, tags: Option<Option<int>>)

  /** The index of the last span with the given id, or -1. */
  function Rep(spans: seq<Span>, id: string): (r: int)
    ensures -1 <= r < |spans|
    ensures r >= 0 ==> spans[r].id == id && forall j :: r < j < |spans| ==> spans[j].id != id
    ensures r < 0 ==> forall j :: 0 <= j < |spans| ==> spans[j].id != id
  {
    if spans == [] then -1
    else if spans[|spans| - 1].id == id then |spans| - 1
    else Rep(spans[..|spans| - 1], id)
  }

  /** The last span whose id is the parent id of span `i`, or -1. */
  function Parent(spans: seq<Span>, i: nat): (r: int)
    requires i < |spans|
    ensures -1 <= r < |spans|
  {
    Rep(spans, spans[i].parentId)
  }

  /** The last span whose id is the parent id is the parent; if there is none, there is no parent. */
  lemma ParentIff(spans: seq<Span>, i: nat, p: nat)
    requires i < |spans|
    ensures Parent(spans, i) == p <==>
              && p < |spans| && spans[p].id == spans[i].parentId
              && forall j :: p < j < |spans| ==> spans[j].id != spans[i].parentId
    ensures Parent(spans, i) < 0 <==> forall j :: 0 <= j < |spans| ==> spans[j].id != spans[i].parentId
  {
  }

  /** The spans before index `n` that hang under `p`, in list order. */
  function KidsUpTo(spans: seq<Span>, p: nat, n: nat): (r: seq<nat>)
    requires n <= |spans|
    ensures forall c: nat :: c in r <==> c < n && Parent(spans, c) == p
    ensures forall i, j :: 0 <= i < j < |r| ==> r[i] < r[j]
  {
    if n == 0 then []
    else if Parent(spans, n - 1) == p then
      var before := KidsUpTo(spans, p, n - 1);
      assert forall i :: 0 <= i < |before| ==> before[i] in before;
      before + [n - 1]
    else KidsUpTo(spans, p, n - 1)
  }

  function Kids(spans: seq<Span>, p: nat): (r: seq<nat>)
    ensures forall c: nat :: c in r <==> c < |spans| && Parent(spans, c) == p
    ensures forall i, j :: 0 <= i < j < |r| ==> r[i] < r[j]
  {
    KidsUpTo(spans, p, |spans|)
  }

  /** The spans that the plotter reports: known by their own id, and without a parent in the list. */
  predicate IsRoot(spans: seq<Span>, i: nat) {
    i < |spans| && Rep(spans, spans[i].id) == i && Parent(spans, i) < 0
  }

  /** A span is reported exactly if it is the last with its id and its parent id is nobody's. */
  lemma RootIff(spans: seq<Span>, i: nat)
    requires i < |spans|
    ensures IsRoot(spans, i) <==>
              && (forall j :: i < j < |spans| ==> spans[j].id != spans[i].id)
              && (forall j :: 0 <= j < |spans| ==> spans[j].id != spans[i].parentId)
  {
  }

  // ---------- Paths from a parentless span downwards ----------

  ghost predicate IsPath(spans: seq<Span>, path: seq<nat>) {
    && path != []
    && (forall k :: 0 <= k < |path| ==> path[k] < |spans|)
    && Parent(spans, path[0]) < 0
    && (forall k :: 0 < k < |path| ==> Parent(spans, path[k]) == path[k - 1])
  }

  function Last(path: seq<nat>): nat
    requires path != []
  {
    path[|path| - 1]
  }

  lemma {:induction false} PathNoRepeat(spans: seq<Span>, path: seq<nat>, i: nat, j: nat)
    requires IsPath(spans, path) && i < j < |path|
    ensures path[i] != path[j]
    decreases i
  {
    assert Parent(spans, path[j]) == path[j - 1];
    if i > 0 {
      PathNoRepeat(spans, path, i - 1, j - 1);
    }
  }

  lemma {:induction false} BoundedCount(path: seq<nat>, n: nat)
    requires forall k :: 0 <= k < |path| ==> path[k] < n
    requires forall i, j :: 0 <= i < j < |path| ==> path[i] != path[j]
    ensures |path| <= n
    decreases n
  {
    if i :| 0 <= i < |path| && path[i] == n - 1 {
      BoundedCount(path[..i] + path[i + 1..], n - 1);
    } else if path != [] {
      assert path[0] < n;
      BoundedCount(path, n - 1);
    }
  }

  /** No path is longer than the list: this is why the recursion over children ends. */
  lemma PathBounded(spans: seq<Span>, path: seq<nat>)
    requires IsPath(spans, path)
    ensures |path| <= |spans|
  {
    forall i, j | 0 <= i < j < |path| ensures path[i] != path[j] { PathNoRepeat(spans, path, i, j); }
    BoundedCount(path, |spans|);
  }

  lemma PathStart(spans: seq<Span>, p: seq<nat>)
    requires IsPath(spans, p)
    ensures |p| == 1 <==> Parent(spans, Last(p)) < 0
  {
    assert |p| > 1 ==> Parent(spans, p[|p| - 1]) == p[|p| - 2];
  }

  /** Whatever is reachable is reachable in one way only, from one parentless span: a forest. */
  lemma {:induction false} PathUnique(spans: seq<Span>, p: seq<nat>, q: seq<nat>)
    requires IsPath(spans, p) && IsPath(spans, q) && Last(p) == Last(q)
    ensures p == q
    decreases |p|
  {
    PathStart(spans, p);
    PathStart(spans, q);
    if |p| > 1 {
      var p0, q0 := p[..|p| - 1], q[..|q| - 1];
      assert Parent(spans, Last(p)) == Last(p0) && Parent(spans, Last(q)) == Last(q0);
      PathUnique(spans, p0, q0);
      assert p == p0 + [Last(p)] && q == q0 + [Last(q)];
    }
  }

  lemma PathExtend(spans: seq<Span>, path: seq<nat>, c: nat)
    requires IsPath(spans, path) && c in Kids(spans, Last(path))
    ensures IsPath(spans, path + [c]) && Last(path + [c]) == c
    ensures |path| < |spans|
  {
    PathBounded(spans, path + [c]);
  }

  /** A path that goes on below `path` goes on through one of its children. */
  lemma PathThrough(spans: seq<Span>, path: seq<nat>, q: seq<nat>)
    requires IsPath(spans, path) && IsPath(spans, q) && path <= q && |path| < |q|
    ensures q[|path|] in Kids(spans, Last(path)) && path + [q[|path|]] <= q
  {
    assert Parent(spans, q[|path|]) == q[|path| - 1] == Last(path);
  }

  // ---------- The deepest leaf ----------

  ghost predicate LexBefore(p: seq<nat>, q: seq<nat>) {
    exists c :: 0 <= c < |p| && DiffersAt(p, q, c) && p[c] < q[c]
  }

  ghost predicate DiffersAt(p: seq<nat>, q: seq<nat>, c: nat) {
    c < |p| && c < |q| && p[c] != q[c] && (forall k :: 0 <= k < c ==> p[k] == q[k])
  }

  lemma LexAsymmetric(p: seq<nat>, q: seq<nat>)
    requires LexBefore(p, q)
    ensures p != q && !LexBefore(q, p)
  {
    var c :| 0 <= c < |p| && DiffersAt(p, q, c) && p[c] < q[c];
    assert forall d: nat :: DiffersAt(q, p, d) ==> d == c;
  }

  ghost predicate Beats(best: seq<nat>, q: seq<nat>) {
    |q| < |best| || (|q| == |best| && (q == best || LexBefore(best, q)))
  }

  /** `leaf` is the longest path that continues `path`, and the first of these in child order. */
  ghost predicate IsDeepest(spans: seq<Span>, path: seq<nat>, leaf: seq<nat>) {
    && IsPath(spans, leaf)
    && path <= leaf
    && (forall q :: IsPath(spans, q) && path <= q ==> Beats(leaf, q))
  }

  /** No path that continues `path` is longer; one as long turns to a later child where they part. */
  lemma DeepestMeans(spans: seq<Span>, path: seq<nat>, leaf: seq<nat>, q: seq<nat>)
    requires IsDeepest(spans, path, leaf) && IsPath(spans, q) && path <= q
    ensures |q| <= |leaf|
    ensures forall c :: |q| == |leaf| && 0 <= c < |q| && q[c] != leaf[c] && q[..c] == leaf[..c] ==> leaf[c] < q[c]
  {
    assert Beats(leaf, q);
    forall c | |q| == |leaf| && 0 <= c < |q| && q[c] != leaf[c] && q[..c] == leaf[..c] ensures leaf[c] < q[c] {
      assert forall k :: 0 <= k < c ==> q[k] == q[..c][k] && leaf[k] == leaf[..c][k];
      var d :| 0 <= d < |leaf| && DiffersAt(leaf, q, d) && leaf[d] < q[d];
    }
  }

  lemma DeepestUnique(spans: seq<Span>, path: seq<nat>, a: seq<nat>, b: seq<nat>)
    requires IsDeepest(spans, path, a) && IsDeepest(spans, path, b)
    ensures a == b
  {
    assert Beats(a, b) && Beats(b, a);
    if a != b { LexAsymmetric(a, b); }
  }

  lemma ChildIsDeeper(spans: seq<Span>, path: seq<nat>, p: seq<nat>, c: nat)
    requires IsPath(spans, p) && path <= p && c in Kids(spans, Last(p))
    ensures !IsDeepest(spans, path, p)
  {
    PathExtend(spans, p, c);
    assert path <= p + [c];
    assert !Beats(p, p + [c]);
  }

  /** The deepest leaf has no children. */
  lemma DeepestIsLeaf(spans: seq<Span>, path: seq<nat>, leaf: seq<nat>)
    requires IsDeepest(spans, path, leaf)
    ensures Kids(spans, Last(leaf)) == []
  {
    var kids := Kids(spans, Last(leaf));
    if kids != [] {
      assert kids[0] in kids;
      ChildIsDeeper(spans, path, leaf, kids[0]);
    }
  }

  lemma LeafIsDeepest(spans: seq<Span>, path: seq<nat>)
    requires IsPath(spans, path) && Kids(spans, Last(path)) == []
    ensures IsDeepest(spans, path, path)
  {
    forall q | IsPath(spans, q) && path <= q
      ensures Beats(path, q)
    {
      if |path| < |q| { PathThrough(spans, path, q); }
      else { assert q == path; }
    }
  }

  /** `best` beats every path that continues `path` through one of the children in `seen`. */
  ghost predicate BestThrough(spans: seq<Span>, path: seq<nat>, seen: set<nat>, best: seq<nat>) {
    && IsPath(spans, best)
    && path <= best && |path| < |best| && best[|path|] in seen
    && (forall q :: IsPath(spans, q) && path <= q && |path| < |q| && q[|path|] in seen ==> Beats(best, q))
  }

  lemma FirstChild(spans: seq<Span>, path: seq<nat>, c: nat, leaf: seq<nat>)
    requires IsPath(spans, path) && IsDeepest(spans, path + [c], leaf)
    ensures BestThrough(spans, path, {c}, leaf)
  {
    assert leaf[..|path| + 1] == path + [c];
    forall q | IsPath(spans, q) && path <= q && |path| < |q| && q[|path|] in {c}
      ensures Beats(leaf, q)
    {
      assert q[..|path| + 1] == path + [c];
      assert path + [c] <= q;
    }
  }

  /** Scanning one more child, a new one to the right or one seen before, keeps the best so far. */
  lemma NextChild(spans: seq<Span>, path: seq<nat>, seen: set<nat>, best: seq<nat>, c: nat, leaf: seq<nat>)
    requires IsPath(spans, path) && BestThrough(spans, path, seen, best)
    requires IsDeepest(spans, path + [c], leaf)
    requires c in seen || forall e :: e in seen ==> e < c
    ensures BestThrough(spans, path, seen + {c}, if |leaf| > |best| then leaf else best)
  {
    FirstChild(spans, path, c, leaf);
    var next := if |leaf| > |best| then leaf else best;
    forall q | IsPath(spans, q) && path <= q && |path| < |q| && q[|path|] in seen + {c}
      ensures Beats(next, q)
    {
      if q[|path|] in seen {
        assert Beats(best, q);
      } else {
        assert q[|path|] in {c};
        assert Beats(leaf, q);
        if |q| == |best| == |leaf| {
          assert best[..|path|] == path == q[..|path|] && best[|path|] < q[|path|];
          assert DiffersAt(best, q, |path|);
        }
      }
    }
  }

  /** The first `j` entries. */
  ghost function Visited(seen: seq<nat>, j: nat): set<nat> {
    set i | 0 <= i < j && i < |seen| :: seen[i]
  }

  lemma VisitedNext(seen: seq<nat>, j: nat)
    requires j < |seen|
    ensures Visited(seen, j + 1) == Visited(seen, j) + {seen[j]}
  {
  }

  /** Every entry new at the right end or seen before: what a scan over repeated children meets. */
  ghost predicate ScanOrder(seen: seq<nat>) {
    forall j :: 0 <= j < |seen| ==> seen[j] in Visited(seen, j) || (forall i :: 0 <= i < j ==> seen[i] < seen[j])
  }

  lemma ScanChild(spans: seq<Span>, path: seq<nat>, seen: seq<nat>, j: nat, best: seq<nat>, leaf: seq<nat>)
    requires IsPath(spans, path) && ScanOrder(seen) && j < |seen|
    requires j > 0 ==> BestThrough(spans, path, Visited(seen, j), best)
    requires IsDeepest(spans, path + [seen[j]], leaf)
    ensures BestThrough(spans, path, Visited(seen, j + 1), if j == 0 || |leaf| > |best| then leaf else best)
  {
    hide BestThrough, IsDeepest, IsPath;
    VisitedNext(seen, j);
    if j == 0 {
      FirstChild(spans, path, seen[j], leaf);
      assert Visited(seen, j) + {seen[j]} == {seen[j]};
    } else {
      NextChild(spans, path, Visited(seen, j), best, seen[j], leaf);
    }
  }

  lemma AllChildren(spans: seq<Span>, path: seq<nat>, seen: set<nat>, best: seq<nat>)
    requires IsPath(spans, path) && BestThrough(spans, path, seen, best)
    requires forall c :: c in Kids(spans, Last(path)) ==> c in seen
    ensures IsDeepest(spans, path, best)
  {
    forall q | IsPath(spans, q) && path <= q
      ensures Beats(best, q)
    {
      if |path| < |q| { PathThrough(spans, path, q); }
    }
  }

  lemma DeepestExists(spans: seq<Span>, path: seq<nat>)
    requires IsPath(spans, path)
    ensures exists leaf :: IsDeepest(spans, path, leaf)
  {
    var leaf := FindDeepest(spans, path);
  }

  lemma FindDeepest(spans: seq<Span>, path: seq<nat>) returns (leaf: seq<nat>)
    requires IsPath(spans, path)
    ensures IsDeepest(spans, path, leaf)
    decreases |spans| - |path|
  {
    hide BestThrough, IsDeepest;
    var kids := Kids(spans, Last(path));
    leaf := path;
    for j := 0 to |kids|
      invariant j > 0 ==> BestThrough(spans, path, Visited(kids, j), leaf)
    {
      assert kids[j] in kids;
      PathExtend(spans, path, kids[j]);
      var below := FindDeepest(spans, path + [kids[j]]);
      ScanChild(spans, path, kids, j, leaf, below);
      leaf := if j == 0 || |below| > |leaf| then below else leaf;
    }
    if kids == [] {
      leaf := path;
      LeafIsDeepest(spans, path);
    } else {
      AllChildren(spans, path, Visited(kids, |kids|), leaf);
    }
  }

  /** The path to the deepest leaf below the end of `path`. */
  ghost function Deepest(spans: seq<Span>, path: seq<nat>): (leaf: seq<nat>)
    requires IsPath(spans, path)
    ensures IsDeepest(spans, path, leaf)
  {
    DeepestExists(spans, path);
    var leaf :| IsDeepest(spans, path, leaf);
    leaf
  }

  lemma DeepestEnds(spans: seq<Span>, path: seq<nat>)
    requires IsPath(spans, path)
    ensures |Deepest(spans, path)| >= |path| && Last(Deepest(spans, path)) < |spans|
  {
  }

  /** What is left of a root's duration without that of its deepest leaf. */
  ghost function SystemDuration(spans: seq<Span>, root: nat): int
    requires IsRoot(spans, root)
  {
    spans[root].duration - spans[Last(Deepest(spans, [root]))].duration
  }

  lemma RootPath(spans: seq<Span>, root: nat)
    requires IsRoot(spans, root)
    ensures IsPath(spans, [root])
    ensures Last(Deepest(spans, [root])) < |spans|
    ensures SystemDuration(spans, root) == spans[root].duration - spans[Last(Deepest(spans, [root]))].duration
  {
  }

  // ---------- The status code ----------

  /** The codes that the children in `kids` carry in their own tags. */
  ghost function OwnCodes(spans: seq<Span>, kids: seq<nat>): set<int> {
    set c | c in kids && c < |spans| && spans[c].tags.Some? && spans[c].tags.value.Some? :: spans[c].tags.value.value
  }

  /** The status code of the span at the end of `path`: its own, else the largest among its children. */
  ghost function Code(spans: seq<Span>, path: seq<nat>): Option<int>
    requires IsPath(spans, path)
    decreases |spans| - |path|, 2
  {
    var kids := Kids(spans, Last(path));
    var own := spans[Last(path)].tags;
    if own.Some? then own.value
    else if OwnCodes(spans, kids) != {} then Some(MaxOf(OwnCodes(spans, kids)))
    else
      PathBounded(spans, path);
      var deep := DeepCodes(spans, path, kids);
      if deep == {} then None else Some(MaxOf(deep))
  }

  /** The codes found below the children in `kids`. */
  ghost function DeepCodes(spans: seq<Span>, path: seq<nat>, kids: seq<nat>): set<int>
    requires IsPath(spans, path)
    decreases |spans| - |path|, 1
  {
    set c | c in kids && c in Kids(spans, Last(path)) && KidCode(spans, path, c).Some? :: KidCode(spans, path, c).value
  }

  ghost function KidCode(spans: seq<Span>, path: seq<nat>, c: nat): Option<int>
    requires IsPath(spans, path) && c in Kids(spans, Last(path))
    decreases |spans| - |path|, 0
  {
    PathExtend(spans, path, c);
    Code(spans, path + [c])
  }

  lemma OwnCodesStep(spans: seq<Span>, kids: seq<nat>, j: nat)
    requires j < |kids| && kids[j] < |spans|
    ensures OwnCodes(spans, kids[..j + 1]) ==
              OwnCodes(spans, kids[..j]) +
              (if spans[kids[j]].tags.Some? && spans[kids[j]].tags.value.Some?
               then {spans[kids[j]].tags.value.value} else {})
  {
    assert kids[..j + 1] == kids[..j] + [kids[j]];
  }

  lemma DeepCodesStep(spans: seq<Span>, path: seq<nat>, kids: seq<nat>, j: nat)
    requires IsPath(spans, path) && j < |kids| && kids[j] in Kids(spans, Last(path))
    ensures DeepCodes(spans, path, kids[..j + 1]) ==
              DeepCodes(spans, path, kids[..j]) +
              (if KidCode(spans, path, kids[j]).Some? then {KidCode(spans, path, kids[j]).value} else {})
  {
    assert kids[..j + 1] == kids[..j] + [kids[j]];
  }

  /** A descendant with a readable code, all of whose ancestors down from `path` carry no tags. */
  ghost predicate Exposed(spans: seq<Span>, path: seq<nat>, q: seq<nat>) {
    && IsPath(spans, q) && path <= q
    && (forall k :: |path| <= k + 1 && 0 <= k < |q| - 1 ==> spans[q[k]].tags.None?)
    && spans[Last(q)].tags.Some? && spans[Last(q)].tags.value.Some?
  }

  /**
   A code is found exactly when some exposed descendant carries one, and it is the code of such a
   descendant.
   */
  lemma {:induction false} CodeIsExposed(spans: seq<Span>, path: seq<nat>)
    requires IsPath(spans, path)
    ensures Code(spans, path).None? ==> forall q :: !Exposed(spans, path, q)
    ensures Code(spans, path).Some? ==>
              exists q :: Exposed(spans, path, q) && spans[Last(q)].tags.value == Code(spans, path)
    decreases |spans| - |path|
  {
    hide Rep, Kids, KidsUpTo;
    var kids := Kids(spans, Last(path));
    if spans[Last(path)].tags.Some? {
      forall q | Exposed(spans, path, q) ensures q == path {
        assert q[|path| - 1] == Last(path);
      }
      assert Code(spans, path).Some? ==> Exposed(spans, path, path);
    } else {
      forall c | c in kids
        ensures IsPath(spans, path + [c]) && Last(path + [c]) == c
        ensures KidCode(spans, path, c).None? ==> forall q :: !Exposed(spans, path + [c], q)
        ensures KidCode(spans, path, c).Some? ==>
                  exists q :: Exposed(spans, path, q) && spans[Last(q)].tags.value == KidCode(spans, path, c)
      {
        PathExtend(spans, path, c);
        CodeIsExposed(spans, path + [c]);
        ExposedBelow(spans, path, c);
      }
      forall q | Exposed(spans, path, q) ensures Code(spans, path).Some? {
        PathThrough(spans, path, q);
        var c := q[|path|];
        assert Exposed(spans, path + [c], q);
        assert KidCode(spans, path, c).value in DeepCodes(spans, path, kids);
      }
      if Code(spans, path).None? {
      } else if OwnCodes(spans, kids) != {} {
        var m := MaxOf(OwnCodes(spans, kids));
        var c :| c in kids && spans[c].tags == Some(Some(m));
        assert Exposed(spans, path, path + [c]);
      } else {
        var m := MaxOf(DeepCodes(spans, path, kids));
        var c :| c in kids && KidCode(spans, path, c) == Some(m);
      }
    }
  }

  lemma ExposedBelow(spans: seq<Span>, path: seq<nat>, c: nat)
    requires IsPath(spans, path) && c in Kids(spans, Last(path)) && spans[Last(path)].tags.None?
    ensures forall q :: Exposed(spans, path + [c], q) ==> Exposed(spans, path, q)
  {
    forall q | Exposed(spans, path + [c], q) ensures Exposed(spans, path, q) {
      assert path <= q by { assert q[..|path| + 1] == path + [c]; }
      forall k | |path| <= k + 1 && 0 <= k < |q| - 1 ensures spans[q[k]].tags.None? {
        if k == |path| - 1 { assert q[k] == (path + [c])[k]; }
      }
    }
  }

  /** Such a descendant that no closer code hides: above its parent, no trace has a child with a readable code. */
  ghost predicate Counted(spans: seq<Span>, path: seq<nat>, q: seq<nat>) {
    && Exposed(spans, path, q)
    && forall k :: |path| <= k + 1 && 0 <= k < |q| - 2 ==> OwnCodes(spans, Kids(spans, q[k])) == {}
  }

  ghost function CodeAt(spans: seq<Span>, q: seq<nat>): int {
    if q != [] && Last(q) < |spans| && spans[Last(q)].tags.Some? && spans[Last(q)].tags.value.Some? then
      spans[Last(q)].tags.value.value
    else 0
  }

  /** `m` is the largest code of the counted descendants. */
  ghost predicate IsLargest(spans: seq<Span>, path: seq<nat>, m: int) {
    && (exists q :: Counted(spans, path, q) && CodeAt(spans, q) == m)
    && (forall q :: Counted(spans, path, q) ==> CodeAt(spans, q) <= m)
  }

  /** This is what is found below `path`: the largest code that counts, or none if there is none. */
  ghost predicate IsFound(spans: seq<Span>, path: seq<nat>, code: Option<int>) {
    match code
    case None => forall q :: !Counted(spans, path, q)
    case Some(m) => IsLargest(spans, path, m)
  }

  lemma FoundBounds(spans: seq<Span>, path: seq<nat>, code: Option<int>, q: seq<nat>)
    requires IsFound(spans, path, code) && Counted(spans, path, q)
    ensures code.Some? && CodeAt(spans, q) <= code.value
  {
  }

  lemma FoundSomewhere(spans: seq<Span>, path: seq<nat>, m: int) returns (q: seq<nat>)
    requires IsFound(spans, path, Some(m))
    ensures Counted(spans, path, q) && CodeAt(spans, q) == m
  {
    q :| Counted(spans, path, q) && CodeAt(spans, q) == m;
  }

  /** Exactly which code is found: the largest of the counted descendants, and none if there are none. */
  lemma {:induction false} CodeIsLargest(spans: seq<Span>, path: seq<nat>)
    requires IsPath(spans, path)
    ensures IsFound(spans, path, Code(spans, path))
    decreases |spans| - |path|
  {
    hide IsFound, DeepCodes, OwnCodes, Rep, Kids, KidsUpTo;
    var kids := Kids(spans, Last(path));
    if spans[Last(path)].tags.Some? {
      LargestIsOwn(spans, path);
    } else if OwnCodes(spans, kids) != {} {
      LargestOfChildren(spans, path);
    } else {
      forall c | c in kids
        ensures IsPath(spans, path + [c])
        ensures IsFound(spans, path + [c], KidCode(spans, path, c))
      {
        PathExtend(spans, path, c);
        CodeIsLargest(spans, path + [c]);
      }
      LargestBelow(spans, path);
    }
  }

  lemma LargestIsOwn(spans: seq<Span>, path: seq<nat>)
    requires IsPath(spans, path) && spans[Last(path)].tags.Some?
    ensures IsFound(spans, path, Code(spans, path))
  {
    hide Rep, Kids, KidsUpTo;
    forall q | Exposed(spans, path, q) ensures q == path {
      assert q[|path| - 1] == Last(path);
    }
    if Code(spans, path).Some? {
      assert Counted(spans, path, path) && CodeAt(spans, path) == Code(spans, path).value;
    }
  }

  lemma LargestOfChildren(spans: seq<Span>, path: seq<nat>)
    requires IsPath(spans, path) && spans[Last(path)].tags.None?
    requires OwnCodes(spans, Kids(spans, Last(path))) != {}
    ensures IsFound(spans, path, Some(MaxOf(OwnCodes(spans, Kids(spans, Last(path))))))
  {
    hide Rep, Kids, KidsUpTo;
    var kids := Kids(spans, Last(path));
    var m := MaxOf(OwnCodes(spans, kids));
    var c :| c in kids && c < |spans| && spans[c].tags == Some(Some(m));
    PathExtend(spans, path, c);
    assert (path + [c])[|path| - 1] == Last(path);
    assert Counted(spans, path, path + [c]) && CodeAt(spans, path + [c]) == m;
    forall q | Counted(spans, path, q) ensures CodeAt(spans, q) <= m {
      CountedChild(spans, path, q);
    }
  }

  lemma CountedChild(spans: seq<Span>, path: seq<nat>, q: seq<nat>)
    requires IsPath(spans, path) && spans[Last(path)].tags.None? && Counted(spans, path, q)
    requires OwnCodes(spans, Kids(spans, Last(path))) != {}
    ensures CodeAt(spans, q) in OwnCodes(spans, Kids(spans, Last(path)))
  {
    hide Rep, Kids, KidsUpTo;
    assert q != path;
    assert q[|path| - 1] == Last(path);
    PathThrough(spans, path, q);
    assert Last(q) == q[|path|];
  }

  /** With no code at the children, what counts is what counts below one of them. */
  lemma CountedThrough(spans: seq<Span>, path: seq<nat>, q: seq<nat>)
    requires IsPath(spans, path) && spans[Last(path)].tags.None? && Counted(spans, path, q)
    ensures |path| < |q| && q[|path|] in Kids(spans, Last(path)) && Counted(spans, path + [q[|path|]], q)
  {
    hide Rep, Kids, KidsUpTo, OwnCodes;
    assert q != path;
    PathThrough(spans, path, q);
  }

  lemma CountedBelow(spans: seq<Span>, path: seq<nat>, c: nat, q: seq<nat>)
    requires IsPath(spans, path) && c in Kids(spans, Last(path)) && spans[Last(path)].tags.None?
    requires OwnCodes(spans, Kids(spans, Last(path))) == {} && Counted(spans, path + [c], q)
    ensures Counted(spans, path, q)
  {
    hide Rep, Kids, KidsUpTo, OwnCodes;
    ExposedBelow(spans, path, c);
    assert q[..|path| + 1] == path + [c];
    assert q[|path| - 1] == Last(path);
  }

  lemma LargestBelow(spans: seq<Span>, path: seq<nat>)
    requires IsPath(spans, path) && spans[Last(path)].tags.None?
    requires OwnCodes(spans, Kids(spans, Last(path))) == {}
    requires forall c :: c in Kids(spans, Last(path)) ==> IsFound(spans, path + [c], KidCode(spans, path, c))
    ensures IsFound(spans, path, Code(spans, path))
  {
    hide Rep, Kids, KidsUpTo, Counted, KidCode, OwnCodes, IsFound;
    var kids := Kids(spans, Last(path));
    var deep := DeepCodes(spans, path, kids);
    forall q | Counted(spans, path, q) ensures deep != {} && CodeAt(spans, q) <= MaxOf(deep) {
      CountedThrough(spans, path, q);
      var c := q[|path|];
      FoundBounds(spans, path + [c], KidCode(spans, path, c), q);
      assert KidCode(spans, path, c).value in deep;
    }
    if deep != {} {
      var m := MaxOf(deep);
      var c :| c in kids && KidCode(spans, path, c) == Some(m);
      var q := FoundSomewhere(spans, path + [c], m);
      CountedBelow(spans, path, c, q);
      LargestAt(spans, path, m, q);
    } else {
      NothingFound(spans, path);
    }
  }

  lemma LargestAt(spans: seq<Span>, path: seq<nat>, m: int, q: seq<nat>)
    requires Counted(spans, path, q) && CodeAt(spans, q) == m
    requires forall p :: Counted(spans, path, p) ==> CodeAt(spans, p) <= m
    ensures IsFound(spans, path, Some(m))
  {
  }

  lemma NothingFound(spans: seq<Span>, path: seq<nat>)
    requires forall q :: !Counted(spans, path, q)
    ensures IsFound(spans, path, None)
  {
  }
}
