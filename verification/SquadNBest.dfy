/** How the BERT benchmark picks its n best answers for one example from the model's logits. */
module SquadNBest {
  import opened Options
  import opened SquadAnswers
  import opened SquadFeatures
  import opened SquadProjection
  import opened SquadWindows
  import opened StableSort
  import opened Text

  /** The logits that the model returned for one feature; scores are scaled to integers. */
  datatype RawResult = RawResult(startLogits: seq<int>, endLogits: seq<int>)

  datatype Prelim = Prelim(featureIndex: nat, startIndex: nat, endIndex: nat, startLogit: int, endLogit: int) {
    function Score(): int {
      startLogit + endLogit
    }
  }

  datatype Nbest = Nbest(text: string, startLogit: int, endLogit: int) {
    function Score(): int {
      startLogit + endLogit
    }
  }

  /** One example: its features, its words, and the library's two text functions. */
  datatype Context = Context(
    features: seq<Feature>,
    results: map<int, RawResult>,
    docTokens: seq<string>,
    detokenize: string -> string,
    normalise: string -> string)

  // ---------- The best indices ----------

  method GetBestIndexes(logits: seq<int>, n: nat) returns (best: seq<nat>)
    ensures AreBest(logits, n, best) && best == Best(logits, n)
  {
    var order := Order(logits);
    best := [];
    for i := 0 to |order|
      invariant i <= n && best == order[..i]
    {
      if i >= n {
        break;
      }
      best := best + [order[i]];
    }
    assert best == Best(logits, n);
    BestAreBest(logits, n);
  }

  // ---------- Candidates ----------

  /** The span lies in the document, starts where its window has maximum context, and is short enough. */
  predicate Accepts(feature: Feature, startIndex: nat, endIndex: nat, maxAnswerLength: int) {
    && startIndex < |feature.tokens| && endIndex < |feature.tokens|
    && startIndex in feature.tokenToOrigMap && endIndex in feature.tokenToOrigMap
    && startIndex in feature.tokenIsMaxContext && feature.tokenIsMaxContext[startIndex]
    && startIndex <= endIndex && endIndex - startIndex + 1 <= maxAnswerLength
  }

  /** `c` is an acceptable span of feature `f` with these logits, its ends among the given indices. */
  ghost predicate FromFeature(
    feature: Feature, f: nat, result: RawResult, starts: seq<nat>, ends: seq<nat>, maxAnswerLength: int, c: Prelim)
  {
    && c.featureIndex == f && c.startIndex in starts && c.endIndex in ends
    && Accepts(feature, c.startIndex, c.endIndex, maxAnswerLength)
    && c.startIndex < |result.startLogits| && c.startLogit == result.startLogits[c.startIndex]
    && c.endIndex < |result.endLogits| && c.endLogit == result.endLogits[c.endIndex]
  }

  /** A span that the model may answer with: from the n best starts and ends of some scored feature. */
  ghost predicate IsCandidate(ctx: Context, n: nat, maxAnswerLength: int, c: Prelim) {
    && c.featureIndex < |ctx.features|
    && var feature := ctx.features[c.featureIndex];
    && feature.uniqueId in ctx.results
    && var result := ctx.results[feature.uniqueId];
    && var starts, ends := Best(result.startLogits, n), Best(result.endLogits, n);
    && FromFeature(feature, c.featureIndex, result, starts, ends, maxAnswerLength, c)
  }

  /** The loops over one feature meet better starts first, and for one start better ends first. */
  ghost predicate MetFirst(result: RawResult, a: Prelim, b: Prelim) {
    && a.startIndex < |result.startLogits| && b.startIndex < |result.startLogits|
    && a.endIndex < |result.endLogits| && b.endIndex < |result.endLogits|
    && if a.startIndex == b.startIndex then Before(result.endLogits, a.endIndex, b.endIndex)
       else Before(result.startLogits, a.startIndex, b.startIndex)
  }

  ghost predicate InLoopOrder(result: RawResult, found: seq<Prelim>) {
    forall i, j :: 0 <= i < j < |found| ==> MetFirst(result, found[i], found[j])
  }

  method CandidatesFrom(
    feature: Feature, f: nat, result: RawResult, startIndex: nat, endIndexes: seq<nat>, maxAnswerLength: int)
    returns (found: seq<Prelim>)
    requires startIndex < |result.startLogits| && Ascends(result.endLogits, endIndexes)
    ensures forall c :: c in found <==> FromFeature(feature, f, result, [startIndex], endIndexes, maxAnswerLength, c)
    ensures InLoopOrder(result, found)
  {
    found := [];
    for e := 0 to |endIndexes|
      invariant forall c :: c in found <==>
          FromFeature(feature, f, result, [startIndex], endIndexes[..e], maxAnswerLength, c)
      invariant InLoopOrder(result, found)
    {
      var endIndex := endIndexes[e];
      assert endIndexes[..e + 1] == endIndexes[..e] + [endIndex] && endIndex in endIndexes;
      if startIndex >= |feature.tokens| { continue; }
      if endIndex >= |feature.tokens| { continue; }
      if startIndex !in feature.tokenToOrigMap { continue; }
      if endIndex !in feature.tokenToOrigMap { continue; }
      if !(startIndex in feature.tokenIsMaxContext && feature.tokenIsMaxContext[startIndex]) { continue; }
      if endIndex < startIndex { continue; }
      var length := endIndex - startIndex + 1;
      if length > maxAnswerLength { continue; }
      assert forall i :: 0 <= i < |found| ==> found[i] in found;
      found := found + [Prelim(f, startIndex, endIndex, result.startLogits[startIndex], result.endLogits[endIndex])];
    }
    assert endIndexes[..|endIndexes|] == endIndexes;
  }

  method CandidatesOf(feature: Feature, f: nat, result: RawResult, n: nat, maxAnswerLength: int)
    returns (found: seq<Prelim>)
    ensures forall c :: c in found <==>
        FromFeature(feature, f, result, Best(result.startLogits, n), Best(result.endLogits, n), maxAnswerLength, c)
    ensures InLoopOrder(result, found)
  {
    var startIndexes := GetBestIndexes(result.startLogits, n);
    var endIndexes := GetBestIndexes(result.endLogits, n);
    found := [];
    for s := 0 to |startIndexes|
      invariant forall c :: c in found <==>
          FromFeature(feature, f, result, startIndexes[..s], endIndexes, maxAnswerLength, c)
      invariant InLoopOrder(result, found)
    {
      hide Best, Accepts, AreBest, InLoopOrder, Ascends;
      assert startIndexes[..s + 1] == startIndexes[..s] + [startIndexes[s]];
      IndicesAscend(result.startLogits, n, startIndexes);
      IndicesAscend(result.endLogits, n, endIndexes);
      var more := CandidatesFrom(feature, f, result, startIndexes[s], endIndexes, maxAnswerLength);
      LaterStart(feature, f, result, startIndexes, s, endIndexes, maxAnswerLength, found, more);
      found := found + more;
    }
    assert startIndexes[..|startIndexes|] == startIndexes;
  }

  lemma IndicesAscend(logits: seq<int>, n: nat, best: seq<nat>)
    requires AreBest(logits, n, best)
    ensures Ascends(logits, best) && forall i :: 0 <= i < |best| ==> best[i] < |logits|
  {
  }

  lemma LaterStart(
    feature: Feature, f: nat, result: RawResult, starts: seq<nat>, s: nat, ends: seq<nat>, maxAnswerLength: int,
    found: seq<Prelim>, more: seq<Prelim>)
    requires Ascends(result.startLogits, starts) && s < |starts|
    requires InLoopOrder(result, found) && InLoopOrder(result, more)
    requires forall c :: c in found ==> FromFeature(feature, f, result, starts[..s], ends, maxAnswerLength, c)
    requires forall c :: c in more ==> FromFeature(feature, f, result, [starts[s]], ends, maxAnswerLength, c)
    ensures InLoopOrder(result, found + more)
  {
    hide Accepts;
    forall i, j | 0 <= i < |found| && 0 <= j < |more| ensures MetFirst(result, found[i], more[j]) {
      assert found[i] in found && more[j] in more;
      var k :| 0 <= k < s && starts[k] == found[i].startIndex;
      assert Before(result.startLogits, starts[k], starts[s]);
    }
  }

  /** The first of two candidates in the order in which all loops together meet them. */
  ghost predicate Ahead(ctx: Context, a: Prelim, b: Prelim) {
    || a.featureIndex < b.featureIndex
    || (a.featureIndex == b.featureIndex < |ctx.features|
        && ctx.features[a.featureIndex].uniqueId in ctx.results
        && MetFirst(ctx.results[ctx.features[a.featureIndex].uniqueId], a, b))
  }

  ghost predicate AllAhead(ctx: Context, found: seq<Prelim>) {
    forall i, j :: 0 <= i < j < |found| ==> Ahead(ctx, found[i], found[j])
  }

  /** All candidates of the example, feature by feature; features that were not scored have none. */
  method CollectCandidates(ctx: Context, n: nat, maxAnswerLength: int) returns (found: seq<Prelim>)
    ensures forall c :: c in found <==> IsCandidate(ctx, n, maxAnswerLength, c)
    ensures AllAhead(ctx, found)
  {
    hide FromFeature, Best, AllAhead, InLoopOrder;
    found := [];
    assert AllAhead(ctx, found) by { NoneAhead(ctx); }
    for f := 0 to |ctx.features|
      invariant forall c :: c in found <==> IsCandidate(ctx, n, maxAnswerLength, c) && c.featureIndex < f
      invariant AllAhead(ctx, found)
    {
      var feature := ctx.features[f];
      if feature.uniqueId !in ctx.results {
        continue;
      }
      var result := ctx.results[feature.uniqueId];
      var more := CandidatesOf(feature, f, result, n, maxAnswerLength);
      forall c ensures c in found + more <==> IsCandidate(ctx, n, maxAnswerLength, c) && c.featureIndex < f + 1 {
        OfItsFeature(feature, f, result, n, maxAnswerLength, c);
        assert c in found + more <==> c in found || c in more;
      }
      forall c | c in more ensures c.featureIndex == f {
        OfItsFeature(feature, f, result, n, maxAnswerLength, c);
      }
      LaterFeature(ctx, f, found, more);
      found := found + more;
    }
  }

  lemma NoneAhead(ctx: Context)
    ensures AllAhead(ctx, [])
  {
  }

  lemma LaterFeature(ctx: Context, f: nat, found: seq<Prelim>, more: seq<Prelim>)
    requires f < |ctx.features| && ctx.features[f].uniqueId in ctx.results
    requires AllAhead(ctx, found) && InLoopOrder(ctx.results[ctx.features[f].uniqueId], more)
    requires forall c :: c in found ==> c.featureIndex < f
    requires forall c :: c in more ==> c.featureIndex == f
    ensures AllAhead(ctx, found + more)
  {
    hide MetFirst;
    var all := found + more;
    assert forall i :: 0 <= i < |found| ==> found[i] in found;
    assert forall i :: 0 <= i < |more| ==> more[i] in more;
    forall i, j | 0 <= i < j < |all| ensures Ahead(ctx, all[i], all[j]) {
      if i < |found| {
        assert j < |found| ==> Ahead(ctx, found[i], found[j]);
      } else {
        assert MetFirst(ctx.results[ctx.features[f].uniqueId], more[i - |found|], more[j - |found|]);
      }
    }
  }

  lemma OfItsFeature(feature: Feature, f: nat, result: RawResult, n: nat, maxAnswerLength: int, c: Prelim)
    ensures FromFeature(feature, f, result, Best(result.startLogits, n), Best(result.endLogits, n), maxAnswerLength, c)
        ==> c.featureIndex == f
  {
  }

  // ---------- The n best texts ----------

  /** The answer text that a candidate stands for. */
  function TextOf(ctx: Context, c: Prelim): string
    requires c.featureIndex < |ctx.features| && Readable(ctx.features[c.featureIndex], c)
  {
    var feature := ctx.features[c.featureIndex];
    var tokText := ctx.detokenize(Join(ListSlice(feature.tokens, c.startIndex, c.endIndex + 1), " "));
    var docStart, docEnd := feature.tokenToOrigMap[c.startIndex], feature.tokenToOrigMap[c.endIndex];
    var origText := Join(ListSlice(ctx.docTokens, docStart, docEnd + 1), " ");
    FinalText(tokText, origText, ctx.normalise(origText))
  }

  predicate Readable(feature: Feature, c: Prelim) {
    c.startIndex in feature.tokenToOrigMap && c.endIndex in feature.tokenToOrigMap
  }

  method PredictionText(ctx: Context, c: Prelim) returns (text: string)
    requires c.featureIndex < |ctx.features| && Readable(ctx.features[c.featureIndex], c)
    ensures text == TextOf(ctx, c)
  {
    hide FinalText, Join;
    var feature := ctx.features[c.featureIndex];
    var tokTokens := ListSlice(feature.tokens, c.startIndex, c.endIndex + 1);
    var origDocStart := feature.tokenToOrigMap[c.startIndex];
    var origDocEnd := feature.tokenToOrigMap[c.endIndex];
    var origTokens := ListSlice(ctx.docTokens, origDocStart, origDocEnd + 1);
    var tokText := ctx.detokenize(Join(tokTokens, " "));
    var origText := Join(origTokens, " ");
    text := GetFinalText(tokText, origText, ctx.normalise(origText));
  }

  /** Every candidate can be read back: its positions are mapped. */
  ghost predicate AllReadable(ctx: Context, found: seq<Prelim>) {
    forall c :: c in found ==> c.featureIndex < |ctx.features| && Readable(ctx.features[c.featureIndex], c)
  }

  /** The better score, or of equal scores the one that was met first. */
  ghost predicate Ranks(ctx: Context, a: Prelim, b: Prelim) {
    a.Score() > b.Score() || (a.Score() == b.Score() && Ahead(ctx, a, b))
  }

  ghost predicate Ranked(ctx: Context, sorted: seq<Prelim>) {
    forall i, j :: 0 <= i < j < |sorted| ==> Ranks(ctx, sorted[i], sorted[j])
  }

  method SortCandidates(ctx: Context, found: seq<Prelim>) returns (sorted: seq<Prelim>)
    requires AllAhead(ctx, found)
    ensures Ranked(ctx, sorted)
    ensures forall c :: c in sorted <==> c in found
  {
    var scores := seq(|found|, i requires 0 <= i < |found| => found[i].Score());
    var order := Order(scores);
    sorted := seq(|found|, i requires 0 <= i < |found| => found[order[i]]);
    hide Ahead;
    forall i, j | 0 <= i < j < |sorted| ensures Ranks(ctx, sorted[i], sorted[j]) {
      assert Before(scores, order[i], order[j]);
    }
    forall c | c in found ensures c in sorted {
      var i :| 0 <= i < |found| && found[i] == c;
      assert i in order;
      var k :| 0 <= k < |order| && order[k] == i;
      assert sorted[k] == c;
    }
  }

  /** The texts of the candidates, in order. */
  ghost function Texts(ctx: Context, sorted: seq<Prelim>): seq<string>
    requires AllReadable(ctx, sorted)
  {
    seq(|sorted|, k requires 0 <= k < |sorted| => assert sorted[k] in sorted; TextOf(ctx, sorted[k]))
  }

  /** Some chosen place, no later than `k`, has the text of place `k`. */
  ghost predicate Shown(texts: seq<string>, from: seq<nat>, k: nat) {
    exists j :: 0 <= j < |from| && from[j] <= k < |texts| && texts[from[j]] == texts[k]
  }

  /** `from` lists, in order, where each text occurs for the first time before place `upTo`. */
  ghost predicate Firsts(texts: seq<string>, upTo: nat, from: seq<nat>) {
    && upTo <= |texts|
    && (forall j :: 0 <= j < |from| ==> from[j] < upTo)
    && (forall i, j :: 0 <= i < j < |from| ==> from[i] < from[j] && texts[from[i]] != texts[from[j]])
    && (forall k :: 0 <= k < upTo ==> Shown(texts, from, k))
  }

  lemma FirstsSkip(texts: seq<string>, upTo: nat, from: seq<nat>, j: nat)
    requires Firsts(texts, upTo, from) && upTo < |texts|
    requires j < |from| && texts[from[j]] == texts[upTo]
    ensures Firsts(texts, upTo + 1, from)
  {
    assert Shown(texts, from, upTo);
  }

  lemma FirstsAdd(texts: seq<string>, upTo: nat, from: seq<nat>)
    requires Firsts(texts, upTo, from) && upTo < |texts|
    requires forall j :: 0 <= j < |from| ==> texts[from[j]] != texts[upTo]
    ensures Firsts(texts, upTo + 1, from + [upTo])
  {
    var next := from + [upTo];
    forall k | 0 <= k < upTo + 1 ensures Shown(texts, next, k) {
      if k < upTo {
        assert Shown(texts, from, k);
        var j :| 0 <= j < |from| && from[j] <= k && texts[from[j]] == texts[k];
        assert next[j] == from[j];
      } else {
        assert next[|from|] == k;
      }
    }
  }

  ghost function TextsAt(texts: seq<string>, from: seq<nat>): set<string> {
    set j | 0 <= j < |from| && from[j] < |texts| :: texts[from[j]]
  }

  lemma TextsAtAdd(texts: seq<string>, from: seq<nat>, k: nat)
    requires k < |texts|
    ensures TextsAt(texts, from + [k]) == TextsAt(texts, from) + {texts[k]}
  {
    var next := from + [k];
    assert next[|from|] == k;
    assert forall j :: 0 <= j < |from| ==> next[j] == from[j];
  }

  function EntryOf(c: Prelim, text: string): Nbest {
    Nbest(text, c.startLogit, c.endLogit)
  }

  /** Entry `j` was made from the candidate at place `from[j]`. */
  ghost predicate Made(sorted: seq<Prelim>, texts: seq<string>, from: seq<nat>, nbest: seq<Nbest>) {
    && |texts| == |sorted| && |nbest| == |from|
    && forall j :: 0 <= j < |from| ==> from[j] < |sorted| && nbest[j] == EntryOf(sorted[from[j]], texts[from[j]])
  }

  method SelectNBest(ctx: Context, sorted: seq<Prelim>, n: nat)
    returns (nbest: seq<Nbest>, ghost from: seq<nat>, ghost upTo: nat)
    requires AllReadable(ctx, sorted)
    ensures Firsts(Texts(ctx, sorted), upTo, from) && Made(sorted, Texts(ctx, sorted), from, nbest)
    ensures |nbest| <= |sorted| && |nbest| <= n && (|nbest| == n || upTo == |sorted|)
  {
    hide TextOf, Readable;
    ghost var texts := Texts(ctx, sorted);
    var seen: set<string> := {};
    nbest, from := [], [];
    var next := 0;
    while next < |sorted|
      invariant 0 <= next <= |sorted| && Firsts(texts, next, from) && Made(sorted, texts, from, nbest) && |nbest| <= n
      invariant |nbest| <= next
      invariant seen == TextsAt(texts, from)
    {
      if |nbest| >= n {
        break;
      }
      var pred := sorted[next];
      assert pred in sorted;
      var finalText := PredictionText(ctx, pred);
      assert finalText == texts[next];
      if finalText in seen {
        ghost var j :| 0 <= j < |from| && texts[from[j]] == finalText;
        FirstsSkip(texts, next, from, j);
      } else {
        FirstsAdd(texts, next, from);
        TextsAtAdd(texts, from, next);
        seen := seen + {finalText};
        nbest := nbest + [EntryOf(pred, finalText)];
        from := from + [next];
      }
      next := next + 1;
    }
    upTo := next;
  }

  /** Some entry has this text, and was made from this candidate or one that ranks before it. */
  ghost predicate Represented(ctx: Context, nbest: seq<Nbest>, chosen: seq<Prelim>, text: string, c: Prelim) {
    exists j ::
      && 0 <= j < |nbest| && j < |chosen| && nbest[j].text == text
      && (chosen[j] == c || Ranks(ctx, chosen[j], c))
  }

  /** All entries have other texts and rank before this candidate. */
  ghost predicate Outranked(ctx: Context, nbest: seq<Nbest>, chosen: seq<Prelim>, text: string, c: Prelim) {
    forall j :: 0 <= j < |nbest| && j < |chosen| ==> nbest[j].text != text && Ranks(ctx, chosen[j], c)
  }

  /**
   What the n best list is: entries are made from chosen candidates, in rank order and with different
   texts; every candidate is represented by one of its text that ranks no later, or else all n entries
   rank before it.
   */
  ghost predicate IsNBest(ctx: Context, candidates: seq<Prelim>, n: nat, nbest: seq<Nbest>, chosen: seq<Prelim>)
    requires AllReadable(ctx, candidates)
  {
    && |chosen| == |nbest| <= n
    && (forall j :: 0 <= j < |nbest| ==>
          chosen[j] in candidates && nbest[j] == EntryOf(chosen[j], TextOf(ctx, chosen[j])))
    && (forall i, j :: 0 <= i < j < |nbest| ==> nbest[i].text != nbest[j].text && Ranks(ctx, chosen[i], chosen[j]))
    && (forall c :: c in candidates ==>
          || Represented(ctx, nbest, chosen, TextOf(ctx, c), c)
          || (|nbest| == n && Outranked(ctx, nbest, chosen, TextOf(ctx, c), c)))
  }

  function Chosen(sorted: seq<Prelim>, from: seq<nat>): seq<Prelim>
    requires forall j :: 0 <= j < |from| ==> from[j] < |sorted|
  {
    seq(|from|, j requires 0 <= j < |from| => sorted[from[j]])
  }

  lemma FirstsRepresent(
    ctx: Context, sorted: seq<Prelim>, texts: seq<string>, upTo: nat, from: seq<nat>, nbest: seq<Nbest>, n: nat, k: nat)
    requires Ranked(ctx, sorted) && Firsts(texts, upTo, from) && Made(sorted, texts, from, nbest) && k < |sorted|
    requires |nbest| == n || upTo == |sorted|
    ensures Represented(ctx, nbest, Chosen(sorted, from), texts[k], sorted[k])
         || (|nbest| == n && Outranked(ctx, nbest, Chosen(sorted, from), texts[k], sorted[k]))
  {
    hide Ranks;
    var chosen := Chosen(sorted, from);
    if k < upTo {
      assert Shown(texts, from, k);
      var j :| 0 <= j < |from| && from[j] <= k && texts[from[j]] == texts[k];
      assert nbest[j] == EntryOf(sorted[from[j]], texts[from[j]]) && chosen[j] == sorted[from[j]];
    } else if j :| 0 <= j < |from| && texts[from[j]] == texts[k] {
      assert nbest[j] == EntryOf(sorted[from[j]], texts[from[j]]) && chosen[j] == sorted[from[j]];
    }
  }

  lemma SelectionIsNBest(ctx: Context, sorted: seq<Prelim>, n: nat, nbest: seq<Nbest>, from: seq<nat>, upTo: nat)
    requires Ranked(ctx, sorted) && AllReadable(ctx, sorted)
    requires Firsts(Texts(ctx, sorted), upTo, from) && Made(sorted, Texts(ctx, sorted), from, nbest)
    requires |nbest| <= n && (|nbest| == n || upTo == |sorted|)
    ensures IsNBest(ctx, sorted, n, nbest, Chosen(sorted, from))
  {
    hide TextOf, Readable, Represented, Outranked, Ranks;
    var texts, chosen := Texts(ctx, sorted), Chosen(sorted, from);
    forall c | c in sorted
      ensures Represented(ctx, nbest, chosen, TextOf(ctx, c), c)
           || (|nbest| == n && Outranked(ctx, nbest, chosen, TextOf(ctx, c), c))
    {
      var k :| 0 <= k < |sorted| && sorted[k] == c;
      FirstsRepresent(ctx, sorted, texts, upTo, from, nbest, n, k);
    }
    assert forall j :: 0 <= j < |nbest| ==> sorted[from[j]] in sorted;
  }

  // ---------- There is only one such list ----------

  lemma MetFirstOrders(result: RawResult, a: Prelim, b: Prelim, c: Prelim)
    ensures MetFirst(result, a, b) ==> !MetFirst(result, b, a)
    ensures MetFirst(result, a, b) && MetFirst(result, b, c) ==> MetFirst(result, a, c)
  {
  }

  lemma RanksOrders(ctx: Context, a: Prelim, b: Prelim, c: Prelim)
    ensures Ranks(ctx, a, b) ==> !Ranks(ctx, b, a)
    ensures Ranks(ctx, a, b) && Ranks(ctx, b, c) ==> Ranks(ctx, a, c)
  {
    hide MetFirst;
    if a.featureIndex < |ctx.features| && ctx.features[a.featureIndex].uniqueId in ctx.results {
      MetFirstOrders(ctx.results[ctx.features[a.featureIndex].uniqueId], a, b, c);
    }
  }

  lemma EntryAt(ctx: Context, candidates: seq<Prelim>, n: nat, nbest: seq<Nbest>, chosen: seq<Prelim>, k: nat)
    requires AllReadable(ctx, candidates) && IsNBest(ctx, candidates, n, nbest, chosen) && k < |nbest|
    ensures |chosen| == |nbest| <= n && chosen[k] in candidates
    ensures nbest[k] == EntryOf(chosen[k], TextOf(ctx, chosen[k]))
    ensures forall i :: 0 <= i < k ==> nbest[i].text != nbest[k].text && Ranks(ctx, chosen[i], chosen[k])
  {
    hide TextOf, Readable, Ranks, Represented, Outranked;
  }

  /** A candidate is represented by some entry, or else there are n entries and all rank before it. */
  lemma Located(ctx: Context, candidates: seq<Prelim>, n: nat, nbest: seq<Nbest>, chosen: seq<Prelim>, c: Prelim)
    returns (j: Option<nat>)
    requires AllReadable(ctx, candidates) && IsNBest(ctx, candidates, n, nbest, chosen) && c in candidates
    ensures |chosen| == |nbest|
    ensures j.Some? ==>
        && j.value < |nbest| && nbest[j.value].text == TextOf(ctx, c)
        && (chosen[j.value] == c || Ranks(ctx, chosen[j.value], c))
    ensures j.None? ==> |nbest| == n && forall i :: 0 <= i < n ==> Ranks(ctx, chosen[i], c)
  {
    hide TextOf, Readable, Ranks;
    var text := TextOf(ctx, c);
    if Represented(ctx, nbest, chosen, text, c) {
      var i :|
        && 0 <= i < |nbest| && i < |chosen| && nbest[i].text == text
        && (chosen[i] == c || Ranks(ctx, chosen[i], c));
      j := Some(i);
    } else {
      assert Outranked(ctx, nbest, chosen, text, c);
      j := None;
    }
  }

  /** If two lists agree up to `k`, what one has there is not ranked before what the other has. */
  lemma NextNoLater(
    ctx: Context, candidates: seq<Prelim>, n: nat, nbest: seq<Nbest>, chosen: seq<Prelim>,
    others: seq<Nbest>, otherChosen: seq<Prelim>, k: nat)
    requires AllReadable(ctx, candidates)
    requires IsNBest(ctx, candidates, n, nbest, chosen) && IsNBest(ctx, candidates, n, others, otherChosen)
    requires k < |nbest| && k <= |others| && nbest[..k] == others[..k]
    ensures k < |others| == |otherChosen| && |nbest| == |chosen|
        && (otherChosen[k] == chosen[k] || Ranks(ctx, otherChosen[k], chosen[k]))
  {
    hide IsNBest, TextOf, Readable, Ranks;
    EntryAt(ctx, candidates, n, nbest, chosen, k);
    var j := Located(ctx, candidates, n, others, otherChosen, chosen[k]);
    if j.Some? {
      forall i | 0 <= i < k ensures others[i] == nbest[i] { assert others[..k][i] == nbest[..k][i]; }
      EntryAt(ctx, candidates, n, others, otherChosen, j.value);
      RanksOrders(ctx, otherChosen[k], otherChosen[j.value], chosen[k]);
    }
  }

  lemma {:induction false} SamePrefix(
    ctx: Context, candidates: seq<Prelim>, n: nat, nbest: seq<Nbest>, chosen: seq<Prelim>,
    others: seq<Nbest>, otherChosen: seq<Prelim>, k: nat)
    requires AllReadable(ctx, candidates)
    requires IsNBest(ctx, candidates, n, nbest, chosen) && IsNBest(ctx, candidates, n, others, otherChosen)
    requires k <= |nbest|
    ensures k <= |others| && nbest[..k] == others[..k]
  {
    hide IsNBest, Ranks, TextOf, Readable;
    if k > 0 {
      var m := k - 1;
      SamePrefix(ctx, candidates, n, nbest, chosen, others, otherChosen, m);
      NextNoLater(ctx, candidates, n, nbest, chosen, others, otherChosen, m);
      NextNoLater(ctx, candidates, n, others, otherChosen, nbest, chosen, m);
      RanksOrders(ctx, chosen[m], otherChosen[m], chosen[m]);
      EntryAt(ctx, candidates, n, nbest, chosen, m);
      EntryAt(ctx, candidates, n, others, otherChosen, m);
      assert nbest[..k] == nbest[..m] + [nbest[m]] && others[..k] == others[..m] + [others[m]];
    }
  }

  /** The candidates alone determine the list, entry for entry. */
  lemma NBestUnique(
    ctx: Context, candidates: seq<Prelim>, n: nat, nbest: seq<Nbest>, chosen: seq<Prelim>,
    others: seq<Nbest>, otherChosen: seq<Prelim>)
    requires AllReadable(ctx, candidates)
    requires IsNBest(ctx, candidates, n, nbest, chosen) && IsNBest(ctx, candidates, n, others, otherChosen)
    ensures nbest == others
  {
    hide IsNBest;
    SamePrefix(ctx, candidates, n, nbest, chosen, others, otherChosen, |nbest|);
    SamePrefix(ctx, candidates, n, others, otherChosen, nbest, chosen, |others|);
    assert nbest[..|nbest|] == nbest && others[..|others|] == others;
  }

  lemma CandidatesReadable(ctx: Context, n: nat, maxAnswerLength: int, found: seq<Prelim>)
    requires forall c :: c in found ==> IsCandidate(ctx, n, maxAnswerLength, c)
    ensures AllReadable(ctx, found)
  {
  }

  /** Positions `p` to `q` of the model input are subtokens `first` to `last`, read back from their words. */
  ghost predicate ReadsBack(
    f: Feature, s: Subtokens, span: DocSpan, docTokens: seq<string>, p: nat, q: nat, first: int, last: int)
  {
    && 0 <= span.start <= first <= last < span.End() <= |s.all|
    && q < |f.tokens| && p <= q && f.tokens[p..q + 1] == s.all[first..last + 1]
    && p in f.tokenToOrigMap && q in f.tokenToOrigMap
    && var w, v := f.tokenToOrigMap[p], f.tokenToOrigMap[q];
    && 0 <= w <= v < |docTokens| && v < |s.origToTok|
    && s.origToTok[w] <= first && last < s.WordEnd(v)
  }

  /**
   In features that were converted from the example, a candidate is a stretch of the document's
   subtokens, no longer than allowed, that lies in the words it is read back from and whose first
   subtoken has its maximum context in that very window.
   */
  lemma CandidateIsDocumentSpan(
    ctx: Context, n: nat, maxAnswerLength: int, c: Prelim, example: Example, exampleIndex: nat, firstId: int,
    config: Config, tokenize: Tokenizer, vocabulary: Vocabulary, conversion: Conversion)
    requires IsCandidate(ctx, n, maxAnswerLength, c) && ctx.features == conversion.fs
    requires conversion.Of(exampleIndex, firstId, example, config, tokenize, vocabulary)
    ensures c.featureIndex < |ctx.features| && c.featureIndex < |conversion.spans|
    ensures var span := conversion.spans[c.featureIndex];
            var shift := span.start - (|Query(example, config, tokenize)| + 2);
            var first, last := c.startIndex + shift, c.endIndex + shift;
            && ReadsBack(ctx.features[c.featureIndex], conversion.s, span, example.docTokens,
                         c.startIndex, c.endIndex, first, last)
            && last - first < maxAnswerLength
            && IsMaxContext(conversion.spans, c.featureIndex, first)
  {
    hide Best, Covers, AnswerPlaced, ReadsBack, IsMaxContext, Faithful, Query, Subtokens.Of;
    var f := ctx.features[c.featureIndex];
    SpanReadsBack(f, config, Query(example, config, tokenize), conversion.s, vocabulary, conversion.spans,
                  example.docTokens, tokenize, c.startIndex, c.endIndex);
  }

  lemma SpanReadsBack(
    f: Feature, config: Config, query: seq<string>, s: Subtokens, vocabulary: Vocabulary, spans: seq<DocSpan>,
    words: seq<string>, tokenize: Tokenizer, p: nat, q: nat)
    requires Faithful(f, config, query, s, vocabulary, spans) && s.Of(words, tokenize)
    requires p <= q && p in f.tokenToOrigMap && q in f.tokenToOrigMap && p in f.tokenIsMaxContext
    ensures f.docSpanIndex < |spans|
    ensures var shift := spans[f.docSpanIndex].start - (|query| + 2);
            && ReadsBack(f, s, spans[f.docSpanIndex], words, p, q, p + shift, q + shift)
            && (f.tokenIsMaxContext[p] <==> IsMaxContext(spans, f.docSpanIndex, p + shift))
  {
    hide IsMaxContext, Subtokens.Of;
    var span := spans[f.docSpanIndex];
    var first, last := p + span.start - (|query| + 2), q + span.start - (|query| + 2);
    WordsInOrder(s, words, tokenize, first, last);
    CutOut(query, s, span, f.tokens, first, last);
  }

  lemma WordsInOrder(s: Subtokens, words: seq<string>, tokenize: Tokenizer, first: nat, last: nat)
    requires s.Of(words, tokenize) && first <= last < |s.all|
    ensures |s.tokToOrig| == |s.all| && |s.origToTok| == |words|
    ensures 0 <= s.tokToOrig[first] <= s.tokToOrig[last] < |words|
    ensures s.Placed(first) && s.Placed(last)
  {
    assert s.Placed(first) && s.Placed(last);
    var a, b := s.tokToOrig[first], s.tokToOrig[last];
    if b < a {
      StartsInOrder(s, words, tokenize, b + 1, a);
    }
  }

  /** These are the candidates of the example, in any order. */
  ghost predicate AreCandidates(ctx: Context, n: nat, maxAnswerLength: int, candidates: seq<Prelim>) {
    && AllReadable(ctx, candidates)
    && forall c :: c in candidates <==> IsCandidate(ctx, n, maxAnswerLength, c)
  }

  /** What is reported for an example: its n best list, or a stand-in if it has no candidate. */
  ghost predicate IsReport(ctx: Context, n: nat, maxAnswerLength: int, nbest: seq<Nbest>) {
    exists candidates, chosen ::
      && AreCandidates(ctx, n, maxAnswerLength, candidates)
      && Reports(ctx, candidates, n, nbest, chosen)
  }

  ghost predicate Reports(ctx: Context, candidates: seq<Prelim>, n: nat, nbest: seq<Nbest>, chosen: seq<Prelim>)
    requires AllReadable(ctx, candidates)
  {
    if candidates == [] then nbest == [Nbest("empty", 0, 0)] else IsNBest(ctx, candidates, n, nbest, chosen)
  }

  /** The n best answers of one example; without any candidate, a stand-in so that there is one. */
  method WritePredictions(ctx: Context, n: nat, maxAnswerLength: int) returns (nbest: seq<Nbest>)
    requires n >= 1
    ensures 1 <= |nbest| <= n
    ensures IsReport(ctx, n, maxAnswerLength, nbest)
  {
    hide TextOf, Readable, IsCandidate, Firsts, Ranked, AllAhead;
    var prelim := CollectCandidates(ctx, n, maxAnswerLength);
    CandidatesReadable(ctx, n, maxAnswerLength, prelim);
    var sorted := SortCandidates(ctx, prelim);
    CandidatesReadable(ctx, n, maxAnswerLength, sorted);
    ghost var from, upTo;
    nbest, from, upTo := SelectNBest(ctx, sorted, n);
    SelectionIsNBest(ctx, sorted, n, nbest, from, upTo);
    ghost var chosen := Chosen(sorted, from);
    if sorted != [] {
      BestComesFirst(ctx, sorted, n, nbest, chosen, sorted[0]);
    }
    if |nbest| == 0 {
      nbest := [Nbest("empty", 0, 0)];
    }
    hide AllReadable, IsNBest;
    assert AreCandidates(ctx, n, maxAnswerLength, sorted) && Reports(ctx, sorted, n, nbest, chosen);
  }

  lemma BestComesFirst(
    ctx: Context, candidates: seq<Prelim>, n: nat, nbest: seq<Nbest>, chosen: seq<Prelim>, c: Prelim)
    requires n >= 1 && AllReadable(ctx, candidates) && IsNBest(ctx, candidates, n, nbest, chosen) && c in candidates
    ensures nbest != [] && chosen != [] && (chosen[0] == c || Ranks(ctx, chosen[0], c))
    ensures nbest[0].Score() >= c.Score()
  {
    hide IsNBest, TextOf, Readable, Ahead;
    var j := Located(ctx, candidates, n, nbest, chosen, c);
    if j.Some? {
      EntryAt(ctx, candidates, n, nbest, chosen, j.value);
      RanksOrders(ctx, chosen[0], chosen[j.value], c);
    }
    EntryAt(ctx, candidates, n, nbest, chosen, 0);
  }

  /** The order in which the candidates are listed makes no difference. */
  lemma SameCandidates(
    ctx: Context, candidates: seq<Prelim>, others: seq<Prelim>, n: nat, nbest: seq<Nbest>, chosen: seq<Prelim>)
    requires AllReadable(ctx, candidates) && AllReadable(ctx, others)
    requires forall c :: c in candidates <==> c in others
    requires IsNBest(ctx, candidates, n, nbest, chosen)
    ensures IsNBest(ctx, others, n, nbest, chosen)
  {
    hide TextOf, Readable, Ranks, Represented, Outranked;
  }

  /** The example and the logits alone determine the report, entry for entry and ties included. */
  lemma ReportUnique(ctx: Context, n: nat, maxAnswerLength: int, a: seq<Nbest>, b: seq<Nbest>)
    requires IsReport(ctx, n, maxAnswerLength, a) && IsReport(ctx, n, maxAnswerLength, b)
    ensures a == b
  {
    hide AllReadable, IsNBest, IsCandidate;
    var candidates, chosen :|
      AreCandidates(ctx, n, maxAnswerLength, candidates) && Reports(ctx, candidates, n, a, chosen);
    var others, otherChosen :|
      AreCandidates(ctx, n, maxAnswerLength, others) && Reports(ctx, others, n, b, otherChosen);
    assert forall c :: c in candidates <==> c in others;
    EmptyTogether(candidates, others);
    if candidates != [] {
      SameCandidates(ctx, others, candidates, n, b, otherChosen);
      NBestUnique(ctx, candidates, n, a, chosen, b, otherChosen);
    }
  }

  lemma EmptyTogether(a: seq<Prelim>, b: seq<Prelim>)
    requires forall c :: c in a <==> c in b
    ensures a == [] <==> b == []
  {
    if a != [] { assert a[0] in a; }
    if b != [] { assert b[0] in b; }
  }
}
