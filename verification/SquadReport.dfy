/**
 What the answers that the BERT benchmark reports for one example are: in terms of the tokens, words
 and logits alone.
 */
module SquadReport {
  import opened Options
  import opened SquadAnswers
  import opened SquadFeatures
  import opened SquadNBest
  import opened SquadProjection
  import opened SquadWindows
  import opened StableSort
  import opened Text

  /** The model's logits for the start and the end of a candidate. */
  ghost predicate HasLogits(ctx: Context, c: Prelim, startLogit: int, endLogit: int) {
    && c.featureIndex < |ctx.features| && ctx.features[c.featureIndex].uniqueId in ctx.results
    && var result := ctx.results[ctx.features[c.featureIndex].uniqueId];
    && c.startIndex < |result.startLogits| && startLogit == result.startLogits[c.startIndex]
    && c.endIndex < |result.endLogits| && endLogit == result.endLogits[c.endIndex]
  }

  /**
   The candidate's tokens, joined and detokenized, are projected onto the words they are mapped to,
   joined by spaces, or these words are the text where the projection fails.
   */
  ghost predicate ReadAs(ctx: Context, c: Prelim, text: string) {
    && c.featureIndex < |ctx.features|
    && var f := ctx.features[c.featureIndex];
    && c.startIndex in f.tokenToOrigMap && c.endIndex in f.tokenToOrigMap
    && c.startIndex <= c.endIndex < |f.tokens|
    && var w, v := f.tokenToOrigMap[c.startIndex], f.tokenToOrigMap[c.endIndex];
       var prediction := ctx.detokenize(Join(f.tokens[c.startIndex..c.endIndex + 1], " "));
       var words :=
         if 0 <= w <= v < |ctx.docTokens| then ctx.docTokens[w..v + 1] else ListSlice(ctx.docTokens, w, v + 1);
       var original := Join(words, " ");
       ProjectedIfPossible(prediction, original, ctx.normalise(original), text)
  }

  lemma CandidateReads(ctx: Context, n: nat, maxAnswerLength: int, c: Prelim)
    requires IsCandidate(ctx, n, maxAnswerLength, c)
    ensures c.featureIndex < |ctx.features| && Readable(ctx.features[c.featureIndex], c)
    ensures ReadAs(ctx, c, TextOf(ctx, c))
    ensures HasLogits(ctx, c, c.startLogit, c.endLogit)
  {
    hide Best, ProjectedIfPossible, Join, ListSlice, FinalText;
    var f := ctx.features[c.featureIndex];
    var w, v := f.tokenToOrigMap[c.startIndex], f.tokenToOrigMap[c.endIndex];
    SliceIs(f.tokens, c.startIndex, c.endIndex + 1);
    SliceIs(ctx.docTokens, w, v + 1);
    var original := Join(ListSlice(ctx.docTokens, w, v + 1), " ");
    var prediction := ctx.detokenize(Join(ListSlice(f.tokens, c.startIndex, c.endIndex + 1), " "));
    FinalTextIs(prediction, original, ctx.normalise(original));
  }

  ghost predicate HasCandidate(ctx: Context, n: nat, maxAnswerLength: int) {
    exists c :: IsCandidate(ctx, n, maxAnswerLength, c)
  }

  /** An entry of the report was read from this candidate. */
  ghost predicate MadeFrom(ctx: Context, c: Prelim, entry: Nbest) {
    ReadAs(ctx, c, entry.text) && HasLogits(ctx, c, entry.startLogit, entry.endLogit)
  }

  /** A report in which there is something to report is an n best list of all candidates. */
  lemma ListOf(ctx: Context, n: nat, maxAnswerLength: int, nbest: seq<Nbest>)
    returns (candidates: seq<Prelim>, chosen: seq<Prelim>)
    requires IsReport(ctx, n, maxAnswerLength, nbest) && HasCandidate(ctx, n, maxAnswerLength)
    ensures AllReadable(ctx, candidates) && IsNBest(ctx, candidates, n, nbest, chosen)
    ensures forall c :: c in candidates <==> IsCandidate(ctx, n, maxAnswerLength, c)
  {
    hide IsNBest, AllReadable, IsCandidate;
    candidates, chosen :|
      AreCandidates(ctx, n, maxAnswerLength, candidates) && Reports(ctx, candidates, n, nbest, chosen);
    var c :| IsCandidate(ctx, n, maxAnswerLength, c);
    assert c in candidates;
  }

  /** Every reported answer is read from a candidate, with the candidate's two logits. */
  lemma EntriesReadBack(ctx: Context, n: nat, maxAnswerLength: int, nbest: seq<Nbest>, j: nat)
    requires IsReport(ctx, n, maxAnswerLength, nbest) && HasCandidate(ctx, n, maxAnswerLength) && j < |nbest|
    ensures exists c :: IsCandidate(ctx, n, maxAnswerLength, c) && MadeFrom(ctx, c, nbest[j])
  {
    hide IsNBest, IsReport, HasCandidate, IsCandidate, TextOf, ReadAs, HasLogits;
    var candidates, chosen := ListOf(ctx, n, maxAnswerLength, nbest);
    EntryAt(ctx, candidates, n, nbest, chosen, j);
    CandidateReads(ctx, n, maxAnswerLength, chosen[j]);
  }

  /** If there is no candidate, the stand-in is all that is reported. */
  lemma NothingToReport(ctx: Context, n: nat, maxAnswerLength: int, nbest: seq<Nbest>)
    requires IsReport(ctx, n, maxAnswerLength, nbest) && !HasCandidate(ctx, n, maxAnswerLength)
    ensures |nbest| == 1 && nbest[0].text == "empty" && nbest[0].startLogit == 0 && nbest[0].endLogit == 0
  {
    hide IsNBest, AllReadable, IsCandidate;
    var candidates, chosen :|
      AreCandidates(ctx, n, maxAnswerLength, candidates) && Reports(ctx, candidates, n, nbest, chosen);
    EmptyTogether(candidates, []);
  }

  /** Texts are reported once, by sums of logits that do not increase. */
  lemma ReportDescends(ctx: Context, n: nat, maxAnswerLength: int, nbest: seq<Nbest>, i: nat, j: nat)
    requires IsReport(ctx, n, maxAnswerLength, nbest) && i < j < |nbest|
    ensures nbest[i].text != nbest[j].text
    ensures nbest[i].startLogit + nbest[i].endLogit >= nbest[j].startLogit + nbest[j].endLogit
  {
    hide IsNBest, IsReport, IsCandidate, TextOf, Ahead;
    if !HasCandidate(ctx, n, maxAnswerLength) { NothingToReport(ctx, n, maxAnswerLength, nbest); }
    hide HasCandidate;
    var candidates, chosen := ListOf(ctx, n, maxAnswerLength, nbest);
    EntryAt(ctx, candidates, n, nbest, chosen, i);
    EntryAt(ctx, candidates, n, nbest, chosen, j);
  }

  /** An entry made from a candidate that ranks no later has a sum that is no less. */
  lemma EntrySum(
    ctx: Context, candidates: seq<Prelim>, n: nat, nbest: seq<Nbest>, chosen: seq<Prelim>, j: nat, c: Prelim)
    requires AllReadable(ctx, candidates) && IsNBest(ctx, candidates, n, nbest, chosen)
    requires j < |nbest| && j < |chosen| && (chosen[j] == c || Ranks(ctx, chosen[j], c))
    ensures nbest[j].startLogit + nbest[j].endLogit >= c.startLogit + c.endLogit
  {
    hide IsNBest, TextOf, Readable, AllReadable, Ahead;
    EntryAt(ctx, candidates, n, nbest, chosen, j);
  }

  /** No candidate is passed over: its text is reported with a sum that is no less, or n such sums are. */
  lemma NonePassedOver(
    ctx: Context, n: nat, maxAnswerLength: int, nbest: seq<Nbest>, c: Prelim, startLogit: int, endLogit: int)
    requires IsReport(ctx, n, maxAnswerLength, nbest) && IsCandidate(ctx, n, maxAnswerLength, c)
    requires HasLogits(ctx, c, startLogit, endLogit)
    ensures
      || (exists j :: 0 <= j < |nbest| && ReadAs(ctx, c, nbest[j].text)
            && nbest[j].startLogit + nbest[j].endLogit >= startLogit + endLogit)
      || (|nbest| == n && forall j :: 0 <= j < n ==> nbest[j].startLogit + nbest[j].endLogit >= startLogit + endLogit)
  {
    CandidateReads(ctx, n, maxAnswerLength, c);
    assert startLogit == c.startLogit && endLogit == c.endLogit;
    hide IsNBest, IsReport, IsCandidate, TextOf, ReadAs, HasLogits, Ranks, Readable, AllReadable;
    assert HasCandidate(ctx, n, maxAnswerLength);
    var candidates, chosen := ListOf(ctx, n, maxAnswerLength, nbest);
    var j := Located(ctx, candidates, n, nbest, chosen, c);
    if j.Some? {
      EntrySum(ctx, candidates, n, nbest, chosen, j.value, c);
    } else {
      forall i | 0 <= i < n ensures nbest[i].startLogit + nbest[i].endLogit >= startLogit + endLogit {
        EntrySum(ctx, candidates, n, nbest, chosen, i, c);
      }
    }
  }

  /** The answer that counts is the first entry: no candidate has a larger sum. */
  lemma BestIsReported(
    ctx: Context, n: nat, maxAnswerLength: int, nbest: seq<Nbest>, c: Prelim, startLogit: int, endLogit: int)
    requires n >= 1 && IsReport(ctx, n, maxAnswerLength, nbest) && IsCandidate(ctx, n, maxAnswerLength, c)
    requires HasLogits(ctx, c, startLogit, endLogit)
    ensures nbest != [] && nbest[0].startLogit + nbest[0].endLogit >= startLogit + endLogit
  {
    hide IsReport, IsCandidate, ReadAs, HasLogits;
    NonePassedOver(ctx, n, maxAnswerLength, nbest, c, startLogit, endLogit);
    if j :| 0 < j < |nbest| && nbest[j].startLogit + nbest[j].endLogit >= startLogit + endLogit {
      ReportDescends(ctx, n, maxAnswerLength, nbest, 0, j);
    }
  }

  // ---------- For features that were converted from the example ----------

  /** The candidate's tokens are subtokens of a stretch of words, and these are what it is read back from. */
  ghost predicate ReadsWords(ctx: Context, tokenize: Tokenizer, c: Prelim) {
    && c.featureIndex < |ctx.features|
    && var f := ctx.features[c.featureIndex];
    && c.startIndex <= c.endIndex < |f.tokens|
    && c.startIndex in f.tokenToOrigMap && c.endIndex in f.tokenToOrigMap
    && var w, v := f.tokenToOrigMap[c.startIndex], f.tokenToOrigMap[c.endIndex];
    && 0 <= w <= v < |ctx.docTokens|
    && forall p :: c.startIndex <= p <= c.endIndex ==>
         && p in f.tokenToOrigMap && w <= f.tokenToOrigMap[p] <= v
         && f.tokens[p] in tokenize(ctx.docTokens[f.tokenToOrigMap[p]])
  }

  lemma CandidateReadsWords(
    ctx: Context, n: nat, maxAnswerLength: int, c: Prelim, example: Example, exampleIndex: nat, firstId: int,
    config: Config, tokenize: Tokenizer, vocabulary: Vocabulary)
    requires ConvertedFrom(ctx.features, example, exampleIndex, firstId, config, tokenize, vocabulary)
    requires ctx.docTokens == example.docTokens && IsCandidate(ctx, n, maxAnswerLength, c)
    ensures ReadsWords(ctx, tokenize, c)
  {
    hide Best, Covers, AnswerPlaced, Faithful, Query, Subtokens.Of, IsAnswerSpan;
    var conversion: Conversion :|
      conversion.fs == ctx.features && conversion.Of(exampleIndex, firstId, example, config, tokenize, vocabulary);
    TokensOfWordsRead(ctx.features[c.featureIndex], config, Query(example, config, tokenize), conversion.s, vocabulary,
                      conversion.spans, example.docTokens, tokenize, c.startIndex, c.endIndex);
  }

  lemma TokensOfWordsRead(
    f: Feature, config: Config, query: seq<string>, s: Subtokens, vocabulary: Vocabulary, spans: seq<DocSpan>,
    words: seq<string>, tokenize: Tokenizer, a: nat, b: nat)
    requires Faithful(f, config, query, s, vocabulary, spans) && s.Of(words, tokenize)
    requires a <= b && a in f.tokenToOrigMap && b in f.tokenToOrigMap
    ensures b < |f.tokens| && 0 <= f.tokenToOrigMap[a] <= f.tokenToOrigMap[b] < |words|
    ensures forall p :: a <= p <= b ==>
        && p in f.tokenToOrigMap && f.tokenToOrigMap[a] <= f.tokenToOrigMap[p] <= f.tokenToOrigMap[b]
        && f.tokens[p] in tokenize(words[f.tokenToOrigMap[p]])
  {
    hide IsMaxContext, Subtokens.Of;
    var shift := spans[f.docSpanIndex].start - (|query| + 2);
    forall p | a <= p <= b
      ensures p in f.tokenToOrigMap && f.tokenToOrigMap[a] <= f.tokenToOrigMap[p] <= f.tokenToOrigMap[b]
      ensures 0 <= p < |f.tokens| && 0 <= f.tokenToOrigMap[p] < |words|
      ensures f.tokens[p] in tokenize(words[f.tokenToOrigMap[p]])
    {
      MappedPositionHoldsSubtoken(f, config, query, s, vocabulary, spans, words, tokenize, p);
      WordsInOrder(s, words, tokenize, a + shift, p + shift);
      WordsInOrder(s, words, tokenize, p + shift, b + shift);
    }
  }

  /** Every answer that is reported for a converted example is read from words of its document. */
  lemma AnswersReadWords(
    ctx: Context, n: nat, maxAnswerLength: int, nbest: seq<Nbest>, j: nat, example: Example, exampleIndex: nat,
    firstId: int, config: Config, tokenize: Tokenizer, vocabulary: Vocabulary)
    requires ConvertedFrom(ctx.features, example, exampleIndex, firstId, config, tokenize, vocabulary)
    requires ctx.docTokens == example.docTokens
    requires IsReport(ctx, n, maxAnswerLength, nbest) && HasCandidate(ctx, n, maxAnswerLength) && j < |nbest|
    ensures exists c :: ReadsWords(ctx, tokenize, c) && MadeFrom(ctx, c, nbest[j])
  {
    hide IsReport, HasCandidate, IsCandidate, ConvertedFrom, ReadsWords, MadeFrom;
    EntriesReadBack(ctx, n, maxAnswerLength, nbest, j);
    var c :| IsCandidate(ctx, n, maxAnswerLength, c) && MadeFrom(ctx, c, nbest[j]);
    CandidateReadsWords(ctx, n, maxAnswerLength, c, example, exampleIndex, firstId, config, tokenize, vocabulary);
  }

  /**
   Exactly the candidates: both ends among the n best, in the document part of the window, in order,
   not too long, and the start where it has its maximum context.
   */
  lemma CandidateIff(
    ctx: Context, n: nat, maxAnswerLength: int, c: Prelim, example: Example, exampleIndex: nat, firstId: int,
    config: Config, tokenize: Tokenizer, vocabulary: Vocabulary, conversion: Conversion)
    requires conversion.Of(exampleIndex, firstId, example, config, tokenize, vocabulary)
    requires ctx.features == conversion.fs && HasLogits(ctx, c, c.startLogit, c.endLogit)
    ensures c.featureIndex < |conversion.spans|
    ensures var span := conversion.spans[c.featureIndex];
            var shift := span.start - (|Query(example, config, tokenize)| + 2);
            var result := ctx.results[ctx.features[c.featureIndex].uniqueId];
            IsCandidate(ctx, n, maxAnswerLength, c) <==>
              && c.startIndex in Best(result.startLogits, n) && c.endIndex in Best(result.endLogits, n)
              && span.start <= c.startIndex + shift <= c.endIndex + shift < span.End()
              && c.endIndex - c.startIndex < maxAnswerLength
              && IsMaxContext(conversion.spans, c.featureIndex, c.startIndex + shift)
  {
    hide Best, Covers, AnswerPlaced, IsMaxContext, Query, Subtokens.Of, IsAnswerSpan;
    var f := ctx.features[c.featureIndex];
    assert Faithful(f, config, Query(example, config, tokenize), conversion.s, vocabulary, conversion.spans);
  }
}
