/**
 The BERT benchmark's conversion of a question and a document into fixed-length model inputs.

 The tokenizer and the vocabulary belong to another library: they are parameters.
 */
module SquadFeatures {
  import opened Options
  import opened SquadAnswers
  import opened SquadWindows
  import opened Text

  datatype Example = Example(
    question: string,
    docTokens: seq<string>,
    answer: Option<Answer>,
    isImpossible: bool)

  datatype Config = Config(maxSeqLength: nat, docStride: int, maxQueryLength: nat, isTraining: bool)

  datatype Feature = Feature(
    uniqueId: int,
    exampleIndex: nat,
    docSpanIndex: nat,
    tokens: seq<string>,
    tokenToOrigMap: map<int, int>,
    tokenIsMaxContext: map<int, bool>,
    inputIds: seq<int>,
    inputMask: seq<int>,
    segmentIds: seq<int>,
    startPosition: Option<int>,
    endPosition: Option<int>,
    isImpossible: bool)

  type Tokenizer = string -> seq<string>
  type Vocabulary = string -> int

  const FIRST_UNIQUE_ID := 1000000000

  // ---------- Words and subtokens ----------

  /** The subtokens of a document with both index maps. */
  datatype Subtokens = Subtokens(tokToOrig: seq<int>, origToTok: seq<int>, all: seq<string>) {

    /** Where the subtokens of word `i` end. */
    function WordEnd(i: nat): int
      requires i < |origToTok|
    {
      if i + 1 < |origToTok| then origToTok[i + 1] else |all|
    }

    /** Word `i` owns one stretch of the subtokens, its own tokenization. */
    ghost predicate Owns(i: nat, pieces: seq<string>) {
      i < |origToTok| && 0 <= origToTok[i] <= WordEnd(i) <= |all| && all[origToTok[i]..WordEnd(i)] == pieces
    }

    /** Subtoken `t` lies in the stretch of the word it is mapped to. */
    ghost predicate Placed(t: nat) {
      && t < |tokToOrig|
      && 0 <= tokToOrig[t] < |origToTok|
      && origToTok[tokToOrig[t]] <= t < WordEnd(tokToOrig[t])
    }

    /** These are the subtokens of the first `n` words. */
    ghost predicate OfFirst(n: nat, words: seq<string>, tokenize: Tokenizer) {
      && n <= |words|
      && |origToTok| == n && |tokToOrig| == |all|
      && (if n == 0 then all == [] else origToTok[0] == 0)
      && (forall i :: 0 <= i < n ==> Owns(i, tokenize(words[i])))
      && (forall t :: 0 <= t < |all| ==> Placed(t))
    }

    ghost predicate Of(words: seq<string>, tokenize: Tokenizer) {
      OfFirst(|words|, words, tokenize)
    }
  }

  /** How many subtokens the words have together. */
  function SubtokenCount(words: seq<string>, tokenize: Tokenizer): nat {
    if words == [] then 0
    else SubtokenCount(words[..|words| - 1], tokenize) + |tokenize(words[|words| - 1])|
  }

  method Tokenize(words: seq<string>, tokenize: Tokenizer) returns (s: Subtokens)
    ensures s.Of(words, tokenize) && |s.all| == SubtokenCount(words, tokenize)
  {
    var tokToOrigIndex: seq<int>, origToTokIndex: seq<int>, allDocTokens: seq<string> := [], [], [];
    for i := 0 to |words|
      invariant Subtokens(tokToOrigIndex, origToTokIndex, allDocTokens).OfFirst(i, words, tokenize)
      invariant |allDocTokens| == SubtokenCount(words[..i], tokenize)
    {
      ghost var before := Subtokens(tokToOrigIndex, origToTokIndex, allDocTokens);
      origToTokIndex := origToTokIndex + [|allDocTokens|];
      var subTokens := tokenize(words[i]);
      for j := 0 to |subTokens|
        invariant |allDocTokens| == |tokToOrigIndex| == |before.all| + j
        invariant before.all <= allDocTokens && before.tokToOrig <= tokToOrigIndex
        invariant forall p :: |before.all| <= p < |before.all| + j ==>
            allDocTokens[p] == subTokens[p - |before.all|] && tokToOrigIndex[p] == i
      {
        tokToOrigIndex := tokToOrigIndex + [i];
        allDocTokens := allDocTokens + [subTokens[j]];
      }
      OneMoreWord(words, tokenize, i, before, Subtokens(tokToOrigIndex, origToTokIndex, allDocTokens));
      assert words[..i + 1][..i] == words[..i];
    }
    assert words[..|words|] == words;
    s := Subtokens(tokToOrigIndex, origToTokIndex, allDocTokens);
  }

  /** `t` continues `s` by the subtokens of word `i`. */
  ghost predicate Continues(s: Subtokens, t: Subtokens, i: nat, pieces: seq<string>) {
    && |s.origToTok| == i && |t.origToTok| == i + 1 && s.origToTok <= t.origToTok && t.origToTok[i] == |s.all|
    && |t.all| == |s.all| + |pieces| && s.all <= t.all
    && (forall p :: |s.all| <= p < |t.all| ==> t.all[p] == pieces[p - |s.all|])
    && |t.tokToOrig| == |t.all| && |s.tokToOrig| == |s.all| && s.tokToOrig <= t.tokToOrig
    && (forall p :: |s.all| <= p < |t.all| ==> t.tokToOrig[p] == i)
  }

  lemma OneMoreWord(words: seq<string>, tokenize: Tokenizer, i: nat, s: Subtokens, t: Subtokens)
    requires i < |words| && s.OfFirst(i, words, tokenize) && Continues(s, t, i, tokenize(words[i]))
    ensures t.OfFirst(i + 1, words, tokenize)
  {
    forall k | 0 <= k < i + 1 ensures t.Owns(k, tokenize(words[k])) {
      if k < i { EarlierWord(s, t, i, tokenize(words[i]), k, tokenize(words[k])); }
      else { assert t.all[|s.all|..|t.all|] == tokenize(words[i]); }
    }
    forall p | 0 <= p < |t.all| ensures t.Placed(p) {
      if p < |s.all| { EarlierToken(s, t, i, tokenize(words[i]), p); }
    }
  }

  lemma EarlierWord(s: Subtokens, t: Subtokens, i: nat, last: seq<string>, k: nat, pieces: seq<string>)
    requires Continues(s, t, i, last) && k < i && s.Owns(k, pieces)
    ensures t.Owns(k, pieces) && t.WordEnd(k) == s.WordEnd(k)
  {
    assert t.origToTok[k] == s.origToTok[k] && t.WordEnd(k) == s.WordEnd(k);
    assert t.all[..|s.all|] == s.all;
    assert t.all[t.origToTok[k]..t.WordEnd(k)] == t.all[..|s.all|][t.origToTok[k]..t.WordEnd(k)];
  }

  lemma EarlierToken(s: Subtokens, t: Subtokens, i: nat, last: seq<string>, p: nat)
    requires Continues(s, t, i, last) && s.Placed(p)
    ensures t.Placed(p)
  {
    assert t.tokToOrig[p] == s.tokToOrig[p];
    var k := s.tokToOrig[p];
    assert t.origToTok[k] == s.origToTok[k] && t.WordEnd(k) == s.WordEnd(k);
  }

  /** A later word starts no earlier. */
  lemma {:induction false} StartsInOrder(s: Subtokens, words: seq<string>, tokenize: Tokenizer, i: nat, j: nat)
    requires s.Of(words, tokenize) && i <= j < |words|
    ensures 0 <= s.origToTok[i] <= s.origToTok[j]
    decreases j - i
  {
    assert s.Owns(i, tokenize(words[i]));
    if i < j {
      hide *;
      StartsInOrder(s, words, tokenize, i + 1, j);
    }
  }

  // ---------- The answer span ----------

  ghost predicate SpansText(docTokens: seq<string>, start: int, end: int, text: string) {
    0 <= start <= end + 1 <= |docTokens| && Join(docTokens[start..end + 1], " ") == text
  }

  /** `(start, end)` is the first start, and for it the last end, whose subtokens spell the answer. */
  ghost predicate IsImproved(
    docTokens: seq<string>, inputStart: int, inputEnd: int, text: string, start: int, end: int)
  {
    && inputStart <= start <= end <= inputEnd
    && SpansText(docTokens, start, end, text)
    && (forall e :: end < e <= inputEnd ==> !SpansText(docTokens, start, e, text))
    && (forall s, e :: inputStart <= s < start && s <= e <= inputEnd ==> !SpansText(docTokens, s, e, text))
  }

  method ImproveAnswerSpan(
    docTokens: seq<string>, inputStart: int, inputEnd: int, tokenize: Tokenizer, origAnswerText: string)
    returns (start: int, end: int)
    requires 0 <= inputStart && inputEnd < |docTokens|
    ensures var text := Join(tokenize(origAnswerText), " ");
            if exists s, e :: inputStart <= s <= e <= inputEnd && SpansText(docTokens, s, e, text)
            then IsImproved(docTokens, inputStart, inputEnd, text, start, end)
            else start == inputStart && end == inputEnd
  {
    var tokAnswerText := Join(tokenize(origAnswerText), " ");
    var newStart := inputStart;
    while newStart < inputEnd + 1
      invariant inputStart <= newStart
      invariant forall s, e :: inputStart <= s < newStart && s <= e <= inputEnd ==>
          !SpansText(docTokens, s, e, tokAnswerText)
      decreases inputEnd + 1 - newStart
    {
      var newEnd := inputEnd;
      while newEnd > newStart - 1
        invariant newStart - 1 <= newEnd <= inputEnd
        invariant forall e :: newEnd < e <= inputEnd ==> !SpansText(docTokens, newStart, e, tokAnswerText)
      {
        var textSpan := Join(docTokens[newStart..newEnd + 1], " ");
        if textSpan == tokAnswerText {
          assert SpansText(docTokens, newStart, newEnd, tokAnswerText);
          return newStart, newEnd;
        }
        newEnd := newEnd - 1;
      }
      newStart := newStart + 1;
    }
    return inputStart, inputEnd;
  }

  // ---------- One feature ----------

  predicate InBounds(span: DocSpan, s: Subtokens) {
    0 <= span.start && 0 <= span.length && span.End() <= |s.all| == |s.tokToOrig|
  }

  /** Both maps are on exactly the positions of one window, the first of which is `off`. */
  ghost predicate Mapped(
    s: Subtokens, spans: seq<DocSpan>, index: nat, off: nat, toOrig: map<int, int>, isMax: map<int, bool>)
  {
    && index < |spans| && InBounds(spans[index], s)
    && var span := spans[index];
    && (forall p :: p in toOrig <==> off <= p < off + span.length)
    && (forall p :: p in isMax <==> off <= p < off + span.length)
    && (forall p :: off <= p < off + span.length ==>
          && toOrig[p] == s.tokToOrig[span.start + p - off]
          && (isMax[p] <==> IsMaxContext(spans, index, span.start + p - off)))
  }

  /** The tokens of one window between their markers, and both maps. */
  ghost predicate Packed(
    query: seq<string>, s: Subtokens, spans: seq<DocSpan>, index: nat,
    tokens: seq<string>, toOrig: map<int, int>, isMax: map<int, bool>)
  {
    && index < |spans| && InBounds(spans[index], s)
    && tokens == ["[CLS]"] + query + ["[SEP]"] + s.all[spans[index].start..spans[index].End()] + ["[SEP]"]
    && Mapped(s, spans, index, |query| + 2, toOrig, isMax)
  }

  /** What the model input for one window of a document has to be. */
  ghost predicate Faithful(
    f: Feature, config: Config, query: seq<string>, s: Subtokens, vocabulary: Vocabulary, spans: seq<DocSpan>)
  {
    && Packed(query, s, spans, f.docSpanIndex, f.tokens, f.tokenToOrigMap, f.tokenIsMaxContext)
    && |f.tokens| <= |f.inputIds| == |f.inputMask| == |f.segmentIds| == config.maxSeqLength
    && (forall p :: 0 <= p < config.maxSeqLength ==>
          && f.inputIds[p] == (if p < |f.tokens| then vocabulary(f.tokens[p]) else 0)
          && f.inputMask[p] == (if p < |f.tokens| then 1 else 0)
          && f.segmentIds[p] == (if |query| + 2 <= p < |f.tokens| then 1 else 0))
  }

  method PackQuery(query: seq<string>) returns (tokens: seq<string>, segmentIds: seq<int>)
    ensures tokens == ["[CLS]"] + query + ["[SEP]"]
    ensures |segmentIds| == |tokens| && forall p :: 0 <= p < |segmentIds| ==> segmentIds[p] == 0
  {
    tokens, segmentIds := ["[CLS]"], [0];
    for j := 0 to |query|
      invariant tokens == ["[CLS]"] + query[..j]
      invariant |segmentIds| == |tokens| && forall p :: 0 <= p < |segmentIds| ==> segmentIds[p] == 0
    {
      tokens := tokens + [query[j]];
      segmentIds := segmentIds + [0];
    }
    tokens := tokens + ["[SEP]"];
    segmentIds := segmentIds + [0];
  }

  lemma Appended(tokens: seq<string>, head: seq<string>, all: seq<string>, from: nat, to: nat)
    requires from <= to <= |all| && |tokens| == |head| + to - from && head <= tokens
    requires forall p :: |head| <= p < |tokens| ==> tokens[p] == all[from + p - |head|]
    ensures tokens == head + all[from..to]
  {
  }

  /** Adds the tokens of one window behind the query, with both maps. */
  method PackWindow(
    head: seq<string>, headIds: seq<int>, s: Subtokens, spans: seq<DocSpan>, docSpanIndex: nat)
    returns (
      tokens: seq<string>, tokenToOrigMap: map<int, int>, tokenIsMaxContext: map<int, bool>, segmentIds: seq<int>)
    requires docSpanIndex < |spans| && InBounds(spans[docSpanIndex], s) && |headIds| == |head|
    ensures tokens == head + s.all[spans[docSpanIndex].start..spans[docSpanIndex].End()]
    ensures Mapped(s, spans, docSpanIndex, |head|, tokenToOrigMap, tokenIsMaxContext)
    ensures |segmentIds| == |tokens|
    ensures forall p :: 0 <= p < |tokens| ==> segmentIds[p] == if |head| <= p then 1 else headIds[p]
  {
    hide IsMaxContext;
    var docSpan := spans[docSpanIndex];
    tokens, segmentIds := head, headIds;
    tokenToOrigMap, tokenIsMaxContext := map[], map[];
    ghost var off := |head|;
    for i := 0 to docSpan.length
      invariant |tokens| == |segmentIds| == off + i && head <= tokens
      invariant forall p :: off <= p < off + i ==> tokens[p] == s.all[docSpan.start + p - off]
      invariant forall p :: 0 <= p < |segmentIds| ==> segmentIds[p] == if off <= p then 1 else headIds[p]
      invariant forall p :: p in tokenToOrigMap <==> off <= p < off + i
      invariant forall p :: p in tokenIsMaxContext <==> off <= p < off + i
      invariant forall p :: off <= p < off + i ==> tokenToOrigMap[p] == s.tokToOrig[docSpan.start + p - off]
      invariant forall p :: off <= p < off + i ==>
          (tokenIsMaxContext[p] <==> IsMaxContext(spans, docSpanIndex, docSpan.start + p - off))
    {
      var splitTokenIndex := docSpan.start + i;
      tokenToOrigMap := tokenToOrigMap[|tokens| := s.tokToOrig[splitTokenIndex]];
      var isMaxContext := CheckIsMaxContext(spans, docSpanIndex, splitTokenIndex);
      tokenIsMaxContext := tokenIsMaxContext[|tokens| := isMaxContext];
      tokens := tokens + [s.all[splitTokenIndex]];
      segmentIds := segmentIds + [1];
    }
    Appended(tokens, head, s.all, docSpan.start, docSpan.End());
  }

  method PackTokens(query: seq<string>, s: Subtokens, spans: seq<DocSpan>, docSpanIndex: nat)
    returns (
      tokens: seq<string>, tokenToOrigMap: map<int, int>, tokenIsMaxContext: map<int, bool>, segmentIds: seq<int>)
    requires docSpanIndex < |spans| && InBounds(spans[docSpanIndex], s)
    ensures Packed(query, s, spans, docSpanIndex, tokens, tokenToOrigMap, tokenIsMaxContext)
    ensures |segmentIds| == |tokens|
    ensures forall p :: 0 <= p < |tokens| ==> segmentIds[p] == if |query| + 2 <= p then 1 else 0
  {
    hide IsMaxContext, Mapped;
    var head, headIds := PackQuery(query);
    tokens, tokenToOrigMap, tokenIsMaxContext, segmentIds := PackWindow(head, headIds, s, spans, docSpanIndex);
    tokens := tokens + ["[SEP]"];
    segmentIds := segmentIds + [1];
  }

  /** Zero-pads the inputs; the source then asserts the three lengths. */
  method Pad(tokens: seq<string>, segments: seq<int>, vocabulary: Vocabulary, maxSeqLength: nat)
    returns (inputIds: seq<int>, inputMask: seq<int>, segmentIds: seq<int>)
    requires |segments| == |tokens| <= maxSeqLength
    ensures |inputIds| == |inputMask| == |segmentIds| == maxSeqLength
    ensures forall p :: 0 <= p < maxSeqLength ==>
        && inputIds[p] == (if p < |tokens| then vocabulary(tokens[p]) else 0)
        && inputMask[p] == (if p < |tokens| then 1 else 0)
        && segmentIds[p] == (if p < |tokens| then segments[p] else 0)
  {
    inputIds := seq(|tokens|, i requires 0 <= i < |tokens| => vocabulary(tokens[i]));
    inputMask := seq(|inputIds|, _ => 1);
    segmentIds := segments;
    while |inputIds| < maxSeqLength
      invariant |tokens| <= |inputIds| == |inputMask| == |segmentIds| <= maxSeqLength
      invariant forall p :: 0 <= p < |inputIds| ==>
          && inputIds[p] == (if p < |tokens| then vocabulary(tokens[p]) else 0)
          && inputMask[p] == (if p < |tokens| then 1 else 0)
          && segmentIds[p] == (if p < |tokens| then segments[p] else 0)
      decreases maxSeqLength - |inputIds|
    {
      inputIds := inputIds + [0];
      inputMask := inputMask + [0];
      segmentIds := segmentIds + [0];
    }
    assert |inputIds| == maxSeqLength;
    assert |inputMask| == maxSeqLength;
    assert |segmentIds| == maxSeqLength;
  }

  // ---------- All features of one example ----------

  function Query(example: Example, config: Config, tokenize: Tokenizer): seq<string> {
    var q := tokenize(example.question);
    if |q| > config.maxQueryLength then q[..config.maxQueryLength] else q
  }

  /** Room for document tokens beside the query and its three separators. */
  function Window(example: Example, config: Config, tokenize: Tokenizer): int {
    config.maxSeqLength - |Query(example, config, tokenize)| - 3
  }

  /** The loop that cuts the document into windows ends. */
  predicate Fits(example: Example, config: Config, tokenize: Tokenizer) {
    Productive(SubtokenCount(example.docTokens, tokenize), Window(example, config, tokenize), config.docStride)
  }

  /** The look-ups for an answer's words succeed; Python counts negative indices from the end. */
  predicate Answerable(answer: Answer, n: nat) {
    ListIndex(answer.start, n).Some? && (answer.end < n - 1 ==> ListIndex(answer.end + 1, n).Some?)
  }

  /** The conversion raises no error: a training example has an answer, unless it is marked impossible. */
  predicate Convertible(example: Example, config: Config) {
    config.isTraining && !example.isImpossible ==>
      example.answer.Some? && Answerable(example.answer.value, |example.docTokens|)
  }

  /** Every answer that is kept when its context is read can be converted, unless the context has no word. */
  lemma KeptIsAnswerable(
    context: string, docTokens: seq<string>, charToWord: seq<int>, annotation: Annotation, tokenize: Tokenizer)
    requires Scanned(context, docTokens, charToWord)
    requires ReadAnswer(docTokens, charToWord, annotation, tokenize).Kept?
    ensures var answer := ReadAnswer(docTokens, charToWord, annotation, tokenize).answer;
            Answerable(answer, |docTokens|) <==> docTokens != []
  {
    hide ReadAnswer, Scanned;
    KeptInRange(context, docTokens, charToWord, annotation, tokenize);
  }

  /** The first subtoken of the answer's first word. */
  function FirstToken(answer: Answer, s: Subtokens): int
    requires Answerable(answer, |s.origToTok|)
  {
    s.origToTok[ListIndex(answer.start, |s.origToTok|).value]
  }

  /** The last subtoken of the answer's last word: the one before the next word, if there is one. */
  function LastToken(answer: Answer, s: Subtokens): int
    requires Answerable(answer, |s.origToTok|)
  {
    var n := |s.origToTok|;
    if answer.end < n - 1 then s.origToTok[ListIndex(answer.end + 1, n).value] - 1 else |s.all| - 1
  }

  /** For an answer on words of the document, these are the ends of its words' stretches. */
  lemma TokensOfWords(answer: Answer, s: Subtokens, words: seq<string>, tokenize: Tokenizer)
    requires s.Of(words, tokenize) && 0 <= answer.start <= answer.end < |words|
    ensures Answerable(answer, |s.origToTok|)
    ensures FirstToken(answer, s) == s.origToTok[answer.start]
    ensures LastToken(answer, s) == s.WordEnd(answer.end) - 1
    ensures FirstToken(answer, s) <= LastToken(answer, s) + 1
  {
    StartsInOrder(s, words, tokenize, answer.start, answer.end);
    assert s.Owns(answer.end, tokenize(words[answer.end]));
  }

  /** The subtokens of an annotated answer: the stretch of its words, narrowed to its text if possible. */
  ghost predicate IsAnswerSpan(answer: Answer, s: Subtokens, tokenize: Tokenizer, start: int, end: int)
    requires Answerable(answer, |s.origToTok|)
  {
    var first, last := FirstToken(answer, s), LastToken(answer, s);
    var text := Join(tokenize(answer.text), " ");
    && 0 <= first <= start && end <= last < |s.all|
    && if exists b, e :: first <= b <= e <= last && SpansText(s.all, b, e, text)
       then IsImproved(s.all, first, last, text, start, end)
       else start == first && end == last
  }

  method AnswerSpan(example: Example, s: Subtokens, tokenize: Tokenizer) returns (start: int, end: int)
    requires s.Of(example.docTokens, tokenize)
    requires example.answer.Some? && Answerable(example.answer.value, |example.docTokens|)
    ensures IsAnswerSpan(example.answer.value, s, tokenize, start, end)
    ensures 0 <= start && end < |s.all|
  {
    var answer := example.answer.value;
    var n := |example.docTokens|;
    forall i | 0 <= i < n ensures 0 <= s.origToTok[i] <= |s.all| { assert s.Owns(i, tokenize(example.docTokens[i])); }
    var tokStartPosition, tokEndPosition := s.origToTok[ListIndex(answer.start, n).value], 0;
    if answer.end < n - 1 {
      tokEndPosition := s.origToTok[ListIndex(answer.end + 1, n).value] - 1;
    } else {
      tokEndPosition := |s.all| - 1;
    }
    start, end := ImproveAnswerSpan(s.all, tokStartPosition, tokEndPosition, tokenize, answer.text);
  }

  /** Where a feature says the answer is: not at all, at the front, or exactly on the answer's subtokens. */
  ghost predicate AnswerPlaced(
    f: Feature, config: Config, query: seq<string>, s: Subtokens, span: DocSpan, impossible: bool, start: int, end: int)
  {
    if !config.isTraining then f.startPosition == None && f.endPosition == None
    else if impossible || !(span.start <= start && end <= span.End() - 1) then
      f.startPosition == Some(0) && f.endPosition == Some(0)
    else
      && f.startPosition == Some(start - span.start + |query| + 2)
      && f.endPosition == Some(end - span.start + |query| + 2)
      && (start <= end + 1 ==> CutsOut(f.tokens, f.startPosition.value, f.endPosition.value, s.all, start, end))
  }

  /** Tokens `a` to `b` of the input are subtokens `start` to `end` of the document. */
  ghost predicate CutsOut(tokens: seq<string>, a: int, b: int, all: seq<string>, start: int, end: int) {
    && 0 <= a <= b + 1 <= |tokens| && 0 <= start <= end + 1 <= |all|
    && tokens[a..b + 1] == all[start..end + 1]
  }

  method BuildFeature(
    config: Config, query: seq<string>, s: Subtokens, vocabulary: Vocabulary, spans: seq<DocSpan>, docSpanIndex: nat,
    impossible: bool, tokStart: int, tokEnd: int, uniqueId: int, exampleIndex: nat) returns (f: Feature)
    requires docSpanIndex < |spans| && InBounds(spans[docSpanIndex], s)
    requires |query| + spans[docSpanIndex].length + 3 <= config.maxSeqLength
    requires config.isTraining && !impossible ==> 0 <= tokStart && tokEnd < |s.all|
    ensures Faithful(f, config, query, s, vocabulary, spans)
    ensures AnswerPlaced(f, config, query, s, spans[docSpanIndex], impossible, tokStart, tokEnd)
    ensures f.uniqueId == uniqueId && f.exampleIndex == exampleIndex && f.docSpanIndex == docSpanIndex
    ensures f.isImpossible == impossible
  {
    var docSpan := spans[docSpanIndex];
    var tokens, toOrig, isMax, segments := PackTokens(query, s, spans, docSpanIndex);
    var inputIds, inputMask, segmentIds := Pad(tokens, segments, vocabulary, config.maxSeqLength);
    var startPosition, endPosition := None, None;
    if config.isTraining && !impossible {
      var docStart, docEnd := docSpan.start, docSpan.start + docSpan.length - 1;
      if !(tokStart >= docStart && tokEnd <= docEnd) {
        startPosition, endPosition := Some(0), Some(0);
      } else {
        var docOffset := |query| + 2;
        startPosition := Some(tokStart - docStart + docOffset);
        endPosition := Some(tokEnd - docStart + docOffset);
        if tokStart <= tokEnd + 1 { CutOut(query, s, docSpan, tokens, tokStart, tokEnd); }
      }
    }
    if config.isTraining && impossible {
      startPosition, endPosition := Some(0), Some(0);
    }
    f := Feature(uniqueId, exampleIndex, docSpanIndex, tokens, toOrig, isMax, inputIds, inputMask, segmentIds,
                 startPosition, endPosition, impossible);
  }

  /** Shifting by the query's width takes a stretch of the document to the same tokens of the input. */
  lemma CutOut(query: seq<string>, s: Subtokens, span: DocSpan, tokens: seq<string>, start: int, end: int)
    requires InBounds(span, s) && span.start <= start <= end + 1 <= span.End()
    requires tokens == ["[CLS]"] + query + ["[SEP]"] + s.all[span.start..span.End()] + ["[SEP]"]
    ensures var shift := |query| + 2 - span.start;
            && start + shift <= end + shift + 1 <= |tokens|
            && tokens[start + shift..end + shift + 1] == s.all[start..end + 1]
  {
    forall t | start <= t <= end
      ensures 0 <= t + (|query| + 2 - span.start) < |tokens| && tokens[t + (|query| + 2 - span.start)] == s.all[t]
    {
      TokenAt(query, s, span, tokens, t);
    }
    SameStretch(tokens, s.all, |query| + 2 - span.start, start, end);
  }

  lemma SameStretch(a: seq<string>, b: seq<string>, shift: int, start: int, end: int)
    requires 0 <= start <= end + 1 <= |b| && 0 <= start + shift && end + shift + 1 <= |a|
    requires forall t :: start <= t <= end ==> a[t + shift] == b[t]
    ensures a[start + shift..end + shift + 1] == b[start..end + 1]
  {
  }

  /** One feature for each window of the document, each faithful and with the answer in its place. */
  ghost predicate Converted(
    fs: seq<Feature>, example: Example, exampleIndex: nat, firstId: int, config: Config, tokenize: Tokenizer,
    vocabulary: Vocabulary, s: Subtokens, spans: seq<DocSpan>, start: int, end: int)
  {
    && s.Of(example.docTokens, tokenize)
    && Convertible(example, config)
    && (config.isTraining && !example.isImpossible ==> IsAnswerSpan(example.answer.value, s, tokenize, start, end))
    && Covers(spans, |s.all|, Window(example, config, tokenize), config.docStride)
    && |fs| == |spans|
    && forall k :: 0 <= k < |fs| ==>
         && Faithful(fs[k], config, Query(example, config, tokenize), s, vocabulary, spans)
         && AnswerPlaced(fs[k], config, Query(example, config, tokenize), s, spans[k], example.isImpossible, start, end)
         && fs[k].uniqueId == firstId + k && fs[k].exampleIndex == exampleIndex && fs[k].docSpanIndex == k
         && fs[k].isImpossible == example.isImpossible
  }

  /** The features of one example, with the subtokens, windows and answer span they were built from. */
  datatype Conversion = Conversion(fs: seq<Feature>, s: Subtokens, spans: seq<DocSpan>, start: int, end: int) {
    ghost predicate Of(
      e: nat, firstId: int, example: Example, config: Config, tokenize: Tokenizer, vocabulary: Vocabulary)
    {
      Converted(fs, example, e, firstId, config, tokenize, vocabulary, s, spans, start, end)
    }
  }

  /** The features of one example: for its subtokens, its windows and its answer span. */
  ghost predicate ConvertedFrom(
    fs: seq<Feature>, example: Example, exampleIndex: nat, firstId: int, config: Config, tokenize: Tokenizer,
    vocabulary: Vocabulary)
  {
    exists conversion: Conversion ::
      conversion.fs == fs && conversion.Of(exampleIndex, firstId, example, config, tokenize, vocabulary)
  }

  method ConvertExample(
    example: Example, exampleIndex: nat, firstId: int, config: Config, tokenize: Tokenizer, vocabulary: Vocabulary)
    returns (result: Option<seq<Feature>>)
    requires Convertible(example, config) ==> Fits(example, config, tokenize)
    ensures result.Some? <==> Convertible(example, config)
    ensures result.Some? ==> ConvertedFrom(result.value, example, exampleIndex, firstId, config, tokenize, vocabulary)
  {
    hide IsAnswerSpan, Faithful, AnswerPlaced, Covers, Subtokens.Owns, Subtokens.Placed;
    var query := Query(example, config, tokenize);
    var sub := Tokenize(example.docTokens, tokenize);
    var tokStart, tokEnd := -1, -1;
    if config.isTraining && !example.isImpossible {
      if example.answer.None? || !Answerable(example.answer.value, |example.docTokens|) {
        return None;
      }
      tokStart, tokEnd := AnswerSpan(example, sub, tokenize);
    }
    var maxTokensForDoc := config.maxSeqLength - |query| - 3;
    var docSpans := DocSpans(|sub.all|, maxTokensForDoc, config.docStride);
    var fs: seq<Feature> := [];
    for k := 0 to |docSpans|
      invariant |fs| == k
      invariant forall i :: 0 <= i < k ==>
          && Faithful(fs[i], config, query, sub, vocabulary, docSpans)
          && AnswerPlaced(fs[i], config, query, sub, docSpans[i], example.isImpossible, tokStart, tokEnd)
          && fs[i].uniqueId == firstId + i && fs[i].exampleIndex == exampleIndex && fs[i].docSpanIndex == i
          && fs[i].isImpossible == example.isImpossible
    {
      WindowInBounds(docSpans, |sub.all|, maxTokensForDoc, config.docStride, k);
      var f := BuildFeature(config, query, sub, vocabulary, docSpans, k, example.isImpossible, tokStart, tokEnd,
                            firstId + k, exampleIndex);
      fs := fs + [f];
    }
    ghost var conversion := Conversion(fs, sub, docSpans, tokStart, tokEnd);
    assert conversion.Of(exampleIndex, firstId, example, config, tokenize, vocabulary);
    result := Some(fs);
  }

  lemma {:induction false} WindowInBounds(spans: seq<DocSpan>, n: nat, window: int, stride: int, k: nat)
    requires Covers(spans, n, window, stride) && Productive(n, window, stride) && k < |spans|
    ensures 0 <= spans[k].start && 1 <= spans[k].length <= window && spans[k].End() <= n
  {
    if k > 0 {
      WindowInBounds(spans, n, window, stride, k - 1);
      assert spans[(k - 1) + 1].start == spans[k - 1].start + Min(window, stride);
    }
    assert k < |spans| - 1 ==> spans[k].End() < n;
  }

  /**
   Every model input of an example begins with its question, cut to the allowed length, between two
   markers, as segment 0; all inputs but the last are full; all carry the example's mark.
   */
  lemma QuestionInEveryFeature(
    fs: seq<Feature>, example: Example, exampleIndex: nat, firstId: int, config: Config, tokenize: Tokenizer,
    vocabulary: Vocabulary, k: nat)
    requires ConvertedFrom(fs, example, exampleIndex, firstId, config, tokenize, vocabulary) && k < |fs|
    ensures var f, q := fs[k], tokenize(example.question);
            var m := if |q| <= config.maxQueryLength then |q| else config.maxQueryLength;
            && m + 3 < |f.tokens| <= config.maxSeqLength
            && f.tokens[0] == "[CLS]" && f.tokens[1..1 + m] == q[..m] && f.tokens[1 + m] == "[SEP]"
            && f.tokens[|f.tokens| - 1] == "[SEP]"
            && |f.segmentIds| == config.maxSeqLength && (forall p :: 0 <= p < m + 2 ==> f.segmentIds[p] == 0)
            && (k < |fs| - 1 ==> |f.tokens| == config.maxSeqLength)
            && f.isImpossible == example.isImpossible
  {
    hide IsMaxContext, Subtokens.Of, AnswerPlaced, IsAnswerSpan, Covers;
    var c: Conversion :| c.fs == fs && c.Of(exampleIndex, firstId, example, config, tokenize, vocabulary);
    var window := Window(example, config, tokenize);
    assert Faithful(fs[k], config, Query(example, config, tokenize), c.s, vocabulary, c.spans);
    WindowLengths(c.spans, |c.s.all|, window, config.docStride, k);
    var f, q := fs[k], tokenize(example.question);
    var m := if |q| <= config.maxQueryLength then |q| else config.maxQueryLength;
    assert f.tokens[1..1 + m] == q[..m];
  }

  /** What the model is given: the tokens' ids, a mask of ones on them, segment 1 on the document part, zeros behind. */
  lemma InputsOfFeature(
    fs: seq<Feature>, example: Example, exampleIndex: nat, firstId: int, config: Config, tokenize: Tokenizer,
    vocabulary: Vocabulary, k: nat, p: nat)
    requires ConvertedFrom(fs, example, exampleIndex, firstId, config, tokenize, vocabulary) && k < |fs|
    requires p < config.maxSeqLength
    ensures var f, q := fs[k], tokenize(example.question);
            var m := if |q| <= config.maxQueryLength then |q| else config.maxQueryLength;
            && |f.inputIds| == |f.inputMask| == |f.segmentIds| == config.maxSeqLength
            && if p < |f.tokens| then
                 && f.inputIds[p] == vocabulary(f.tokens[p]) && f.inputMask[p] == 1
                 && f.segmentIds[p] == (if p < m + 2 then 0 else 1)
               else f.inputIds[p] == 0 && f.inputMask[p] == 0 && f.segmentIds[p] == 0
  {
    hide Packed, Subtokens.Of, AnswerPlaced, IsAnswerSpan, Covers;
    var c: Conversion :| c.fs == fs && c.Of(exampleIndex, firstId, example, config, tokenize, vocabulary);
    assert Faithful(fs[k], config, Query(example, config, tokenize), c.s, vocabulary, c.spans);
  }

  /**
   In training, if the answer's text is spelled by subtokens of its words, then the positions in every
   feature cut out tokens that spell it, or are both 0 because the window does not have them all.
   */
  lemma PositionsSpellAnswer(
    example: Example, exampleIndex: nat, firstId: int, config: Config, tokenize: Tokenizer, vocabulary: Vocabulary,
    c: Conversion, k: nat, b: int, e: int)
    requires c.Of(exampleIndex, firstId, example, config, tokenize, vocabulary) && k < |c.fs|
    requires config.isTraining && !example.isImpossible && example.answer.Some?
    requires Answerable(example.answer.value, |c.s.origToTok|)
    requires FirstToken(example.answer.value, c.s) <= b <= e <= LastToken(example.answer.value, c.s)
    requires 0 <= b && e < |c.s.all| && Join(c.s.all[b..e + 1], " ") == Join(tokenize(example.answer.value.text), " ")
    ensures var f := c.fs[k];
            && f.startPosition.Some? && f.endPosition.Some?
            && if c.spans[k].start <= c.start && c.end < c.spans[k].End() then
                 && 0 < f.startPosition.value <= f.endPosition.value < |f.tokens|
                 && Join(f.tokens[f.startPosition.value..f.endPosition.value + 1], " ") ==
                      Join(tokenize(example.answer.value.text), " ")
               else f.startPosition.value == 0 && f.endPosition.value == 0
  {
    hide Join, Faithful, Covers, Subtokens.Of, FirstToken, LastToken, Answerable;
    assert SpansText(c.s.all, b, e, Join(tokenize(example.answer.value.text), " "));
    assert AnswerPlaced(c.fs[k], config, Query(example, config, tokenize), c.s, c.spans[k], example.isImpossible,
                        c.start, c.end);
  }

  lemma WindowLengths(spans: seq<DocSpan>, n: nat, window: int, stride: int, k: nat)
    requires Covers(spans, n, window, stride) && k < |spans|
    ensures 1 <= spans[k].length <= window && (k < |spans| - 1 ==> spans[k].length == window)
  {
  }

  /**
   Over all features of an example, every subtoken of the document is flagged for scoring at exactly
   one place, and that place holds it.
   */
  lemma EachSubtokenScoredOnce(
    fs: seq<Feature>, example: Example, exampleIndex: nat, firstId: int, config: Config, tokenize: Tokenizer,
    vocabulary: Vocabulary, s: Subtokens, spans: seq<DocSpan>, start: int, end: int, t: nat)
    requires Converted(fs, example, exampleIndex, firstId, config, tokenize, vocabulary, s, spans, start, end)
    requires t < |s.all|
    ensures exists k, p ::
        && Scores(fs, spans, Query(example, config, tokenize), k, p, t)
        && 0 <= p < |fs[k].tokens| && fs[k].tokens[p] == s.all[t]
        && fs[k].tokenToOrigMap[p] == s.tokToOrig[t]
        && forall j, q :: Scores(fs, spans, Query(example, config, tokenize), j, q, t) ==> j == k && q == p
  {
    hide Faithful, Packed, AnswerPlaced, IsMaxContext;
    var query := Query(example, config, tokenize);
    ExactlyOneMaxContext(spans, |s.all|, Window(example, config, tokenize), config.docStride, t);
    var k :| IsMaxContext(spans, k, t) && forall j :: IsMaxContext(spans, j, t) ==> j == k;
    MaxContextContains(spans, k, t);
    var p := t - spans[k].start + |query| + 2;
    ScoredAt(fs[k], config, query, s, vocabulary, spans, p, t);
    forall j, q | Scores(fs, spans, query, j, q, t) ensures j == k && q == p {
      ScoredAt(fs[j], config, query, s, vocabulary, spans, q, t);
    }
  }

  lemma MaxContextContains(spans: seq<DocSpan>, k: int, t: int)
    requires IsMaxContext(spans, k, t)
    ensures 0 <= k < |spans| && spans[k].Contains(t)
  {
  }

  /** In one feature, a position is flagged for a subtoken if its window is the subtoken's best. */
  lemma ScoredAt(
    f: Feature, config: Config, query: seq<string>, s: Subtokens, vocabulary: Vocabulary, spans: seq<DocSpan>,
    p: int, t: nat)
    requires Faithful(f, config, query, s, vocabulary, spans)
    requires p == t - spans[f.docSpanIndex].start + |query| + 2
    ensures p in f.tokenIsMaxContext && f.tokenIsMaxContext[p] <==> IsMaxContext(spans, f.docSpanIndex, t)
    ensures IsMaxContext(spans, f.docSpanIndex, t) ==>
        && 0 <= p < |f.tokens| && f.tokens[p] == s.all[t]
        && p in f.tokenToOrigMap && f.tokenToOrigMap[p] == s.tokToOrig[t]
  {
    var span := spans[f.docSpanIndex];
    if span.Contains(t) {
      TokenAt(query, s, span, f.tokens, t);
    }
  }

  /** Feature `k` flags position `p`, which stands for subtoken `t`. */
  ghost predicate Scores(fs: seq<Feature>, spans: seq<DocSpan>, query: seq<string>, k: int, p: int, t: nat) {
    && 0 <= k < |fs| && k < |spans|
    && p in fs[k].tokenIsMaxContext && fs[k].tokenIsMaxContext[p]
    && spans[k].start + p - (|query| + 2) == t
  }

  lemma TokenAt(query: seq<string>, s: Subtokens, span: DocSpan, tokens: seq<string>, t: nat)
    requires InBounds(span, s) && span.Contains(t)
    requires tokens == ["[CLS]"] + query + ["[SEP]"] + s.all[span.start..span.End()] + ["[SEP]"]
    ensures var p := t - span.start + |query| + 2; 0 <= p < |tokens| && tokens[p] == s.all[t]
  {
  }

  /** A mapped position holds a subtoken of the very word that it is mapped to. */
  lemma MappedPositionHoldsSubtoken(
    f: Feature, config: Config, query: seq<string>, s: Subtokens, vocabulary: Vocabulary, spans: seq<DocSpan>,
    words: seq<string>, tokenize: Tokenizer, p: int)
    requires Faithful(f, config, query, s, vocabulary, spans) && s.Of(words, tokenize)
    requires p in f.tokenToOrigMap
    ensures 0 <= p < |f.tokens| && 0 <= f.tokenToOrigMap[p] < |words|
    ensures f.tokens[p] in tokenize(words[f.tokenToOrigMap[p]])
  {
    hide Subtokens.Of, IsMaxContext;
    var span := spans[f.docSpanIndex];
    var t := span.start + p - (|query| + 2);
    TokenAt(query, s, span, f.tokens, t);
    SubtokenOfItsWord(s, words, tokenize, t);
  }

  lemma SubtokenOfItsWord(s: Subtokens, words: seq<string>, tokenize: Tokenizer, t: nat)
    requires s.Of(words, tokenize) && t < |s.all|
    ensures |s.tokToOrig| == |s.all| && 0 <= s.tokToOrig[t] < |words|
    ensures s.all[t] in tokenize(words[s.tokToOrig[t]])
  {
    assert s.Placed(t);
    var w := s.tokToOrig[t];
    assert s.Owns(w, tokenize(words[w]));
    InStretch(s.all, s.origToTok[w], s.WordEnd(w), t);
  }

  lemma InStretch(all: seq<string>, from: nat, to: nat, t: nat)
    requires from <= t < to <= |all|
    ensures all[t] in all[from..to]
  {
    assert all[from..to][t - from] == all[t];
  }

  function Features(parts: seq<Conversion>): seq<Feature> {
    if parts == [] then [] else Features(parts[..|parts| - 1]) + parts[|parts| - 1].fs
  }

  /** The first examples, each converted with ids that continue from the one before. */
  ghost predicate AllConverted(
    parts: seq<Conversion>, examples: seq<Example>, config: Config, tokenize: Tokenizer, vocabulary: Vocabulary)
  {
    && |parts| <= |examples|
    && forall e :: 0 <= e < |parts| ==>
         parts[e].Of(e, FIRST_UNIQUE_ID + |Features(parts[..e])|, examples[e], config, tokenize, vocabulary)
  }

  lemma FeaturesAppend(parts: seq<Conversion>, part: Conversion)
    ensures Features(parts + [part]) == Features(parts) + part.fs
  {
    assert (parts + [part])[..|parts|] == parts;
  }

  lemma OneMoreExample(
    parts: seq<Conversion>, part: Conversion, examples: seq<Example>, config: Config, tokenize: Tokenizer,
    vocabulary: Vocabulary)
    requires AllConverted(parts, examples, config, tokenize, vocabulary) && |parts| < |examples|
    requires part.Of(|parts|, FIRST_UNIQUE_ID + |Features(parts)|, examples[|parts|], config, tokenize, vocabulary)
    ensures AllConverted(parts + [part], examples, config, tokenize, vocabulary)
    ensures Features(parts + [part]) == Features(parts) + part.fs
  {
    hide Conversion.Of, Features;
    FeaturesAppend(parts, part);
    var next := parts + [part];
    assert next[..|parts|] == parts;
    forall e | 0 <= e < |next|
      ensures next[e].Of(e, FIRST_UNIQUE_ID + |Features(next[..e])|, examples[e], config, tokenize, vocabulary)
    {
      assert next[..e] == parts[..e];
    }
  }

  lemma {:induction false} IdsConsecutive(
    parts: seq<Conversion>, examples: seq<Example>, config: Config, tokenize: Tokenizer, vocabulary: Vocabulary, i: nat)
    requires AllConverted(parts, examples, config, tokenize, vocabulary) && i < |Features(parts)|
    ensures Features(parts)[i].uniqueId == FIRST_UNIQUE_ID + i
  {
    hide Conversion.Of;
    var e := |parts| - 1;
    var before, part := parts[..e], parts[e];
    var first := FIRST_UNIQUE_ID + |Features(before)|;
    assert part.Of(e, first, examples[e], config, tokenize, vocabulary);
    if i < |Features(before)| {
      forall j | 0 <= j < e
        ensures before[j].Of(j, FIRST_UNIQUE_ID + |Features(before[..j])|, examples[j], config, tokenize, vocabulary)
      {
        assert before[..j] == parts[..j];
      }
      IdsConsecutive(before, examples, config, tokenize, vocabulary, i);
    } else {
      IdOf(part, e, first, examples[e], config, tokenize, vocabulary, i - |Features(before)|);
    }
  }

  lemma IdOf(part: Conversion, e: nat, firstId: int, example: Example, config: Config, tokenize: Tokenizer,
             vocabulary: Vocabulary, j: nat)
    requires part.Of(e, firstId, example, config, tokenize, vocabulary) && j < |part.fs|
    ensures part.fs[j].uniqueId == firstId + j
  {
    hide Faithful, AnswerPlaced, Covers, Subtokens.Of;
  }

  /** The features of all examples, one example after the other. */
  ghost predicate AllConvertedFrom(
    features: seq<Feature>, examples: seq<Example>, config: Config, tokenize: Tokenizer, vocabulary: Vocabulary)
  {
    exists parts: seq<Conversion> ::
      && |parts| == |examples| && features == Features(parts)
      && AllConverted(parts, examples, config, tokenize, vocabulary)
  }

  /** The first example that cannot be converted ends the conversion. */
  method ConvertExamples(examples: seq<Example>, config: Config, tokenize: Tokenizer, vocabulary: Vocabulary)
    returns (result: Option<seq<Feature>>)
    requires forall e :: 0 <= e < |examples| && Convertible(examples[e], config) ==> Fits(examples[e], config, tokenize)
    ensures result.Some? <==> forall e :: 0 <= e < |examples| ==> Convertible(examples[e], config)
    ensures result.Some? ==> AllConvertedFrom(result.value, examples, config, tokenize, vocabulary)
  {
    hide Conversion.Of, Convertible, Fits;
    var features: seq<Feature> := [];
    ghost var parts: seq<Conversion> := [];
    for e := 0 to |examples|
      invariant forall i :: 0 <= i < e ==> Convertible(examples[i], config)
      invariant |parts| == e && AllConverted(parts, examples, config, tokenize, vocabulary)
      invariant features == Features(parts)
    {
      var first := FIRST_UNIQUE_ID + |features|;
      var fs := ConvertExample(examples[e], e, first, config, tokenize, vocabulary);
      if fs.None? {
        return None;
      }
      ghost var part: Conversion :| part.fs == fs.value && part.Of(e, first, examples[e], config, tokenize, vocabulary);
      hide AllConverted;
      OneMoreExample(parts, part, examples, config, tokenize, vocabulary);
      parts := parts + [part];
      features := features + fs.value;
    }
    result := Some(features);
  }

  /** Ids are consecutive over all examples, so no two features share one. */
  lemma UniqueIds(
    features: seq<Feature>, examples: seq<Example>, config: Config, tokenize: Tokenizer, vocabulary: Vocabulary, i: nat)
    requires AllConvertedFrom(features, examples, config, tokenize, vocabulary) && i < |features|
    ensures features[i].uniqueId == 1000000000 + i
  {
    var parts: seq<Conversion> :|
      && |parts| == |examples| && features == Features(parts)
      && AllConverted(parts, examples, config, tokenize, vocabulary);
    IdsConsecutive(parts, examples, config, tokenize, vocabulary, i);
  }
}
