/**
 How the BERT benchmark reads an annotated answer: from character offsets to words, and whether the
 answer's text can be found in those words.
 */
module SquadAnswers {
  import opened Options
  import opened SquadContext
  import opened Text

  /** An answer as annotated, by its text and the offset of its first character. */
  datatype Annotation = Annotation(text: string, offset: int)

  /** The answer as read: the words it begins and ends in, where -1 stands before the first word. */
  datatype Answer = Answer(text: string, start: int, end: int)

  datatype Reading = Kept(answer: Answer) | Dropped | IndexError

  /** The element that Python's `s[i]` denotes in a list of `n`: a negative index counts from the end. */
  function ListIndex(i: int, n: nat): (r: Option<nat>)
    ensures r.Some? <==> 0 <= i + n && i < n
    ensures r.Some? ==> r.value < n && (r.value == i || r.value == n + i)
  {
    if 0 <= i < n then Some(i) else if i < 0 && 0 <= i + n then Some(i + n) else None
  }

  /** A bound of Python's `s[lo:hi]` in a list of `n`. */
  function SliceBound(i: int, n: nat): (r: nat)
    ensures r <= n
  {
    if i < 0 then (if i + n < 0 then 0 else i + n) else if i > n then n else i
  }

  /** Python's `s[lo:hi]`. */
  function ListSlice<T>(s: seq<T>, lo: int, hi: int): seq<T> {
    var a, b := SliceBound(lo, |s|), SliceBound(hi, |s|);
    if a <= b then s[a..b] else []
  }

  /** Within the list both bounds are what they say; a bound that is negative or too large is moved inside. */
  lemma SliceIs<T>(s: seq<T>, lo: int, hi: int)
    ensures 0 <= lo <= hi <= |s| ==> ListSlice(s, lo, hi) == s[lo..hi]
    ensures hi > |s| ==> ListSlice(s, lo, hi) == ListSlice(s, lo, |s|)
    ensures -|s| <= lo < 0 ==> ListSlice(s, lo, hi) == ListSlice(s, lo + |s|, hi)
    ensures lo < -|s| ==> ListSlice(s, lo, hi) == ListSlice(s, 0, hi)
    ensures -|s| <= hi < 0 ==> ListSlice(s, lo, hi) == ListSlice(s, lo, hi + |s|)
    ensures 0 <= hi <= lo || hi < -|s| ==> ListSlice(s, lo, hi) == []
  {
  }

  /** `tokenize` is the library's split at whitespace. */
  function ReadAnswer(
    docTokens: seq<string>, charToWord: seq<int>, annotation: Annotation, tokenize: string -> seq<string>): Reading
  {
    var first := ListIndex(annotation.offset, |charToWord|);
    var last := ListIndex(annotation.offset + |annotation.text| - 1, |charToWord|);
    if first.None? || last.None? then IndexError
    else
      var start, end := charToWord[first.value], charToWord[last.value];
      var actualText := Join(ListSlice(docTokens, start, end + 1), " ");
      var cleanedAnswerText := Join(tokenize(annotation.text), " ");
      if Find(actualText, cleanedAnswerText) == -1 then Dropped else Kept(Answer(annotation.text, start, end))
  }

  /** Both ends of an answer are words of a document of `n` words, or stand before the first. */
  predicate InRange(answer: Answer, n: nat) {
    -1 <= answer.start < n && -1 <= answer.end < n
  }

  /** What the scan of the context gives. */
  ghost predicate Scanned(context: string, docTokens: seq<string>, charToWord: seq<int>) {
    && AreWords(context, |context|, docTokens)
    && |charToWord| == |context|
    && forall i :: 0 <= i < |context| ==> charToWord[i] == |Starts(context, i + 1)| - 1
  }

  /** Whatever the annotation, an answer that is kept is in the range of the document's words. */
  lemma KeptInRange(
    context: string, docTokens: seq<string>, charToWord: seq<int>, annotation: Annotation,
    tokenize: string -> seq<string>)
    requires Scanned(context, docTokens, charToWord)
    requires ReadAnswer(docTokens, charToWord, annotation, tokenize).Kept?
    ensures InRange(ReadAnswer(docTokens, charToWord, annotation, tokenize).answer, |docTokens|)
  {
    hide Join, Find, Starts;
    forall i | 0 <= i < |context| ensures -1 <= charToWord[i] < |docTokens| {
      WordIndexMonotone(context, i + 1, |context|);
    }
  }

  /** An error is raised exactly if the first or the last character of the text is not one of the context's. */
  lemma IndexErrorIff(
    context: string, docTokens: seq<string>, charToWord: seq<int>, annotation: Annotation,
    tokenize: string -> seq<string>)
    requires Scanned(context, docTokens, charToWord)
    ensures var last := annotation.offset + |annotation.text| - 1;
            ReadAnswer(docTokens, charToWord, annotation, tokenize) == IndexError <==>
              !(-|context| <= annotation.offset < |context|) || !(-|context| <= last < |context|)
  {
    hide Join, Find, ListSlice;
  }

  /** An answer within the context is kept exactly if its words' text has the annotated text in it. */
  lemma KeptIffFound(
    context: string, docTokens: seq<string>, charToWord: seq<int>, annotation: Annotation,
    tokenize: string -> seq<string>)
    requires Scanned(context, docTokens, charToWord)
    requires 0 <= annotation.offset && 0 < |annotation.text| && annotation.offset + |annotation.text| <= |context|
    ensures var start := charToWord[annotation.offset];
            var end := charToWord[annotation.offset + |annotation.text| - 1];
            var r := ReadAnswer(docTokens, charToWord, annotation, tokenize);
            && -1 <= start <= end < |docTokens|
            && var words := if start >= 0 then docTokens[start..end + 1] else ListSlice(docTokens, start, end + 1);
               var actual, cleaned := Join(words, " "), Join(tokenize(annotation.text), " ");
               if exists at: nat :: OccursAt(actual, cleaned, at) then r == Kept(Answer(annotation.text, start, end))
               else r == Dropped
  {
    hide Join, Starts, AreWords;
    var o, l := annotation.offset, annotation.offset + |annotation.text| - 1;
    WordIndexMonotone(context, o + 1, l + 1);
    WordIndexMonotone(context, l + 1, |context|);
    WordCount(context, |context|, docTokens);
    SliceIs(docTokens, charToWord[o], charToWord[l] + 1);
  }

  // ---------- Collapsing whitespace ----------

  /** The characters from `from` to `to`, each run of whitespace between words as one space. */
  function Squash(text: string, from: nat, to: nat): string
    requires to <= |text|
  {
    if to <= from then ""
    else
      var front, c := Squash(text, from, to - 1), text[to - 1];
      if IsWhitespace(c) then front
      else if front != "" && IsWhitespace(text[to - 2]) then front + " " + [c]
      else front + [c]
  }

  lemma {:induction false} SquashWhite(text: string, from: nat, a: nat, b: nat)
    requires from <= a <= b <= |text| && forall i :: a <= i < b ==> IsWhitespace(text[i])
    ensures Squash(text, from, b) == Squash(text, from, a)
  {
    if a < b {
      SquashWhite(text, from, a, b - 1);
    }
  }

  /** One more character of the word that has been reached. */
  lemma SquashMore(text: string, from: nat, b: nat, before: string)
    requires from + 1 < b <= |text| && !IsWhitespace(text[b - 1]) && !IsWhitespace(text[b - 2])
    requires Squash(text, from, b - 1) == before
    ensures Squash(text, from, b) == before + [text[b - 1]]
  {
    hide IsWhitespace;
  }

  /** The first character of a word. */
  lemma SquashStart(text: string, from: nat, a: nat)
    requires from <= a < |text| && !IsWhitespace(text[a]) && (a == from || IsWhitespace(text[a - 1]))
    ensures var front := Squash(text, from, a);
            Squash(text, from, a + 1) == front + (if front == "" then "" else " ") + [text[a]]
  {
    hide IsWhitespace;
  }

  lemma Regroup(a: string, b: string, c: string)
    ensures a + b + c == a + (b + c)
  {
  }

  lemma {:induction false} SquashRun(text: string, from: nat, a: nat, b: nat)
    requires from <= a < b <= |text| && forall i :: a <= i < b ==> !IsWhitespace(text[i])
    requires a == from || IsWhitespace(text[a - 1])
    ensures var front := Squash(text, from, a);
            Squash(text, from, b) == front + (if front == "" then "" else " ") + text[a..b]
  {
    hide IsWhitespace, Squash;
    if b > a + 1 {
      var front, m := Squash(text, from, a), b - 1;
      var head := front + if front == "" then "" else " ";
      SquashRun(text, from, a, m);
      SquashMore(text, from, b, head + text[a..m]);
      assert text[a..b] == text[a..m] + [text[m]];
      Regroup(head, text[a..m], [text[m]]);
    } else {
      SquashStart(text, from, a);
      assert text[a..b] == [text[a]];
    }
  }

  /** A quotation that begins with a word character collapses to the end of what contains it. */
  lemma {:induction false} SquashSuffix(text: string, from: nat, o: nat, to: nat) returns (p: string)
    requires from <= o < to <= |text| && !IsWhitespace(text[o])
    ensures Squash(text, from, to) == p + Squash(text, o, to) && Squash(text, o, to) != ""
  {
    if to == o + 1 {
      var front := Squash(text, from, o);
      p := if front != "" && IsWhitespace(text[o - 1]) then front + " " else front;
    } else {
      p := SquashSuffix(text, from, o, to - 1);
    }
  }

  lemma {:induction false} SquashPrefix(text: string, from: nat, a: nat, b: nat) returns (q: string)
    requires a <= b <= |text|
    ensures Squash(text, from, b) == Squash(text, from, a) + q
  {
    if a == b {
      q := "";
    } else {
      q := SquashPrefix(text, from, a, b - 1);
      var more := Squash(text, from, b)[|Squash(text, from, b - 1)|..];
      q := q + more;
    }
  }

  lemma {:induction false} SquashQuote(text: string, quote: string, o: nat, k: nat)
    requires o + |quote| <= |text| && quote == text[o..o + |quote|] && k <= |quote|
    ensures Squash(quote, 0, k) == Squash(text, o, o + k)
  {
    if k > 0 {
      SquashQuote(text, quote, o, k - 1);
    }
  }

  // ---------- Words and whitespace ----------

  lemma WordOf(text: string, words: seq<string>, k: nat)
    requires AreWords(text, |text|, words) && k < |words|
    ensures k < |Starts(text, |text|)|
    ensures var s := Starts(text, |text|)[k];
            IsWord(text, |text|, s, s + |words[k]|) && words[k] == text[s..s + |words[k]|]
  {
    assert WordAt(text, |text|, Starts(text, |text|)[k], words[k]);
  }

  /** A later word starts after an earlier one has ended. */
  lemma WordsApart(text: string, words: seq<string>, j: nat, k: nat)
    requires AreWords(text, |text|, words) && j < k < |words|
    ensures Starts(text, |text|)[j] + |words[j]| < Starts(text, |text|)[k]
  {
    var starts := Starts(text, |text|);
    WordOf(text, words, j);
    assert starts[k] in starts && starts[j] < starts[k];
    assert StartsWord(text, starts[k]);
    assert IsWhitespace(text[starts[k] - 1]);
  }

  /** Between one word and the next there is only whitespace. */
  lemma OnlySpaceBetween(text: string, words: seq<string>, k: nat, i: nat)
    requires AreWords(text, |text|, words) && 0 < k < |words|
    requires Starts(text, |text|)[k - 1] + |words[k - 1]| <= i < Starts(text, |text|)[k] <= |text|
    ensures IsWhitespace(text[i])
  {
    hide Starts, AreWords;
    if !IsWhitespace(text[i]) {
      CharacterInItsWord(text, words, i);
      WordCount(text, |text|, words);
      var j := |Starts(text, i + 1)| - 1;
      if j < k - 1 { WordsApart(text, words, j, k - 1); }
      if j > k { WordsApart(text, words, k, j); }
    }
  }

  /** Words joined by single spaces are what the text collapses to, from the first of them to the last. */
  lemma {:induction false} SquashWords(text: string, words: seq<string>, first: nat, k: nat)
    requires AreWords(text, |text|, words) && first <= k < |words|
    ensures var starts := Starts(text, |text|);
            && k < |starts| && starts[k] + |words[k]| <= |text|
            && Squash(text, starts[first], starts[k] + |words[k]|) == Join(words[first..k + 1], " ") != ""
  {
    hide Starts, AreWords, Squash;
    WordCount(text, |text|, words);
    var starts := Starts(text, |text|);
    WordOf(text, words, k);
    if first == k {
      assert words[first..k + 1] == [words[k]];
      SquashRun(text, starts[k], starts[k], starts[k] + |words[k]|);
      assert Squash(text, starts[k], starts[k]) == "" by { SquashNothing(text, starts[k]); }
    } else {
      SquashWords(text, words, first, k - 1);
      WordsApart(text, words, k - 1, k);
      WordsApart(text, words, first, k);
      var e := starts[k - 1] + |words[k - 1]|;
      forall i | e <= i < starts[k] ensures IsWhitespace(text[i]) { OnlySpaceBetween(text, words, k, i); }
      SquashWhite(text, starts[first], e, starts[k]);
      SquashRun(text, starts[first], starts[k], starts[k] + |words[k]|);
      JoinSnoc(words[first..k], words[k], " ");
      assert words[first..k + 1] == words[first..k] + [words[k]];
    }
  }

  lemma SquashNothing(text: string, from: nat)
    requires from <= |text|
    ensures Squash(text, from, from) == ""
  {
  }

  /** A text that neither begins nor ends with whitespace collapses to its words. */
  lemma WordsOfQuote(quote: string, words: seq<string>)
    requires AreWords(quote, |quote|, words)
    requires quote != "" && !IsWhitespace(quote[0]) && !IsWhitespace(quote[|quote| - 1])
    ensures Squash(quote, 0, |quote|) == Join(words, " ")
  {
    hide AreWords, Squash;
    CharacterInItsWord(quote, words, |quote| - 1);
    var k := |Starts(quote, |quote|)| - 1;
    WordCount(quote, |quote|, words);
    WordOf(quote, words, k);
    assert StartsWord(quote, 0) && 0 in Starts(quote, |quote|);
    FirstIsLeast(Starts(quote, |quote|));
    SquashWords(quote, words, 0, k);
    assert words[0..k + 1] == words;
  }

  lemma FirstIsLeast(starts: seq<nat>)
    requires 0 in starts && forall i, j :: 0 <= i < j < |starts| ==> starts[i] < starts[j]
    ensures starts[0] == 0
  {
  }

  /** Character `i` of the context is one of word `k`. */
  ghost predicate InWord(context: string, docTokens: seq<string>, k: nat, i: int) {
    && k < |docTokens| && k < |Starts(context, |context|)|
    && Starts(context, |context|)[k] <= i < Starts(context, |context|)[k] + |docTokens[k]|
  }

  /** The words of a quotation occur in the words around it, each joined by spaces. */
  lemma QuoteIsFound(
    context: string, docTokens: seq<string>, quote: string, quoteWords: seq<string>, o: nat, first: nat, last: nat)
    requires AreWords(context, |context|, docTokens) && AreWords(quote, |quote|, quoteWords)
    requires o + |quote| <= |context| && quote == context[o..o + |quote|]
    requires quote != "" && !IsWhitespace(quote[0]) && !IsWhitespace(quote[|quote| - 1])
    requires first <= last < |docTokens| == |Starts(context, |context|)|
    requires Starts(context, |context|)[first] <= o
    requires o + |quote| <= Starts(context, |context|)[last] + |docTokens[last]|
    ensures Find(Join(docTokens[first..last + 1], " "), Join(quoteWords, " ")) != -1
  {
    hide AreWords, Squash, IsWord, Starts, Find, Join;
    var starts, to := Starts(context, |context|), o + |quote|;
    var s, e := starts[first], starts[last] + |docTokens[last]|;
    SquashWords(context, docTokens, first, last);
    var q := SquashPrefix(context, s, to, e);
    var p := SquashSuffix(context, s, o, to);
    SquashQuote(context, quote, o, |quote|);
    WordsOfQuote(quote, quoteWords);
    FoundBetween(p, Join(quoteWords, " "), q);
  }

  lemma FoundBetween(p: string, piece: string, q: string)
    ensures Find(p + piece + q, piece) != -1
  {
    assert OccursAt(p + piece + q, piece, |p|);
  }

  lemma ReadAt(
    docTokens: seq<string>, charToWord: seq<int>, annotation: Annotation, tokenize: string -> seq<string>,
    first: nat, last: nat)
    requires 0 <= annotation.offset && 0 < |annotation.text| && annotation.offset + |annotation.text| <= |charToWord|
    requires charToWord[annotation.offset] == first
    requires charToWord[annotation.offset + |annotation.text| - 1] == last
    requires first <= last < |docTokens|
    requires Find(Join(docTokens[first..last + 1], " "), Join(tokenize(annotation.text), " ")) != -1
    ensures ReadAnswer(docTokens, charToWord, annotation, tokenize) == Kept(Answer(annotation.text, first, last))
  {
    hide Find, Join;
    assert ListSlice(docTokens, first, last + 1) == docTokens[first..last + 1];
  }

  /**
   The check drops no answer that quotes its context: if the annotated text is there at its offset, is
   not framed by whitespace, and the library splits it into its words, then the answer is kept, from
   the word of its first character to that of its last.
   */
  lemma QuotedAnswerIsKept(
    context: string, docTokens: seq<string>, charToWord: seq<int>, annotation: Annotation,
    tokenize: string -> seq<string>)
    requires Scanned(context, docTokens, charToWord)
    requires var o, n := annotation.offset, |annotation.text|;
             0 <= o && 0 < n && o + n <= |context| && annotation.text == context[o..o + n]
    requires !IsWhitespace(annotation.text[0]) && !IsWhitespace(annotation.text[|annotation.text| - 1])
    requires AreWords(annotation.text, |annotation.text|, tokenize(annotation.text))
    ensures var r := ReadAnswer(docTokens, charToWord, annotation, tokenize);
            && r.Kept?
            && r.answer.text == annotation.text
            && 0 <= r.answer.start <= r.answer.end < |docTokens| == |Starts(context, |context|)|
            && InWord(context, docTokens, r.answer.start, annotation.offset)
            && InWord(context, docTokens, r.answer.end, annotation.offset + |annotation.text| - 1)
  {
    hide AreWords, IsWord, Starts, Find, Join;
    var quote, o := annotation.text, annotation.offset;
    WordCount(context, |context|, docTokens);
    CharacterInItsWord(context, docTokens, o);
    CharacterInItsWord(context, docTokens, o + |quote| - 1);
    AnswerWithinWords(context, docTokens, o, |quote|);
    var first, last := charToWord[o], charToWord[o + |quote| - 1];
    hide ReadAnswer;
    QuoteIsFound(context, docTokens, quote, tokenize(quote), o, first, last);
    ReadAt(docTokens, charToWord, annotation, tokenize, first, last);
  }
}
