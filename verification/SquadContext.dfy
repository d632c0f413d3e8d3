/** How the BERT benchmark splits a paragraph into words and maps characters to words. */
module SquadContext {

  predicate IsWhitespace(c: char) {
    c == ' ' || c == '\t' || c == '\r' || c == '\n' || c == '\U{202F}'
  }

  /** Tab, newline, carriage return, space and the narrow no-break space, by their code points. */
  lemma WhitespaceCodes(c: char)
    ensures IsWhitespace(c) <==> c as int in {9, 10, 13, 32, 0x202F}
  {
    assert '\t' as int == 9 && '\n' as int == 10 && '\r' as int == 13 && ' ' as int == 32;
    assert '\U{202F}' as int == 0x202F;
  }

  /** `text[s..e]` is a run of non-whitespace that neither side extends within the first `n` characters. */
  ghost predicate IsWord(text: string, n: nat, s: nat, e: nat) {
    && s < e <= n <= |text|
    && (forall i :: s <= i < e ==> !IsWhitespace(text[i]))
    && (s == 0 || IsWhitespace(text[s - 1]))
    && (e == n || IsWhitespace(text[e]))
  }

  ghost predicate StartsWord(text: string, i: nat) {
    i < |text| && !IsWhitespace(text[i]) && (i == 0 || IsWhitespace(text[i - 1]))
  }

  /** Where the words that begin before position `n` begin. */
  ghost function Starts(text: string, n: nat): (r: seq<nat>)
    requires n <= |text|
    ensures forall i: nat :: i in r <==> i < n && StartsWord(text, i)
    ensures forall i, j :: 0 <= i < j < |r| ==> r[i] < r[j]
  {
    if n == 0 then []
    else if StartsWord(text, n - 1) then
      var before := Starts(text, n - 1);
      assert forall i :: 0 <= i < |before| ==> before[i] in before;
      before + [n - 1]
    else Starts(text, n - 1)
  }

  /** The words are exactly the maximal runs, in order. */
  ghost predicate AreWords(text: string, n: nat, words: seq<string>) {
    && n <= |text|
    && |words| == |Starts(text, n)|
    && forall k :: 0 <= k < |words| ==> WordAt(text, n, Starts(text, n)[k], words[k])
  }

  ghost predicate WordAt(text: string, n: nat, s: nat, word: string) {
    IsWord(text, n, s, s + |word|) && word == text[s..s + |word|]
  }

  method ScanContext(text: string) returns (docTokens: seq<string>, charToWord: seq<int>)
    ensures AreWords(text, |text|, docTokens)
    ensures |charToWord| == |text|
    ensures forall i :: 0 <= i < |text| ==> charToWord[i] == |Starts(text, i + 1)| - 1
  {
    hide IsWord, AreWords, WordAt;
    NoWords(text);
    docTokens, charToWord := [], [];
    var prevIsWhitespace := true;
    for i := 0 to |text|
      invariant prevIsWhitespace <==> i == 0 || IsWhitespace(text[i - 1])
      invariant AreWords(text, i, docTokens)
      invariant |charToWord| == i
      invariant forall j :: 0 <= j < i ==> charToWord[j] == |Starts(text, j + 1)| - 1
    {
      var c := text[i];
      ExtendWords(text, i, docTokens);
      if IsWhitespace(c) {
        prevIsWhitespace := true;
      } else {
        if prevIsWhitespace {
          docTokens := docTokens + [[c]];
        } else {
          docTokens := docTokens[..|docTokens| - 1] + [docTokens[|docTokens| - 1] + [c]];
        }
        prevIsWhitespace := false;
      }
      assert |docTokens| == |Starts(text, i + 1)| by { WordCount(text, i + 1, docTokens); }
      charToWord := charToWord + [|docTokens| - 1];
    }
  }

  lemma WordCount(text: string, n: nat, words: seq<string>)
    requires AreWords(text, n, words)
    ensures n <= |text| && |words| == |Starts(text, n)|
  {
  }

  lemma NoWords(text: string)
    ensures AreWords(text, 0, [])
  {
  }

  /** Only the last word can reach the end of what has been read, and does if no whitespace follows it. */
  lemma WordEnds(text: string, i: nat, words: seq<string>, k: nat)
    requires 0 < i <= |text| && AreWords(text, i, words) && k < |words|
    ensures var e := Starts(text, i)[k] + |words[k]|;
            if k == |words| - 1 then e < i <==> IsWhitespace(text[i - 1]) else e < i
  {
    hide Starts;
    var starts := Starts(text, i);
    var s, e := starts[k], starts[k] + |words[k]|;
    assert WordAt(text, i, s, words[k]);
    if k < |words| - 1 {
      assert starts[k + 1] in starts && StartsWord(text, starts[k + 1]) && s <= starts[k + 1] - 1;
    } else if e < i && !IsWhitespace(text[i - 1]) {
      LastWordTouches(text, i);
    }
  }

  /** What one more character does to the words: nothing, a new word, or a longer last word. */
  lemma ExtendWords(text: string, i: nat, words: seq<string>)
    requires i < |text| && AreWords(text, i, words)
    ensures IsWhitespace(text[i]) ==> AreWords(text, i + 1, words)
    ensures StartsWord(text, i) ==> AreWords(text, i + 1, words + [[text[i]]])
    ensures !IsWhitespace(text[i]) && !StartsWord(text, i) ==>
              words != [] && AreWords(text, i + 1, words[..|words| - 1] + [words[|words| - 1] + [text[i]]])
  {
    if i > 0 {
      forall k | 0 <= k < |words|
        ensures var e := Starts(text, i)[k] + |words[k]|;
                if k == |words| - 1 then e < i <==> IsWhitespace(text[i - 1]) else e < i
      {
        WordEnds(text, i, words, k);
      }
    }
    if IsWhitespace(text[i]) {
      SameWords(text, i, words);
    } else if StartsWord(text, i) {
      NewWord(text, i, words);
    } else {
      LongerWord(text, i, words);
    }
  }

  lemma WordStays(text: string, i: nat, s: nat, word: string)
    requires i < |text| && WordAt(text, i, s, word)
    requires s + |word| < i || IsWhitespace(text[i])
    ensures WordAt(text, i + 1, s, word)
  {
  }

  lemma SameWords(text: string, i: nat, words: seq<string>)
    requires i < |text| && AreWords(text, i, words) && IsWhitespace(text[i])
    ensures AreWords(text, i + 1, words)
  {
    var starts := Starts(text, i);
    assert Starts(text, i + 1) == starts;
    forall k | 0 <= k < |words| ensures WordAt(text, i + 1, starts[k], words[k]) {
      WordStays(text, i, starts[k], words[k]);
    }
  }

  lemma AppendWord(text: string, n: nat, words: seq<string>, word: string)
    requires n <= |text| && |Starts(text, n)| == |words| + 1
    requires forall k :: 0 <= k < |words| ==> WordAt(text, n, Starts(text, n)[k], words[k])
    requires WordAt(text, n, Starts(text, n)[|words|], word)
    ensures AreWords(text, n, words + [word])
  {
    hide Starts, WordAt;
  }

  lemma NewWord(text: string, i: nat, words: seq<string>)
    requires i < |text| && AreWords(text, i, words) && StartsWord(text, i)
    requires forall k :: 0 <= k < |words| ==> Starts(text, i)[k] + |words[k]| < i
    ensures AreWords(text, i + 1, words + [[text[i]]])
  {
    OneMoreStart(text, i);
    OneCharacterWord(text, i);
    hide Starts, WordAt, IsWord, StartsWord;
    var next := i + 1;
    forall k | 0 <= k < |words| ensures WordAt(text, next, Starts(text, next)[k], words[k]) {
      EarlierWord(text, i, words, k);
    }
    WordCount(text, i, words);
    AppendWord(text, next, words, [text[i]]);
  }

  lemma OneMoreStart(text: string, i: nat)
    requires StartsWord(text, i)
    ensures |Starts(text, i + 1)| == |Starts(text, i)| + 1
    ensures forall k :: 0 <= k < |Starts(text, i)| ==> Starts(text, i + 1)[k] == Starts(text, i)[k]
    ensures Starts(text, i + 1)[|Starts(text, i)|] == i
  {
  }

  lemma OneCharacterWord(text: string, i: nat)
    requires StartsWord(text, i)
    ensures WordAt(text, i + 1, i, [text[i]])
  {
    assert text[i..i + 1] == [text[i]];
  }

  lemma EarlierWord(text: string, i: nat, words: seq<string>, k: nat)
    requires i < |text| && AreWords(text, i, words) && k < |words| && Starts(text, i)[k] + |words[k]| < i
    ensures WordAt(text, i + 1, Starts(text, i)[k], words[k])
  {
    hide Starts, WordAt;
    WordStays(text, i, Starts(text, i)[k], words[k]);
  }

  lemma LongerWord(text: string, i: nat, words: seq<string>)
    requires 0 < i < |text| && AreWords(text, i, words)
    requires !IsWhitespace(text[i]) && !IsWhitespace(text[i - 1])
    requires forall k :: 0 <= k < |words| - 1 ==> Starts(text, i)[k] + |words[k]| < i
    requires words != [] ==> Starts(text, i)[|words| - 1] + |words[|words| - 1]| >= i
    ensures words != [] && AreWords(text, i + 1, words[..|words| - 1] + [words[|words| - 1] + [text[i]]])
  {
    var starts, next := Starts(text, i), i + 1;
    LastWordTouches(text, i);
    assert Starts(text, next) == starts;
    var last := |words| - 1;
    forall k | 0 <= k < last ensures WordAt(text, next, starts[k], words[k]) {
      EarlierWord(text, i, words, k);
    }
    assert WordAt(text, i, starts[last], words[last]);
    assert text[starts[last]..next] == words[last] + [text[i]];
    assert WordAt(text, next, starts[last], words[last] + [text[i]]);
    hide Starts, WordAt;
    AppendWord(text, next, words[..last], words[last] + [text[i]]);
  }

  /** If the character before `i` is part of a word, the last word that began before `i` reaches `i`. */
  lemma {:induction false} LastWordTouches(text: string, i: nat)
    requires 0 < i <= |text| && !IsWhitespace(text[i - 1])
    ensures Starts(text, i) != []
    ensures var s := Starts(text, i)[|Starts(text, i)| - 1];
            s < i && forall j :: s <= j < i ==> !IsWhitespace(text[j])
  {
    if !StartsWord(text, i - 1) {
      LastWordTouches(text, i - 1);
    }
  }

  /** The map from characters to words never goes back. */
  lemma {:induction false} WordIndexMonotone(text: string, i: nat, j: nat)
    requires i <= j <= |text|
    ensures Starts(text, i) <= Starts(text, j)
  {
    if i < j {
      WordIndexMonotone(text, i, j - 1);
    }
  }

  /** Every non-whitespace character is part of the word that its offset names. */
  lemma CharacterInItsWord(text: string, words: seq<string>, i: nat)
    requires AreWords(text, |text|, words)
    requires i < |text| && !IsWhitespace(text[i])
    ensures var k := |Starts(text, i + 1)| - 1;
            && 0 <= k < |words|
            && var s := Starts(text, |text|)[k];
               s <= i < s + |words[k]| && words[k][i - s] == text[i]
  {
    var starts := Starts(text, |text|);
    LastWordTouches(text, i + 1);
    WordIndexMonotone(text, i + 1, |text|);
    var k := |Starts(text, i + 1)| - 1;
    var s, e := starts[k], starts[k] + |words[k]|;
    assert WordAt(text, |text|, s, words[k]);
    assert i < e;
  }

  /** The words of the whole text are all of its maximal runs. */
  lemma EveryRunIsAWord(text: string, words: seq<string>, s: nat, e: nat)
    requires AreWords(text, |text|, words) && IsWord(text, |text|, s, e)
    ensures text[s..e] in words
  {
    var starts := Starts(text, |text|);
    assert StartsWord(text, s) && s in starts;
    var k :| 0 <= k < |starts| && starts[k] == s;
    var f := s + |words[k]|;
    assert WordAt(text, |text|, s, words[k]);
    assert e == f;
  }

  /** An annotated answer lies between the start of its first word and the end of its last. */
  lemma AnswerWithinWords(text: string, words: seq<string>, offset: nat, length: nat)
    requires AreWords(text, |text|, words)
    requires 0 < length && offset + length <= |text|
    requires !IsWhitespace(text[offset]) && !IsWhitespace(text[offset + length - 1])
    ensures var first := |Starts(text, offset + 1)| - 1;
            var last := |Starts(text, offset + length)| - 1;
            && 0 <= first <= last < |words|
            && Starts(text, |text|)[first] <= offset
            && offset + length <= Starts(text, |text|)[last] + |words[last]|
  {
    hide Starts, IsWord, AreWords;
    CharacterInItsWord(text, words, offset);
    CharacterInItsWord(text, words, offset + length - 1);
    WordIndexMonotone(text, offset + 1, offset + length);
  }
}
