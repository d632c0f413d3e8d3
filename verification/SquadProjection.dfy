/**
 Projecting a predicted answer back onto the original text: the two texts are aligned by counting
 the characters that are not spaces.
 */
module SquadProjection {
  import opened Options
  import opened Text

  /** The text without its spaces. */
  function NonSpace(text: string): (r: string)
    ensures ' ' !in r
  {
    if text == "" then ""
    else if text[|text| - 1] == ' ' then NonSpace(text[..|text| - 1])
    else NonSpace(text[..|text| - 1]) + [text[|text| - 1]]
  }

  /** Where the characters that are not spaces stand. */
  function Positions(text: string): (r: seq<nat>)
    ensures |r| == |NonSpace(text)|
    ensures forall k :: 0 <= k < |r| ==> r[k] < |text|
    ensures forall j, k :: 0 <= j < k < |r| ==> r[j] < r[k]
  {
    if text == "" then []
    else if text[|text| - 1] == ' ' then Positions(text[..|text| - 1])
    else Positions(text[..|text| - 1]) + [|text| - 1]
  }

  /** The text without spaces reads the characters at those positions. */
  lemma {:induction false} PositionReads(text: string, k: nat)
    requires k < |Positions(text)|
    ensures text[Positions(text)[k]] == NonSpace(text)[k] != ' '
  {
    var front := text[..|text| - 1];
    if k < |Positions(front)| {
      PositionReads(front, k);
    }
  }

  /** The map from non-space offsets to positions, filled in as the text is scanned. */
  method StripSpaces(text: string) returns (nsText: string, nsToS: map<int, int>)
    ensures nsText == NonSpace(text)
    ensures forall k :: k in nsToS <==> 0 <= k < |nsText|
    ensures forall k :: 0 <= k < |nsText| ==> nsToS[k] == Positions(text)[k]
  {
    nsText, nsToS := [], map[];
    for i := 0 to |text|
      invariant nsText == NonSpace(text[..i])
      invariant forall k :: k in nsToS <==> 0 <= k < |nsText|
      invariant forall k :: 0 <= k < |nsText| ==> nsToS[k] == Positions(text[..i])[k]
    {
      assert text[..i + 1][..i] == text[..i];
      var c := text[i];
      if c == ' ' {
        continue;
      }
      nsToS := nsToS[|nsText| := i];
      nsText := nsText + [c];
    }
    assert text[..|text|] == text;
  }

  /** The inverse map, filled in entry by entry. */
  method InvertPositions(text: string, nsText: string, nsToS: map<int, int>) returns (sToNs: map<int, int>)
    requires nsText == NonSpace(text)
    requires forall k :: k in nsToS <==> 0 <= k < |NonSpace(text)|
    requires forall k :: 0 <= k < |NonSpace(text)| ==> nsToS[k] == Positions(text)[k]
    ensures forall i :: i in sToNs <==> 0 <= i < |text| && text[i] != ' '
    ensures forall i :: i in sToNs ==> sToNs[i] == |NonSpace(text[..i])|
  {
    hide NonSpace, Positions;
    sToNs := map[];
    ghost var at := Positions(text);
    for k := 0 to |nsText|
      invariant forall i :: i in sToNs ==> 0 <= i < |text| && text[i] != ' ' && sToNs[i] == |NonSpace(text[..i])|
      invariant forall j :: 0 <= j < k ==> at[j] in sToNs
    {
      PositionInverse(text, k);
      sToNs := sToNs[nsToS[k] := k];
    }
    forall i | 0 <= i < |text| && text[i] != ' ' ensures i in sToNs {
      OffsetOf(text, i);
    }
  }

  lemma {:induction false} NonSpaceConcat(a: string, b: string)
    ensures NonSpace(a + b) == NonSpace(a) + NonSpace(b)
  {
    if b == "" {
      assert a + b == a;
    } else {
      var front := b[..|b| - 1];
      assert (a + b)[..|a + b| - 1] == a + front;
      NonSpaceConcat(a, front);
    }
  }

  /** Position `i` of a character that is not a space comes after as many others as stand before it. */
  lemma {:induction false} OffsetOf(text: string, i: nat)
    requires i < |text| && text[i] != ' '
    ensures |NonSpace(text[..i])| < |Positions(text)| && Positions(text)[|NonSpace(text[..i])|] == i
  {
    var front := text[..|text| - 1];
    if i < |front| {
      OffsetOf(front, i);
      assert front[..i] == text[..i];
    }
  }

  /** The position map and this count undo each other. */
  lemma PositionInverse(text: string, k: nat)
    requires k < |Positions(text)|
    ensures text[Positions(text)[k]] != ' ' && |NonSpace(text[..Positions(text)[k]])| == k
  {
    var i := Positions(text)[k];
    PositionReads(text, k);
    OffsetOf(text, i);
    var j := |NonSpace(text[..i])|;
    assert Positions(text)[j] == i;
  }

  /** Cutting the text from one non-space character to another cuts the same stretch of the rest. */
  lemma CutNonSpace(text: string, first: nat, last: nat)
    requires first <= last < |Positions(text)|
    ensures Positions(text)[first] <= Positions(text)[last] < |text|
    ensures NonSpace(text[Positions(text)[first]..Positions(text)[last] + 1]) == NonSpace(text)[first..last + 1]
  {
    var a, b := Positions(text)[first], Positions(text)[last];
    PositionInverse(text, first);
    PositionInverse(text, last);
    var upTo := text[..b + 1];
    assert upTo[..b] == text[..b];
    assert |NonSpace(upTo)| == last + 1;
    assert text == upTo + text[b + 1..] && upTo == text[..a] + text[a..b + 1];
    NonSpaceConcat(upTo, text[b + 1..]);
    NonSpaceConcat(text[..a], text[a..b + 1]);
  }

  // ---------- The projection ----------

  /**
   When the alignment works: the prediction occurs in the normalised text, begins and ends with
   something other than a space, and normalising changed no number of characters besides spaces.
   */
  predicate Aligns(predText: string, origText: string, tokText: string) {
    && Find(tokText, predText) != -1
    && predText != "" && predText[0] != ' ' && predText[|predText| - 1] != ' '
    && |NonSpace(origText)| == |NonSpace(tokText)|
  }

  /** How many characters besides spaces precede the prediction in the normalised text. */
  function Offset(predText: string, tokText: string): nat {
    if Find(tokText, predText) == -1 then 0 else |NonSpace(tokText[..Find(tokText, predText)])|
  }

  /** `r` is cut out of the original text at the prediction's offset and has as much besides spaces. */
  ghost predicate Projected(predText: string, origText: string, tokText: string, r: string) {
    var k, m := Offset(predText, tokText), |NonSpace(predText)|;
    && 0 < m && k + m <= |NonSpace(origText)|
    && (exists a: nat, b :: a < b <= |origText| && r == origText[a..b] && |NonSpace(origText[..a])| == k)
    && r != "" && r[0] != ' ' && r[|r| - 1] != ' '
    && NonSpace(r) == NonSpace(origText)[k..k + m]
  }

  /** The match begins and ends with the characters that the prediction does. */
  lemma MatchEnds(predText: string, tokText: string)
    requires Find(tokText, predText) != -1 && predText != ""
    ensures var p, n := Find(tokText, predText), |predText|;
            0 <= p && p + n <= |tokText| && tokText[p] == predText[0] && tokText[p + n - 1] == predText[n - 1]
  {
    var p, n := Find(tokText, predText), |predText|;
    assert tokText[p] == tokText[p..p + n][0] && tokText[p + n - 1] == tokText[p..p + n][n - 1];
  }

  /** The offsets, besides spaces, of the first and last character of the match. */
  lemma MatchOffsets(predText: string, tokText: string)
    requires Find(tokText, predText) != -1
    requires predText != "" && predText[0] != ' ' && predText[|predText| - 1] != ' '
    ensures var p, k, m := Find(tokText, predText), Offset(predText, tokText), |NonSpace(predText)|;
            && 0 <= p && p + |predText| <= |tokText|
            && tokText[p] != ' ' && tokText[p + |predText| - 1] != ' '
            && |NonSpace(tokText[..p])| == k && 0 < m && |NonSpace(tokText[..p + |predText| - 1])| == k + m - 1
            && k + m <= |NonSpace(tokText)|
  {
    hide Find;
    var p, n := Find(tokText, predText), |predText|;
    var before, most := tokText[..p], predText[..n - 1];
    MatchEnds(predText, tokText);
    assert tokText[p..p + n] == predText;
    assert tokText[..p + n - 1] == before + most;
    assert |NonSpace(predText)| == |NonSpace(most)| + 1;
    hide NonSpace, Positions;
    NonSpaceConcat(before, most);
    OffsetOf(tokText, p + n - 1);
  }

  lemma CutIsProjection(predText: string, origText: string, tokText: string)
    requires Aligns(predText, origText, tokText)
    ensures var k, m, at := Offset(predText, tokText), |NonSpace(predText)|, Positions(origText);
            && 0 < m && k + m <= |at| && at[k] <= at[k + m - 1] < |origText|
            && Projected(predText, origText, tokText, origText[at[k]..at[k + m - 1] + 1])
  {
    hide NonSpace, Positions, Find;
    MatchOffsets(predText, tokText);
    var k, m, at := Offset(predText, tokText), |NonSpace(predText)|, Positions(origText);
    CutNonSpace(origText, k, k + m - 1);
    PositionInverse(origText, k);
    PositionInverse(origText, k + m - 1);
  }

  /** The projected answer, or the whole original text where the alignment fails. */
  function FinalText(predText: string, origText: string, tokText: string): (r: string)
    ensures if Aligns(predText, origText, tokText) then Projected(predText, origText, tokText, r) else r == origText
  {
    if Aligns(predText, origText, tokText) then
      CutIsProjection(predText, origText, tokText);
      var k, m, at := Offset(predText, tokText), |NonSpace(predText)|, Positions(origText);
      origText[at[k]..at[k + m - 1] + 1]
    else origText
  }

  /**
   The projection is made exactly under four conditions: the prediction occurs in the normalised text,
   begins and ends with no space, and both texts have equally many characters besides spaces.
   */
  ghost predicate ProjectedIfPossible(predText: string, origText: string, tokText: string, r: string) {
    if && (exists at: nat :: OccursAt(tokText, predText, at))
       && predText != "" && predText[0] != ' ' && predText[|predText| - 1] != ' '
       && |NonSpace(origText)| == |NonSpace(tokText)|
    then Projected(predText, origText, tokText, r)
    else r == origText
  }

  lemma FinalTextIs(predText: string, origText: string, tokText: string)
    ensures ProjectedIfPossible(predText, origText, tokText, FinalText(predText, origText, tokText))
  {
    hide NonSpace, Projected;
    if Find(tokText, predText) != -1 { assert OccursAt(tokText, predText, Find(tokText, predText)); }
  }

  /** There is only one such piece of the original text. */
  lemma ProjectedUnique(predText: string, origText: string, tokText: string, r: string, q: string)
    requires Projected(predText, origText, tokText, r) && Projected(predText, origText, tokText, q)
    ensures r == q
  {
    hide Projected, NonSpace, Positions, Offset;
    ProjectedIs(predText, origText, tokText, r);
    ProjectedIs(predText, origText, tokText, q);
  }

  lemma ProjectedIs(predText: string, origText: string, tokText: string, r: string)
    requires Projected(predText, origText, tokText, r)
    ensures var k, m, at := Offset(predText, tokText), |NonSpace(predText)|, Positions(origText);
            0 < m && k + m <= |at| && at[k] <= at[k + m - 1] < |origText| && r == origText[at[k]..at[k + m - 1] + 1]
  {
    hide NonSpace, Positions, Offset;
    var k, m := Offset(predText, tokText), |NonSpace(predText)|;
    var a: nat, b :| a < b <= |origText| && r == origText[a..b] && |NonSpace(origText[..a])| == k;
    PieceEnds(origText, a, b, k, m);
  }

  /**
   A piece between characters that are not spaces is fixed by how many such characters precede it and
   how many it has.
   */
  lemma PieceEnds(text: string, a: nat, b: nat, k: nat, m: nat)
    requires a < b <= |text| && text[a] != ' ' && text[b - 1] != ' '
    requires |NonSpace(text[..a])| == k && |NonSpace(text[a..b])| == m > 0
    ensures k + m <= |Positions(text)| && a == Positions(text)[k] && b == Positions(text)[k + m - 1] + 1
  {
    hide NonSpace, Positions;
    OffsetOf(text, a);
    OffsetOf(text, b - 1);
    assert text[..b] == text[..a] + text[a..b];
    NonSpaceConcat(text[..a], text[a..b]);
    OneMoreNonSpace(text, b - 1);
  }

  lemma OneMoreNonSpace(text: string, i: nat)
    requires i < |text| && text[i] != ' '
    ensures |NonSpace(text[..i + 1])| == |NonSpace(text[..i])| + 1
  {
    assert text[..i + 1][..i] == text[..i];
  }

  /** `tokText` is the normalised form of `origText`, its tokens joined by spaces. */
  method GetFinalText(predText: string, origText: string, tokText: string) returns (r: string)
    ensures r == FinalText(predText, origText, tokText)
    ensures ProjectedIfPossible(predText, origText, tokText, r)
  {
    hide NonSpace, Positions, Find, Projected, ProjectedIfPossible;
    FinalTextIs(predText, origText, tokText);
    var startPosition := Find(tokText, predText);
    if startPosition == -1 {
      return origText;
    }
    var endPosition := startPosition + |predText| - 1;
    var origNsText, origNsToS := StripSpaces(origText);
    var tokNsText, tokNsToS := StripSpaces(tokText);
    if |origNsText| != |tokNsText| {
      return origText;
    }
    var tokSToNs := InvertPositions(tokText, tokNsText, tokNsToS);
    if predText == "" {
      assert OccursAt(tokText, predText, 0);
    } else {
      MatchEnds(predText, tokText);
      if predText[0] != ' ' && predText[|predText| - 1] != ' ' { MatchOffsets(predText, tokText); }
    }

    var origStart := None;
    if startPosition in tokSToNs {
      var nsStart := tokSToNs[startPosition];
      if nsStart in origNsToS {
        origStart := Some(origNsToS[nsStart]);
      }
    }
    if origStart.None? {
      return origText;
    }
    var origEnd := None;
    if endPosition in tokSToNs {
      var nsEnd := tokSToNs[endPosition];
      if nsEnd in origNsToS {
        origEnd := Some(origNsToS[nsEnd]);
      }
    }
    if origEnd.None? {
      return origText;
    }
    CutIsProjection(predText, origText, tokText);
    r := origText[origStart.value..origEnd.value + 1];
  }

  function Each(f: char -> char, text: string): string {
    seq(|text|, i requires 0 <= i < |text| => f(text[i]))
  }

  /**
   What the projection is for: if normalising changes characters one by one (say, to lower case),
   then the normalised result is the prediction, spaces aside.
   */
  lemma ProjectionNormalisesToPrediction(
    f: char -> char, predText: string, origText: string, tokText: string, r: string)
    requires Aligns(predText, origText, tokText) && Projected(predText, origText, tokText, r)
    requires NonSpace(tokText) == Each(f, NonSpace(origText))
    ensures Each(f, NonSpace(r)) == NonSpace(predText)
  {
    hide NonSpace, Find, Projected;
    MatchReads(predText, tokText);
    var k, m := Offset(predText, tokText), |NonSpace(predText)|;
    ProjectedReads(predText, origText, tokText, r);
    EachOfSlice(f, NonSpace(origText), k, k + m);
  }

  lemma ProjectedReads(predText: string, origText: string, tokText: string, r: string)
    requires Projected(predText, origText, tokText, r)
    ensures var k, m := Offset(predText, tokText), |NonSpace(predText)|;
            k + m <= |NonSpace(origText)| && NonSpace(r) == NonSpace(origText)[k..k + m]
  {
  }

  lemma EachOfSlice(f: char -> char, text: string, from: nat, to: nat)
    requires from <= to <= |text|
    ensures Each(f, text[from..to]) == Each(f, text)[from..to]
  {
  }

  /** Spaces aside, the prediction is what the normalised text reads at its offset. */
  lemma MatchReads(predText: string, tokText: string)
    requires Find(tokText, predText) != -1
    ensures var k, m := Offset(predText, tokText), |NonSpace(predText)|;
            k + m <= |NonSpace(tokText)| && NonSpace(tokText)[k..k + m] == NonSpace(predText)
  {
    hide NonSpace, Find;
    var p := Find(tokText, predText);
    var before, after := tokText[..p], tokText[p + |predText|..];
    assert tokText == before + predText + after;
    NonSpaceConcat(before, predText);
    NonSpaceConcat(before + predText, after);
    Middle(NonSpace(before), NonSpace(predText), NonSpace(after));
  }

  lemma Middle(a: string, b: string, c: string)
    ensures (a + b + c)[|a|..|a| + |b|] == b
  {
  }
}
