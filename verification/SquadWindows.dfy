/**
 The overlapping windows that the BERT benchmark cuts a tokenized document into, and the one
 window in which each token is scored.
 */
module SquadWindows {
  import opened Options

  datatype DocSpan = DocSpan(start: int, length: int) {
    function End(): int {
      start + length
    }

    predicate Contains(position: int) {
      start <= position < start + length
    }

    /** A hundred times the context score: the smaller side, plus a hundredth of the length. */
    function Score(position: int): int {
      100 * Min(position - start, End() - 1 - position) + length
    }
  }

  function Min(a: int, b: int): int {
    if a <= b then a else b
  }

  /** The windows cover `n` tokens from end to end without a gap; all but the last are full. */
  ghost predicate Covers(spans: seq<DocSpan>, n: nat, window: int, stride: int) {
    && (spans == [] <==> n == 0)
    && (spans != [] ==> spans[0].start == 0 && spans[|spans| - 1].End() == n)
    && (forall k :: 0 <= k < |spans| ==> 1 <= spans[k].length <= window)
    && (forall k :: 0 <= k < |spans| - 1 ==>
          && spans[k].length == window
          && spans[k].End() < n
          && spans[k + 1].start == spans[k].start + Min(window, stride) <= spans[k].End())
  }

  /** When the loop ends: there is nothing to cut, or every window has room and the loop moves on. */
  predicate Productive(n: nat, window: int, stride: int) {
    n == 0 || (window >= 1 && (n <= window || stride >= 1))
  }

  /** What the loop has cut before it reaches the end: full windows, each after the one before. */
  ghost predicate CoversFront(spans: seq<DocSpan>, n: nat, window: int, stride: int, startOffset: int) {
    && (spans == [] ==> startOffset == 0)
    && (spans != [] ==> spans[0].start == 0 && stride >= 1)
    && (spans != [] ==> startOffset == spans[|spans| - 1].start + Min(window, stride) > 0)
    && (forall k :: 0 <= k < |spans| ==> spans[k].length == window && 0 <= spans[k].start && spans[k].End() < n)
    && (forall k :: 0 <= k < |spans| - 1 ==> spans[k + 1].start == spans[k].start + Min(window, stride))
  }

  lemma OneMoreWindow(spans: seq<DocSpan>, n: nat, window: int, stride: int, startOffset: int, length: int)
    requires Productive(n, window, stride) && 0 <= startOffset < n && CoversFront(spans, n, window, stride, startOffset)
    requires length == Min(n - startOffset, window)
    ensures var next := spans + [DocSpan(startOffset, length)];
            if startOffset + length == n then Covers(next, n, window, stride)
            else CoversFront(next, n, window, stride, startOffset + Min(length, stride))
  {
    var next := spans + [DocSpan(startOffset, length)];
    assert length >= 1 && (startOffset + length < n ==> length == window && stride >= 1);
    assert forall k :: 0 <= k < |spans| ==> next[k] == spans[k];
  }

  method DocSpans(n: nat, window: int, stride: int) returns (spans: seq<DocSpan>)
    requires Productive(n, window, stride)
    ensures Covers(spans, n, window, stride)
  {
    spans := [];
    var startOffset := 0;
    while startOffset < n
      invariant 0 <= startOffset && (startOffset < n || n == 0)
      invariant CoversFront(spans, n, window, stride, startOffset)
      decreases n - startOffset
    {
      var length := n - startOffset;
      if length > window {
        length := window;
      }
      OneMoreWindow(spans, n, window, stride, startOffset, length);
      spans := spans + [DocSpan(startOffset, length)];
      if startOffset + length == n {
        break;
      }
      startOffset := startOffset + Min(length, stride);
    }
  }

  /** The start offset after `k` rounds of that loop, for any window and stride; None once it has ended. */
  function After(n: nat, window: int, stride: int, k: nat): Option<int> {
    if k == 0 then (if 0 < n then Some(0) else None)
    else
      match After(n, window, stride, k - 1)
      case None => None
      case Some(offset) =>
        var length := Min(n - offset, window);
        if offset + length == n then None
        else
          var next := offset + Min(length, stride);
          if next < n then Some(next) else None
  }

  /** The loop ends exactly for productive settings; otherwise it runs forever. */
  lemma TerminatesIff(n: nat, window: int, stride: int)
    ensures (exists k :: After(n, window, stride, k).None?) <==> Productive(n, window, stride)
  {
    if Productive(n, window, stride) {
      Progress(n, window, stride, n);
    } else {
      forall k: nat ensures After(n, window, stride, k).Some? { NoProgress(n, window, stride, k); }
    }
  }

  lemma {:induction false} Progress(n: nat, window: int, stride: int, k: nat)
    requires Productive(n, window, stride)
    ensures var o := After(n, window, stride, k); o.None? || k <= o.value < n
  {
    if k > 0 {
      Progress(n, window, stride, k - 1);
    }
  }

  lemma {:induction false} NoProgress(n: nat, window: int, stride: int, k: nat)
    requires !Productive(n, window, stride)
    ensures var o := After(n, window, stride, k); o.Some? && o.value <= 0
  {
    if k > 0 {
      NoProgress(n, window, stride, k - 1);
    }
  }

  // ---------- Maximum context ----------

  /** Window `k` contains the position, no window scores it higher, and no earlier one as high. */
  ghost predicate IsMaxContext(spans: seq<DocSpan>, k: int, position: int) {
    && 0 <= k < |spans|
    && spans[k].Contains(position)
    && forall j :: 0 <= j < |spans| && spans[j].Contains(position) ==>
         spans[j].Score(position) < spans[k].Score(position) ||
         (spans[j].Score(position) == spans[k].Score(position) && k <= j)
  }

  method CheckIsMaxContext(spans: seq<DocSpan>, curSpanIndex: int, position: int) returns (isMax: bool)
    ensures isMax <==> IsMaxContext(spans, curSpanIndex, position)
  {
    var bestScore: Option<int> := None;
    var bestSpanIndex: Option<int> := None;
    for spanIndex := 0 to |spans|
      invariant bestScore.Some? <==> bestSpanIndex.Some?
      invariant bestSpanIndex.None? ==> forall j :: 0 <= j < spanIndex ==> !spans[j].Contains(position)
      invariant bestSpanIndex.Some? ==>
          && IsMaxContext(spans[..spanIndex], bestSpanIndex.value, position)
          && bestScore.value == spans[bestSpanIndex.value].Score(position)
    {
      var docSpan := spans[spanIndex];
      var end := docSpan.start + docSpan.length - 1;
      if position < docSpan.start || position > end {
        assert forall j :: 0 <= j < spanIndex + 1 && spans[j].Contains(position) ==> j < spanIndex;
        continue;
      }
      var score := 100 * Min(position - docSpan.start, end - position) + docSpan.length;
      if bestScore.None? || score > bestScore.value {
        bestScore := Some(score);
        bestSpanIndex := Some(spanIndex);
      }
    }
    assert spans[..|spans|] == spans;
    isMax := bestSpanIndex == Some(curSpanIndex);
    if bestSpanIndex.Some? {
      MaxContextUnique(spans, bestSpanIndex.value, curSpanIndex, position);
    }
  }

  /** The context score as a real number, from the tokens to the left and to the right within the window. */
  function ContextScore(left: int, right: int, length: int): real {
    (if left <= right then left else right) as real + 0.01 * length as real
  }

  /**
   What maximum context means: of the windows that contain the position, none has a higher score, and
   none before this one has the same.
   */
  lemma MaxContextMeans(spans: seq<DocSpan>, k: nat, position: int)
    requires k < |spans|
    ensures IsMaxContext(spans, k, position) <==>
              && spans[k].start <= position < spans[k].start + spans[k].length
              && forall j :: 0 <= j < |spans| && spans[j].start <= position < spans[j].start + spans[j].length ==>
                   var best := ContextScore(position - spans[k].start, spans[k].start + spans[k].length - 1 - position,
                                            spans[k].length);
                   var other := ContextScore(position - spans[j].start, spans[j].start + spans[j].length - 1 - position,
                                             spans[j].length);
                   other < best || (other == best && k <= j)
  {
    forall j | 0 <= j < |spans|
      ensures ContextScore(position - spans[j].start, spans[j].start + spans[j].length - 1 - position, spans[j].length)
           == 0.01 * spans[j].Score(position) as real
    {
    }
  }

  /** Of two windows of the same length, the one with the larger smaller side wins, and among equals the earlier. */
  lemma LargerSideWins(spans: seq<DocSpan>, k: nat, j: nat, position: int)
    requires k < |spans| && j < |spans| && spans[j].length == spans[k].length
    requires IsMaxContext(spans, k, position)
    requires spans[j].start <= position < spans[j].start + spans[j].length
    ensures var l, r := position - spans[k].start, spans[k].start + spans[k].length - 1 - position;
            var l', r' := position - spans[j].start, spans[j].start + spans[j].length - 1 - position;
            var best, other := if l <= r then l else r, if l' <= r' then l' else r';
            other < best || (other == best && k <= j)
  {
  }

  lemma MaxContextUnique(spans: seq<DocSpan>, a: int, b: int, position: int)
    ensures IsMaxContext(spans, a, position) && IsMaxContext(spans, b, position) ==> a == b
  {
  }

  /** A position that some window contains has a window of maximum context. */
  lemma {:induction false} MaxContextExists(spans: seq<DocSpan>, i: nat, position: int) returns (best: nat)
    requires i < |spans| && spans[i].Contains(position)
    ensures IsMaxContext(spans, best, position)
  {
    best := i;
    for j := 0 to |spans|
      invariant best < |spans| && spans[best].Contains(position)
      invariant forall e :: 0 <= e < j && spans[e].Contains(position) ==>
          spans[e].Score(position) < spans[best].Score(position) ||
          (spans[e].Score(position) == spans[best].Score(position) && best <= e)
    {
      if spans[j].Contains(position) &&
         (spans[j].Score(position) > spans[best].Score(position) ||
          (spans[j].Score(position) == spans[best].Score(position) && j < best)) {
        best := j;
      }
    }
  }

  /** Full cover: every token lies in some window. */
  lemma {:induction false} Covered(spans: seq<DocSpan>, n: nat, window: int, stride: int, position: int, upTo: nat)
    returns (k: nat)
    requires Covers(spans, n, window, stride) && upTo < |spans| && 0 <= position < spans[upTo].End()
    ensures k <= upTo && spans[k].Contains(position)
  {
    k := upTo;
    if position < spans[upTo].start {
      assert upTo > 0;
      assert spans[(upTo - 1) + 1].start <= spans[upTo - 1].End();
      k := Covered(spans, n, window, stride, position, upTo - 1);
    }
  }

  /** Each token of the document has its maximum context in exactly one window. */
  lemma ExactlyOneMaxContext(spans: seq<DocSpan>, n: nat, window: int, stride: int, position: nat)
    requires Covers(spans, n, window, stride) && position < n
    ensures exists k :: IsMaxContext(spans, k, position) && forall j :: IsMaxContext(spans, j, position) ==> j == k
  {
    var i := Covered(spans, n, window, stride, position, |spans| - 1);
    var k := MaxContextExists(spans, i, position);
    forall j ensures IsMaxContext(spans, j, position) ==> j == k {
      MaxContextUnique(spans, j, k, position);
    }
  }
}
