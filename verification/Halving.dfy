/**
 Tuning by successive halving: every round trains all models on a share of the data and keeps the
 better half, until one is left and trained on everything.
 */
module Halving {
  import opened Bits
  import opened StableSort

  /** The score of a model, its place in the round's list, and how many models the round has. */
  type Score<!C> = (C, nat, nat) -> int

  function Rounds(n: nat): nat {
    if n <= 1 then 0 else 1 + Rounds(n / 2)
  }

  /** All rounds with the final training. */
  function Trainings(n: nat): nat {
    if n <= 1 then 1 else n + Trainings(n / 2)
  }

  lemma {:induction false} RoundsAreLog2(n: nat)
    requires n >= 1
    ensures Pow2(Rounds(n)) <= n < 2 * Pow2(Rounds(n))
  {
    if n > 1 {
      RoundsAreLog2(n / 2);
    }
  }

  lemma {:induction false} TrainingsBounded(n: nat)
    requires n >= 1
    ensures Trainings(n) <= 2 * n - 1
  {
    if n > 1 {
      TrainingsBounded(n / 2);
    }
  }

  /** What a round's trainings score. */
  function Scores<C>(models: seq<C>, score: Score<C>): seq<int> {
    seq(|models|, i requires 0 <= i < |models| => score(models[i], i, |models|))
  }

  /**
   One round: trains every model and keeps the places of the better half, best first; no place that
   is dropped scores above one that is kept, and among equal scores the earlier ones are kept.
   */
  method TrainRound<C>(models: seq<C>, score: Score<C>) returns (kept: seq<nat>)
    ensures AreBest(Scores(models, score), |models| / 2, kept)
  {
    var responses: seq<int> := [];
    for count := 0 to |models|
      invariant |responses| == count
      invariant forall i :: 0 <= i < count ==> responses[i] == score(models[i], i, |models|)
    {
      responses := responses + [score(models[count], count, |models|)];
    }
    assert responses == Scores(models, score);
    var topNumber := |responses| / 2;
    BestAreBest(responses, topNumber);
    var sortedResponses := Order(responses);
    kept := sortedResponses[..topNumber];
  }

  /** The models of a round are those at these places of the first list, none twice. */
  ghost predicate PlacedAt<C(!new)>(models: seq<C>, configs: seq<C>, at: seq<nat>) {
    && |models| == |at|
    && (forall i :: 0 <= i < |at| ==> at[i] < |configs| && models[i] == configs[at[i]])
    && (forall i, j :: 0 <= i < j < |at| ==> at[i] != at[j])
  }

  /** The score does not depend on the round or the place in it. */
  ghost predicate DependsOnConfig<C(!new)>(score: Score<C>, base: C -> int) {
    forall c, count, n :: score(c, count, n) == base(c)
  }

  /** Entry `p` has the highest score of the list, and the first such entry. */
  ghost predicate EarliestBest<C(!new)>(models: seq<C>, base: C -> int, p: nat) {
    p < |models| && forall i :: 0 <= i < |models| ==>
      base(models[i]) < base(models[p]) || (base(models[i]) == base(models[p]) && p <= i)
  }

  /** One round of the search: what is kept is the better half by the scores at these places and this size. */
  ghost predicate IsRound<C(!new)>(models: seq<C>, score: Score<C>, next: seq<C>) {
    exists scores: seq<int>, kept: seq<nat> ::
      && |scores| == |models| && (forall i :: 0 <= i < |models| ==> scores[i] == score(models[i], i, |models|))
      && AreBest(scores, |models| / 2, kept)
      && |next| == |kept| && (forall i :: 0 <= i < |kept| ==> kept[i] < |models| && next[i] == models[kept[i]])
  }

  ghost predicate IsRoundAt<C(!new)>(lists: seq<seq<C>>, r: nat, score: Score<C>) {
    r + 1 < |lists| && |lists[r]| > 1 && IsRound(lists[r], score, lists[r + 1])
  }

  /** Rounds from one list of models to another, one for each of the lists but the first. */
  ghost predicate IsSearch<C(!new)>(lists: seq<seq<C>>, configs: seq<C>, score: Score<C>, models: seq<C>) {
    && lists != [] && lists[0] == configs && lists[|lists| - 1] == models
    && forall r :: 0 <= r < |lists| - 1 ==> IsRoundAt(lists, r, score)
  }

  /** How many models all lists have together. */
  function TotalLength<T>(lists: seq<seq<T>>): nat {
    if lists == [] then 0 else TotalLength(lists[..|lists| - 1]) + |lists[|lists| - 1]|
  }

  lemma NoLength<T>()
    ensures TotalLength<T>([]) == 0
  {
  }

  lemma OneMoreLength<T>(lists: seq<seq<T>>, last: seq<T>)
    ensures TotalLength(lists + [last]) == TotalLength(lists) + |last|
  {
    assert (lists + [last])[..|lists|] == lists;
  }

  lemma NoRounds<C(!new)>(configs: seq<C>, score: Score<C>)
    ensures IsSearch([configs], configs, score, configs)
  {
  }

  lemma OneMoreRound<C(!new)>(
    lists: seq<seq<C>>, configs: seq<C>, score: Score<C>, models: seq<C>, kept: seq<nat>)
    requires IsSearch(lists, configs, score, models) && |models| > 1
    requires AreBest(Scores(models, score), |models| / 2, kept)
    requires forall i :: 0 <= i < |kept| ==> kept[i] < |models|
    ensures IsSearch(lists + [Places(models, kept)], configs, score, Places(models, kept))
  {
    hide IsRound, Scores, AreBest, Places;
    RoundIs(models, score, kept);
    var next := lists + [Places(models, kept)];
    forall r | 0 <= r < |next| - 1 ensures IsRoundAt(next, r, score) {
      if r < |lists| - 1 { assert IsRoundAt(lists, r, score); }
    }
  }

  lemma RoundIs<C(!new)>(models: seq<C>, score: Score<C>, kept: seq<nat>)
    requires AreBest(Scores(models, score), |models| / 2, kept)
    requires forall i :: 0 <= i < |kept| ==> kept[i] < |models|
    ensures IsRound(models, score, Places(models, kept))
  {
    var scores, next := Scores(models, score), Places(models, kept);
    assert |scores| == |models| && AreBest(scores, |models| / 2, kept) && |next| == |kept|;
  }

  /** Until one model is left; returns it, its place in the first list, and what the search took. */
  method Tune<C(!new)>(configs: seq<C>, score: Score<C>, ghost base: C -> int)
    returns (model: C, ghost place: nat, rounds: nat, trainings: nat)
    requires configs != []
    ensures place < |configs| && model == configs[place]
    ensures rounds == Rounds(|configs|) && trainings == Trainings(|configs|)
    ensures DependsOnConfig(score, base) ==> EarliestBest(configs, base, place)
    ensures exists lists ::
        IsSearch(lists, configs, score, [model]) && |lists| == rounds + 1 && TotalLength(lists) == trainings
  {
    hide EarliestBest, IsSearch, TotalLength;
    ghost var lists := [configs];
    assert TotalLength(lists) == |configs| by {
      NoLength<C>();
      OneMoreLength([], configs);
      assert [] + [configs] == lists;
    }
    NoRounds(configs, score);
    var models := configs;
    ghost var at := seq<nat>(|configs|, i => i);
    ghost var p: nat := BestPlace(configs, base);
    rounds, trainings := 0, 0;
    while |models| > 1
      invariant models != [] && PlacedAt(models, configs, at)
      invariant |lists| == rounds + 1 && IsSearch(lists, configs, score, models)
      invariant TotalLength(lists) == trainings + |models|
      invariant rounds + Rounds(|models|) == Rounds(|configs|)
      invariant trainings + Trainings(|models|) == Trainings(|configs|)
      invariant DependsOnConfig(score, base) ==>
          p < |models| && EarliestBest(models, base, p) && EarliestBest(configs, base, at[p])
      decreases |models|
    {
      var kept := TrainRound(models, score);
      ghost var scores := Scores(models, score);
      trainings, rounds := trainings + |models|, rounds + 1;
      KeptInRange(scores, kept);
      if DependsOnConfig(score, base) {
        BestIsKeptFirst(models, base, scores, kept, p);
        p := 0;
      }
      OneMoreRound(lists, configs, score, models, kept);
      OneMoreLength(lists, Places(models, kept));
      lists := lists + [Places(models, kept)];
      models := Places(models, kept);
      at := Places(at, kept);
    }
    trainings := trainings + 1;
    model, place := models[0], at[0];
    assert models == [model];
    assert IsSearch(lists, configs, score, [model]);
  }

  function Places<T>(s: seq<T>, at: seq<nat>): seq<T>
    requires forall i :: 0 <= i < |at| ==> at[i] < |s|
  {
    seq(|at|, i requires 0 <= i < |at| => s[at[i]])
  }

  lemma BestPlace<C(!new)>(models: seq<C>, base: C -> int) returns (p: nat)
    requires models != []
    ensures p < |models| && EarliestBest(models, base, p)
  {
    p := 0;
    for j := 0 to |models|
      invariant p < |models|
      invariant forall i :: 0 <= i < j ==>
          base(models[i]) < base(models[p]) || (base(models[i]) == base(models[p]) && p <= i)
    {
      if base(models[j]) > base(models[p]) || (base(models[j]) == base(models[p]) && j < p) {
        p := j;
      }
    }
  }

  /** If scores depend only on the model, the earliest best is kept, and in front. */
  lemma BestIsKeptFirst<C(!new)>(models: seq<C>, base: C -> int, scores: seq<int>, kept: seq<nat>, p: nat)
    requires |models| > 1 && |scores| == |models| && forall i :: 0 <= i < |models| ==> scores[i] == base(models[i])
    requires AreBest(scores, |scores| / 2, kept) && EarliestBest(models, base, p)
    requires forall i :: 0 <= i < |kept| ==> kept[i] < |scores|
    ensures kept != [] && kept[0] == p
    ensures EarliestBest(Places(models, kept), base, 0)
  {
    FrontBeats(scores, kept, p);
  }

  /** The front of the better half goes before every other place. */
  lemma FrontBeats(scores: seq<int>, kept: seq<nat>, p: nat)
    requires AreBest(scores, |scores| / 2, kept) && kept != [] && p < |scores|
    ensures kept[0] < |scores| && (kept[0] == p || Before(scores, kept[0], p))
  {
    if p in kept {
      HeadFirst(scores, kept, p);
    }
  }

  lemma KeptInRange(scores: seq<int>, kept: seq<nat>)
    requires AreBest(scores, |scores| / 2, kept)
    ensures forall i :: 0 <= i < |kept| ==> kept[i] < |scores|
    ensures forall i, j :: 0 <= i < j < |kept| ==> kept[i] != kept[j]
  {
    forall i, j | 0 <= i < j < |kept| ensures kept[i] != kept[j] { OrderDistinct(scores, kept, i, j); }
  }
}
