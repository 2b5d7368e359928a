/**
 * The food-to-recipient matching routine. For each food, in order, every
 * recipient is scored by an external oracle; the first recipient with the
 * strictly greatest score is kept, failed oracle calls are skipped, and a food
 * for which nothing was kept produces no match.
 */
module Matching {
  import opened Wrappers
  import ScoreParser

  /** A row of the foods table (the columns the routine reads). */
  datatype Food = Food(name: string, quantity: Option<int>, urgency: Option<string>)

  /** A row of the recipients table. */
  datatype Recipient = Recipient(name: string, email: string, phone: string, address: string, capacity: Option<int>)

  /** One line of the result: the chosen recipient's name, its score and the food it is matched with. */
  datatype Match = Match(recipient: string, score: nat, food: Food)

  /**
   * What one oracle call yields: a thrown error, or a response whose first
   * choice's message content may be missing.
   */
  datatype Reply = Fail | Ok(content: Option<string>)

  /** The scoring oracle for the pair (food index, recipient index). */
  type Oracle = (nat, nat) -> Reply

  /** The score of one call, or None when the call failed and was skipped. */
  function ScoreAt(oracle: Oracle, food: nat, recipient: nat): (r: Option<nat>)
    ensures r.Some? <==> oracle(food, recipient).Ok?
    ensures r.Some? ==> r.value == ScoreParser.ParseScore(oracle(food, recipient).content)
  {
    match oracle(food, recipient)
    case Fail => None
    case Ok(content) => Some(ScoreParser.ParseScore(content))
  }

  /** The best recipient found so far and its score. */
  datatype Candidate = Candidate(recipient: nat, score: nat)

  /** `bestScore`: -1 before any recipient has been kept. */
  function BestScore(best: Option<Candidate>): int {
    match best
    case None => -1
    case Some(c) => c.score
  }

  /** The candidate kept after scanning the first `n` recipients for `food`. */
  function Best(oracle: Oracle, food: nat, n: nat): (b: Option<Candidate>)
    ensures b.Some? ==> b.value.recipient < n && ScoreAt(oracle, food, b.value.recipient) == Some(b.value.score)
  {
    if n == 0 then None
    else
      var prev := Best(oracle, food, n - 1);
      match ScoreAt(oracle, food, n - 1)
      case None => prev
      case Some(s) => if s > BestScore(prev) then Some(Candidate(n - 1, s)) else prev
  }

  /** `c` is the earliest among the first `n` recipients whose successful score is the greatest. */
  ghost predicate IsEarliestMax(oracle: Oracle, food: nat, n: nat, c: Candidate) {
    && c.recipient < n
    && ScoreAt(oracle, food, c.recipient) == Some(c.score)
    && (forall k :: 0 <= k < n && ScoreAt(oracle, food, k).Some? ==> ScoreAt(oracle, food, k).value <= c.score)
    && (forall k :: 0 <= k < c.recipient && ScoreAt(oracle, food, k).Some? ==> ScoreAt(oracle, food, k).value < c.score)
  }

  ghost predicate AllFail(oracle: Oracle, food: nat, n: nat) {
    forall k :: 0 <= k < n ==> ScoreAt(oracle, food, k).None?
  }

  /** The match kept for food `i` after its first `n` recipients, as the routine builds it. */
  function MatchWithin(foods: seq<Food>, recipients: seq<Recipient>, oracle: Oracle, i: nat, n: nat): Option<Match>
    requires i < |foods| && n <= |recipients|
  {
    match Best(oracle, i, n)
    case None => None
    case Some(c) =>
      var f := foods[i];
      Some(Match(recipients[c.recipient].name, c.score, Food(f.name, f.quantity, f.urgency)))
  }

  function MatchFor(foods: seq<Food>, recipients: seq<Recipient>, oracle: Oracle, i: nat): Option<Match>
    requires i < |foods|
  {
    MatchWithin(foods, recipients, oracle, i, |recipients|)
  }

  /** The result after the first `m` foods. */
  function MatchesUpTo(foods: seq<Food>, recipients: seq<Recipient>, oracle: Oracle, m: nat): seq<Match>
    requires m <= |foods|
  {
    if m == 0 then []
    else
      var prefix := MatchesUpTo(foods, recipients, oracle, m - 1);
      match MatchFor(foods, recipients, oracle, m - 1)
      case None => prefix
      case Some(x) => prefix + [x]
  }

  function Matches(foods: seq<Food>, recipients: seq<Recipient>, oracle: Oracle): seq<Match> {
    MatchesUpTo(foods, recipients, oracle, |foods|)
  }

  /** The indices of the first `m` foods that get a match, in increasing order. */
  function MatchedFoods(foods: seq<Food>, recipients: seq<Recipient>, oracle: Oracle, m: nat): (r: seq<nat>)
    requires m <= |foods|
    ensures |r| <= m
    ensures forall k :: 0 <= k < |r| ==> r[k] < m
  {
    if m == 0 then []
    else
      var prefix := MatchedFoods(foods, recipients, oracle, m - 1);
      if MatchFor(foods, recipients, oracle, m - 1).Some? then prefix + [m - 1] else prefix
  }

  /**
   * computeAIMatches: the nested loops over foods and recipients. A failed
   * oracle call is caught and leaves the best-so-far unchanged.
   */
  method ComputeMatches(foods: seq<Food>, recipients: seq<Recipient>, oracle: Oracle) returns (matches: seq<Match>)
    ensures matches == Matches(foods, recipients, oracle)
  {
    matches := [];
    for i := 0 to |foods|
      invariant matches == MatchesUpTo(foods, recipients, oracle, i)
    {
      var food := foods[i];
      var bestMatch: Option<Match> := None;
      var bestScore: int := -1;
      for j := 0 to |recipients|
        invariant bestScore == BestScore(Best(oracle, i, j))
        invariant bestMatch == MatchWithin(foods, recipients, oracle, i, j)
      {
        var reply := oracle(i, j);
        match reply {
          case Fail =>
            assert ScoreAt(oracle, i, j) == None;
          case Ok(content) =>
            var score := ScoreParser.ParseScore(content);
            assert ScoreAt(oracle, i, j) == Some(score);
            if score > bestScore {
              bestScore := score;
              bestMatch := Some(Match(recipients[j].name, score, Food(food.name, food.quantity, food.urgency)));
            }
        }
      }
      if bestMatch.Some? {
        matches := matches + [bestMatch.value];
      }
    }
  }

  // ---------------------------------------------------------------------------
  // The choice for one food

  /** Every successful score is at least 0, so it beats the seed -1. */
  lemma BestScoreSeed(oracle: Oracle, food: nat, n: nat)
    ensures BestScore(Best(oracle, food, n)) >= -1
    ensures Best(oracle, food, n).Some? <==> BestScore(Best(oracle, food, n)) >= 0
  {
  }

  /** A food has no candidate exactly when every call for it failed (or there were no recipients). */
  lemma {:induction false} BestNoneIffAllFail(oracle: Oracle, food: nat, n: nat)
    ensures Best(oracle, food, n).None? <==> AllFail(oracle, food, n)
  {
    if n > 0 {
      BestNoneIffAllFail(oracle, food, n - 1);
    }
  }

  /** The candidate kept is the earliest recipient with the maximum successful score. */
  lemma {:induction false} BestIsEarliestMax(oracle: Oracle, food: nat, n: nat)
    requires Best(oracle, food, n).Some?
    ensures IsEarliestMax(oracle, food, n, Best(oracle, food, n).value)
  {
    var m := n - 1;
    var prev := Best(oracle, food, m);
    var r := ScoreAt(oracle, food, m);
    if r.None? {
      assert Best(oracle, food, n) == prev;
      BestIsEarliestMax(oracle, food, m);
      EarliestMaxPastFailure(oracle, food, m, prev.value);
    } else if r.value > BestScore(prev) {
      assert Best(oracle, food, n) == Some(Candidate(m, r.value));
      if prev.None? {
        BestNoneIffAllFail(oracle, food, m);
        EarliestMaxAfterFailures(oracle, food, m, r.value);
      } else {
        BestIsEarliestMax(oracle, food, m);
        EarliestMaxNewLeader(oracle, food, m, prev.value, r.value);
      }
    } else {
      assert Best(oracle, food, n) == prev;
      BestIsEarliestMax(oracle, food, m);
      EarliestMaxKeepsLeader(oracle, food, m, prev.value);
    }
  }

  lemma EarliestMaxPastFailure(oracle: Oracle, food: nat, n: nat, c: Candidate)
    requires IsEarliestMax(oracle, food, n, c) && ScoreAt(oracle, food, n).None?
    ensures IsEarliestMax(oracle, food, n + 1, c)
  {
  }

  lemma EarliestMaxAfterFailures(oracle: Oracle, food: nat, n: nat, s: nat)
    requires AllFail(oracle, food, n) && ScoreAt(oracle, food, n) == Some(s)
    ensures IsEarliestMax(oracle, food, n + 1, Candidate(n, s))
  {
  }

  lemma EarliestMaxNewLeader(oracle: Oracle, food: nat, n: nat, c: Candidate, s: nat)
    requires IsEarliestMax(oracle, food, n, c) && ScoreAt(oracle, food, n) == Some(s) && s > c.score
    ensures IsEarliestMax(oracle, food, n + 1, Candidate(n, s))
  {
  }

  lemma EarliestMaxKeepsLeader(oracle: Oracle, food: nat, n: nat, c: Candidate)
    requires IsEarliestMax(oracle, food, n, c)
    requires ScoreAt(oracle, food, n).Some? && ScoreAt(oracle, food, n).value <= c.score
    ensures IsEarliestMax(oracle, food, n + 1, c)
  {
  }

  /** At most one candidate is the earliest maximum. */
  lemma EarliestMaxUnique(oracle: Oracle, food: nat, n: nat, c1: Candidate, c2: Candidate)
    requires IsEarliestMax(oracle, food, n, c1) && IsEarliestMax(oracle, food, n, c2)
    ensures c1 == c2
  {
  }

  /** The kept candidate is exactly the earliest maximum: both directions. */
  lemma BestIff(oracle: Oracle, food: nat, n: nat, c: Candidate)
    ensures Best(oracle, food, n) == Some(c) <==> IsEarliestMax(oracle, food, n, c)
  {
    if Best(oracle, food, n) == Some(c) {
      BestIsEarliestMax(oracle, food, n);
    } else if IsEarliestMax(oracle, food, n, c) {
      BestNoneIffAllFail(oracle, food, n);
      assert !AllFail(oracle, food, n) by {
        assert ScoreAt(oracle, food, c.recipient).Some?;
      }
      BestIsEarliestMax(oracle, food, n);
      EarliestMaxUnique(oracle, food, n, c, Best(oracle, food, n).value);
    }
  }

  /**
   * A failed call only removes that recipient from consideration: if `o1`
   * fails where `o2` may not, and agrees with `o2` on every other recipient,
   * the two choose the same unless `o2` chose that very recipient.
   */
  lemma FailedCallOnlyDropsItsRecipient(o1: Oracle, o2: Oracle, food: nat, n: nat, j: nat)
    requires o1(food, j).Fail?
    requires forall k :: k != j ==> o1(food, k) == o2(food, k)
    requires Best(o2, food, n).None? || Best(o2, food, n).value.recipient != j
    ensures Best(o1, food, n) == Best(o2, food, n)
  {
    assert forall k :: k != j ==> ScoreAt(o1, food, k) == ScoreAt(o2, food, k) by {
      forall k | k != j ensures ScoreAt(o1, food, k) == ScoreAt(o2, food, k) {
        assert o1(food, k) == o2(food, k);
      }
    }
    match Best(o2, food, n)
    case None =>
      BestNoneIffAllFail(o2, food, n);
      BestNoneIffAllFail(o1, food, n);
    case Some(c) =>
      BestIsEarliestMax(o2, food, n);
      BestIff(o1, food, n, c);
  }

  // ---------------------------------------------------------------------------
  // The result sequence

  /** The result has one entry per matched food. */
  lemma {:induction false} MatchesLength(foods: seq<Food>, recipients: seq<Recipient>, oracle: Oracle, m: nat)
    requires m <= |foods|
    ensures |MatchesUpTo(foods, recipients, oracle, m)| == |MatchedFoods(foods, recipients, oracle, m)|
  {
    if m > 0 {
      MatchesLength(foods, recipients, oracle, m - 1);
      var ms, fs := MatchesUpTo(foods, recipients, oracle, m - 1), MatchedFoods(foods, recipients, oracle, m - 1);
      if MatchFor(foods, recipients, oracle, m - 1).Some? {
        assert MatchesUpTo(foods, recipients, oracle, m) == ms + [MatchFor(foods, recipients, oracle, m - 1).value];
        assert MatchedFoods(foods, recipients, oracle, m) == fs + [m - 1];
      } else {
        assert MatchesUpTo(foods, recipients, oracle, m) == ms;
        assert MatchedFoods(foods, recipients, oracle, m) == fs;
      }
    }
  }

  /** Entry `k` of the result is the match of the `k`-th matched food. */
  lemma {:induction false} MatchesEntry(foods: seq<Food>, recipients: seq<Recipient>, oracle: Oracle, m: nat, k: nat)
    requires m <= |foods| && k < |MatchedFoods(foods, recipients, oracle, m)|
    ensures |MatchesUpTo(foods, recipients, oracle, m)| == |MatchedFoods(foods, recipients, oracle, m)|
    ensures MatchFor(foods, recipients, oracle, MatchedFoods(foods, recipients, oracle, m)[k])
      == Some(MatchesUpTo(foods, recipients, oracle, m)[k])
  {
    MatchesLength(foods, recipients, oracle, m);
    var ms, fs := MatchesUpTo(foods, recipients, oracle, m - 1), MatchedFoods(foods, recipients, oracle, m - 1);
    MatchesLength(foods, recipients, oracle, m - 1);
    if k < |fs| {
      MatchesEntry(foods, recipients, oracle, m - 1, k);
      if MatchFor(foods, recipients, oracle, m - 1).Some? {
        assert MatchedFoods(foods, recipients, oracle, m)[k] == fs[k];
        assert MatchesUpTo(foods, recipients, oracle, m)[k] == ms[k];
      }
    }
  }

  /** The matched foods are listed in strictly increasing order, so matches come out in food order. */
  lemma {:induction false} MatchedFoodsIncreasing(foods: seq<Food>, recipients: seq<Recipient>, oracle: Oracle, m: nat)
    requires m <= |foods|
    ensures forall k, l :: 0 <= k < l < |MatchedFoods(foods, recipients, oracle, m)| ==>
      MatchedFoods(foods, recipients, oracle, m)[k] < MatchedFoods(foods, recipients, oracle, m)[l]
  {
    if m > 0 {
      MatchedFoodsIncreasing(foods, recipients, oracle, m - 1);
    }
  }

  /** A food is among the matched ones exactly when it gets a match. */
  lemma {:induction false} MatchedFoodsExactly(foods: seq<Food>, recipients: seq<Recipient>, oracle: Oracle, m: nat, i: nat)
    requires i < m <= |foods|
    ensures i in MatchedFoods(foods, recipients, oracle, m) <==> MatchFor(foods, recipients, oracle, i).Some?
  {
    if i < m - 1 {
      MatchedFoodsExactly(foods, recipients, oracle, m - 1, i);
    }
  }

  // ---------------------------------------------------------------------------
  // The whole result

  /** A later recipient that only ties an earlier one is never chosen: the comparison is strict. */
  lemma TieGoesToEarlier(oracle: Oracle, food: nat, n: nat, j1: nat, j2: nat)
    requires j1 < j2 < n
    requires ScoreAt(oracle, food, j1).Some? && ScoreAt(oracle, food, j1) == ScoreAt(oracle, food, j2)
    ensures Best(oracle, food, n).Some? && Best(oracle, food, n).value.recipient != j2
  {
    BestNoneIffAllFail(oracle, food, n);
    BestIsEarliestMax(oracle, food, n);
  }

  /**
   * A food gets a match exactly when it has a recipient whose call succeeded;
   * a food is left out only when there are no recipients or every call failed.
   */
  lemma FoodMatchedIff(foods: seq<Food>, recipients: seq<Recipient>, oracle: Oracle, i: nat)
    requires i < |foods|
    ensures i in MatchedFoods(foods, recipients, oracle, |foods|)
      <==> exists j :: 0 <= j < |recipients| && ScoreAt(oracle, i, j).Some?
  {
    MatchedFoodsExactly(foods, recipients, oracle, |foods|, i);
    BestNoneIffAllFail(oracle, i, |recipients|);
  }

  /** At most one match per food, listed in food order. */
  lemma MatchesInFoodOrder(foods: seq<Food>, recipients: seq<Recipient>, oracle: Oracle)
    ensures |Matches(foods, recipients, oracle)| == |MatchedFoods(foods, recipients, oracle, |foods|)| <= |foods|
    ensures forall k, l :: 0 <= k < l < |MatchedFoods(foods, recipients, oracle, |foods|)| ==>
      MatchedFoods(foods, recipients, oracle, |foods|)[k] < MatchedFoods(foods, recipients, oracle, |foods|)[l]
  {
    MatchesLength(foods, recipients, oracle, |foods|);
    MatchedFoodsIncreasing(foods, recipients, oracle, |foods|);
  }

  /**
   * Entry `k` of the result belongs to the `k`-th matched food: it copies that
   * food unchanged and names the earliest recipient with the greatest score.
   */
  lemma MatchIsEarliestMax(foods: seq<Food>, recipients: seq<Recipient>, oracle: Oracle, k: nat)
    requires k < |Matches(foods, recipients, oracle)|
    ensures |MatchedFoods(foods, recipients, oracle, |foods|)| == |Matches(foods, recipients, oracle)|
    ensures
      var i, x := MatchedFoods(foods, recipients, oracle, |foods|)[k], Matches(foods, recipients, oracle)[k];
      && i < |foods|
      && x.food == foods[i]
      && exists j :: 0 <= j < |recipients| && x.recipient == recipients[j].name
           && IsEarliestMax(oracle, i, |recipients|, Candidate(j, x.score))
  {
    MatchesLength(foods, recipients, oracle, |foods|);
    MatchesEntry(foods, recipients, oracle, |foods|, k);
    var i := MatchedFoods(foods, recipients, oracle, |foods|)[k];
    BestIsEarliestMax(oracle, i, |recipients|);
    var c := Best(oracle, i, |recipients|).value;
    assert c.recipient < |recipients|;
  }

  /** With no foods or no recipients the routine returns no matches. */
  lemma EmptyInputsGiveNoMatches(foods: seq<Food>, recipients: seq<Recipient>, oracle: Oracle)
    requires foods == [] || recipients == []
    ensures Matches(foods, recipients, oracle) == []
  {
    if recipients == [] {
      NoRecipientsNoMatches(foods, recipients, oracle, |foods|);
    }
  }

  lemma {:induction false} NoRecipientsNoMatches(foods: seq<Food>, recipients: seq<Recipient>, oracle: Oracle, m: nat)
    requires recipients == [] && m <= |foods|
    ensures MatchesUpTo(foods, recipients, oracle, m) == []
  {
    if m > 0 {
      NoRecipientsNoMatches(foods, recipients, oracle, m - 1);
    }
  }
}
