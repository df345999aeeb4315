/**
 * The read-side tally the poll list renders for each poll: the total number
 * of votes, each option's share of it, the winning option with its tie rule,
 * and the per-option display flags built from them.
 */
module Tally {
  import opened Wrappers
  import opened PollData

  /** The number of votes cast in a poll, summed over its options from the first to the last. */
  function TotalVotes(opts: seq<PollOption>): nat
  {
    if |opts| == 0 then 0 else TotalVotes(opts[..|opts| - 1]) + VoteCount(opts[|opts| - 1])
  }

  /** No option can hold more votes than the whole poll. */
  lemma {:induction false} CountWithinTotal(opts: seq<PollOption>, i: int)
    requires 0 <= i < |opts|
    ensures VoteCount(opts[i]) <= TotalVotes(opts)
  {
    if i < |opts| - 1 {
      CountWithinTotal(opts[..|opts| - 1], i);
    }
  }

  /** The total is zero exactly when no option holds a vote (in particular, for a poll without options). */
  lemma {:induction false} TotalZeroIffNoVotes(opts: seq<PollOption>)
    ensures TotalVotes(opts) == 0 <==> forall i :: 0 <= i < |opts| ==> VoteCount(opts[i]) == 0
  {
    if |opts| > 0 {
      var init := opts[..|opts| - 1];
      TotalZeroIffNoVotes(init);
      assert forall i :: 0 <= i < |init| ==> init[i] == opts[i];
    }
  }

  /** An option's share of the poll's votes in percent, as an exact real; 0 when nobody has voted. */
  function Percentage(count: nat, total: nat): real
  {
    if total == 0 then 0.0 else (count as real / total as real) * 100.0
  }

  /** Every option's percentage lies in [0, 100], and it is 0 whenever nobody has voted. */
  lemma PercentageBounds(opts: seq<PollOption>, i: int)
    requires 0 <= i < |opts|
    ensures 0.0 <= Percentage(VoteCount(opts[i]), TotalVotes(opts)) <= 100.0
    ensures TotalVotes(opts) == 0 ==> Percentage(VoteCount(opts[i]), TotalVotes(opts)) == 0.0
  {
    CountWithinTotal(opts, i);
    if TotalVotes(opts) > 0 {
      ShareAtMostOne(VoteCount(opts[i]) as real, TotalVotes(opts) as real);
    }
  }

  lemma ShareAtMostOne(c: real, t: real)
    requires 0.0 <= c <= t && t > 0.0
    ensures 0.0 <= c / t <= 1.0
  {
    assert (c / t) * t == c;
  }

  /** The sum of the percentages of `opts`, each taken against `total`. */
  function SumOfPercentages(opts: seq<PollOption>, total: nat): real
  {
    if |opts| == 0 then 0.0
    else SumOfPercentages(opts[..|opts| - 1], total) + Percentage(VoteCount(opts[|opts| - 1]), total)
  }

  lemma {:induction false} SumOfPercentagesIsShareOfTotal(opts: seq<PollOption>, total: nat)
    requires total > 0
    ensures SumOfPercentages(opts, total) == (TotalVotes(opts) as real / total as real) * 100.0
  {
    if |opts| > 0 {
      var init, c := opts[..|opts| - 1], VoteCount(opts[|opts| - 1]) as real;
      SumOfPercentagesIsShareOfTotal(init, total);
      SharesAdd(TotalVotes(init) as real, c, total as real);
    }
  }

  lemma SharesAdd(s: real, c: real, t: real)
    requires t > 0.0
    ensures (s / t) * 100.0 + (c / t) * 100.0 == ((s + c) / t) * 100.0
  {
  }

  /** Whenever some vote has been cast, the percentages of all options add up to exactly 100. */
  lemma PercentagesSumTo100(opts: seq<PollOption>)
    requires TotalVotes(opts) > 0
    ensures SumOfPercentages(opts, TotalVotes(opts)) == 100.0
  {
    SumOfPercentagesIsShareOfTotal(opts, TotalVotes(opts));
    WholeShare(TotalVotes(opts) as real);
  }

  lemma WholeShare(t: real)
    requires t > 0.0
    ensures (t / t) * 100.0 == 100.0
  {
  }

  /** Option `i` has strictly more votes than every other option. */
  predicate IsStrictMax(opts: seq<PollOption>, i: int)
    requires 0 <= i < |opts|
  {
    forall j :: 0 <= j < |opts| && j != i ==> VoteCount(opts[j]) < VoteCount(opts[i])
  }

  /**
   * The reference winner: the id of the option with the
   * strictly greatest vote count, and no winner when there is none (no
   * options, or two or more options tied at the maximum).
   */
  ghost function WinnerOf(opts: seq<PollOption>): Option<int>
  {
    if exists i :: 0 <= i < |opts| && IsStrictMax(opts, i) then
      var i :| 0 <= i < |opts| && IsStrictMax(opts, i);
      Some(opts[i].id)
    else
      None
  }

  /** At most one option can be the strict maximum, so WinnerOf names that option. */
  lemma WinnerOfStrictMax(opts: seq<PollOption>, i: int)
    requires 0 <= i < |opts| && IsStrictMax(opts, i)
    ensures WinnerOf(opts) == Some(opts[i].id)
  {
    forall k | 0 <= k < |opts| && k != i
      ensures !IsStrictMax(opts, k)
    {
      assert VoteCount(opts[k]) < VoteCount(opts[i]);
    }
  }

  /** The options whose vote count is `m`, in their original order. */
  function Tied(opts: seq<PollOption>, m: int): seq<PollOption>
  {
    if |opts| == 0 then []
    else Tied(opts[..|opts| - 1], m) + (if VoteCount(opts[|opts| - 1]) == m then [opts[|opts| - 1]] else [])
  }

  /** Two different options with count `m` make the filter keep at least two. */
  lemma {:induction false} TiedHoldsBoth(opts: seq<PollOption>, m: int, i: int, j: int)
    requires 0 <= i < j < |opts|
    requires VoteCount(opts[i]) == m && VoteCount(opts[j]) == m
    ensures |Tied(opts, m)| >= 2
  {
    var init := opts[..|opts| - 1];
    if j < |opts| - 1 {
      TiedHoldsBoth(init, m, i, j);
    } else {
      TiedHoldsOne(init, m, i);
    }
  }

  /** An option with count `m` makes the filter keep at least one. */
  lemma {:induction false} TiedHoldsOne(opts: seq<PollOption>, m: int, i: int)
    requires 0 <= i < |opts| && VoteCount(opts[i]) == m
    ensures |Tied(opts, m)| >= 1
  {
    if i < |opts| - 1 {
      TiedHoldsOne(opts[..|opts| - 1], m, i);
    }
  }

  /** When option `i` is the only one with count `m`, the filter keeps at most that one. */
  lemma {:induction false} TiedOnlyOne(opts: seq<PollOption>, m: int, i: int)
    requires 0 <= i < |opts|
    requires forall j :: 0 <= j < |opts| && j != i ==> VoteCount(opts[j]) != m
    ensures |Tied(opts, m)| <= 1
  {
    var init := opts[..|opts| - 1];
    if i < |opts| - 1 {
      TiedOnlyOne(init, m, i);
    } else {
      TiedNone(init, m);
    }
  }

  /** When no option has count `m`, the filter keeps nothing. */
  lemma {:induction false} TiedNone(opts: seq<PollOption>, m: int)
    requires forall j :: 0 <= j < |opts| ==> VoteCount(opts[j]) != m
    ensures Tied(opts, m) == []
  {
    if |opts| > 0 {
      TiedNone(opts[..|opts| - 1], m);
    }
  }

  /**
   * The winner pass of the poll list: a first loop keeps the first option
   * reaching a strictly greater count than seen so far, then a filter counts
   * the options at that maximum, and more than one of them means no winner.
   */
  method Winner(opts: seq<PollOption>) returns (w: Option<int>)
    ensures |opts| == 0 ==> w == None
    ensures w.Some? <==> exists i :: 0 <= i < |opts| && IsStrictMax(opts, i)
    ensures forall i :: 0 <= i < |opts| && IsStrictMax(opts, i) ==> w == Some(opts[i].id)
    ensures w == WinnerOf(opts)
  {
    w := None;
    var maxVotes: int := -1;
    if |opts| > 0 {
      ghost var lead := 0;
      var k := 0;
      while k < |opts|
        invariant 0 <= k <= |opts|
        invariant k == 0 ==> maxVotes == -1 && w == None
        invariant 0 <= lead < |opts|
        invariant k > 0 ==> lead < k && w == Some(opts[lead].id) && maxVotes == VoteCount(opts[lead])
        invariant forall j :: 0 <= j < k ==> VoteCount(opts[j]) <= maxVotes
        invariant forall j :: 0 <= j < lead ==> VoteCount(opts[j]) < maxVotes
      {
        if VoteCount(opts[k]) > maxVotes {
          maxVotes := VoteCount(opts[k]);
          w := Some(opts[k].id);
          lead := k;
        }
        k := k + 1;
      }
      var winners := Tied(opts, maxVotes);
      if |winners| > 1 {
        w := None;
        forall i | 0 <= i < |opts|
          ensures !IsStrictMax(opts, i)
        {
          if IsStrictMax(opts, i) {
            assert VoteCount(opts[i]) == maxVotes;
            TiedOnlyOne(opts, maxVotes, i);
          }
        }
      } else {
        forall j | 0 <= j < |opts| && j != lead
          ensures VoteCount(opts[j]) < maxVotes
        {
          if VoteCount(opts[j]) == maxVotes {
            if j < lead {
              TiedHoldsBoth(opts, maxVotes, j, lead);
            } else {
              TiedHoldsBoth(opts, maxVotes, lead, j);
            }
          }
        }
        WinnerOfStrictMax(opts, lead);
      }
    }
  }

  /** Two options with the same count: no winner, and once anyone has voted each holds exactly half. */
  lemma TwoWayTie(a: PollOption, b: PollOption)
    requires VoteCount(a) == VoteCount(b)
    ensures WinnerOf([a, b]) == None
    ensures TotalVotes([a, b]) > 0 ==> Percentage(VoteCount(a), TotalVotes([a, b])) == 50.0
  {
    assert [a, b][..1] == [a];
    assert !IsStrictMax([a, b], 0) && !IsStrictMax([a, b], 1);
    var c := VoteCount(a) as real;
    assert TotalVotes([a, b]) == TotalVotes([a]) + VoteCount(b);
    assert TotalVotes([a, b]) as real == 2.0 * c;
    if c > 0.0 {
      assert (c / (2.0 * c)) * 2.0 == 1.0;
    }
  }

  /** Five votes against two: the first option wins, with 500/7 and 200/7 percent (shown as 71.4 and 28.6). */
  lemma FiveToTwo(a: PollOption, b: PollOption)
    requires VoteCount(a) == 5 && VoteCount(b) == 2
    ensures WinnerOf([a, b]) == Some(a.id)
    ensures Percentage(VoteCount(a), TotalVotes([a, b])) == 500.0 / 7.0
    ensures Percentage(VoteCount(b), TotalVotes([a, b])) == 200.0 / 7.0
  {
    WinnerOfStrictMax([a, b], 0);
    assert [a, b][..1] == [a];
    assert TotalVotes([a, b]) == TotalVotes([a]) + VoteCount(b);
    assert TotalVotes([a, b]) == 7;
  }

  /** The option is shown as the user's own choice: the user has voted and chose this option. */
  predicate IsSelected(hasVoted: bool, selected: Option<int>, optionId: int)
  {
    hasVoted && selected == Some(optionId)
  }

  /** The option is shown as not chosen: the user has voted, but for something else. */
  predicate IsVotedOther(hasVoted: bool, selected: Option<int>, optionId: int)
  {
    hasVoted && selected != Some(optionId)
  }

  /** The option's bar is highlighted as winning: the user has voted, it is the winner, and some vote exists. */
  predicate IsWinningOption(hasVoted: bool, optionId: int, winner: Option<int>, total: nat)
  {
    hasVoted && winner == Some(optionId) && total > 0
  }

  /** Once the user has voted, each option is marked exactly one of "selected" and "voted-other"; before, neither. */
  lemma SelectionMarks(hasVoted: bool, selected: Option<int>, optionId: int)
    ensures hasVoted ==> (IsSelected(hasVoted, selected, optionId) <==> !IsVotedOther(hasVoted, selected, optionId))
    ensures !hasVoted ==> !IsSelected(hasVoted, selected, optionId) && !IsVotedOther(hasVoted, selected, optionId)
  {
  }

  /**
   * An option is highlighted as winning exactly when the user has voted,
   * some vote has been cast, and an option with its id has strictly the
   * most votes.
   */
  lemma WinningHighlight(opts: seq<PollOption>, i: int, hasVoted: bool)
    requires 0 <= i < |opts|
    ensures IsWinningOption(hasVoted, opts[i].id, WinnerOf(opts), TotalVotes(opts))
        <==> hasVoted && TotalVotes(opts) > 0 && exists k :: 0 <= k < |opts| && IsStrictMax(opts, k) && opts[k].id == opts[i].id
  {
    if WinnerOf(opts).Some? {
      var k :| 0 <= k < |opts| && IsStrictMax(opts, k);
      WinnerOfStrictMax(opts, k);
    }
  }

  /** With two or more options, a winner always has at least one vote, so the `totalVotes > 0` guard only matters for a lone option. */
  lemma {:induction false} WinnerHasVotes(opts: seq<PollOption>)
    requires |opts| >= 2 && WinnerOf(opts).Some?
    ensures TotalVotes(opts) > 0
  {
    var k :| 0 <= k < |opts| && IsStrictMax(opts, k);
    var j := if k == 0 then 1 else 0;
    assert VoteCount(opts[j]) < VoteCount(opts[k]);
    CountWithinTotal(opts, k);
  }

  /** A poll whose only option has no votes has that option as winner, yet never highlights it. */
  lemma LoneOptionWithoutVotes(o: PollOption, hasVoted: bool)
    requires VoteCount(o) == 0
    ensures WinnerOf([o]) == Some(o.id)
    ensures !IsWinningOption(hasVoted, o.id, WinnerOf([o]), TotalVotes([o]))
  {
    WinnerOfStrictMax([o], 0);
  }
}
