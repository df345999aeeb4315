/**
 * Which polls the current user has already voted in, and which option they
 * chose, derived from a freshly fetched list of polls.
 */
module Eligibility {
  import opened Wrappers
  import opened PollData

  /** Some vote cast for option `o` was cast by user `u`. */
  predicate HoldsVoteOf(o: PollOption, u: UserId)
  {
    exists k :: 0 <= k < |o.votes| && o.votes[k].userId == u
  }

  /** Some option of poll `p` holds a vote of `u`. */
  predicate VotedIn(p: Poll, u: UserId)
  {
    exists j :: 0 <= j < |p.options| && HoldsVoteOf(p.options[j], u)
  }

  /** The id of the last option of `opts` that holds a vote of `u`, if any. */
  function LastChoiceIn(opts: seq<PollOption>, u: UserId): Option<int>
  {
    if |opts| == 0 then None
    else if HoldsVoteOf(opts[|opts| - 1], u) then Some(opts[|opts| - 1].id)
    else LastChoiceIn(opts[..|opts| - 1], u)
  }

  /**
   * The option recorded for poll id `k`: the last choice of `u` in the last
   * poll with id `k` where `u` voted at all.
   */
  function LastChoice(polls: seq<Poll>, k: int, u: UserId): Option<int>
  {
    if |polls| == 0 then None
    else
      var p := polls[|polls| - 1];
      if p.id == k && LastChoiceIn(p.options, u).Some? then LastChoiceIn(p.options, u)
      else LastChoice(polls[..|polls| - 1], k, u)
  }

  /** A choice is found in a poll exactly when the user voted in it. */
  lemma {:induction false} LastChoiceInIffVoted(opts: seq<PollOption>, u: UserId)
    ensures LastChoiceIn(opts, u).Some? <==> exists j :: 0 <= j < |opts| && HoldsVoteOf(opts[j], u)
  {
    if |opts| > 0 {
      var init := opts[..|opts| - 1];
      LastChoiceInIffVoted(init, u);
      assert forall j :: 0 <= j < |init| ==> init[j] == opts[j];
    }
  }

  /**
   * The recorded choice is an option holding the user's vote with no later
   * option holding one, and every such option is the recorded choice.
   */
  lemma {:induction false} LastChoiceInIsLast(opts: seq<PollOption>, u: UserId, c: int)
    ensures LastChoiceIn(opts, u) == Some(c)
        <==> exists j :: 0 <= j < |opts| && opts[j].id == c && HoldsVoteOf(opts[j], u)
                         && forall j' :: j < j' < |opts| ==> !HoldsVoteOf(opts[j'], u)
  {
    if |opts| > 0 {
      var n := |opts| - 1;
      var init := opts[..n];
      LastChoiceInIsLast(init, u, c);
      assert forall j :: 0 <= j < n ==> init[j] == opts[j];
    }
  }

  /** A poll id is marked exactly when some poll with that id holds a vote of the user. */
  lemma {:induction false} MarkedIffVoted(polls: seq<Poll>, k: int, u: UserId)
    ensures LastChoice(polls, k, u).Some? <==> exists i :: 0 <= i < |polls| && polls[i].id == k && VotedIn(polls[i], u)
  {
    if |polls| > 0 {
      var n := |polls| - 1;
      var init := polls[..n];
      MarkedIffVoted(init, k, u);
      LastChoiceInIffVoted(polls[n].options, u);
      assert forall i :: 0 <= i < n ==> init[i] == polls[i];
    }
  }

  /**
   * The choice recorded for poll id `k` is the last choice of the user in a
   * poll with that id, and no later poll with that id holds a vote of theirs.
   */
  lemma {:induction false} RecordedChoiceIsLast(polls: seq<Poll>, k: int, u: UserId, c: int)
    ensures LastChoice(polls, k, u) == Some(c)
        <==> exists i :: 0 <= i < |polls| && polls[i].id == k && LastChoiceIn(polls[i].options, u) == Some(c)
                         && forall i' :: i < i' < |polls| && polls[i'].id == k ==> !VotedIn(polls[i'], u)
  {
    if |polls| > 0 {
      var n := |polls| - 1;
      var init := polls[..n];
      RecordedChoiceIsLast(init, k, u, c);
      LastChoiceInIffVoted(polls[n].options, u);
      assert forall i :: 0 <= i < n ==> init[i] == polls[i];
    }
  }

  /**
   * The scan of the poll list: for every option of every poll that holds a
   * vote of `u`, mark the poll voted and record the option, later options
   * overwriting earlier ones.
   */
  method ScanVotes(polls: seq<Poll>, u: UserId) returns (voted: map<int, bool>, choice: map<int, int>)
    ensures forall k :: k in voted <==> LastChoice(polls, k, u).Some?
    ensures forall k :: k in voted ==> voted[k]
    ensures choice.Keys == voted.Keys
    ensures forall k :: k in choice ==> LastChoice(polls, k, u) == Some(choice[k])
  {
    voted, choice := map[], map[];
    var i := 0;
    while i < |polls|
      invariant 0 <= i <= |polls|
      invariant forall k :: k in voted <==> LastChoice(polls[..i], k, u).Some?
      invariant forall k :: k in voted ==> voted[k]
      invariant choice.Keys == voted.Keys
      invariant forall k :: k in choice ==> LastChoice(polls[..i], k, u) == Some(choice[k])
    {
      var p := polls[i];
      var j := 0;
      while j < |p.options|
        invariant 0 <= j <= |p.options|
        invariant forall k :: k in voted <==> Pending(polls[..i], p, j, k, u).Some?
        invariant forall k :: k in voted ==> voted[k]
        invariant choice.Keys == voted.Keys
        invariant forall k :: k in choice ==> Pending(polls[..i], p, j, k, u) == Some(choice[k])
      {
        var o := p.options[j];
        assert p.options[..j + 1][..j] == p.options[..j];
        if HoldsVoteOf(o, u) {
          voted := voted[p.id := true];
          choice := choice[p.id := o.id];
        }
        j := j + 1;
      }
      assert p.options[..j] == p.options;
      assert polls[..i + 1][..i] == polls[..i];
      i := i + 1;
    }
    assert polls[..i] == polls;
  }

  /** The scan's state part-way through poll `p`, after its first `j` options. */
  ghost function Pending(done: seq<Poll>, p: Poll, j: nat, k: int, u: UserId): Option<int>
    requires j <= |p.options|
  {
    var c := LastChoiceIn(p.options[..j], u);
    if p.id == k && c.Some? then c else LastChoice(done, k, u)
  }
}
