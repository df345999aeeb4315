/**
 * The state the poll list component keeps: the fetched polls, the polls the
 * user is known to have voted in, the option they chose in each, and the
 * loading flag; with the two handlers that change it.
 */
module PollList {
  import opened Wrappers
  import opened PollData
  import opened Eligibility
  import Tally

  /** The row `handleVote` inserts into the votes table. */
  datatype VoteRow = VoteRow(optionId: int, userId: UserId)

  /** The poll is marked voted; a missing key reads as not voted. */
  function HasVoted(votedPolls: map<int, bool>, pollId: int): bool
  {
    pollId in votedPolls && votedPolls[pollId]
  }

  /** The option recorded as the user's choice in the poll, if any. */
  function SelectedOption(userVotes: map<int, int>, pollId: int): Option<int>
  {
    if pollId in userVotes then Some(userVotes[pollId]) else None
  }

  /** The poll's vote buttons are disabled: the user has voted in it, or nobody is signed in. */
  predicate ButtonDisabled(user: Option<UserId>, votedPolls: map<int, bool>, pollId: int)
  {
    HasVoted(votedPolls, pollId) || user.None?
  }

  /**
   * With maps as the vote scan builds them, an option is shown as the
   * user's choice exactly when it is the choice recorded for its poll, and
   * as "voted-other" exactly when the user voted in that poll for a
   * different option.
   */
  lemma SelectionFollowsScan(polls: seq<Poll>, u: UserId, voted: map<int, bool>, choice: map<int, int>, pollId: int, optionId: int)
    requires forall k :: k in voted <==> LastChoice(polls, k, u).Some?
    requires forall k :: k in voted ==> voted[k]
    requires choice.Keys == voted.Keys
    requires forall k :: k in choice ==> LastChoice(polls, k, u) == Some(choice[k])
    ensures Tally.IsSelected(HasVoted(voted, pollId), SelectedOption(choice, pollId), optionId)
        <==> LastChoice(polls, pollId, u) == Some(optionId)
    ensures Tally.IsVotedOther(HasVoted(voted, pollId), SelectedOption(choice, pollId), optionId)
        <==> LastChoice(polls, pollId, u).Some? && LastChoice(polls, pollId, u) != Some(optionId)
  {
  }

  class PollListState {
    /** The signed-in user the component was rendered for, if any. */
    const user: Option<UserId>
    var polls: seq<Poll>
    var votedPolls: map<int, bool>
    var userVotes: map<int, int>
    var loading: bool

    /**
     * The maps only ever hold `true` flags for the same poll ids, and every
     * poll of the current snapshot that holds a vote of the user is marked.
     */
    ghost predicate Valid()
      reads this
    {
      && userVotes.Keys == votedPolls.Keys
      && (forall k :: k in votedPolls ==> votedPolls[k])
      && (user.Some? ==> forall i :: 0 <= i < |polls| && VotedIn(polls[i], user.value) ==> HasVoted(votedPolls, polls[i].id))
    }

    /** The initial state: nothing fetched yet, nothing voted, loading. */
    constructor (user: Option<UserId>)
      ensures Valid()
      ensures this.user == user && polls == [] && votedPolls == map[] && userVotes == map[] && loading
    {
      this.user := user;
      polls := [];
      votedPolls := map[];
      userVotes := map[];
      loading := true;
    }

    /**
     * `fetchPolls` once the query has answered: an error keeps the old
     * state; otherwise the polls are replaced and, when there is a user,
     * both maps are rebuilt from the fresh snapshot alone.
     */
    method Fetch(response: Result<seq<Poll>>)
      requires Valid()
      modifies this
      ensures Valid()
      ensures !loading
      ensures response.Err? ==> polls == old(polls) && votedPolls == old(votedPolls) && userVotes == old(userVotes)
      ensures response.Ok? ==> polls == response.value
      ensures user.None? ==> votedPolls == old(votedPolls) && userVotes == old(userVotes)
      ensures response.Ok? && user.Some? ==>
        && (forall k :: k in votedPolls <==> exists i :: 0 <= i < |polls| && polls[i].id == k && VotedIn(polls[i], user.value))
        && (forall k :: k in userVotes ==> LastChoice(polls, k, user.value) == Some(userVotes[k]))
    {
      loading := true;
      if response.Ok? {
        polls := response.value;
        if user.Some? {
          var voted, choice := ScanVotes(polls, user.value);
          votedPolls := voted;
          userVotes := choice;
          forall k
            ensures k in votedPolls <==> exists i :: 0 <= i < |polls| && polls[i].id == k && VotedIn(polls[i], user.value)
          {
            MarkedIffVoted(polls, k, user.value);
          }
        }
      }
      loading := false;
    }

    /**
     * `handleVote(optionId, pollId)` with the insert answering `insert`:
     * without a user, or for a poll already marked, nothing is written and
     * nothing changes; otherwise one vote row is written and, if the insert
     * succeeds, the poll is marked and the option recorded for it alone.
     */
    method Vote(optionId: int, pollId: int, insert: Result<()>) returns (write: Option<VoteRow>)
      requires Valid()
      modifies this
      ensures Valid()
      ensures write.Some? <==> user.Some? && !HasVoted(old(votedPolls), pollId)
      ensures write.Some? <==> !ButtonDisabled(user, old(votedPolls), pollId)
      ensures write.Some? ==> write.value == VoteRow(optionId, user.value) && !loading
      ensures write.None? ==> loading == old(loading)
      ensures polls == old(polls)
      ensures write.Some? && insert.Ok? ==> votedPolls == old(votedPolls)[pollId := true] && userVotes == old(userVotes)[pollId := optionId]
      ensures write.None? || insert.Err? ==> votedPolls == old(votedPolls) && userVotes == old(userVotes)
      ensures forall i :: 0 <= i < |polls| && polls[i].id == pollId && user.Some? && VotedIn(polls[i], user.value) ==> write.None?
    {
      if user.None? || HasVoted(votedPolls, pollId) {
        return None;
      }
      loading := true;
      write := Some(VoteRow(optionId, user.value));
      if insert.Ok? {
        votedPolls := votedPolls[pollId := true];
        userVotes := userVotes[pollId := optionId];
      }
      loading := false;
    }
  }

  /**
   * Once the list has loaded `polls`, a second vote by the same user on the
   * same poll writes nothing, whether the first vote was written or refused.
   */
  method SecondVoteRejected(u: UserId, polls: seq<Poll>, pollId: int, first: int, second: int) returns (write: Option<VoteRow>)
    ensures write == None
  {
    var state := new PollListState(Some(u));
    state.Fetch(Ok(polls));
    var w1 := state.Vote(first, pollId, Ok(()));
    write := state.Vote(second, pollId, Ok(()));
  }
}
