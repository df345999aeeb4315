/**
 * The rows the poll list reads from the backend: each poll comes with its
 * options, and each option with the votes cast for it.
 */
module PollData {

  /** Identifiers of authenticated users are opaque strings (UUIDs). */
  type UserId = string

  /** A vote row, as selected with the option: its id and the voter's id. */
  datatype Vote = Vote(id: int, userId: UserId)

  /** One selectable answer of a poll, with the votes cast for it. */
  datatype PollOption = PollOption(id: int, text: string, votes: seq<Vote>)

  /** A poll with its creator and its options, in the order the backend returned them. */
  datatype Poll = Poll(id: int, question: string, userId: UserId, options: seq<PollOption>)

  /** The number of votes cast for the option. */
  function VoteCount(o: PollOption): nat
  {
    |o.votes|
  }
}
