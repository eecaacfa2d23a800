/** Plain data shared by the vote-reason feed item and the vote-draft provider:
    a vote as the feed receives it, its likes, and the compose-vote draft. */
module Types {

  datatype Option<+T> = None | Some(value: T)

  /** JavaScript truthiness of an optional string: present and not empty. */
  predicate Truthy(s: Option<string>) {
    s.Some? && s.value != ""
  }

  /** One endorsement of a vote reason: who liked it, and whether that user
      is a recognised governance-token voter. */
  datatype Like = Like(user: string, isNounsVoter: bool)

  datatype Voter = Voter(id: string, ensName: Option<string>, ensAvatar: Option<string>)

  /** Proposal ids are strings, so `id.toString()` is the id itself. */
  datatype Proposal = Proposal(id: string, title: string)

  /** A vote as received by the feed item; `likes` is absent when the backend
      sent none. */
  datatype Vote = Vote(
    voter: Voter,
    proposal: Proposal,
    supportDetailed: int,
    votes: int,
    reason: Option<string>,
    blockNumber: Option<nat>,
    likes: Option<seq<Like>>)

  /** The support values used by the governance contract. */
  const Against: int := 0
  const For: int := 1

  /** The compose-vote draft held by the provider. */
  datatype VoteDetails = VoteDetails(proposalId: string, support: int, reason: string)
}
