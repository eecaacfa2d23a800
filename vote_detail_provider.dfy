/** The vote-draft provider: one mutable draft record shared with the
    compose-vote modal, started from a fixed value, re-pointed at the first
    votable proposal whenever that list changes, and replaceable wholesale. */
module VoteDetailProvider {
  import opened Types

  const SentFromFooter: string := "\n\n*sent from voter.wtf*"

  /** The draft the provider starts with. */
  function InitialVoteDetails(): (d: VoteDetails)
    ensures d.proposalId == "" && d.support == For
    ensures d.reason == SentFromFooter
  {
    VoteDetails("", For, SentFromFooter)
  }

  /** The effect's record update: only the proposal id changes, and it becomes
      the first votable proposal's id, or empty when there is none. */
  function WithFirstProposal(prev: VoteDetails, proposals: seq<Proposal>): (d: VoteDetails)
    ensures d.support == prev.support && d.reason == prev.reason
    ensures proposals != [] ==> d.proposalId == proposals[0].id
    ensures proposals == [] ==> d.proposalId == ""
  {
    prev.(proposalId := if |proposals| > 0 then proposals[0].id else "")
  }

  /** Running the update twice on the same list is the same as running it once. */
  lemma WithFirstProposalIdempotent(prev: VoteDetails, proposals: seq<Proposal>)
    ensures WithFirstProposal(WithFirstProposal(prev, proposals), proposals)
         == WithFirstProposal(prev, proposals)
  {
  }

  /** The update reads nothing of the list but its first element. */
  lemma WithFirstProposalOnlyHead(prev: VoteDetails, ps: seq<Proposal>, qs: seq<Proposal>)
    requires ps != [] && qs != [] && ps[0].id == qs[0].id
    ensures WithFirstProposal(prev, ps) == WithFirstProposal(prev, qs)
  {
  }

  class Provider {
    var voteDetail: VoteDetails

    /** Mount: the draft holds its initial value. */
    constructor ()
      ensures voteDetail == InitialVoteDetails()
    {
      voteDetail := InitialVoteDetails();
    }

    /** The effect that runs whenever the votable-proposal list changes. */
    method OnProposalsChanged(proposals: seq<Proposal>)
      modifies this
      ensures voteDetail == WithFirstProposal(old(voteDetail), proposals)
      ensures voteDetail.support == old(voteDetail).support
      ensures voteDetail.reason == old(voteDetail).reason
    {
      voteDetail := WithFirstProposal(voteDetail, proposals);
    }

    /** The exposed setter: the draft becomes exactly the value passed. */
    method SetVoteDetail(d: VoteDetails)
      modifies this
      ensures voteDetail == d
    {
      voteDetail := d;
    }
  }
}
