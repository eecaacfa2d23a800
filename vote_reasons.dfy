/** The vote-reason feed item: how it names the voter, labels the support
    value, decides whether the vote can be re-cast, splits the vote's likes
    into voter and non-voter buckets, handles a like click, and builds the
    draft for a re-vote. */
module VoteReasons {
  import opened Types
  import VoteDetailProvider

  // ---------------------------------------------------------------------
  // Votability

  /** True when some proposal in `ps` has id `id`. */
  function AnyHasId(ps: seq<Proposal>, id: string): (r: bool)
    ensures r <==> exists i :: 0 <= i < |ps| && ps[i].id == id
  {
    if ps == [] then false
    else ps[0].id == id || AnyHasId(ps[1..], id)
  }

  /** A vote can be re-cast when the votable-proposal list is known, the
      vote's proposal id is non-empty, and some listed proposal has that id. */
  function IsVotable(proposals: Option<seq<Proposal>>, proposalId: string): (r: bool)
    ensures proposals.None? || proposalId == "" ==> !r
    ensures proposals.Some? && proposalId != "" ==>
              (r <==> exists i :: 0 <= i < |proposals.value| && proposals.value[i].id == proposalId)
  {
    if proposals.None? || proposalId == "" then false
    else AnyHasId(proposals.value, proposalId)
  }

  // ---------------------------------------------------------------------
  // Names

  function Min(a: int, b: int): int { if a <= b then a else b }

  /** The ENS name when present, otherwise the first eight characters of the
      voter's address (the whole address when it is shorter). */
  function EnsName(voter: Voter): (r: string)
    ensures Truthy(voter.ensName) ==> r == voter.ensName.value
    ensures !Truthy(voter.ensName) ==> r <= voter.id && |r| == Min(8, |voter.id|)
  {
    if Truthy(voter.ensName) then voter.ensName.value
    else if |voter.id| <= 8 then voter.id
    else voter.id[..8]
  }

  /** The name shown for the voter: the resolved NNS name when there is one,
      otherwise the ENS name or address prefix. */
  function DisplayName(nnsName: Option<string>, voter: Voter): (r: string)
    ensures Truthy(nnsName) ==> r == nnsName.value
    ensures !Truthy(nnsName) && Truthy(voter.ensName) ==> r == voter.ensName.value
    ensures !Truthy(nnsName) && !Truthy(voter.ensName) ==>
              r <= voter.id && |r| == Min(8, |voter.id|)
  {
    if Truthy(nnsName) then nnsName.value else EnsName(voter)
  }

  // ---------------------------------------------------------------------
  // Support label and colour

  const ForLabel: string := "FOR"
  const AgainstLabel: string := "AGAINST"
  const AbstainLabel: string := "ABSTAIN"

  const Green: string := "text-green-400"
  const Red: string := "text-red-400"
  const Grey: string := "text-gray-400"

  /** The stance shown for a support value: 1 is for, 0 is against, and
      every other value is abstain. */
  function SupportLabel(support: int): (r: string)
    ensures r == ForLabel <==> support == For
    ensures r == AgainstLabel <==> support == Against
    ensures r == AbstainLabel <==> support != For && support != Against
  {
    if support == 1 then ForLabel
    else if support == 0 then AgainstLabel
    else AbstainLabel
  }

  /** The colour classes switched on by the class-name object: each class
      whose condition holds. */
  function SupportColourClasses(support: int): (r: set<string>)
    ensures |r| == 1
    ensures r == {Green} || r == {Red} || r == {Grey}
  {
    (if support == 1 then {Green} else {})
    + (if support == 0 then {Red} else {})
    + (if support != 1 && support != 0 then {Grey} else {})
  }

  /** The colour agrees with the label. */
  lemma SupportLabelAndColour(support: int)
    ensures SupportLabel(support) == ForLabel <==> SupportColourClasses(support) == {Green}
    ensures SupportLabel(support) == AgainstLabel <==> SupportColourClasses(support) == {Red}
    ensures SupportLabel(support) == AbstainLabel <==> SupportColourClasses(support) == {Grey}
  {
  }

  // ---------------------------------------------------------------------
  // Like partition

  /** The likes whose voter flag equals `voter`, in their original order. */
  function Where(likes: seq<Like>, voter: bool): (r: seq<Like>)
    ensures |r| <= |likes|
    ensures forall i :: 0 <= i < |r| ==> r[i].isNounsVoter == voter
  {
    if likes == [] then []
    else
      var last := likes[|likes| - 1];
      Where(likes[..|likes| - 1], voter) + (if last.isNounsVoter == voter then [last] else [])
  }

  /** The acting account is present and has already liked the vote. */
  function LikedBy(likes: seq<Like>, account: Option<string>): (r: bool)
    ensures !Truthy(account) ==> !r
    ensures Truthy(account) ==> (r <==> exists like :: like in likes && like.user == account.value)
  {
    Truthy(account) && exists i :: 0 <= i < |likes| && likes[i].user == account.value
  }

  /** The two buckets together are as large as the list of likes. */
  lemma {:induction false} PartitionCount(likes: seq<Like>)
    ensures |Where(likes, true)| + |Where(likes, false)| == |likes|
  {
    if likes != [] {
      PartitionCount(likes[..|likes| - 1]);
    }
  }

  /** Together the two buckets hold exactly the likes, each as often as in
      the original list. */
  lemma {:induction false} PartitionMultiset(likes: seq<Like>)
    ensures multiset(Where(likes, true)) + multiset(Where(likes, false)) == multiset(likes)
  {
    if likes != [] {
      var init, last := likes[..|likes| - 1], likes[|likes| - 1];
      PartitionMultiset(init);
      assert likes == init + [last];
    }
  }

  /** A like is in a bucket exactly when it is one of the likes and its
      voter flag matches the bucket. */
  lemma {:induction false} WhereMembers(likes: seq<Like>, voter: bool, x: Like)
    ensures x in Where(likes, voter) <==> x in likes && x.isNounsVoter == voter
  {
    if likes != [] {
      var init, last := likes[..|likes| - 1], likes[|likes| - 1];
      WhereMembers(init, voter, x);
      assert likes == init + [last];
    }
  }

  /** Each like lands in exactly one of the two buckets. */
  lemma ExactlyOneBucket(likes: seq<Like>, i: int)
    requires 0 <= i < |likes|
    ensures (likes[i] in Where(likes, true)) != (likes[i] in Where(likes, false))
  {
    WhereMembers(likes, true, likes[i]);
    WhereMembers(likes, false, likes[i]);
  }

  // ---------------------------------------------------------------------
  // Re-vote draft

  /** The reason with every "\n\n", taken left to right without overlap,
      replaced by a single "\n". */
  function CollapseBlankLines(s: string): (r: string)
    ensures |r| <= |s|
    ensures |s| < 2 ==> r == s
  {
    if |s| < 2 then s
    else if s[0] == '\n' && s[1] == '\n' then "\n" + CollapseBlankLines(s[2..])
    else [s[0]] + CollapseBlankLines(s[1..])
  }

  predicate HasBlankLine(s: string) {
    exists i :: 0 <= i < |s| - 1 && s[i] == '\n' && s[i + 1] == '\n'
  }

  /** The characters of `s` other than line breaks, in order. */
  function DropNewlines(s: string): string
  {
    if s == [] then []
    else (if s[0] == '\n' then [] else [s[0]]) + DropNewlines(s[1..])
  }

  /** A blank line starts at the front, or somewhere in the rest. */
  lemma BlankLineStep(s: string)
    requires |s| >= 2
    ensures HasBlankLine(s) <==> (s[0] == '\n' && s[1] == '\n') || HasBlankLine(s[1..])
  {
  }

  /** A reason without a blank line is copied unchanged. */
  lemma {:induction false} CollapseUnchanged(s: string)
    requires !HasBlankLine(s)
    ensures CollapseBlankLines(s) == s
  {
    if |s| >= 2 {
      BlankLineStep(s);
      CollapseUnchanged(s[1..]);
    }
  }

  /** The result is exactly as long as the reason when nothing was replaced,
      and strictly shorter otherwise. */
  lemma {:induction false} CollapseLength(s: string)
    ensures |CollapseBlankLines(s)| <= |s|
    ensures |CollapseBlankLines(s)| == |s| <==> !HasBlankLine(s)
  {
    if |s| >= 2 {
      BlankLineStep(s);
      if s[0] == '\n' && s[1] == '\n' {
        CollapseLength(s[2..]);
      } else {
        CollapseLength(s[1..]);
      }
    }
  }

  /** Only line breaks are removed: every other character survives, in order. */
  lemma {:induction false} CollapseKeepsText(s: string)
    ensures DropNewlines(CollapseBlankLines(s)) == DropNewlines(s)
  {
    if |s| >= 2 {
      if s[0] == '\n' && s[1] == '\n' {
        CollapseKeepsText(s[2..]);
        assert s[1..][1..] == s[2..];
        assert ("\n" + CollapseBlankLines(s[2..]))[1..] == CollapseBlankLines(s[2..]);
      } else {
        CollapseKeepsText(s[1..]);
        assert ([s[0]] + CollapseBlankLines(s[1..]))[1..] == CollapseBlankLines(s[1..]);
      }
    }
  }

  /** A reason keeps at least one line break exactly when it had one. */
  lemma {:induction false} CollapseKeepsBreaks(s: string)
    ensures '\n' in CollapseBlankLines(s) <==> '\n' in s
  {
    if |s| >= 2 {
      if s[0] == '\n' && s[1] == '\n' {
        assert '\n' in s;
        assert ("\n" + CollapseBlankLines(s[2..]))[0] == '\n';
      } else {
        CollapseKeepsBreaks(s[1..]);
        assert s == [s[0]] + s[1..];
      }
    }
  }

  const ReVoteHeaderPrefix: string := "reVoteWithReason from "
  const QuoteMarker: string := "\n> "
  const ReVoteFooter: string := " \n\n*sent from voter.wtf*"

  /** The header line of a re-vote reason, followed by the quote marker. */
  function ReVoteHeader(ensName: string): string {
    ReVoteHeaderPrefix + ensName + QuoteMarker
  }

  /** The draft handed to the compose-vote modal when the voter's reason is
      re-cast; there is no re-vote action for a vote without a reason. */
  function ReVoteDraft(vote: Vote): (r: Option<VoteDetails>)
    ensures r.Some? <==> Truthy(vote.reason)
    ensures r.Some? ==>
              r.value.support == vote.supportDetailed
              && r.value.proposalId == vote.proposal.id
              && ReVoteHeaderPrefix + EnsName(vote.voter) + QuoteMarker <= r.value.reason
              && |r.value.reason| >= |ReVoteHeader(EnsName(vote.voter))| + |ReVoteFooter|
              && r.value.reason[|ReVoteHeader(EnsName(vote.voter))|..|r.value.reason| - |ReVoteFooter|]
                 == CollapseBlankLines(vote.reason.value)
              && r.value.reason[|r.value.reason| - |ReVoteFooter|..] == ReVoteFooter
  {
    if Truthy(vote.reason) then
      var header := ReVoteHeader(EnsName(vote.voter));
      var body := CollapseBlankLines(vote.reason.value);
      var text := header + body + ReVoteFooter;
      assert text[..|header|] == header;
      assert text[|header|..|text| - |ReVoteFooter|] == body;
      Some(VoteDetails(vote.proposal.id, vote.supportDetailed, text))
    else None
  }

  /** A reason without a blank line is quoted verbatim in the re-vote draft. */
  lemma ReVoteQuotesVerbatim(vote: Vote)
    requires Truthy(vote.reason) && !HasBlankLine(vote.reason.value)
    ensures ReVoteDraft(vote).Some?
    ensures ReVoteDraft(vote).value.reason
         == ReVoteHeader(EnsName(vote.voter)) + vote.reason.value + ReVoteFooter
  {
    CollapseUnchanged(vote.reason.value);
  }

  // ---------------------------------------------------------------------
  // Feed-item state

  /** What the like endpoint answered: an HTTP status, or an exception. */
  datatype PostOutcome = Status(code: int) | Thrown

  /** The body posted to the like endpoint. */
  datatype LikeRequest = LikeRequest(propId: string, voter: string, signedMessage: string, user: Option<string>)

  /** The like button is disabled without a wallet client or once liked. */
  function LikeButtonDisabled(walletClient: bool, liked: bool): (r: bool)
    ensures liked ==> r
    ensures !walletClient ==> r
    ensures walletClient && !liked ==> !r
  {
    !walletClient || liked
  }

  class FeedItem {
    var liked: bool
    var voterLikes: seq<Like>
    var nonVoterLikes: seq<Like>

    /** The like count shown next to the button. */
    function LikeCount(): (n: nat)
      reads this
      ensures n == 0 <==> voterLikes == [] && nonVoterLikes == []
      ensures n >= |voterLikes| && n >= |nonVoterLikes|
    {
      |voterLikes| + |nonVoterLikes|
    }

    /** Mount: not liked, both buckets empty. */
    constructor ()
      ensures !liked && voterLikes == [] && nonVoterLikes == []
    {
      liked, voterLikes, nonVoterLikes := false, [], [];
    }

    /** The effect over the vote's likes: split them into the voter and
        non-voter buckets, and mark the vote liked when the acting account
        is among them. It never clears `liked`. */
    method OnLikesChanged(likes: Option<seq<Like>>, account: Option<string>)
      modifies this
      ensures likes.None? ==>
                liked == old(liked) && voterLikes == old(voterLikes)
                && nonVoterLikes == old(nonVoterLikes)
      ensures likes.Some? ==>
                voterLikes == Where(likes.value, true)
                && nonVoterLikes == Where(likes.value, false)
                && liked == (old(liked) || LikedBy(likes.value, account))
                && LikeCount() == |likes.value|
      ensures old(liked) ==> liked
    {
      if likes.None? {
        return;
      }
      var all := likes.value;
      var vLikes: seq<Like> := [];
      var nVLikes: seq<Like> := [];
      for i := 0 to |all|
        invariant vLikes == Where(all[..i], true)
        invariant nVLikes == Where(all[..i], false)
        invariant liked == (old(liked) || LikedBy(all[..i], account))
      {
        var like := all[i];
        assert all[..i + 1][..i] == all[..i];
        if like.isNounsVoter {
          vLikes := vLikes + [like];
        } else {
          nVLikes := nVLikes + [like];
        }
        if Truthy(account) && like.user == account.value {
          liked := true;
        }
      }
      assert all[..|all|] == all;
      voterLikes := vLikes;
      nonVoterLikes := nVLikes;
      PartitionCount(all);
    }

    /** A click on the like button. `signature` is what the wallet returned
        for the message (None when signing threw); `response` is what the
        like endpoint answered. Returns the message given to the wallet and
        the body posted, each None when that step did not happen. */
    method HandleLikeClick(vote: Vote, account: Option<string>, walletClient: bool,
                           signature: Option<string>, response: PostOutcome)
      returns (message: Option<string>, request: Option<LikeRequest>)
      modifies this`liked
      ensures LikeButtonDisabled(walletClient, old(liked)) ==>
                liked == old(liked) && message == None && request == None
      ensures !LikeButtonDisabled(walletClient, old(liked)) ==>
                message == Some("like vote by " + vote.voter.id + " on " + vote.proposal.id)
                && (signature.None? ==> request == None)
                && (signature.Some? ==>
                      request == Some(LikeRequest(vote.proposal.id, vote.voter.id, signature.value, account)))
                && (liked <==> signature.Some? && response == Status(200))
    {
      if liked || !walletClient {
        return None, None;
      }
      message := Some("like vote by " + vote.voter.id + " on " + vote.proposal.id);
      request := None;
      match signature {
        case None =>
          liked := false;
        case Some(signed) =>
          liked := true;
          request := Some(LikeRequest(vote.proposal.id, vote.voter.id, signed, account));
          match response {
            case Thrown =>
              liked := false;
            case Status(code) =>
              if code != 200 {
                liked := false;
              }
          }
      }
    }
  }

  /** Clicking like a second time after a click that stuck sends nothing. */
  method LikeTwice(vote: Vote, account: Option<string>, signature: Option<string>,
                   response: PostOutcome, second: Option<string>, secondResponse: PostOutcome)
    returns (firstRequest: Option<LikeRequest>, secondRequest: Option<LikeRequest>)
    ensures signature.Some? <==> firstRequest.Some?
    ensures signature.Some? && response == Status(200) ==> secondRequest == None
    ensures signature.None? || response != Status(200) ==> secondRequest.Some? == second.Some?
  {
    var item := new FeedItem();
    var m1, m2;
    m1, firstRequest := item.HandleLikeClick(vote, account, true, signature, response);
    m2, secondRequest := item.HandleLikeClick(vote, account, true, second, secondResponse);
  }

  /** The re-vote button: hand the draft to the provider. The button only
      exists when the vote has a reason. */
  method ReVote(provider: VoteDetailProvider.Provider, vote: Vote)
    requires Truthy(vote.reason)
    modifies provider
    ensures ReVoteDraft(vote).Some? && provider.voteDetail == ReVoteDraft(vote).value
  {
    var draft := ReVoteDraft(vote);
    provider.SetVoteDetail(draft.value);
  }
}
