# Vote-reason feed item and vote-draft provider

A Dafny model of the client-side bookkeeping in a DAO governance front-end. Users
can view vote reasons, like them, and re-cast them. The model covers two units:

- **The vote-reason feed item** (`components/VoteReasons.tsx`), as the module
  `VoteReasons` in `vote_reasons.dfy`. The class `FeedItem` holds the item's
  mutable state: the `liked` flag and the two like buckets. Two methods change
  that state:
  - `OnLikesChanged` is the effect that splits a vote's likes into the voter
    bucket and the non-voter bucket, and detects the acting account's own like.
  - `HandleLikeClick` is the like-button handler. It has a guard, an
    optimistic set after signing, and a rollback.

  The pure parts are functions: votability, the ENS/NNS display name, the
  support label and colour, and the re-vote draft. The draft includes the
  global left-to-right replacement of `"\n\n"` by `"\n"` (`CollapseBlankLines`).
- **The vote-draft provider** (`providers/VoteDetailProvider.tsx`), as the module
  `VoteDetailProvider` in `vote_detail_provider.dfy`. The class `Provider` holds
  the one mutable draft record. Its constructor sets the fixed initial value.
  `OnProposalsChanged` re-points the draft at the first votable proposal. The
  pure update `WithFirstProposal` changes only `proposalId`. `SetVoteDetail`
  replaces the whole draft.

The shared data sits in module `Types` (`types.dfy`): `Like`, `Voter`,
`Proposal`, `Vote` and `VoteDetails`, plus `Option`. It also holds `Truthy`,
which is JavaScript truthiness for an optional string: present and non-empty.

Foreign calls become inputs:
- the wallet signature is `signature: Option<string>`, with `None` meaning signing threw;
- the like endpoint's answer is `PostOutcome`, either an HTTP status or an exception;
- the NNS lookup result is `nnsName`;
- the votable-proposal list is a parameter;
- the wallet client's presence is a `bool`.

Modelling decisions:
- Proposal ids are strings, so `id.toString()` is the id itself. `!vote.proposal.id` is the empty id.
- Support values are plain integers. `For` is 1 and `Against` is 0, the values the label mapping tests. The enum's definition file is not part of this model.
- The re-vote draft names the voter by the ENS name or address prefix (`EnsName`), not by the resolved NNS name. This follows `components/VoteReasons.tsx:182`.
- The re-vote button is rendered whenever the vote has a reason; only its icon depends on votability and an account. So `ReVote` requires only a reason.

Two facts about the code that the model keeps:
- A like click changes only the `liked` flag. The buckets, and so the displayed count, change only when the likes effect runs again.
- Support is an integer. Every value other than 0 and 1 is labelled and coloured as abstain.

## Model

| member | source | states |
|---|---|---|
| `VoteDetailProvider.InitialVoteDetails` | providers/VoteDetailProvider.tsx:9-13 | the initial draft has an empty proposal id, support For, and reason `"\n\n*sent from voter.wtf*"` |
| `VoteDetailProvider.WithFirstProposal` | providers/VoteDetailProvider.tsx:16-19 | the update keeps `support` and `reason` exactly; `proposalId` becomes the first proposal's id, or `""` for an empty list |
| `VoteDetailProvider.WithFirstProposalIdempotent` | providers/VoteDetailProvider.tsx:16-19 | applying the update twice with the same list gives the same draft as applying it once |
| `VoteDetailProvider.WithFirstProposalOnlyHead` | providers/VoteDetailProvider.tsx:18 | two non-empty lists with the same first id give the same draft |
| `VoteDetailProvider.Provider.constructor` | providers/VoteDetailProvider.tsx:9-13 | on mount the draft is the initial draft |
| `VoteDetailProvider.Provider.OnProposalsChanged` | providers/VoteDetailProvider.tsx:15-20 | the new draft is the update applied to the old draft; support and reason are unchanged |
| `VoteDetailProvider.Provider.SetVoteDetail` | providers/VoteDetailProvider.tsx:22 | afterwards the draft equals exactly the value passed |
| `VoteReasons.AnyHasId` | components/VoteReasons.tsx:39 | true exactly when some proposal in the list has the given id |
| `VoteReasons.IsVotable` | components/VoteReasons.tsx:37-40 | false with no proposal list or an empty id; otherwise true exactly when some proposal's id equals the vote's |
| `VoteReasons.EnsName` | components/VoteReasons.tsx:53-56 | the ENS name when it is non-empty; otherwise a prefix of the address, 8 characters long or the whole address if shorter |
| `VoteReasons.DisplayName` | components/VoteReasons.tsx:137 | the NNS name if it resolved to a non-empty name, else the ENS name if present, else the 8-character address prefix |
| `VoteReasons.SupportLabel` | components/VoteReasons.tsx:150-154 | the label is FOR exactly when support is 1, AGAINST exactly when it is 0, and ABSTAIN exactly for every other value |
| `VoteReasons.SupportColourClasses` | components/VoteReasons.tsx:141-146 | exactly one of the green, red and grey classes applies |
| `VoteReasons.SupportLabelAndColour` | components/VoteReasons.tsx:141-154 | the label is FOR, AGAINST or ABSTAIN exactly when the colour is green, red or grey respectively |
| `VoteReasons.Where` | components/VoteReasons.tsx:95-100 | a bucket is never longer than the likes, and every like in it has the bucket's voter flag; the definition keeps the original order |
| `VoteReasons.LikedBy` | components/VoteReasons.tsx:101-103 | false without an account; with one, true exactly when some like's user equals that account |
| `VoteReasons.PartitionCount` | components/VoteReasons.tsx:95-100 | the two buckets' lengths add up to the number of likes, which is the displayed count |
| `VoteReasons.PartitionMultiset` | components/VoteReasons.tsx:95-100 | the two buckets together hold every like, each as many times as in the vote |
| `VoteReasons.WhereMembers` | components/VoteReasons.tsx:95-100 | a like is in the voter (non-voter) bucket exactly when it is among the likes and its flag is true (false) |
| `VoteReasons.ExactlyOneBucket` | components/VoteReasons.tsx:96-100 | each like of the vote lands in exactly one bucket |
| `VoteReasons.CollapseBlankLines` | components/VoteReasons.tsx:182-184 | the left-to-right, non-overlapping replacement of `"\n\n"` by `"\n"` never lengthens the reason, and leaves reasons shorter than two characters as they are |
| `VoteReasons.CollapseUnchanged` | components/VoteReasons.tsx:182-184 | a reason with no `"\n\n"` comes out of the replacement unchanged |
| `VoteReasons.CollapseLength` | components/VoteReasons.tsx:182-184 | the replacement never lengthens the reason, and leaves its length the same exactly when it contains no `"\n\n"` |
| `VoteReasons.CollapseKeepsText` | components/VoteReasons.tsx:182-184 | the replacement removes only line breaks: the other characters survive in order |
| `VoteReasons.CollapseKeepsBreaks` | components/VoteReasons.tsx:182-184 | the reason has a line break after the replacement exactly when it had one before |
| `VoteReasons.ReVoteDraft` | components/VoteReasons.tsx:176-187 | a draft exists exactly when the vote has a reason; it copies support and proposal id, starts with `"reVoteWithReason from " + ensName + "\n> "`, continues with the collapsed reason, and ends with `" \n\n*sent from voter.wtf*"` |
| `VoteReasons.ReVoteQuotesVerbatim` | components/VoteReasons.tsx:180-187 | a reason without `"\n\n"` is quoted verbatim in the draft |
| `VoteReasons.LikeButtonDisabled` | components/VoteReasons.tsx:197 | the button is disabled when already liked or when there is no wallet client, and enabled otherwise |
| `VoteReasons.FeedItem.LikeCount` | components/VoteReasons.tsx:222-227 | the count is 0 exactly when both buckets are empty, and is at least the size of each bucket |
| `VoteReasons.FeedItem.constructor` | components/VoteReasons.tsx:30-32 | on mount the item is not liked and both buckets are empty |
| `VoteReasons.FeedItem.OnLikesChanged` | components/VoteReasons.tsx:89-108 | when `likes` is absent nothing changes; when it is present, even empty, the buckets are the voter and non-voter likes in order, the count equals the number of likes, and `liked` becomes true when the account is present and among the likers; `liked` never goes from true to false |
| `VoteReasons.FeedItem.HandleLikeClick` | components/VoteReasons.tsx:58-87 | when the button is disabled (no wallet client, or already liked) nothing changes and nothing is signed or posted; otherwise the message `"like vote by " + voter + " on " + proposalId` is signed, the request is posted only if signing succeeded, and `liked` ends true exactly when signing succeeded and the status is 200 |
| `VoteReasons.LikeTwice` | components/VoteReasons.tsx:59-61 | after a like click that succeeded with status 200, a second click posts nothing |
| `VoteReasons.ReVote` | components/VoteReasons.tsx:179-187 | clicking re-vote leaves the provider's draft equal to the re-vote draft |

## Left out

- Wallet signing, the POST to the like endpoint, NNS name resolution, the block-timestamp lookup and the votable-proposal lookup are foreign calls. The model takes only their results, as parameters.
- Async interleaving of overlapping clicks and effects is not modelled. Each click and each effect run is one atomic step, because the code fixes no ordering between them.
- The `console.error` logging in the click handler's catch branch is left out. It is I/O only.
- Rendering is left out. This covers JSX, CSS classes other than the support colour, the like-count text colour, the `Image`, `Link`, `Markdown` and `TimeAgo` components, and `useIsMounted`.
- `setShowVoteModal(true)` after the re-vote draft is left out. The modal-visibility context is not part of this model.
- `EnsImage` is left out. Its URL building relies on the library function `encodeURIComponent`, and its error fallback is presentation only.
- `components/Page.tsx` is left out. It is page chrome: it appends a title suffix and toggles a modal.
- `getNounsLink` is not part of this model. Its definition is not available.
- String slicing and replacement act on Dafny characters. JavaScript works on UTF-16 code units, so a name with characters outside the Basic Multilingual Plane could be cut at a different spot.
