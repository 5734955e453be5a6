/** The page information of the votes.  What a page of votes leaves out depends on the page, so the number
    of its other rows is not that of the list, and the next page is not cut from the same rows. */
module VoteFacts {
  import opened Windows
  import opened TwoSource
  import opened ProposalResolver
  import opened ProposalLists

  /** The facts `Votes` reports with a page. */
  function VotePageFacts(t: Tables, proposalId: int, pinned: seq<string>, first: nat, after: nat): PageFacts {
    Facts(|pinned|, |PinnedValidators(t.validators, pinned)|, |PageVotes(t, proposalId, pinned, first, after)|,
          first, after)
  }

  /** The page still queries the pinned validators. */
  predicate AsksPinned(pinned: seq<string>, first: nat, after: nat) { pinned != [] && after <= |pinned| && first > 0 }

  // ------------------------------------------------- the rows of a page

  function VotedBy(proposalId: int, addresses: seq<string>): ProposalVote -> bool {
    (v: ProposalVote) => v.proposalId == proposalId && v.voterAddress in addresses
  }

  /** The votes on the proposal by these addresses. */
  function VotesBy(t: Tables, proposalId: int, addresses: seq<string>): seq<ProposalVote> {
    Filter(t.votes, VotedBy(proposalId, addresses))
  }

  lemma {:induction false} FilterSplits<T>(rows: seq<T>, p: T -> bool, q: T -> bool, all: T -> bool)
    requires forall x <- rows :: (all(x) <==> p(x) || q(x)) && !(p(x) && q(x))
    ensures |Filter(rows, all)| == |Filter(rows, p)| + |Filter(rows, q)|
  {
    if rows != [] {
      FilterSplits(rows[1..], p, q, all);
    }
  }

  lemma VotesByOrNot(t: Tables, proposalId: int, addresses: seq<string>)
    ensures |VotesOn(t, proposalId)|
         == |VotesBy(t, proposalId, addresses)| + |VotesExcluding(t.votes, proposalId, addresses)|
  {
    FilterSplits(t.votes, VotedBy(proposalId, addresses), VoteKept(proposalId, addresses), VoteKept(proposalId, []));
  }

  /** Past the pinned validators, and on a page of no rows, no vote is left out. */
  lemma NobodyLeftOut(t: Tables, proposalId: int, pinned: seq<string>, first: nat, after: nat)
    requires after >= |PinnedValidators(t.validators, pinned)| || first == 0
    ensures PageVotes(t, proposalId, pinned, first, after) == VotesOn(t, proposalId)
  {
    assert Window(PinnedValidators(t.validators, pinned), after, first) == [];
    assert SelfAddresses([]) == [];
  }

  lemma WindowAmong(vs: seq<Validator>, after: nat, first: nat)
    ensures forall a <- SelfAddresses(Window(vs, after, first)) :: a in SelfAddresses(vs)
  {
    var w, o := Window(vs, after, first), Min(after, |vs|);
    forall i | 0 <= i < |w| ensures SelfAddresses(w)[i] in SelfAddresses(vs) {
      assert SelfAddresses(w)[i] == SelfAddresses(vs)[o + i];
    }
  }

  lemma PageVotesBounded(t: Tables, proposalId: int, pinned: seq<string>, first: nat, after: nat)
    ensures |PageVotes(t, proposalId, pinned, first, after)| <= |VotesOn(t, proposalId)|
  {
    ExcludingMore(t, proposalId, [], SelfAddresses(Window(PinnedValidators(t.validators, pinned), after, first)));
  }

  // ------------------------------------------------- totalCount

  /** The votes of pinned validators that are shown once on this page are those of its own validators. */
  ghost predicate OnlyOwnVoted(t: Tables, proposalId: int, vs: seq<Validator>, taken: seq<Validator>) {
    forall v <- VotesOn(t, proposalId) :: v.voterAddress in SelfAddresses(vs) ==> v.voterAddress in SelfAddresses(taken)
  }

  /** `totalCount` is the size of the list of votes exactly when: nothing is pinned; or, while the page
      queries the pinned validators, those of them that voted are all on this page; or, past them, they
      cast as many votes as there are pinned validators. */
  lemma VoteTotalExact(t: Tables, proposalId: int, pinned: seq<string>, first: nat, after: nat)
    requires UniqueOperators(t.validators)
    ensures var vs := PinnedValidators(t.validators, pinned);
            VotePageFacts(t, proposalId, pinned, first, after).totalCount == |VoteList(t, proposalId, pinned)|
            <==> if pinned == [] then true
                 else if AsksPinned(pinned, first, after) then OnlyOwnVoted(t, proposalId, vs, Window(vs, after, first))
                 else |VotesBy(t, proposalId, SelfAddresses(vs))| == |vs|
  {
    var vs := PinnedValidators(t.validators, pinned);
    PinnedFacts(t.validators, pinned);
    VotesByOrNot(t, proposalId, SelfAddresses(vs));
    if AsksPinned(pinned, first, after) {
      WindowAmong(vs, after, first);
      ExcludingMore(t, proposalId, SelfAddresses(Window(vs, after, first)), SelfAddresses(vs));
    } else {
      NobodyLeftOut(t, proposalId, pinned, first, after);
    }
  }

  // ------------------------------------------------- hasNextPage

  lemma NextVotes(t: Tables, proposalId: int, pinned: seq<string>, first: nat, after: nat)
    requires first > 0
    ensures var vs := PinnedValidators(t.validators, pinned);
            VoteSources(t, proposalId, pinned, first, after) != []
            <==> after < |vs| + |VotesOn(t, proposalId)|
  {
    var vs := PinnedValidators(t.validators, pinned);
    if after >= |vs| {
      NobodyLeftOut(t, proposalId, pinned, first, after);
    }
  }

  /** `hasNextPage` of a page of votes never promises a page without places, and overlooks one exactly on
      the pages that query the pinned validators and reach their end while votes follow. */
  lemma VoteNextExact(t: Tables, proposalId: int, pinned: seq<string>, first: nat, after: nat)
    requires UniqueOperators(t.validators) && first > 0
    ensures var vs, all := PinnedValidators(t.validators, pinned), VotesOn(t, proposalId);
            var hasNext := VotePageFacts(t, proposalId, pinned, first, after).hasNext;
            var served := VoteSources(t, proposalId, pinned, first, after + first) != [];
            && (hasNext ==> served)
            && (hasNext == served
                <==> !AsksPinned(pinned, first, after) || !(|vs| <= after + first < |vs| + |all|))
  {
    PinnedFacts(t.validators, pinned);
    NextVotes(t, proposalId, pinned, first, after + first);
    if !AsksPinned(pinned, first, after) {
      NobodyLeftOut(t, proposalId, pinned, first, after);
    }
  }

  /** A page of no rows has no next page; it claims one exactly when votes are left behind its offset. */
  lemma EmptyPageNext(t: Tables, proposalId: int, pinned: seq<string>, after: nat)
    ensures VoteSources(t, proposalId, pinned, 0, after) == []
    ensures VotePageFacts(t, proposalId, pinned, 0, after).hasNext
       <==> RestOffset(|PinnedValidators(t.validators, pinned)|, after) < |VotesOn(t, proposalId)|
  {
    NobodyLeftOut(t, proposalId, pinned, 0, after);
  }
}
