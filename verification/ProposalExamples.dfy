/** Tables the database can hold on which the pages go wrong. */
module ProposalExamples {
  import opened Wrappers
  import opened Strings
  import opened Windows
  import opened TwoSource
  import opened ProposalResolver
  import opened ProposalLists
  import opened ProposalCursors
  import opened VoteFacts
  import opened NextPages
  import opened PageController

  function Vote(proposalId: int, voter: string): ProposalVote { ProposalVote(proposalId, voter, "YES", 1) }
  function Deposit(depositor: string): ProposalDeposit { ProposalDeposit(7, depositor, Some(["1"]), 1) }

  function Member(operator: string, self: string, votes: seq<ProposalVote>, deposits: seq<ProposalDeposit>): Validator {
    Validator("cons" + operator, Some(ValidatorInfo(operator, self, 1, votes, deposits)))
  }

  lemma FilterOne<T>(a: T, keep: T -> bool)
    ensures Filter([a], keep) == if keep(a) then [a] else []
  {
    assert Filter([a], keep) == (if keep(a) then [a] else []) + Filter([], keep);
  }

  lemma FilterTwo<T>(a: T, b: T, keep: T -> bool)
    ensures Filter([a, b], keep) == (if keep(a) then [a] else []) + (if keep(b) then [b] else [])
  {
    FilterOne(b, keep);
    assert [a, b][1..] == [b];
  }

  // ------------------------------------------------- votes

  const A: Validator := Member("a", "sa", [Vote(7, "sa")], [])
  const ONE_VOTE: Tables := Tables([A], [Vote(7, "sa")], [])

  lemma OneVoteLists()
    ensures PinnedValidators(ONE_VOTE.validators, ["a"]) == [A] && SelfAddresses([A]) == ["sa"]
    ensures VotesOn(ONE_VOTE, 7) == [Vote(7, "sa")] && VotesExcluding(ONE_VOTE.votes, 7, ["sa"]) == []
  {
    FilterOne(A, Included(["a"]));
    FilterOne(Vote(7, "sa"), VoteKept(7, []));
    FilterOne(Vote(7, "sa"), VoteKept(7, ["sa"]));
  }

  /** One pinned validator that voted, and pages of size 1: its vote is shown on both pages. */
  lemma PinnedVoteShownTwice()
    ensures Consistent(ONE_VOTE)
    ensures Pages(VotePageAt(ONE_VOTE, 7, ["a"], 1), 1, 2) == [Pin(A), Other(Vote(7, "sa"))]
    ensures VoteRows(A, 7) == [Vote(7, "sa")]
    ensures VoteList(ONE_VOTE, 7, ["a"]) == [Pin(A)]
  {
    OneVoteLists();
    VotePagesShow(ONE_VOTE, 7, ["a"], 1, 2);
    SeenOne(SharedVotes(ONE_VOTE, 7, [A], 1));
  }

  lemma SeenOne(own: seq<ProposalVote>)
    ensures Seen([A], own, [Vote(7, "sa")], 0, 2) == [Pin(A), Other(Vote(7, "sa"))]
  {
    assert Part(own, 0, 0) + Part([Vote(7, "sa")], 0, 1) == [Vote(7, "sa")];
  }

  const NOVOTE: Validator := Member("n", "sn", [], [])
  const LATE_VOTE: Tables := Tables([NOVOTE, A], [Vote(7, "sa")], [])

  lemma LateVoteLists()
    ensures PinnedValidators(LATE_VOTE.validators, ["n", "a"]) == [NOVOTE, A]
    ensures VotesExcluding(LATE_VOTE.votes, 7, ["sn"]) == [Vote(7, "sa")]
    ensures VotesExcluding(LATE_VOTE.votes, 7, ["sn", "sa"]) == []
  {
    FilterTwo(NOVOTE, A, Included(["n", "a"]));
    FilterOne(Vote(7, "sa"), VoteKept(7, ["sn"]));
    FilterOne(Vote(7, "sa"), VoteKept(7, ["sn", "sa"]));
  }

  lemma LateVotePage()
    ensures Window([NOVOTE, A], 0, 1) == [NOVOTE]
    ensures SelfAddresses([NOVOTE]) == ["sn"] && SelfAddresses([NOVOTE, A]) == ["sn", "sa"]
  {
  }

  lemma LateVoteConsistent()
    ensures Consistent(LATE_VOTE)
  {
  }

  /** Two pinned validators of which only the second voted, and pages of size 1: the first page counts
      that vote besides the two validators, although the list has two rows. */
  lemma TotalCountsTwice()
    ensures Consistent(LATE_VOTE)
    ensures VotePageFacts(LATE_VOTE, 7, ["n", "a"], 1, 0).totalCount == 3 && |VoteList(LATE_VOTE, 7, ["n", "a"])| == 2
  {
    LateVoteConsistent();
    LateVoteLists();
    LateVotePage();
  }

  const TWO_VOTES: Tables := Tables([A], [Vote(7, "sa"), Vote(7, "c")], [])

  lemma TwoVotesConsistent()
    ensures Consistent(TWO_VOTES)
  {
  }

  lemma TwoVotesLists()
    ensures PinnedValidators(TWO_VOTES.validators, ["a"]) == [A]
    ensures VotesOn(TWO_VOTES, 7) == [Vote(7, "sa"), Vote(7, "c")]
  {
    FilterOne(A, Included(["a"]));
    FilterTwo(Vote(7, "sa"), Vote(7, "c"), VoteKept(7, []));
  }

  /** One pinned validator and another voter on a page of two: the page says nothing follows, while the
      next page shows the other vote again. */
  lemma NextOverlooked()
    ensures Consistent(TWO_VOTES)
    ensures !VotePageFacts(TWO_VOTES, 7, ["a"], 2, 0).hasNext
    ensures VoteSources(TWO_VOTES, 7, ["a"], 2, 2) == [Other(Vote(7, "c"))]
  {
    TwoVotesConsistent();
    TwoVotesLists();
    VoteNextExact(TWO_VOTES, 7, ["a"], 2, 0);
    PageAfterPinned(TWO_VOTES, 7, ["a"], 2, 2);
  }

  const ELSEWHERE: Validator := Member("e", "se", [Vote(8, "se")], [])
  const SKIPPED: Tables := Tables([ELSEWHERE], [Vote(8, "se"), Vote(7, "c")], [])

  lemma SkippedConsistent()
    ensures Consistent(SKIPPED)
  {
  }

  lemma SkippedLists()
    ensures PinnedValidators(SKIPPED.validators, ["e"]) == [ELSEWHERE] && SelfAddresses([ELSEWHERE]) == ["se"]
    ensures VotesExcluding(SKIPPED.votes, 7, ["se"]) == [Vote(7, "c")]
  {
    FilterOne(ELSEWHERE, Included(["e"]));
    FilterTwo(Vote(8, "se"), Vote(7, "c"), VoteKept(7, ["se"]));
  }

  /** A list that fits on one page. */
  lemma OnePage(vs: seq<Validator>, rest: seq<ProposalVote>, first: nat)
    requires |vs| + |rest| <= first
    ensures Window(vs, 0, first) == vs && Window(Sources(vs, rest), 0, first) == Sources(vs, rest)
  {
  }

  lemma SkippedPage()
    ensures VoteSources(SKIPPED, 7, ["e"], 2, 0) == Sources([ELSEWHERE], [Vote(7, "c")])
  {
    SkippedLists();
    OnePage([ELSEWHERE], [Vote(7, "c")], 2);
  }

  /** A pinned validator that voted on another proposal only takes a place and shows no row: the page
      of two ends with cursor 1, where the next page would show its last row again. */
  lemma SkippedVoterEnds(f: PageFacts)
    ensures Consistent(SKIPPED)
    ensures VoteSources(SKIPPED, 7, ["e"], 2, 0) == Sources([ELSEWHERE], [Vote(7, "c")])
    ensures var rows := Expand(VoteSources(SKIPPED, 7, ["e"], 2, 0), VoteRowsOn(7));
            && rows == [Vote(7, "c")]
            && OffsetOf(Shown(rows, IdsOf(rows, VoteId), 0, f).pageInfo.endCursor) == 1
  {
    SkippedConsistent();
    SkippedPage();
    ElsewhereShowsNothing();
    ExpandSources([ELSEWHERE], [Vote(7, "c")], VoteRowsOn(7));
    EndOfVoters([Vote(7, "c")], 7, 0, f);
  }

  lemma ElsewhereShowsNothing()
    ensures Expand(Pins<Validator, ProposalVote>([ELSEWHERE]), VoteRowsOn(7)) == []
  {
    assert [Vote(8, "se")][1..] == [];
    assert VoteRows(ELSEWHERE, 7) == FirstVoteOn([], 7);
    ExpandLastPin<Validator, ProposalVote>([], ELSEWHERE, VoteRowsOn(7));
    assert [] + [ELSEWHERE] == [ELSEWHERE] && Expand(Pins<Validator, ProposalVote>([]), VoteRowsOn(7)) == [];
  }

  const VOTED_AND_ELSEWHERE: Tables := Tables([A, ELSEWHERE], [Vote(7, "sa"), Vote(8, "se")], [])

  lemma VotedAndElsewhereConsistent()
    ensures Consistent(VOTED_AND_ELSEWHERE)
    ensures PinnedValidators(VOTED_AND_ELSEWHERE.validators, ["a", "e"]) == [A, ELSEWHERE]
  {
    FilterTwo(A, ELSEWHERE, Included(["a", "e"]));
  }

  /** Two pinned validators of which the second voted on another proposal only, and pages of size 1: the
      first page promises a next page, and that page has no row. */
  lemma PromisedVotesMissing()
    ensures Consistent(VOTED_AND_ELSEWHERE)
    ensures VotePageFacts(VOTED_AND_ELSEWHERE, 7, ["a", "e"], 1, 0).hasNext
    ensures VoteRowsAt(VOTED_AND_ELSEWHERE, 7, ["a", "e"], 1, 1) == []
  {
    VotedAndElsewhereConsistent();
    assert Window([A, ELSEWHERE], 1, 1) == [ELSEWHERE];
    VoteNextRows(VOTED_AND_ELSEWHERE, 7, ["a", "e"], 1, 0, 1);
  }

  // ------------------------------------------------- deposits

  const D: Validator := Member("oper", "self", [], [Deposit("self")])
  const ONE_DEPOSIT: Tables := Tables([D], [], [Deposit("self")])

  /** A pinned validator and its own deposit on a page of two: the deposit is shown twice, and both edges
      have the cursor of the second. */
  lemma DepositShownTwice()
    ensures Consistent(ONE_DEPOSIT)
    ensures PinnedDeposits(ONE_DEPOSIT, 7, ["oper"], 2, 0) == OtherDeposits(ONE_DEPOSIT, 7, ["oper"], 2, 0)
         == [Deposit("self")]
    ensures var rows := Expand(DepositSources(ONE_DEPOSIT, 7, ["oper"], 2, 0), DepositRowsOn(7));
            var ids := IdsOf(rows, DepositId);
            |ids| == 2 && Cursor(ids, ids[0], 0) == Cursor(ids, ids[1], 0) == Itoa(2)
  {
    FilterOne(D, Included(["oper"]));
    FilterOne(Deposit("self"), DepositKept(7, ["oper"]));
    assert PinnedValidators(ONE_DEPOSIT.validators, ["oper"]) == [D] && Window([D], 0, 2) == [D];
    assert DepositRows(D, 7) == [Deposit("self")];
    ExpandLastPin<Validator, ProposalDeposit>([], D, DepositRowsOn(7));
    assert [] + [D] == [D] && Expand(Pins<Validator, ProposalDeposit>([]), DepositRowsOn(7)) == [];
    DepositPageParts(ONE_DEPOSIT, 7, ["oper"], 2, 0);
    LastOfTwo(DepositId(Deposit("self")));
  }

  const DEPOSIT_ELSEWHERE: ProposalDeposit := ProposalDeposit(8, "so", Some(["1"]), 1)
  const D_ELSEWHERE: Validator := Member("other", "so", [], [DEPOSIT_ELSEWHERE])
  const PAID_AND_ELSEWHERE: Tables := Tables([D, D_ELSEWHERE], [], [Deposit("self"), DEPOSIT_ELSEWHERE])

  lemma PaidAndElsewhereConsistent()
    ensures Consistent(PAID_AND_ELSEWHERE)
    ensures PinnedValidators(PAID_AND_ELSEWHERE.validators, ["oper", "other"]) == [D, D_ELSEWHERE]
  {
    FilterTwo(D, D_ELSEWHERE, Included(["oper", "other"]));
  }

  /** The same with deposits. */
  lemma PromisedDepositsMissing()
    ensures Consistent(PAID_AND_ELSEWHERE)
    ensures DepositPageFacts(PAID_AND_ELSEWHERE, 7, ["oper", "other"], 1, 0).hasNext
    ensures DepositRowsAt(PAID_AND_ELSEWHERE, 7, ["oper", "other"], 1, 1) == []
  {
    PaidAndElsewhereConsistent();
    assert Window([D, D_ELSEWHERE], 1, 1) == [D_ELSEWHERE];
    DepositNextRows(PAID_AND_ELSEWHERE, 7, ["oper", "other"], 1, 0, 1);
  }

  const PINNED_DEPOSITOR: Tables := Tables([], [], [Deposit("like1x")])

  /** An address that is no operator's, pinned all the same: its deposit is shown nowhere. */
  lemma DepositorShownNowhere()
    ensures Consistent(PINNED_DEPOSITOR)
    ensures DepositList(PINNED_DEPOSITOR, 7, ["like1x"]) == []
  {
    FilterOne(Deposit("like1x"), DepositKept(7, ["like1x"]));
  }

  lemma LastOfTwo(id: string)
    ensures LastIndex([id, id], id) == 1
  {
  }

  /** Ten depositors besides one pinned validator. */
  const TEN: seq<ProposalDeposit> := seq(10, i requires 0 <= i < 10 => Deposit("d" + Itoa(i)))
  const BARE: Validator := Member("oper", "self", [], [])
  const CROWD: Tables := Tables([BARE], [], TEN)

  lemma TenDepositors()
    ensures Pairwise(TEN, OtherDepositKey()) && DepositsExcluding(TEN, 7, ["oper"]) == TEN
  {
    forall i, j | 0 <= i < j < 10 ensures OtherDepositKey()(TEN[i], TEN[j]) {
      AtoiItoa(i);
      AtoiItoa(j);
      assert ("d" + Itoa(i))[1..] == Itoa(i) && ("d" + Itoa(j))[1..] == Itoa(j);
    }
    forall x <- TEN ensures DepositKept(7, ["oper"])(x) {
      assert x.depositorAddress[0] == 'd' && "oper"[0] == 'o';
    }
    FilterAll(TEN, DepositKept(7, ["oper"]));
  }

  /** On pages of five, Next ends after ten of the eleven rows. */
  lemma LastDepositUnreachable()
    ensures Consistent(CROWD)
    ensures |DepositList(CROWD, 7, ["oper"])| == 11
    ensures var n := Visited(DepositTotals(1, 1, 10, 5), 0, 5, 11);
            n == 2 && Pages(DepositPageAt(CROWD, 7, ["oper"], 5), 5, n) != DepositList(CROWD, 7, ["oper"])
  {
    TenDepositors();
    FilterOne(BARE, Included(["oper"]));
    assert PinnedValidators(CROWD.validators, ["oper"]) == [BARE];
    DepositPagesVisited(1, 1, 10, 5);
    NextShowsAllDeposits(CROWD, 7, ["oper"], 5);
    VisitedExact(DepositTotals(1, 1, 10, 5), 0, 5, 11);
  }
}
