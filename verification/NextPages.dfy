/** What the next page shows when `hasNextPage` promises one.  The page information counts places, and
    the place of a skipped validator has no row. */
module NextPages {
  import opened Windows
  import opened TwoSource
  import opened ProposalResolver
  import opened ProposalLists
  import opened ProposalCursors
  import opened VoteFacts

  lemma {:induction false} PinsShowNothing<P, R>(pins: seq<P>, rowsOf: P -> seq<R>)
    ensures Expand(Pins<P, R>(pins), rowsOf) == [] <==> forall p <- pins :: rowsOf(p) == []
  {
    if pins == [] {
      assert Pins<P, R>(pins) == [];
    } else {
      var before, last := pins[..|pins| - 1], pins[|pins| - 1];
      assert pins == before + [last];
      PinsShowNothing(before, rowsOf);
      ExpandLastPin(before, last, rowsOf);
    }
  }

  lemma NoWindow<T>(rows: seq<T>, offset: nat, limit: nat)
    ensures Window(rows, offset, limit) == [] <==> limit == 0 || |rows| <= offset
  {
  }

  /** The promise of a page, and whether the next page is empty, when past the pinned entries it is so
      exactly behind the end of the list. */
  lemma PromiseExact(asked: nat, pinned: nat, rows: nat, all: nat, first: nat, after: nat, empty: bool)
    requires pinned <= asked && first > 0 && ((asked != 0 && after <= asked) || rows == all)
    requires after + first >= pinned ==> (empty <==> pinned + all <= after + first)
    ensures var hasNext := Facts(asked, pinned, rows, first, after).hasNext;
            && (hasNext && empty <==> after + first < pinned && empty)
            && (!hasNext && !empty <==> asked != 0 && after <= asked && pinned <= after + first < pinned + all)
  {
  }

  // ------------------------------------------------- votes

  /** The rows of the page at `after`. */
  function VoteRowsAt(t: Tables, proposalId: int, pinned: seq<string>, first: nat, after: nat): seq<ProposalVote> {
    Expand(VoteSources(t, proposalId, pinned, first, after), VoteRowsOn(proposalId))
  }

  /** All validators of the page are skipped, and no other vote comes onto it. */
  ghost predicate NoVoteOn(t: Tables, proposalId: int, pinned: seq<string>, first: nat, after: nat) {
    var vs := PinnedValidators(t.validators, pinned);
    var taken := Window(vs, after, first);
    && (forall v <- taken :: SkippedVoter(v, proposalId))
    && (|taken| == first || |VotesExcluding(t.votes, proposalId, SelfAddresses(taken))| <= RestOffset(|vs|, after))
  }

  lemma PinnedVotesShown(t: Tables, proposalId: int, pinned: seq<string>, first: nat, after: nat)
    requires Consistent(t)
    ensures PinnedVotes(t, proposalId, pinned, first, after) == []
       <==> forall v <- Window(PinnedValidators(t.validators, pinned), after, first) :: SkippedVoter(v, proposalId)
  {
    var taken := Window(PinnedValidators(t.validators, pinned), after, first);
    PinnedPage(t, pinned, first, after);
    PinsShowNothing(taken, VoteRowsOn(proposalId));
    forall v <- taken ensures VoteRowsOn(proposalId)(v) == [] <==> SkippedVoter(v, proposalId) {
      VoteRowFacts(t, v, proposalId);
    }
  }

  /** A page of votes is without rows exactly when nothing comes onto it. */
  lemma VotePageShows(t: Tables, proposalId: int, pinned: seq<string>, first: nat, after: nat)
    requires Consistent(t)
    ensures VoteRowsAt(t, proposalId, pinned, first, after) == []
       <==> NoVoteOn(t, proposalId, pinned, first, after)
  {
    var vs := PinnedValidators(t.validators, pinned);
    var taken := Window(vs, after, first);
    VotePageParts(t, proposalId, pinned, first, after);
    PinnedVotesShown(t, proposalId, pinned, first, after);
    VotePage(t, proposalId, pinned, first, after);
    NoWindow(VotesExcluding(t.votes, proposalId, SelfAddresses(taken)), RestOffset(|vs|, after), first - |taken|);
  }

  /** `hasNextPage` of a page of votes promises rows that are not there exactly when the next page starts
      with pinned validators and nothing comes onto it. */
  lemma VoteNextRows(t: Tables, proposalId: int, pinned: seq<string>, first: nat, after: nat, next: nat)
    requires Consistent(t) && first > 0 && next == after + first
    ensures VotePageFacts(t, proposalId, pinned, first, after).hasNext
            && VoteRowsAt(t, proposalId, pinned, first, next) == []
       <==> next < |PinnedValidators(t.validators, pinned)| && NoVoteOn(t, proposalId, pinned, first, next)
  {
    VoteNextFacts(t, proposalId, pinned, first, after, next);
    VotePageShows(t, proposalId, pinned, first, next);
  }

  /** It overlooks rows exactly when the page queries the pinned validators and reaches their end while
      votes follow. */
  lemma VoteRowsOverlooked(t: Tables, proposalId: int, pinned: seq<string>, first: nat, after: nat, next: nat)
    requires Consistent(t) && first > 0 && next == after + first
    ensures var v, all := |PinnedValidators(t.validators, pinned)|, |VotesOn(t, proposalId)|;
            !VotePageFacts(t, proposalId, pinned, first, after).hasNext
                && VoteRowsAt(t, proposalId, pinned, first, next) != []
            <==> AsksPinned(pinned, first, after) && v <= next < v + all
  {
    VoteNextFacts(t, proposalId, pinned, first, after, next);
  }

  lemma VoteNextFacts(t: Tables, proposalId: int, pinned: seq<string>, first: nat, after: nat, next: nat)
    requires Consistent(t) && first > 0 && next == after + first
    ensures var v, all := |PinnedValidators(t.validators, pinned)|, |VotesOn(t, proposalId)|;
            var hasNext := VotePageFacts(t, proposalId, pinned, first, after).hasNext;
            var empty := VoteRowsAt(t, proposalId, pinned, first, next) == [];
            && (hasNext && empty <==> next < v && empty)
            && (!hasNext && !empty <==> AsksPinned(pinned, first, after) && v <= next < v + all)
  {
    if next >= |PinnedValidators(t.validators, pinned)| {
      VoteRowsBehind(t, proposalId, pinned, first, next);
    }
    VotePromise(t, proposalId, pinned, first, after, VoteRowsAt(t, proposalId, pinned, first, next) == []);
  }

  lemma VoteRowsBehind(t: Tables, proposalId: int, pinned: seq<string>, first: nat, after: nat)
    requires Consistent(t) && first > 0 && after >= |PinnedValidators(t.validators, pinned)|
    ensures VoteRowsAt(t, proposalId, pinned, first, after) == []
       <==> |PinnedValidators(t.validators, pinned)| + |VotesOn(t, proposalId)| <= after
  {
    VotePageShows(t, proposalId, pinned, first, after);
    VotesBehind(t, proposalId, pinned, first, after);
  }

  lemma VotePromise(t: Tables, proposalId: int, pinned: seq<string>, first: nat, after: nat, empty: bool)
    requires UniqueOperators(t.validators) && first > 0
    requires after + first >= |PinnedValidators(t.validators, pinned)|
         ==> (empty <==> |PinnedValidators(t.validators, pinned)| + |VotesOn(t, proposalId)| <= after + first)
    ensures var v, all := |PinnedValidators(t.validators, pinned)|, |VotesOn(t, proposalId)|;
            var hasNext := VotePageFacts(t, proposalId, pinned, first, after).hasNext;
            && (hasNext && empty <==> after + first < v && empty)
            && (!hasNext && !empty <==> AsksPinned(pinned, first, after) && v <= after + first < v + all)
  {
    PinnedFacts(t.validators, pinned);
    if !AsksPinned(pinned, first, after) {
      NobodyLeftOut(t, proposalId, pinned, first, after);
    }
    PromiseExact(|pinned|, |PinnedValidators(t.validators, pinned)|, |PageVotes(t, proposalId, pinned, first, after)|,
                 |VotesOn(t, proposalId)|, first, after, empty);
  }

  lemma VotesBehind(t: Tables, proposalId: int, pinned: seq<string>, first: nat, after: nat)
    requires first > 0 && after >= |PinnedValidators(t.validators, pinned)|
    ensures NoVoteOn(t, proposalId, pinned, first, after)
       <==> |PinnedValidators(t.validators, pinned)| + |VotesOn(t, proposalId)| <= after
  {
    NobodyLeftOut(t, proposalId, pinned, first, after);
    NoWindow(PinnedValidators(t.validators, pinned), after, first);
  }

  // ------------------------------------------------- deposits

  function DepositRowsAt(t: Tables, proposalId: int, pinned: seq<string>, first: nat,
                         after: nat): seq<ProposalDeposit> {
    Expand(DepositSources(t, proposalId, pinned, first, after), DepositRowsOn(proposalId))
  }

  /** The facts `Deposits` reports with a page. */
  function DepositPageFacts(t: Tables, proposalId: int, pinned: seq<string>, first: nat, after: nat): PageFacts {
    Facts(|pinned|, |PinnedValidators(t.validators, pinned)|, |DepositsExcluding(t.deposits, proposalId, pinned)|,
          first, after)
  }

  ghost predicate NoDepositOn(t: Tables, proposalId: int, pinned: seq<string>, first: nat, after: nat) {
    var vs := PinnedValidators(t.validators, pinned);
    var taken := Window(vs, after, first);
    && (forall v <- taken :: SkippedDepositor(v, proposalId))
    && (|taken| == first || |DepositsExcluding(t.deposits, proposalId, pinned)| <= RestOffset(|vs|, after))
  }

  lemma PinnedDepositsShown(t: Tables, proposalId: int, pinned: seq<string>, first: nat, after: nat)
    requires Consistent(t)
    ensures PinnedDeposits(t, proposalId, pinned, first, after) == []
       <==> forall v <- Window(PinnedValidators(t.validators, pinned), after, first) :: SkippedDepositor(v, proposalId)
  {
    var taken := Window(PinnedValidators(t.validators, pinned), after, first);
    PinnedPage(t, pinned, first, after);
    PinsShowNothing(taken, DepositRowsOn(proposalId));
    forall v <- taken ensures DepositRowsOn(proposalId)(v) == [] <==> SkippedDepositor(v, proposalId) {
      DepositRowFacts(t, v, proposalId);
    }
  }

  /** A page of deposits is without rows exactly when nothing comes onto it. */
  lemma DepositPageShows(t: Tables, proposalId: int, pinned: seq<string>, first: nat, after: nat)
    requires Consistent(t)
    ensures DepositRowsAt(t, proposalId, pinned, first, after) == []
       <==> NoDepositOn(t, proposalId, pinned, first, after)
  {
    var vs, rest := PinnedValidators(t.validators, pinned), DepositsExcluding(t.deposits, proposalId, pinned);
    var taken := |Window(vs, after, first)|;
    DepositPageParts(t, proposalId, pinned, first, after);
    PinnedDepositsShown(t, proposalId, pinned, first, after);
    PageIsWindow(vs, rest, first, after);
    NoWindow(rest, RestOffset(|vs|, after), first - taken);
  }

  /** The same for deposits, whose other rows do not change with the page. */
  lemma DepositNextRows(t: Tables, proposalId: int, pinned: seq<string>, first: nat, after: nat, next: nat)
    requires Consistent(t) && first > 0 && next == after + first
    ensures DepositPageFacts(t, proposalId, pinned, first, after).hasNext
            && DepositRowsAt(t, proposalId, pinned, first, next) == []
       <==> next < |PinnedValidators(t.validators, pinned)| && NoDepositOn(t, proposalId, pinned, first, next)
  {
    DepositNextFacts(t, proposalId, pinned, first, after, next);
    DepositPageShows(t, proposalId, pinned, first, next);
  }

  lemma DepositRowsOverlooked(t: Tables, proposalId: int, pinned: seq<string>, first: nat, after: nat, next: nat)
    requires Consistent(t) && first > 0 && next == after + first
    ensures var v, rest := |PinnedValidators(t.validators, pinned)|,
                           |DepositsExcluding(t.deposits, proposalId, pinned)|;
            !DepositPageFacts(t, proposalId, pinned, first, after).hasNext
                && DepositRowsAt(t, proposalId, pinned, first, next) != []
            <==> AsksPinned(pinned, first, after) && v <= next < v + rest
  {
    DepositNextFacts(t, proposalId, pinned, first, after, next);
  }

  lemma DepositNextFacts(t: Tables, proposalId: int, pinned: seq<string>, first: nat, after: nat, next: nat)
    requires Consistent(t) && first > 0 && next == after + first
    ensures var v, rest := |PinnedValidators(t.validators, pinned)|,
                           |DepositsExcluding(t.deposits, proposalId, pinned)|;
            var hasNext := DepositPageFacts(t, proposalId, pinned, first, after).hasNext;
            var empty := DepositRowsAt(t, proposalId, pinned, first, next) == [];
            && (hasNext && empty <==> next < v && empty)
            && (!hasNext && !empty <==> AsksPinned(pinned, first, after) && v <= next < v + rest)
  {
    var v, rest := |PinnedValidators(t.validators, pinned)|, |DepositsExcluding(t.deposits, proposalId, pinned)|;
    PinnedFacts(t.validators, pinned);
    if next >= v {
      DepositRowsBehind(t, proposalId, pinned, first, next);
    }
    PromiseExact(|pinned|, v, rest, rest, first, after, DepositRowsAt(t, proposalId, pinned, first, next) == []);
  }

  lemma DepositRowsBehind(t: Tables, proposalId: int, pinned: seq<string>, first: nat, after: nat)
    requires Consistent(t) && first > 0 && after >= |PinnedValidators(t.validators, pinned)|
    ensures DepositRowsAt(t, proposalId, pinned, first, after) == []
       <==> |PinnedValidators(t.validators, pinned)| + |DepositsExcluding(t.deposits, proposalId, pinned)| <= after
  {
    DepositPageShows(t, proposalId, pinned, first, after);
    NoWindow(PinnedValidators(t.validators, pinned), after, first);
  }
}
