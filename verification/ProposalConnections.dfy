/** The resolvers of votes and deposits, and what the connections they return hold. */
module ProposalConnections {
  import opened Wrappers
  import opened Strings
  import opened Windows
  import opened Relay
  import opened TwoSource
  import opened ProposalResolver
  import opened ProposalLists
  import opened ProposalCursors

  // ------------------------------------------------- the row of a pinned validator

  /** The first of the votes on the proposal, as it is. */
  ghost predicate FirstVote(row: ProposalVote, votes: seq<ProposalVote>, proposalId: int) {
    exists k :: 0 <= k < |votes| && votes[k] == row && row.proposalId == proposalId
                && forall j :: 0 <= j < k ==> votes[j].proposalId != proposalId
  }

  ghost predicate FirstDeposit(row: ProposalDeposit, deposits: seq<ProposalDeposit>, proposalId: int) {
    exists k :: 0 <= k < |deposits| && deposits[k] == row && row.proposalId == proposalId
                && forall j :: 0 <= j < k ==> deposits[j].proposalId != proposalId
  }

  /** A validator that voted shows its own vote unchanged; one that never voted shows a row without an
      option, at its own height. */
  ghost function IsVoteOf(proposalId: int): (ProposalVote, Validator) -> bool {
    (row: ProposalVote, v: Validator) =>
      v.info.Some?
      && if v.info.value.proposalVotes == [] then
           && row.proposalId == proposalId && row.voterAddress == v.info.value.selfDelegateAddress
           && row.option == "" && row.height == v.info.value.height
         else FirstVote(row, v.info.value.proposalVotes, proposalId)
  }

  /** The same for deposits; a validator that never deposited shows a row without an amount. */
  ghost function IsDepositOf(proposalId: int): (ProposalDeposit, Validator) -> bool {
    (row: ProposalDeposit, v: Validator) =>
      v.info.Some?
      && if v.info.value.proposalDeposits == [] then
           && row.proposalId == proposalId && row.depositorAddress == v.info.value.selfDelegateAddress
           && row.amount == None && row.height == v.info.value.height
         else FirstDeposit(row, v.info.value.proposalDeposits, proposalId)
  }

  /** The validators that show a row: those with a vote on the proposal, and those with no vote at all. */
  ghost function GetsVote(proposalId: int): Validator -> bool {
    (v: Validator) => v.info.Some?
      && (v.info.value.proposalVotes == [] || exists r <- v.info.value.proposalVotes :: r.proposalId == proposalId)
  }

  ghost function GetsDeposit(proposalId: int): Validator -> bool {
    (v: Validator) => v.info.Some?
      && (v.info.value.proposalDeposits == []
          || exists r <- v.info.value.proposalDeposits :: r.proposalId == proposalId)
  }

  lemma {:induction false} FirstVoteOnIs(votes: seq<ProposalVote>, proposalId: int)
    ensures var found := FirstVoteOn(votes, proposalId);
            if exists r <- votes :: r.proposalId == proposalId
            then |found| == 1 && FirstVote(found[0], votes, proposalId) else found == []
  {
    if votes != [] && votes[0].proposalId != proposalId {
      FirstVoteOnIs(votes[1..], proposalId);
      var found := FirstVoteOn(votes, proposalId);
      if found != [] {
        var k :| 0 <= k < |votes[1..]| && votes[1..][k] == found[0] && found[0].proposalId == proposalId
                 && forall j :: 0 <= j < k ==> votes[1..][j].proposalId != proposalId;
        assert votes[k + 1] == found[0] && forall j :: 0 < j < k + 1 ==> votes[j] == votes[1..][j - 1];
      }
    }
  }

  lemma {:induction false} FirstDepositOnIs(deposits: seq<ProposalDeposit>, proposalId: int)
    ensures var found := FirstDepositOn(deposits, proposalId);
            if exists r <- deposits :: r.proposalId == proposalId then
              |found| == 1 && FirstDeposit(found[0], deposits, proposalId)
            else found == []
  {
    if deposits != [] && deposits[0].proposalId != proposalId {
      FirstDepositOnIs(deposits[1..], proposalId);
      var found := FirstDepositOn(deposits, proposalId);
      if found != [] {
        var k :| 0 <= k < |deposits[1..]| && deposits[1..][k] == found[0] && found[0].proposalId == proposalId
                 && forall j :: 0 <= j < k ==> deposits[1..][j].proposalId != proposalId;
        assert deposits[k + 1] == found[0] && forall j :: 0 < j < k + 1 ==> deposits[j] == deposits[1..][j - 1];
      }
    }
  }

  lemma VoteRowIs(v: Validator, proposalId: int)
    ensures var rows := VoteRows(v, proposalId);
            if GetsVote(proposalId)(v) then |rows| == 1 && IsVoteOf(proposalId)(rows[0], v) else rows == []
  {
    if v.info.Some? {
      FirstVoteOnIs(v.info.value.proposalVotes, proposalId);
    }
  }

  lemma DepositRowIs(v: Validator, proposalId: int)
    ensures var rows := DepositRows(v, proposalId);
            if GetsDeposit(proposalId)(v) then |rows| == 1 && IsDepositOf(proposalId)(rows[0], v) else rows == []
  {
    if v.info.Some? {
      FirstDepositOnIs(v.info.value.proposalDeposits, proposalId);
    }
  }

  // ------------------------------------------------- the rows of a page

  /** The rows are those of the validators that show one, in their order. */
  ghost predicate Matches<P, R>(rows: seq<R>, shown: seq<P>, isRowOf: (R, P) -> bool) {
    |rows| == |shown| && forall i :: 0 <= i < |rows| ==> isRowOf(rows[i], shown[i])
  }

  lemma {:induction false} PinsMatch<P, R>(pins: seq<P>, rowsOf: P -> seq<R>, gets: P -> bool, isRowOf: (R, P) -> bool)
    requires forall p <- pins :: if gets(p) then |rowsOf(p)| == 1 && isRowOf(rowsOf(p)[0], p) else rowsOf(p) == []
    ensures Matches(Expand(Pins<P, R>(pins), rowsOf), Filter(pins, gets), isRowOf)
  {
    if pins == [] {
      assert Pins<P, R>(pins) == [];
    } else {
      PinsMatch(pins[1..], rowsOf, gets, isRowOf);
      assert Pins<P, R>(pins) == [Pin(pins[0])] + Pins<P, R>(pins[1..]);
      assert Pins<P, R>(pins)[1..] == Pins<P, R>(pins[1..]);
    }
  }

  /** The edges hold the rows of these validators, and then the other rows from `offset` on, as far as
      there is room for them. */
  ghost predicate Holds<P, R>(edges: seq<Edge<R>>, shown: seq<P>, isRowOf: (R, P) -> bool, rest: seq<R>,
                              offset: nat, room: nat)
  {
    && |edges| == |shown| + (if offset < |rest| then Min(room, |rest| - offset) else 0)
    && (forall i :: 0 <= i < |shown| ==> isRowOf(edges[i].node, shown[i]))
    && forall j :: |shown| <= j < |edges| ==> edges[j].node == rest[offset + j - |shown|]
  }

  /** Edge `i` holds row `i`. */
  ghost predicate Rowed<R>(edges: seq<Edge<R>>, rows: seq<R>) {
    |edges| == |rows| && forall i :: 0 <= i < |rows| ==> edges[i].node == rows[i]
  }

  lemma RowsHold<P, R>(pinRows: seq<R>, shown: seq<P>, isRowOf: (R, P) -> bool, rest: seq<R>, offset: nat, room: nat,
                       edges: seq<Edge<R>>)
    requires Matches(pinRows, shown, isRowOf) && Rowed(edges, pinRows + Window(rest, offset, room))
    ensures Holds(edges, shown, isRowOf, rest, offset, room)
  {
  }

  /** The page information and the total of the connection. */
  ghost predicate Reports<R>(conn: Connection<R>, f: PageFacts) {
    && conn.totalCount == f.totalCount
    && conn.pageInfo.hasNextPage == f.hasNext && conn.pageInfo.hasPreviousPage == f.hasPrevious
  }

  /** Edge `i` has the offset of the row behind it as its cursor; the page starts and ends with the cursors
      of its first and last edge. */
  ghost predicate Numbered<R>(conn: Connection<R>, after: nat) {
    && (forall i :: 0 <= i < |conn.edges| ==> conn.edges[i].cursor == Itoa(after + i + 1))
    && conn.pageInfo.startCursor == (if conn.edges == [] then "" else Itoa(after + 1))
    && conn.pageInfo.endCursor == (if conn.edges == [] then "" else Itoa(after + |conn.edges|))
  }

  lemma ShownCursor<R>(rows: seq<R>, ids: seq<string>, after: nat, f: PageFacts, i: nat, k: nat)
    requires |ids| == |rows| && i < |ids| && LastIndex(ids, ids[i]) == k
    ensures Shown(rows, ids, after, f).edges[i].cursor == Itoa(after + k + 1)
  {
  }

  lemma ShownEnds<R>(rows: seq<R>, ids: seq<string>, after: nat, f: PageFacts)
    requires |ids| == |rows|
    ensures var conn := Shown(rows, ids, after, f);
            && |conn.edges| == |rows|
            && conn.pageInfo.startCursor == (if rows == [] then "" else conn.edges[0].cursor)
            && conn.pageInfo.endCursor == (if rows == [] then "" else conn.edges[|rows| - 1].cursor)
  {
  }

  lemma EdgesNumbered<R>(conn: Connection<R>, after: nat)
    requires forall i :: 0 <= i < |conn.edges| ==> conn.edges[i].cursor == Itoa(after + i + 1)
    requires conn.pageInfo.startCursor == (if conn.edges == [] then "" else conn.edges[0].cursor)
    requires conn.pageInfo.endCursor == (if conn.edges == [] then "" else conn.edges[|conn.edges| - 1].cursor)
    ensures Numbered(conn, after)
  {
  }

  lemma ShownNumbered<R>(rows: seq<R>, ids: seq<string>, after: nat, f: PageFacts)
    requires |ids| == |rows| && OwnPositions(ids)
    ensures Numbered(Shown(rows, ids, after, f), after)
  {
    ShownEnds(rows, ids, after, f);
    forall i | 0 <= i < |rows| ensures Shown(rows, ids, after, f).edges[i].cursor == Itoa(after + i + 1) {
      ShownCursor(rows, ids, after, f, i, i);
    }
    EdgesNumbered(Shown(rows, ids, after, f), after);
  }

  lemma ShownRows<R>(rows: seq<R>, idOf: R -> string, after: nat, f: PageFacts)
    ensures var conn := Shown(rows, IdsOf(rows, idOf), after, f);
            && Rowed(conn.edges, rows) && Reports(conn, f)
            && forall i, k :: LastOfId(rows, idOf, i, k) ==> conn.edges[i].cursor == Itoa(after + k + 1)
  {
    forall i, k | LastOfId(rows, idOf, i, k)
      ensures Shown(rows, IdsOf(rows, idOf), after, f).edges[i].cursor == Itoa(after + k + 1)
    {
      CursorIs(rows, idOf, after, i, k);
    }
  }

  lemma PinnedVotesMatch(proposalId: int, vs: seq<Validator>)
    ensures Matches(Expand(Pins<Validator, ProposalVote>(vs), VoteRowsOn(proposalId)), Filter(vs, GetsVote(proposalId)),
                    IsVoteOf(proposalId))
  {
    forall v <- vs
      ensures var own := VoteRowsOn(proposalId)(v);
              if GetsVote(proposalId)(v) then |own| == 1 && IsVoteOf(proposalId)(own[0], v) else own == []
    {
      VoteRowIs(v, proposalId);
    }
    PinsMatch(vs, VoteRowsOn(proposalId), GetsVote(proposalId), IsVoteOf(proposalId));
  }

  /** The places of a page its validators leave for the others. */
  function PlacesLeft(first: nat, taken: nat): nat { if taken <= first then first - taken else 0 }

  lemma VoteRowsAre(t: Tables, proposalId: int, pinned: seq<string>, first: nat, after: nat)
    ensures var vs := PinnedValidators(t.validators, pinned);
            var taken := Window(vs, after, first);
            Expand(VoteSources(t, proposalId, pinned, first, after), VoteRowsOn(proposalId))
            == Expand(Pins<Validator, ProposalVote>(taken), VoteRowsOn(proposalId))
               + Window(VotesExcluding(t.votes, proposalId, SelfAddresses(taken)), RestOffset(|vs|, after),
                        PlacesLeft(first, |taken|))
  {
    VotePageParts(t, proposalId, pinned, first, after);
  }

  lemma VotesHeld(proposalId: int, taken: seq<Validator>, rest: seq<ProposalVote>, offset: nat, room: nat,
                 edges: seq<Edge<ProposalVote>>)
    requires Rowed(edges, Expand(Pins<Validator, ProposalVote>(taken), VoteRowsOn(proposalId))
                   + Window(rest, offset, room))
    ensures Holds(edges, Filter(taken, GetsVote(proposalId)), IsVoteOf(proposalId), rest, offset, room)
  {
    PinnedVotesMatch(proposalId, taken);
    RowsHold(Expand(Pins<Validator, ProposalVote>(taken), VoteRowsOn(proposalId)), Filter(taken, GetsVote(proposalId)),
             IsVoteOf(proposalId), rest, offset, room, edges);
  }

  lemma PinnedDepositsMatch(proposalId: int, vs: seq<Validator>)
    ensures Matches(Expand(Pins<Validator, ProposalDeposit>(vs), DepositRowsOn(proposalId)),
                    Filter(vs, GetsDeposit(proposalId)), IsDepositOf(proposalId))
  {
    forall v <- vs
      ensures var own := DepositRowsOn(proposalId)(v);
              if GetsDeposit(proposalId)(v) then |own| == 1 && IsDepositOf(proposalId)(own[0], v) else own == []
    {
      DepositRowIs(v, proposalId);
    }
    PinsMatch(vs, DepositRowsOn(proposalId), GetsDeposit(proposalId), IsDepositOf(proposalId));
  }

  lemma DepositRowsAre(t: Tables, proposalId: int, pinned: seq<string>, first: nat, after: nat)
    ensures var vs := PinnedValidators(t.validators, pinned);
            var taken := Window(vs, after, first);
            Expand(DepositSources(t, proposalId, pinned, first, after), DepositRowsOn(proposalId))
            == Expand(Pins<Validator, ProposalDeposit>(taken), DepositRowsOn(proposalId))
               + Window(DepositsExcluding(t.deposits, proposalId, pinned), RestOffset(|vs|, after),
                        PlacesLeft(first, |taken|))
  {
    DepositPageParts(t, proposalId, pinned, first, after);
  }

  lemma DepositsHeld(proposalId: int, taken: seq<Validator>, rest: seq<ProposalDeposit>, offset: nat, room: nat,
                     edges: seq<Edge<ProposalDeposit>>)
    requires Rowed(edges, Expand(Pins<Validator, ProposalDeposit>(taken), DepositRowsOn(proposalId))
                   + Window(rest, offset, room))
    ensures Holds(edges, Filter(taken, GetsDeposit(proposalId)), IsDepositOf(proposalId), rest, offset, room)
  {
    PinnedDepositsMatch(proposalId, taken);
    RowsHold(Expand(Pins<Validator, ProposalDeposit>(taken), DepositRowsOn(proposalId)),
             Filter(taken, GetsDeposit(proposalId)), IsDepositOf(proposalId), rest, offset, room, edges);
  }

  // ------------------------------------------------- the cursors of a page

  lemma VotesNumbered(t: Tables, proposalId: int, pinned: seq<string>, first: nat, after: nat, f: PageFacts)
    requires Consistent(t)
    ensures var rows := Expand(VoteSources(t, proposalId, pinned, first, after), VoteRowsOn(proposalId));
            Numbered(Shown(rows, IdsOf(rows, VoteId), after, f), after)
  {
    var rows := Expand(VoteSources(t, proposalId, pinned, first, after), VoteRowsOn(proposalId));
    VoteRowsOfPage(t, proposalId, pinned, first, after);
    VoteIdsDistinct(rows, proposalId);
    CursorsExact(IdsOf(rows, VoteId));
    ShownNumbered(rows, IdsOf(rows, VoteId), after, f);
  }

  lemma DepositsNumbered(t: Tables, proposalId: int, pinned: seq<string>, first: nat, after: nat, f: PageFacts)
    requires Consistent(t) && NoneTwice(t, proposalId, pinned, first, after)
    ensures var rows := Expand(DepositSources(t, proposalId, pinned, first, after), DepositRowsOn(proposalId));
            Numbered(Shown(rows, IdsOf(rows, DepositId), after, f), after)
  {
    var rows := Expand(DepositSources(t, proposalId, pinned, first, after), DepositRowsOn(proposalId));
    DepositCursors(t, proposalId, pinned, first, after);
    ShownNumbered(rows, IdsOf(rows, DepositId), after, f);
  }

  // ------------------------------------------------- the resolvers

  /** The votes of a page: the pinned validators of the page that show a row, then the votes of everybody
      else, each at its own offset. */
  method Votes(t: Tables, proposalId: int, first: nat, after: nat, pinned: seq<string>)
    returns (conn: Connection<ProposalVote>)
    requires UniqueOperators(t.validators)
    ensures var vs := PinnedValidators(t.validators, pinned);
            var taken := Window(vs, after, first);
            var rest := VotesExcluding(t.votes, proposalId, SelfAddresses(taken));
            && Holds(conn.edges, Filter(taken, GetsVote(proposalId)), IsVoteOf(proposalId), rest,
                     RestOffset(|vs|, after), PlacesLeft(first, |taken|))
            && Reports(conn, Facts(|pinned|, |vs|, |rest|, first, after))
    ensures Consistent(t) ==> Numbered(conn, after)
    ensures var rows := Expand(VoteSources(t, proposalId, pinned, first, after), VoteRowsOn(proposalId));
            && Rowed(conn.edges, rows)
            && forall i, k :: LastOfId(rows, VoteId, i, k) ==> conn.edges[i].cursor == Itoa(after + k + 1)
  {
    var rows, validatorLimit, matching, others := FetchVotes(t, proposalId, first, after, pinned);
    conn := Present(rows, VoteId, after, validatorLimit, matching, others);
    ghost var f := ReportedFacts(validatorLimit, matching, others);
    ShownRows(rows, VoteId, after, f);
    ghost var vs := PinnedValidators(t.validators, pinned);
    ghost var taken := Window(vs, after, first);
    VoteRowsAre(t, proposalId, pinned, first, after);
    VotesHeld(proposalId, taken, VotesExcluding(t.votes, proposalId, SelfAddresses(taken)), RestOffset(|vs|, after),
              PlacesLeft(first, |taken|), conn.edges);
    if Consistent(t) {
      VotesNumbered(t, proposalId, pinned, first, after, f);
    }
  }

  /** The deposits of a page, the same way; their cursors are their offsets unless a validator of the page is
      shown twice on it. */
  method Deposits(t: Tables, proposalId: int, first: nat, after: nat, pinned: seq<string>)
    returns (conn: Connection<ProposalDeposit>)
    requires UniqueOperators(t.validators)
    ensures var vs := PinnedValidators(t.validators, pinned);
            var taken := Window(vs, after, first);
            var rest := DepositsExcluding(t.deposits, proposalId, pinned);
            && Holds(conn.edges, Filter(taken, GetsDeposit(proposalId)), IsDepositOf(proposalId), rest,
                     RestOffset(|vs|, after), PlacesLeft(first, |taken|))
            && Reports(conn, Facts(|pinned|, |vs|, |rest|, first, after))
    ensures Consistent(t) && NoneTwice(t, proposalId, pinned, first, after) ==> Numbered(conn, after)
    ensures var rows := Expand(DepositSources(t, proposalId, pinned, first, after), DepositRowsOn(proposalId));
            && Rowed(conn.edges, rows)
            && forall i, k :: LastOfId(rows, DepositId, i, k) ==> conn.edges[i].cursor == Itoa(after + k + 1)
  {
    var rows, validatorLimit, matching, others := FetchDeposits(t, proposalId, first, after, pinned);
    conn := Present(rows, DepositId, after, validatorLimit, matching, others);
    ghost var f := ReportedFacts(validatorLimit, matching, others);
    ShownRows(rows, DepositId, after, f);
    ghost var vs := PinnedValidators(t.validators, pinned);
    ghost var taken := Window(vs, after, first);
    DepositRowsAre(t, proposalId, pinned, first, after);
    DepositsHeld(proposalId, taken, DepositsExcluding(t.deposits, proposalId, pinned), RestOffset(|vs|, after),
              PlacesLeft(first, |taken|), conn.edges);
    if Consistent(t) && NoneTwice(t, proposalId, pinned, first, after) {
      DepositsNumbered(t, proposalId, pinned, first, after, f);
    }
  }
}
