/** The cursors of the pages of votes and deposits. */
module ProposalCursors {
  import opened Strings
  import opened Windows
  import opened Ids
  import opened TwoSource
  import opened ProposalResolver
  import opened ProposalLists

  function OtherSelf(): (Validator, Validator) -> bool {
    (v: Validator, w: Validator) =>
      v.info.Some? && w.info.Some? ==> v.info.value.selfDelegateAddress != w.info.value.selfDelegateAddress
  }

  function OtherVoteKey(): (ProposalVote, ProposalVote) -> bool {
    (v: ProposalVote, w: ProposalVote) => (v.proposalId, v.voterAddress) != (w.proposalId, w.voterAddress)
  }

  function OtherDepositKey(): (ProposalDeposit, ProposalDeposit) -> bool {
    (d: ProposalDeposit, e: ProposalDeposit) => (d.proposalId, d.depositorAddress) != (e.proposalId, e.depositorAddress)
  }

  /** What the database guarantees: unique addresses and rows, and relations that load the rows of the
      self-delegate address. */
  ghost predicate Consistent(t: Tables) {
    && UniqueOperators(t.validators)
    && Pairwise(t.validators, OtherSelf())
    && Pairwise(t.votes, OtherVoteKey())
    && Pairwise(t.deposits, OtherDepositKey())
    && (forall v <- t.validators :: v.info.Some? ==>
          && (forall r <- v.info.value.proposalVotes :: r.voterAddress == v.info.value.selfDelegateAddress)
          && (forall r <- v.info.value.proposalDeposits :: r.depositorAddress == v.info.value.selfDelegateAddress))
  }

  // ------------------------------------------------- rows of the pinned validators

  lemma {:induction false} FirstVoteIsOn(votes: seq<ProposalVote>, proposalId: int)
    ensures var found := FirstVoteOn(votes, proposalId);
            && |found| <= 1 && (forall r <- found :: r in votes && r.proposalId == proposalId)
            && (found == [] <==> forall r <- votes :: r.proposalId != proposalId)
  {
    if votes != [] {
      FirstVoteIsOn(votes[1..], proposalId);
    }
  }

  lemma {:induction false} FirstDepositIsOn(deposits: seq<ProposalDeposit>, proposalId: int)
    ensures var found := FirstDepositOn(deposits, proposalId);
            && |found| <= 1 && (forall r <- found :: r in deposits && r.proposalId == proposalId)
            && (found == [] <==> forall r <- deposits :: r.proposalId != proposalId)
  {
    if deposits != [] {
      FirstDepositIsOn(deposits[1..], proposalId);
    }
  }

  /** A validator whose votes are all on other proposals: it is pinned, and shows no row. */
  ghost predicate SkippedVoter(v: Validator, proposalId: int) {
    v.info.Some? && v.info.value.proposalVotes != []
        && forall r <- v.info.value.proposalVotes :: r.proposalId != proposalId
  }

  lemma PinnedPage(t: Tables, pinned: seq<string>, first: nat, after: nat)
    requires Consistent(t)
    ensures var taken := Window(PinnedValidators(t.validators, pinned), after, first);
            && Pairwise(taken, OtherSelf())
            && forall v <- taken :: v in t.validators && v.info.Some?
  {
    var vs := PinnedValidators(t.validators, pinned);
    PinnedFacts(t.validators, pinned);
    FilterPairwise(t.validators, Included(pinned), OtherSelf());
    WindowPairwise(vs, after, first, OtherSelf());
  }

  lemma VoteRowFacts(t: Tables, v: Validator, proposalId: int)
    requires Consistent(t) && v in t.validators && v.info.Some?
    ensures var rows := VoteRows(v, proposalId);
            && |rows| <= 1 && (rows == [] <==> SkippedVoter(v, proposalId))
            && forall r <- rows :: r.proposalId == proposalId && r.voterAddress == SelfAddress(v)
  {
    FirstVoteIsOn(v.info.value.proposalVotes, proposalId);
  }

  /** A validator whose deposits are all on other proposals shows no row either. */
  ghost predicate SkippedDepositor(v: Validator, proposalId: int) {
    v.info.Some? && v.info.value.proposalDeposits != []
        && forall r <- v.info.value.proposalDeposits :: r.proposalId != proposalId
  }

  lemma DepositRowFacts(t: Tables, v: Validator, proposalId: int)
    requires Consistent(t) && v in t.validators && v.info.Some?
    ensures var rows := DepositRows(v, proposalId);
            && |rows| <= 1 && (rows == [] <==> SkippedDepositor(v, proposalId))
            && forall r <- rows :: r.proposalId == proposalId && r.depositorAddress == SelfAddress(v)
  {
    FirstDepositIsOn(v.info.value.proposalDeposits, proposalId);
  }

  /** Rows of one proposal with different addresses. */
  ghost predicate DifferentVoters(rows: seq<ProposalVote>, proposalId: int) {
    && (forall r <- rows :: r.proposalId == proposalId)
    && forall i, j :: 0 <= i < j < |rows| ==> rows[i].voterAddress != rows[j].voterAddress
  }

  ghost predicate DifferentDepositors(rows: seq<ProposalDeposit>, proposalId: int) {
    && (forall r <- rows :: r.proposalId == proposalId)
    && forall i, j :: 0 <= i < j < |rows| ==> rows[i].depositorAddress != rows[j].depositorAddress
  }

  lemma {:induction false} PinnedVoters(t: Tables, vs: seq<Validator>, proposalId: int)
    requires Consistent(t) && Pairwise(vs, OtherSelf()) && forall v <- vs :: v in t.validators && v.info.Some?
    ensures var rows := Expand(Pins<Validator, ProposalVote>(vs), VoteRowsOn(proposalId));
            && DifferentVoters(rows, proposalId)
            && (forall r <- rows :: r.voterAddress in SelfAddresses(vs))
            && |rows| <= |vs| && (|rows| == |vs| <==> forall v <- vs :: !SkippedVoter(v, proposalId))
  {
    if vs == [] {
      assert Pins<Validator, ProposalVote>(vs) == [];
    } else {
      var before, v := vs[..|vs| - 1], vs[|vs| - 1];
      assert vs == before + [v];
      PinnedVoters(t, before, proposalId);
      ExpandLastPin<Validator, ProposalVote>(before, v, VoteRowsOn(proposalId));
      VoteRowFacts(t, v, proposalId);
      SelfAddressLast(before, v);
    }
  }

  lemma SelfAddressLast(before: seq<Validator>, v: Validator)
    requires Pairwise(before + [v], OtherSelf()) && forall w <- before + [v] :: w.info.Some?
    ensures SelfAddresses(before + [v]) == SelfAddresses(before) + [SelfAddress(v)]
    ensures SelfAddress(v) !in SelfAddresses(before)
  {
    forall i | 0 <= i < |before| ensures SelfAddresses(before)[i] != SelfAddress(v) {
      var vs := before + [v];
      assert vs[i] == before[i] && vs[|before|] == v;
      assert vs[i] in vs && vs[|before|] in vs && OtherSelf()(vs[i], vs[|before|]);
    }
  }

  // ------------------------------------------------- votes

  lemma OtherVoters(t: Tables, proposalId: int, addresses: seq<string>, offset: nat, limit: nat)
    requires Consistent(t)
    ensures var rows := Window(VotesExcluding(t.votes, proposalId, addresses), offset, limit);
            && DifferentVoters(rows, proposalId)
            && forall r <- rows :: r.voterAddress !in addresses
  {
    var kept := VotesExcluding(t.votes, proposalId, addresses);
    FilterPairwise(t.votes, VoteKept(proposalId, addresses), OtherVoteKey());
    WindowPairwise(kept, offset, limit, OtherVoteKey());
    var rows := Window(kept, offset, limit);
    forall r | r in rows ensures r.proposalId == proposalId && r.voterAddress !in addresses {
      FilterMember(t.votes, VoteKept(proposalId, addresses), r);
    }
    forall i, j | 0 <= i < j < |rows| ensures rows[i].voterAddress != rows[j].voterAddress {
      assert OtherVoteKey()(rows[i], rows[j]) && rows[i] in rows && rows[j] in rows;
    }
  }

  lemma VoteIdsEqual(v: ProposalVote, w: ProposalVote)
    ensures VoteId(v) == VoteId(w) <==> (v.proposalId, v.voterAddress) == (w.proposalId, w.voterAddress)
  {
    var x, y := RowId(v.proposalId, v.voterAddress), RowId(w.proposalId, w.voterAddress);
    SameNodeText("proposalVote", VoteText(x), VoteText(y));
    RowTextsInjective(x, y);
  }

  lemma DepositIdsEqual(d: ProposalDeposit, e: ProposalDeposit)
    ensures DepositId(d) == DepositId(e) <==> (d.proposalId, d.depositorAddress) == (e.proposalId, e.depositorAddress)
  {
    var x, y := RowId(d.proposalId, d.depositorAddress), RowId(e.proposalId, e.depositorAddress);
    SameNodeText("proposalDeposit", DepositText(x), DepositText(y));
    RowTextsInjective(x, y);
  }

  lemma VoteIdsDistinct(rows: seq<ProposalVote>, proposalId: int)
    requires forall r <- rows :: r.proposalId == proposalId
    ensures Distinct(IdsOf(rows, VoteId)) <==> DifferentVoters(rows, proposalId)
  {
    var ids := IdsOf(rows, VoteId);
    forall i, j | 0 <= i < j < |rows| ensures ids[i] == ids[j] <==> rows[i].voterAddress == rows[j].voterAddress {
      assert rows[i] in rows && rows[j] in rows;
      VoteIdsEqual(rows[i], rows[j]);
    }
  }

  lemma DepositIdsDistinct(rows: seq<ProposalDeposit>, proposalId: int)
    requires forall r <- rows :: r.proposalId == proposalId
    ensures Distinct(IdsOf(rows, DepositId)) <==> DifferentDepositors(rows, proposalId)
  {
    var ids := IdsOf(rows, DepositId);
    forall i, j | 0 <= i < j < |rows|
      ensures ids[i] == ids[j] <==> rows[i].depositorAddress == rows[j].depositorAddress
    {
      assert rows[i] in rows && rows[j] in rows;
      DepositIdsEqual(rows[i], rows[j]);
    }
  }

  lemma SameNodeText(entityType: string, a: string, b: string)
    ensures NodeText(NodeId(entityType, a)) == NodeText(NodeId(entityType, b)) <==> a == b
  {
    assert NodeText(NodeId(entityType, a))[|entityType| + 1..] == a;
    assert NodeText(NodeId(entityType, b))[|entityType| + 1..] == b;
  }

  function PinnedVotes(t: Tables, proposalId: int, pinned: seq<string>, first: nat, after: nat): seq<ProposalVote> {
    Expand(Pins<Validator, ProposalVote>(Window(PinnedValidators(t.validators, pinned), after, first)),
           VoteRowsOn(proposalId))
  }

  function OtherVotes(t: Tables, proposalId: int, pinned: seq<string>, first: nat, after: nat): seq<ProposalVote> {
    var vs := PinnedValidators(t.validators, pinned);
    var taken := Window(vs, after, first);
    Window(VotesExcluding(t.votes, proposalId, SelfAddresses(taken)), RestOffset(|vs|, after),
           if |taken| <= first then first - |taken| else 0)
  }

  lemma VotePageParts(t: Tables, proposalId: int, pinned: seq<string>, first: nat, after: nat)
    ensures var sources := VoteSources(t, proposalId, pinned, first, after);
            var others := OtherVotes(t, proposalId, pinned, first, after);
            && Expand(sources, VoteRowsOn(proposalId)) == PinnedVotes(t, proposalId, pinned, first, after) + others
            && |sources| == |Window(PinnedValidators(t.validators, pinned), after, first)| + |others|
  {
    VotePage(t, proposalId, pinned, first, after);
    ExpandSources(Window(PinnedValidators(t.validators, pinned), after, first),
                  OtherVotes(t, proposalId, pinned, first, after),
                  VoteRowsOn(proposalId));
  }

  lemma PinnedVotersOfPage(t: Tables, proposalId: int, pinned: seq<string>, first: nat, after: nat)
    requires Consistent(t)
    ensures var taken := Window(PinnedValidators(t.validators, pinned), after, first);
            var rows := PinnedVotes(t, proposalId, pinned, first, after);
            && DifferentVoters(rows, proposalId)
            && (forall r <- rows :: r.voterAddress in SelfAddresses(taken))
            && |rows| <= |taken| && (|rows| == |taken| <==> forall v <- taken :: !SkippedVoter(v, proposalId))
  {
    PinnedPage(t, pinned, first, after);
    PinnedVoters(t, Window(PinnedValidators(t.validators, pinned), after, first), proposalId);
  }

  lemma OtherVotersOfPage(t: Tables, proposalId: int, pinned: seq<string>, first: nat, after: nat)
    requires Consistent(t)
    ensures var taken := Window(PinnedValidators(t.validators, pinned), after, first);
            var rows := OtherVotes(t, proposalId, pinned, first, after);
            DifferentVoters(rows, proposalId) && forall r <- rows :: r.voterAddress !in SelfAddresses(taken)
  {
    var vs := PinnedValidators(t.validators, pinned);
    var taken := Window(vs, after, first);
    OtherVoters(t, proposalId, SelfAddresses(taken), RestOffset(|vs|, after),
                if |taken| <= first then first - |taken| else 0);
  }

  /** The rows of a page of votes are by different voters; a place is without a row exactly when its
      validator is skipped. */
  lemma VoteRowsOfPage(t: Tables, proposalId: int, pinned: seq<string>, first: nat, after: nat)
    requires Consistent(t)
    ensures var sources := VoteSources(t, proposalId, pinned, first, after);
            var rows := Expand(sources, VoteRowsOn(proposalId));
            && DifferentVoters(rows, proposalId)
            && |rows| <= |sources|
            && (|rows| == |sources|
                <==> forall v <- Window(PinnedValidators(t.validators, pinned), after, first) ::
                    !SkippedVoter(v, proposalId))
  {
    var taken := Window(PinnedValidators(t.validators, pinned), after, first);
    VotePageParts(t, proposalId, pinned, first, after);
    PinnedVotersOfPage(t, proposalId, pinned, first, after);
    OtherVotersOfPage(t, proposalId, pinned, first, after);
    VotersTogether(PinnedVotes(t, proposalId, pinned, first, after), OtherVotes(t, proposalId, pinned, first, after),
                   SelfAddresses(taken), proposalId);
  }

  lemma CursorsOfVoters(rows: seq<ProposalVote>, proposalId: int, after: nat, i: nat)
    requires DifferentVoters(rows, proposalId) && i < |rows|
    ensures var ids := IdsOf(rows, VoteId);
            Distinct(ids) && Cursor(ids, ids[i], after) == Itoa(after + i + 1)
  {
    VoteIdsDistinct(rows, proposalId);
    CursorsExact(IdsOf(rows, VoteId));
  }

  /** On a page of votes no two edges share a node id, so the cursor of each row is its own offset. */
  lemma VoteCursors(t: Tables, proposalId: int, pinned: seq<string>, first: nat, after: nat, i: nat)
    requires Consistent(t)
    requires i < |Expand(VoteSources(t, proposalId, pinned, first, after), VoteRowsOn(proposalId))|
    ensures var rows := Expand(VoteSources(t, proposalId, pinned, first, after), VoteRowsOn(proposalId));
            var ids := IdsOf(rows, VoteId);
            Distinct(ids) && Cursor(ids, ids[i], after) == Itoa(after + i + 1)
  {
    VoteRowsOfPage(t, proposalId, pinned, first, after);
    CursorsOfVoters(Expand(VoteSources(t, proposalId, pinned, first, after), VoteRowsOn(proposalId)),
                    proposalId, after, i);
  }

  lemma VotersTogether(a: seq<ProposalVote>, b: seq<ProposalVote>, addresses: seq<string>, proposalId: int)
    requires DifferentVoters(a, proposalId) && DifferentVoters(b, proposalId)
    requires (forall r <- a :: r.voterAddress in addresses) && forall r <- b :: r.voterAddress !in addresses
    ensures DifferentVoters(a + b, proposalId)
  {
  }

  /** The number a cursor stands for. */
  function OffsetOf(cursor: string): int {
    match Strings.Number(cursor) case None => -1 case Some(n) => n
  }

  /** `endCursor` of a page of votes is the offset where the next page starts exactly when no
      validator of the page was skipped; otherwise it points before it. */
  lemma VoteEndCursor(t: Tables, proposalId: int, pinned: seq<string>, first: nat, after: nat, f: PageFacts)
    requires Consistent(t)
    requires Expand(VoteSources(t, proposalId, pinned, first, after), VoteRowsOn(proposalId)) != []
    ensures var sources := VoteSources(t, proposalId, pinned, first, after);
            var rows := Expand(sources, VoteRowsOn(proposalId));
            var end := OffsetOf(Shown(rows, IdsOf(rows, VoteId), after, f).pageInfo.endCursor);
            && end <= after + |sources|
            && (end == after + |sources|
                <==> forall v <- Window(PinnedValidators(t.validators, pinned), after, first) ::
                    !SkippedVoter(v, proposalId))
  {
    VoteRowsOfPage(t, proposalId, pinned, first, after);
    EndOfVoters(Expand(VoteSources(t, proposalId, pinned, first, after), VoteRowsOn(proposalId)), proposalId, after, f);
  }

  lemma EndOfVoters(rows: seq<ProposalVote>, proposalId: int, after: nat, f: PageFacts)
    requires DifferentVoters(rows, proposalId) && rows != []
    ensures OffsetOf(Shown(rows, IdsOf(rows, VoteId), after, f).pageInfo.endCursor) == after + |rows|
  {
    CursorsOfVoters(rows, proposalId, after, |rows| - 1);
    NumberDecimal(after + |rows|);
  }

  // ------------------------------------------------- deposits

  function Depositors(rows: seq<ProposalDeposit>): seq<string> {
    seq(|rows|, i requires 0 <= i < |rows| => rows[i].depositorAddress)
  }

  /** The addresses of the validators that get a row. */
  ghost function ShownDepositors(vs: seq<Validator>, proposalId: int): seq<string> {
    if vs == [] then []
    else
      var before, v := vs[..|vs| - 1], vs[|vs| - 1];
      ShownDepositors(before, proposalId) + if SkippedDepositor(v, proposalId) then [] else [SelfAddress(v)]
  }

  lemma {:induction false} ShownDepositorsMember(vs: seq<Validator>, proposalId: int, a: string)
    ensures a in ShownDepositors(vs, proposalId)
       <==> exists v <- vs :: !SkippedDepositor(v, proposalId) && SelfAddress(v) == a
  {
    if vs != [] {
      var before, v := vs[..|vs| - 1], vs[|vs| - 1];
      ShownDepositorsMember(before, proposalId, a);
      assert vs == before + [v];
    }
  }

  lemma {:induction false} ShownAmong(vs: seq<Validator>, proposalId: int)
    ensures forall a <- ShownDepositors(vs, proposalId) :: a in SelfAddresses(vs)
  {
    forall a <- ShownDepositors(vs, proposalId) ensures a in SelfAddresses(vs) {
      ShownDepositorsMember(vs, proposalId, a);
      var v :| v in vs && SelfAddress(v) == a;
      var i :| 0 <= i < |vs| && vs[i] == v;
      assert SelfAddresses(vs)[i] == a;
    }
  }

  lemma NotShownBefore(before: seq<Validator>, v: Validator, proposalId: int)
    requires Pairwise(before + [v], OtherSelf()) && forall w <- before + [v] :: w.info.Some?
    ensures SelfAddress(v) !in ShownDepositors(before, proposalId)
  {
    SelfAddressLast(before, v);
    ShownAmong(before, proposalId);
  }

  lemma DepositorOfRow(t: Tables, v: Validator, proposalId: int)
    requires Consistent(t) && v in t.validators && v.info.Some?
    ensures var rows := DepositRows(v, proposalId);
            && |rows| <= 1 && (forall r <- rows :: r.proposalId == proposalId)
            && Depositors(rows) == if SkippedDepositor(v, proposalId) then [] else [SelfAddress(v)]
  {
    DepositRowFacts(t, v, proposalId);
    var rows := DepositRows(v, proposalId);
    assert rows != [] ==> rows[0] in rows;
  }

  /** The rows of pinned validators are those of the validators that get one, in their order. */
  lemma {:induction false} PinnedDepositors(t: Tables, vs: seq<Validator>, proposalId: int)
    requires Consistent(t) && Pairwise(vs, OtherSelf()) && forall v <- vs :: v in t.validators && v.info.Some?
    ensures var rows := Expand(Pins<Validator, ProposalDeposit>(vs), DepositRowsOn(proposalId));
            DifferentDepositors(rows, proposalId) && Depositors(rows) == ShownDepositors(vs, proposalId)
  {
    if vs == [] {
      assert Pins<Validator, ProposalDeposit>(vs) == [];
    } else {
      var before, v := vs[..|vs| - 1], vs[|vs| - 1];
      assert vs == before + [v];
      PinnedDepositors(t, before, proposalId);
      ExpandLastPin<Validator, ProposalDeposit>(before, v, DepositRowsOn(proposalId));
      DepositorOfRow(t, v, proposalId);
      NotShownBefore(before, v, proposalId);
      OneMoreShown(before, v, Expand(Pins<Validator, ProposalDeposit>(before), DepositRowsOn(proposalId)),
                   DepositRows(v, proposalId), proposalId);
    }
  }

  lemma OneMoreShown(before: seq<Validator>, v: Validator, rows: seq<ProposalDeposit>, more: seq<ProposalDeposit>,
                     proposalId: int)
    requires DifferentDepositors(rows, proposalId) && Depositors(rows) == ShownDepositors(before, proposalId)
    requires SelfAddress(v) !in ShownDepositors(before, proposalId) && |more| <= 1
             && forall r <- more :: r.proposalId == proposalId
    requires Depositors(more) == if SkippedDepositor(v, proposalId) then [] else [SelfAddress(v)]
    ensures DifferentDepositors(rows + more, proposalId)
            && Depositors(rows + more) == ShownDepositors(before + [v], proposalId)
  {
    var vs := before + [v];
    assert vs[..|vs| - 1] == before;
    forall r | r in more ensures r.depositorAddress !in Depositors(rows) {
      assert r == more[0] && Depositors(more)[0] == r.depositorAddress;
    }
    OneMoreDepositor(rows, more, proposalId);
  }

  lemma OneMoreDepositor(rows: seq<ProposalDeposit>, more: seq<ProposalDeposit>, proposalId: int)
    requires DifferentDepositors(rows, proposalId) && |more| <= 1
    requires forall r <- more :: r.proposalId == proposalId && r.depositorAddress !in Depositors(rows)
    ensures DifferentDepositors(rows + more, proposalId)
            && Depositors(rows + more) == Depositors(rows) + Depositors(more)
  {
    assert forall i :: 0 <= i < |rows| ==> Depositors(rows)[i] == rows[i].depositorAddress;
    if more != [] {
      assert more == [more[0]] && more[0] in more;
    }
  }

  lemma OtherDepositors(t: Tables, proposalId: int, pinned: seq<string>, offset: nat, limit: nat)
    requires Consistent(t)
    ensures DifferentDepositors(Window(DepositsExcluding(t.deposits, proposalId, pinned), offset, limit), proposalId)
  {
    var kept := DepositsExcluding(t.deposits, proposalId, pinned);
    FilterPairwise(t.deposits, DepositKept(proposalId, pinned), OtherDepositKey());
    WindowPairwise(kept, offset, limit, OtherDepositKey());
    var rows := Window(kept, offset, limit);
    forall r | r in rows ensures r.proposalId == proposalId {
      FilterMember(t.deposits, DepositKept(proposalId, pinned), r);
    }
    forall i, j | 0 <= i < j < |rows| ensures rows[i].depositorAddress != rows[j].depositorAddress {
      assert OtherDepositKey()(rows[i], rows[j]) && rows[i] in rows && rows[j] in rows;
    }
  }

  lemma DepositorsTogether(a: seq<ProposalDeposit>, b: seq<ProposalDeposit>, proposalId: int)
    requires DifferentDepositors(a, proposalId) && DifferentDepositors(b, proposalId)
    ensures DifferentDepositors(a + b, proposalId) <==> forall x <- Depositors(a) :: x !in Depositors(b)
  {
    var rows := a + b;
    if forall x <- Depositors(a) :: x !in Depositors(b) {
      forall i, j | 0 <= i < j < |rows| ensures rows[i].depositorAddress != rows[j].depositorAddress {
        if i < |a| <= j {
          assert Depositors(a)[i] in Depositors(a) && Depositors(b)[j - |a|] in Depositors(b);
        }
      }
    }
    if DifferentDepositors(rows, proposalId) {
      forall x | x in Depositors(a) ensures x !in Depositors(b) {
        var i :| 0 <= i < |a| && Depositors(a)[i] == x;
        forall j | 0 <= j < |b| ensures Depositors(b)[j] != x {
          assert rows[i] == a[i] && rows[|a| + j] == b[j];
        }
      }
    }
  }

  /** The rows of a page of deposits: those of its validators, then those of the deposits query. */
  function PinnedDeposits(t: Tables, proposalId: int, pinned: seq<string>, first: nat,
                          after: nat): seq<ProposalDeposit> {
    Expand(Pins<Validator, ProposalDeposit>(Window(PinnedValidators(t.validators, pinned), after, first)),
           DepositRowsOn(proposalId))
  }

  function OtherDeposits(t: Tables, proposalId: int, pinned: seq<string>, first: nat,
                         after: nat): seq<ProposalDeposit> {
    var vs := PinnedValidators(t.validators, pinned);
    var taken := |Window(vs, after, first)|;
    Window(DepositsExcluding(t.deposits, proposalId, pinned), RestOffset(|vs|, after),
           if taken <= first then first - taken else 0)
  }

  lemma DepositPageParts(t: Tables, proposalId: int, pinned: seq<string>, first: nat, after: nat)
    ensures Expand(DepositSources(t, proposalId, pinned, first, after), DepositRowsOn(proposalId))
         == PinnedDeposits(t, proposalId, pinned, first, after) + OtherDeposits(t, proposalId, pinned, first, after)
  {
    var vs := PinnedValidators(t.validators, pinned);
    PageIsWindow(vs, DepositsExcluding(t.deposits, proposalId, pinned), first, after);
    ExpandSources(Window(vs, after, first), OtherDeposits(t, proposalId, pinned, first, after),
                  DepositRowsOn(proposalId));
  }

  /** Pinned validators next to other depositors: no two rows share an address exactly when no validator
      that gets a row is among the others. */
  lemma PinnedAndOthers(t: Tables, vs: seq<Validator>, others: seq<ProposalDeposit>, proposalId: int)
    requires Consistent(t) && Pairwise(vs, OtherSelf()) && forall v <- vs :: v in t.validators && v.info.Some?
    requires DifferentDepositors(others, proposalId)
    ensures var pins := Expand(Pins<Validator, ProposalDeposit>(vs), DepositRowsOn(proposalId));
            && (forall r <- pins + others :: r.proposalId == proposalId)
            && (DifferentDepositors(pins + others, proposalId)
                <==> forall v <- vs :: !SkippedDepositor(v, proposalId) ==> SelfAddress(v) !in Depositors(others))
  {
    var pins := Expand(Pins<Validator, ProposalDeposit>(vs), DepositRowsOn(proposalId));
    PinnedDepositors(t, vs, proposalId);
    DepositorsTogether(pins, others, proposalId);
    forall a ensures a in Depositors(pins)
        <==> exists v <- vs :: !SkippedDepositor(v, proposalId) && SelfAddress(v) == a {
      ShownDepositorsMember(vs, proposalId, a);
    }
  }

  /** No validator of the page that gets a row made one of the deposits shown besides. */
  ghost predicate NoneTwice(t: Tables, proposalId: int, pinned: seq<string>, first: nat, after: nat) {
    forall v <- Window(PinnedValidators(t.validators, pinned), after, first) ::
      !SkippedDepositor(v, proposalId)
      ==> SelfAddress(v) !in Depositors(OtherDeposits(t, proposalId, pinned, first, after))
  }

  lemma OtherDepositorsOfPage(t: Tables, proposalId: int, pinned: seq<string>, first: nat, after: nat)
    requires Consistent(t)
    ensures DifferentDepositors(OtherDeposits(t, proposalId, pinned, first, after), proposalId)
  {
    var vs := PinnedValidators(t.validators, pinned);
    var taken := |Window(vs, after, first)|;
    OtherDepositors(t, proposalId, pinned, RestOffset(|vs|, after), if taken <= first then first - taken else 0);
  }

  lemma CursorsOfDepositors(t: Tables, vs: seq<Validator>, others: seq<ProposalDeposit>, rows: seq<ProposalDeposit>,
                            proposalId: int)
    requires Consistent(t) && Pairwise(vs, OtherSelf()) && forall v <- vs :: v in t.validators && v.info.Some?
    requires DifferentDepositors(others, proposalId)
    requires rows == Expand(Pins<Validator, ProposalDeposit>(vs), DepositRowsOn(proposalId)) + others
    ensures var ids := IdsOf(rows, DepositId);
            OwnPositions(ids)
            <==> forall v <- vs :: !SkippedDepositor(v, proposalId) ==> SelfAddress(v) !in Depositors(others)
  {
    PinnedAndOthers(t, vs, others, proposalId);
    DepositIdsDistinct(rows, proposalId);
    CursorsExact(IdsOf(rows, DepositId));
  }

  /** On a page of deposits every row has its own offset as cursor exactly when no validator of the page
      that gets a row made one of the deposits the page shows besides: the operator addresses left
      out are not depositor addresses. */
  lemma DepositCursors(t: Tables, proposalId: int, pinned: seq<string>, first: nat, after: nat)
    requires Consistent(t)
    ensures var rows := Expand(DepositSources(t, proposalId, pinned, first, after), DepositRowsOn(proposalId));
            var ids := IdsOf(rows, DepositId);
            OwnPositions(ids)
            <==> NoneTwice(t, proposalId, pinned, first, after)
  {
    DepositPageParts(t, proposalId, pinned, first, after);
    PinnedPage(t, pinned, first, after);
    OtherDepositorsOfPage(t, proposalId, pinned, first, after);
    CursorsOfDepositors(t, Window(PinnedValidators(t.validators, pinned), after, first),
                        OtherDeposits(t, proposalId, pinned, first, after),
                        Expand(DepositSources(t, proposalId, pinned, first, after), DepositRowsOn(proposalId)),
                        proposalId);
  }

  /** A deposit that the pages show besides the rows of the pinned validators. */
  predicate ShownBesides(proposalId: int, pinned: seq<string>, d: ProposalDeposit) {
    d.proposalId == proposalId && d.depositorAddress !in pinned
  }

  /** All pages of deposits together show no depositor twice exactly when no pinned validator that gets a
      row has a deposit that is shown besides. */
  lemma DepositorsShownOnce(t: Tables, proposalId: int, pinned: seq<string>, first: nat, count: nat)
    requires Consistent(t) && first > 0 && |DepositList(t, proposalId, pinned)| <= count * first
    ensures DifferentDepositors(Expand(Pages(DepositPageAt(t, proposalId, pinned, first), first, count),
                                       DepositRowsOn(proposalId)), proposalId)
       <==> forall v <- PinnedValidators(t.validators, pinned), d <- t.deposits ::
              !SkippedDepositor(v, proposalId) && ShownBesides(proposalId, pinned, d)
              ==> d.depositorAddress != SelfAddress(v)
  {
    var vs, others := PinnedValidators(t.validators, pinned), DepositsExcluding(t.deposits, proposalId, pinned);
    DepositPagesTile(t, proposalId, pinned, first, count);
    ExpandSources(vs, others, DepositRowsOn(proposalId));
    WholeList(t, proposalId, pinned);
    PinnedAndOthers(t, vs, others, proposalId);
    forall d ensures d in others <==> d in t.deposits && ShownBesides(proposalId, pinned, d) {
      FilterMember(t.deposits, DepositKept(proposalId, pinned), d);
    }
    DepositorsMember(others);
  }

  /** The pinned validator that gets a row has this self-delegate address. */
  ghost predicate ShownByPin(t: Tables, proposalId: int, pinned: seq<string>, address: string) {
    exists v <- PinnedValidators(t.validators, pinned) :: !SkippedDepositor(v, proposalId) && SelfAddress(v) == address
  }

  /** Who is shown on the pages of deposits: those with a deposit that is not left out, and the pinned
      validators that get a row. */
  lemma DepositorsShown(t: Tables, proposalId: int, pinned: seq<string>, first: nat, count: nat, address: string)
    requires Consistent(t) && first > 0 && |DepositList(t, proposalId, pinned)| <= count * first
    ensures address in Depositors(Expand(Pages(DepositPageAt(t, proposalId, pinned, first), first, count),
                                         DepositRowsOn(proposalId)))
       <==> || (exists d <- t.deposits :: ShownBesides(proposalId, pinned, d) && d.depositorAddress == address)
            || ShownByPin(t, proposalId, pinned, address)
  {
    var vs, others := PinnedValidators(t.validators, pinned), DepositsExcluding(t.deposits, proposalId, pinned);
    DepositPagesTile(t, proposalId, pinned, first, count);
    ExpandSources(vs, others, DepositRowsOn(proposalId));
    WholeList(t, proposalId, pinned);
    PinnedDepositors(t, vs, proposalId);
    ShownDepositorsMember(vs, proposalId, address);
    DepositorsConcat(Expand(Pins<Validator, ProposalDeposit>(vs), DepositRowsOn(proposalId)), others);
    OtherDepositorsMember(t, proposalId, pinned, address);
  }

  lemma DepositorsConcat(a: seq<ProposalDeposit>, b: seq<ProposalDeposit>)
    ensures Depositors(a + b) == Depositors(a) + Depositors(b)
  {
  }

  lemma OtherDepositorsMember(t: Tables, proposalId: int, pinned: seq<string>, address: string)
    ensures address in Depositors(DepositsExcluding(t.deposits, proposalId, pinned))
       <==> exists d <- t.deposits :: ShownBesides(proposalId, pinned, d) && d.depositorAddress == address
  {
    var others := DepositsExcluding(t.deposits, proposalId, pinned);
    forall d ensures d in others <==> d in t.deposits && ShownBesides(proposalId, pinned, d) {
      FilterMember(t.deposits, DepositKept(proposalId, pinned), d);
    }
    DepositorsMember(others);
  }

  /** Every depositor of the proposal is shown exactly when each one whose address is pinned, as if it were
      an operator's, is the self-delegate address of a pinned validator that gets a row. */
  lemma EveryDepositorShown(t: Tables, proposalId: int, pinned: seq<string>, first: nat, count: nat)
    requires Consistent(t) && first > 0 && |DepositList(t, proposalId, pinned)| <= count * first
    ensures var rows := Expand(Pages(DepositPageAt(t, proposalId, pinned, first), first, count),
                               DepositRowsOn(proposalId));
            (forall d <- t.deposits :: d.proposalId == proposalId ==> d.depositorAddress in Depositors(rows))
            <==> forall d <- t.deposits :: d.proposalId == proposalId && d.depositorAddress in pinned
                   ==> ShownByPin(t, proposalId, pinned, d.depositorAddress)
  {
    var rows := Expand(Pages(DepositPageAt(t, proposalId, pinned, first), first, count), DepositRowsOn(proposalId));
    forall d | d in t.deposits && d.proposalId == proposalId
      ensures d.depositorAddress in Depositors(rows)
         <==> d.depositorAddress !in pinned || ShownByPin(t, proposalId, pinned, d.depositorAddress)
    {
      DepositorsShown(t, proposalId, pinned, first, count, d.depositorAddress);
    }
  }

  lemma DepositorsMember(rows: seq<ProposalDeposit>)
    ensures forall a :: a in Depositors(rows) <==> exists d <- rows :: d.depositorAddress == a
  {
    forall a ensures a in Depositors(rows) <==> exists d <- rows :: d.depositorAddress == a {
      if d :| d in rows && d.depositorAddress == a {
        var i :| 0 <= i < |rows| && rows[i] == d;
        assert Depositors(rows)[i] == a;
      }
      if a in Depositors(rows) {
        var i :| 0 <= i < |rows| && Depositors(rows)[i] == a;
        assert rows[i] in rows;
      }
    }
  }

  /** Both sources of the list of deposits, as windows that reach over all of them. */
  lemma WholeList(t: Tables, proposalId: int, pinned: seq<string>)
    requires Consistent(t)
    ensures var vs := PinnedValidators(t.validators, pinned);
            Pairwise(vs, OtherSelf()) && forall v <- vs :: v in t.validators && v.info.Some?
    ensures DifferentDepositors(DepositsExcluding(t.deposits, proposalId, pinned), proposalId)
  {
    var vs, others := PinnedValidators(t.validators, pinned), DepositsExcluding(t.deposits, proposalId, pinned);
    PinnedPage(t, pinned, |vs|, 0);
    OtherDepositors(t, proposalId, pinned, 0, |others|);
    assert Window(vs, 0, |vs|) == vs && Window(others, 0, |others|) == others;
  }
}
