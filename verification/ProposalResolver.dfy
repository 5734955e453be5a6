/** The votes and the deposits of a proposal, pinned validators first. */
module ProposalResolver {
  import opened Wrappers
  import opened Strings
  import opened Windows
  import opened Relay
  import opened Ids
  import opened TwoSource

  // ------------------------------------------------- rows

  datatype ProposalVote = ProposalVote(proposalId: int, voterAddress: string, option: string, height: int)
  datatype ProposalDeposit = ProposalDeposit(proposalId: int, depositorAddress: string, amount: Option<seq<string>>,
                                             height: int)

  /** Votes and deposits are those of the self-delegate address on every proposal, as the relation loads them. */
  datatype ValidatorInfo = ValidatorInfo(
    operatorAddress: string, selfDelegateAddress: string, height: int,
    proposalVotes: seq<ProposalVote>, proposalDeposits: seq<ProposalDeposit>)

  datatype Validator = Validator(consensusAddress: string, info: Option<ValidatorInfo>)

  datatype Tables = Tables(validators: seq<Validator>, votes: seq<ProposalVote>, deposits: seq<ProposalDeposit>)

  datatype PaginationInfo = PaginationInfo(hasNext: bool, hasPrevious: bool, totalCount: nat)
  datatype Paginated<T> = Paginated(items: seq<T>, info: PaginationInfo)

  // ------------------------------------------------- queries

  /** The rows of one page, and what lies around them. */
  function PageOf<T>(rows: seq<T>, first: nat, after: nat): Paginated<T> {
    Paginated(Window(rows, after, first), PaginationInfo(after + first < |rows|, after > 0, |rows|))
  }

  /** One row more than asked for tells whether there is a next page. */
  method QueryPage<T>(rows: seq<T>, first: nat, after: nat) returns (page: Paginated<T>)
    ensures page == PageOf(rows, first, after)
  {
    var totalCount := |rows|;
    var items := Window(rows, after, first + 1);
    var hasNextPage := |items| > first;
    var hasPreviousPage := after > 0;
    if |items| > first {
      items := items[..first];
    }
    page := Paginated(items, PaginationInfo(hasNextPage, hasPreviousPage, totalCount));
  }

  function Included(includeAddresses: seq<string>): Validator -> bool {
    (v: Validator) => v.info.Some? && v.info.value.operatorAddress in includeAddresses
  }

  /** The condition on operator addresses is added only for a non-empty list. */
  function ValidatorsMatching(validators: seq<Validator>, includeAddresses: seq<string>): seq<Validator> {
    if |includeAddresses| > 0 then Filter(validators, Included(includeAddresses)) else validators
  }

  method QueryPaginatedValidators(validators: seq<Validator>, first: nat, after: nat, includeAddresses: seq<string>)
    returns (page: Paginated<Validator>)
    ensures page == PageOf(ValidatorsMatching(validators, includeAddresses), first, after)
  {
    page := QueryPage(ValidatorsMatching(validators, includeAddresses), first, after);
  }

  function VoteKept(proposalId: int, excludeAddresses: seq<string>): ProposalVote -> bool {
    (v: ProposalVote) => v.proposalId == proposalId && v.voterAddress !in excludeAddresses
  }

  function DepositKept(proposalId: int, excludeAddresses: seq<string>): ProposalDeposit -> bool {
    (d: ProposalDeposit) => d.proposalId == proposalId && d.depositorAddress !in excludeAddresses
  }

  function VotesExcluding(votes: seq<ProposalVote>, proposalId: int, excludeAddresses: seq<string>): seq<ProposalVote> {
    Filter(votes, VoteKept(proposalId, excludeAddresses))
  }

  function DepositsExcluding(deposits: seq<ProposalDeposit>, proposalId: int,
                             excludeAddresses: seq<string>): seq<ProposalDeposit> {
    Filter(deposits, DepositKept(proposalId, excludeAddresses))
  }

  method QueryPaginatedProposalVotes(votes: seq<ProposalVote>, proposalId: int, first: nat, after: nat,
                                     excludeAddresses: seq<string>)
    returns (page: Paginated<ProposalVote>)
    ensures page == PageOf(VotesExcluding(votes, proposalId, excludeAddresses), first, after)
  {
    page := QueryPage(VotesExcluding(votes, proposalId, excludeAddresses), first, after);
  }

  method QueryPaginatedProposalDeposits(
    deposits: seq<ProposalDeposit>, proposalId: int, first: nat, after: nat, excludeAddresses: seq<string>)
    returns (page: Paginated<ProposalDeposit>)
    ensures page == PageOf(DepositsExcluding(deposits, proposalId, excludeAddresses), first, after)
  {
    page := QueryPage(DepositsExcluding(deposits, proposalId, excludeAddresses), first, after);
  }

  // ------------------------------------------------- the list a page is cut from

  type VoteSource = Source<Validator, ProposalVote>
  type DepositSource = Source<Validator, ProposalDeposit>

  /** The pinned validators that exist; none when nothing is pinned. */
  function PinnedValidators(validators: seq<Validator>, pinned: seq<string>): seq<Validator> {
    if pinned == [] then [] else ValidatorsMatching(validators, pinned)
  }

  function SelfAddress(v: Validator): string {
    if v.info.Some? then v.info.value.selfDelegateAddress else ""
  }

  function SelfAddresses(vs: seq<Validator>): seq<string> {
    seq(|vs|, i requires 0 <= i < |vs| => SelfAddress(vs[i]))
  }

  function FirstVoteOn(votes: seq<ProposalVote>, proposalId: int): seq<ProposalVote> {
    if votes == [] then []
    else if votes[0].proposalId == proposalId then [votes[0]] else FirstVoteOn(votes[1..], proposalId)
  }

  function FirstDepositOn(deposits: seq<ProposalDeposit>, proposalId: int): seq<ProposalDeposit> {
    if deposits == [] then []
    else if deposits[0].proposalId == proposalId then [deposits[0]] else FirstDepositOn(deposits[1..], proposalId)
  }

  /** The row a pinned validator shows: its vote, or a row without option when it never voted on
      anything; no row when its votes are all on other proposals. */
  function VoteRows(v: Validator, proposalId: int): seq<ProposalVote> {
    match v.info
    case None => []
    case Some(info) =>
      if info.proposalVotes != [] then FirstVoteOn(info.proposalVotes, proposalId)
      else [ProposalVote(proposalId, info.selfDelegateAddress, "", info.height)]
  }

  function DepositRows(v: Validator, proposalId: int): seq<ProposalDeposit> {
    match v.info
    case None => []
    case Some(info) =>
      if info.proposalDeposits != [] then FirstDepositOn(info.proposalDeposits, proposalId)
      else [ProposalDeposit(proposalId, info.selfDelegateAddress, None, info.height)]
  }

  function VoteRowsOn(proposalId: int): Validator -> seq<ProposalVote> {
    (v: Validator) => VoteRows(v, proposalId)
  }

  function DepositRowsOn(proposalId: int): Validator -> seq<ProposalDeposit> {
    (v: Validator) => DepositRows(v, proposalId)
  }

  function VoteId(v: ProposalVote): string {
    NodeText(NodeId("proposalVote", VoteText(RowId(v.proposalId, v.voterAddress))))
  }

  function DepositId(d: ProposalDeposit): string {
    NodeText(NodeId("proposalDeposit", DepositText(RowId(d.proposalId, d.depositorAddress))))
  }

  function IdsOf<R>(rows: seq<R>, idOf: R -> string): seq<string> {
    seq(|rows|, i requires 0 <= i < |rows| => idOf(rows[i]))
  }

  /** The votes a page shows after the pinned validators: it leaves out only its own validators. */
  function PageVotes(t: Tables, proposalId: int, pinned: seq<string>, first: nat, after: nat): seq<ProposalVote> {
    VotesExcluding(t.votes, proposalId, SelfAddresses(Window(PinnedValidators(t.validators, pinned), after, first)))
  }

  /** The window of the list on the page at `after`. */
  function VoteSources(t: Tables, proposalId: int, pinned: seq<string>, first: nat, after: nat): seq<VoteSource> {
    Window(Sources(PinnedValidators(t.validators, pinned), PageVotes(t, proposalId, pinned, first, after)),
           after, first)
  }

  /** The deposits leave out the pinned addresses, which are operator addresses. */
  function DepositSources(t: Tables, proposalId: int, pinned: seq<string>, first: nat, after: nat): seq<DepositSource> {
    Window(DepositList(t, proposalId, pinned), after, first)
  }

  function DepositList(t: Tables, proposalId: int, pinned: seq<string>): seq<DepositSource> {
    Sources(PinnedValidators(t.validators, pinned), DepositsExcluding(t.deposits, proposalId, pinned))
  }

  /** The cursor every row with this id gets: one more than the offset of the last of them. */
  function Cursor(ids: seq<string>, id: string, after: nat): string {
    Itoa(after + LastIndex(ids, id) + 1)
  }

  /** The connection over `rows` with the given page information. */
  function Shown<R>(rows: seq<R>, ids: seq<string>, after: nat, f: PageFacts): Connection<R>
    requires |ids| == |rows|
  {
    var edges := seq(|rows|, i requires 0 <= i < |rows| => Edge(Cursor(ids, ids[i], after), rows[i]));
    var start := if rows == [] then "" else edges[0].cursor;
    var end := if rows == [] then "" else edges[|rows| - 1].cursor;
    Connection(edges, PageInfo(start, end, f.hasNext, f.hasPrevious), f.totalCount)
  }

  function OtherOperator(): (Validator, Validator) -> bool {
    (v: Validator, w: Validator) =>
      v.info.Some? && w.info.Some? ==> v.info.value.operatorAddress != w.info.value.operatorAddress
  }

  /** Operator addresses are unique, as the database requires. */
  ghost predicate UniqueOperators(validators: seq<Validator>) { Pairwise(validators, OtherOperator()) }

  // ------------------------------------------------- the resolvers

  function Operators(vs: seq<Validator>): seq<string> {
    seq(|vs|, i requires 0 <= i < |vs| => if vs[i].info.Some? then vs[i].info.value.operatorAddress else "")
  }

  /** Pinned validators have the information every row is made from, and are no more than the addresses asked for. */
  lemma PinnedFacts(validators: seq<Validator>, pinned: seq<string>)
    requires UniqueOperators(validators)
    ensures |PinnedValidators(validators, pinned)| <= |pinned|
    ensures forall v <- PinnedValidators(validators, pinned) :: v in validators && v.info.Some?
  {
    var vs := PinnedValidators(validators, pinned);
    if pinned != [] {
      FilterPairwise(validators, Included(pinned), OtherOperator());
      forall v <- vs ensures v in validators && v.info.Some? && v.info.value.operatorAddress in pinned {
        FilterMember(validators, Included(pinned), v);
      }
      var os := Operators(vs);
      assert forall i, j :: 0 <= i < j < |os| ==> os[i] != os[j] by {
        forall i, j | 0 <= i < j < |os| ensures os[i] != os[j] {
          assert vs[i] in vs && vs[j] in vs && OtherOperator()(vs[i], vs[j]);
        }
      }
      assert forall o <- os :: o in pinned;
      DistinctWithin(os, pinned);
    }
  }

  method FindVoteOn(votes: seq<ProposalVote>, proposalId: int) returns (found: seq<ProposalVote>)
    ensures found == FirstVoteOn(votes, proposalId)
  {
    found := [];
    for i := 0 to |votes|
      invariant found == []
      invariant FirstVoteOn(votes, proposalId) == FirstVoteOn(votes[i..], proposalId)
    {
      if votes[i].proposalId == proposalId {
        return [votes[i]];
      }
    }
  }

  method FindDepositOn(deposits: seq<ProposalDeposit>, proposalId: int) returns (found: seq<ProposalDeposit>)
    ensures found == FirstDepositOn(deposits, proposalId)
  {
    found := [];
    for i := 0 to |deposits|
      invariant found == []
      invariant FirstDepositOn(deposits, proposalId) == FirstDepositOn(deposits[i..], proposalId)
    {
      if deposits[i].proposalId == proposalId {
        return [deposits[i]];
      }
    }
  }

  /** The cursor map after the rows with these ids. */
  ghost predicate Numbers(m: map<string, string>, ids: seq<string>, after: nat) {
    forall id :: (id in m <==> id in ids) && (id in m ==> m[id] == Cursor(ids, id, after))
  }

  lemma NumbersStep(m: map<string, string>, ids: seq<string>, id: string, after: nat)
    requires Numbers(m, ids, after)
    ensures Numbers(m[id := Itoa(after + |ids| + 1)], ids + [id], after)
  {
    var longer := ids + [id];
    assert longer[..|longer| - 1] == ids;
    forall k ensures LastIndex(longer, k) == if k == id then |ids| else LastIndex(ids, k) {
    }
  }

  /** Row `k` is the last one with the id of row `i`. */
  ghost predicate LastOfId<R>(rows: seq<R>, idOf: R -> string, i: int, k: int) {
    && 0 <= i <= k < |rows| && idOf(rows[k]) == idOf(rows[i])
    && forall j :: k < j < |rows| ==> idOf(rows[j]) != idOf(rows[i])
  }

  lemma {:induction false} LastIndexIs(ids: seq<string>, id: string, k: nat)
    requires k < |ids| && ids[k] == id && forall j :: k < j < |ids| ==> ids[j] != id
    ensures LastIndex(ids, id) == k
  {
    if k < |ids| - 1 {
      LastIndexIs(ids[..|ids| - 1], id, k);
    }
  }

  /** The cursor of a row is looked up by its node id, so rows with one id share the last position. */
  method NumberRows<R>(rows: seq<R>, idOf: R -> string, after: nat) returns (conn: Connection<R>)
    ensures conn == Shown(rows, IdsOf(rows, idOf), after, PageFacts(0, false, false))
    ensures |conn.edges| == |rows|
    ensures forall i :: 0 <= i < |rows| ==> conn.edges[i].node == rows[i]
    ensures forall i, k :: 0 <= i < |rows| && LastOfId(rows, idOf, i, k) ==> conn.edges[i].cursor == Itoa(after + k + 1)
  {
    ghost var ids := IdsOf(rows, idOf);
    var cursorMap: map<string, string> := map[];
    for i := 0 to |rows|
      invariant Numbers(cursorMap, ids[..i], after)
    {
      assert ids[..i + 1] == ids[..i] + [idOf(rows[i])];
      NumbersStep(cursorMap, ids[..i], idOf(rows[i]), after);
      cursorMap := cursorMap[idOf(rows[i]) := Itoa(after + i + 1)];
    }
    assert ids[..|rows|] == ids;
    var cursorFn := (r: R) => if idOf(r) in cursorMap then cursorMap[idOf(r)] else "";
    CursorsNumber(rows, idOf, after, cursorMap, cursorFn);
    conn := NewConnection(rows, cursorFn);
    forall i, k | 0 <= i < |rows| && LastOfId(rows, idOf, i, k) ensures conn.edges[i].cursor == Itoa(after + k + 1) {
      CursorIs(rows, idOf, after, i, k);
    }
  }

  lemma CursorIs<R>(rows: seq<R>, idOf: R -> string, after: nat, i: nat, k: nat)
    requires i < |rows| && LastOfId(rows, idOf, i, k)
    ensures Cursor(IdsOf(rows, idOf), IdsOf(rows, idOf)[i], after) == Itoa(after + k + 1)
  {
    LastIndexIs(IdsOf(rows, idOf), idOf(rows[i]), k);
  }

  lemma EdgeAt<R>(rows: seq<R>, cursorFn: R -> string, i: nat)
    requires i < |rows|
    ensures Edges(rows, cursorFn)[i] == Edge(cursorFn(rows[i]), rows[i])
  {
  }

  lemma CursorsNumber<R>(rows: seq<R>, idOf: R -> string, after: nat, m: map<string, string>, cursorFn: R -> string)
    requires Numbers(m, IdsOf(rows, idOf), after)
    requires forall r <- rows :: idOf(r) in m ==> cursorFn(r) == m[idOf(r)]
    ensures Connect(rows, cursorFn) == Shown(rows, IdsOf(rows, idOf), after, PageFacts(0, false, false))
  {
    forall i | 0 <= i < |rows|
      ensures Edges(rows, cursorFn)[i] == Edge(Cursor(IdsOf(rows, idOf), idOf(rows[i]), after), rows[i])
    {
      CursorAt(rows, idOf, after, m, cursorFn, i);
      EdgeAt(rows, cursorFn, i);
    }
    assert Edges(rows, cursorFn) == Shown(rows, IdsOf(rows, idOf), after, PageFacts(0, false, false)).edges;
  }

  lemma CursorAt<R>(rows: seq<R>, idOf: R -> string, after: nat, m: map<string, string>, cursorFn: R -> string, i: nat)
    requires Numbers(m, IdsOf(rows, idOf), after) && i < |rows|
    requires forall r <- rows :: idOf(r) in m ==> cursorFn(r) == m[idOf(r)]
    ensures cursorFn(rows[i]) == Cursor(IdsOf(rows, idOf), idOf(rows[i]), after)
  {
    assert IdsOf(rows, idOf)[i] in IdsOf(rows, idOf);
  }

  method Append<R>(result: seq<R>, items: seq<R>) returns (longer: seq<R>)
    ensures longer == result + items
  {
    longer := result;
    for i := 0 to |items|
      invariant longer == result + items[..i]
    {
      longer := longer + [items[i]];
    }
  }

  /** The rows of the validators of a page, and the addresses the votes query leaves out. */
  method ValidatorVotes(items: seq<Validator>, proposalId: int)
    returns (result: seq<ProposalVote>, addresses: seq<string>)
    requires forall v <- items :: v.info.Some?
    ensures result == Expand(Pins<Validator, ProposalVote>(items), VoteRowsOn(proposalId))
    ensures addresses == SelfAddresses(items)
  {
    result, addresses := [], [];
    for i := 0 to |items|
      invariant result == Expand(Pins<Validator, ProposalVote>(items[..i]), VoteRowsOn(proposalId))
      invariant addresses == SelfAddresses(items[..i])
    {
      assert items[..i + 1] == items[..i] + [items[i]];
      ExpandLastPin<Validator, ProposalVote>(items[..i], items[i], VoteRowsOn(proposalId));
      var info := items[i].info.value;
      if |info.proposalVotes| != 0 {
        var found := FindVoteOn(info.proposalVotes, proposalId);
        result := result + found;
      } else {
        result := result + [ProposalVote(proposalId, info.selfDelegateAddress, "", info.height)];
      }
      addresses := addresses + [info.selfDelegateAddress];
    }
    assert items[..|items|] == items;
  }

  method ValidatorDeposits(items: seq<Validator>, proposalId: int) returns (result: seq<ProposalDeposit>)
    requires forall v <- items :: v.info.Some?
    ensures result == Expand(Pins<Validator, ProposalDeposit>(items), DepositRowsOn(proposalId))
  {
    result := [];
    for i := 0 to |items|
      invariant result == Expand(Pins<Validator, ProposalDeposit>(items[..i]), DepositRowsOn(proposalId))
    {
      assert items[..i + 1] == items[..i] + [items[i]];
      ExpandLastPin<Validator, ProposalDeposit>(items[..i], items[i], DepositRowsOn(proposalId));
      var info := items[i].info.value;
      if |info.proposalDeposits| != 0 {
        var found := FindDepositOn(info.proposalDeposits, proposalId);
        result := result + found;
      } else {
        result := result + [ProposalDeposit(proposalId, info.selfDelegateAddress, None, info.height)];
      }
    }
    assert items[..|items|] == items;
  }

  lemma ValidatorsOfPage(validators: seq<Validator>, pinned: seq<string>, first: nat, after: nat, limit: nat,
                         offset: nat)
    requires UniqueOperators(validators)
    requires if |pinned| == 0 || after > |pinned| then limit == offset == 0 else limit == first && offset == after
    ensures var vs, items := PinnedValidators(validators, pinned),
                             Window(ValidatorsMatching(validators, pinned), offset, limit);
            && |vs| <= |pinned| && items == Window(vs, after, first) && forall v <- items :: v.info.Some?
  {
    PinnedFacts(validators, pinned);
  }

  /** Where the query for the other rows starts. */
  function OthersFrom(asked: nat, matching: nat, after: nat): nat {
    if asked == 0 then after else RestOffset(matching, after)
  }

  /** How many of the other rows to fetch, and from where. */
  method RestWindow(first: nat, after: nat, asked: nat, taken: nat, matching: nat) returns (limit: nat, offset: nat)
    requires taken <= first
    ensures limit == first - taken && offset == OthersFrom(asked, matching, after)
  {
    limit := first;
    if taken < first {
      limit := first - taken;
    }
    if taken == first {
      limit := 0;
    }
    var start := after as int;
    if asked != 0 {
      start := start - matching;
    }
    if start < 0 {
      start := 0;
    }
    offset := start;
  }

  /** The connection of the page.  Its information is that of the validators query as long as it is made. */
  method Present<R>(result: seq<R>, idOf: R -> string, after: nat, validatorLimit: nat, validators: PaginationInfo,
                    rest: PaginationInfo)
    returns (conn: Connection<R>)
    ensures conn == Shown(result, IdsOf(result, idOf), after, ReportedFacts(validatorLimit, validators, rest))
  {
    var numbered := NumberRows(result, idOf, after);
    var totalCount := rest.totalCount;
    var hasNextPage := rest.hasNext;
    var hasPreviousPage := rest.hasPrevious;
    if validatorLimit != 0 {
      totalCount := totalCount + validators.totalCount;
      hasNextPage := validators.hasNext;
      hasPreviousPage := validators.hasPrevious;
    }
    conn := numbered.(totalCount := totalCount,
                      pageInfo := numbered.pageInfo.(hasNextPage := hasNextPage, hasPreviousPage := hasPreviousPage));
  }

  function ReportedFacts(validatorLimit: nat, validators: PaginationInfo, rest: PaginationInfo): PageFacts {
    if validatorLimit != 0 then
      PageFacts(rest.totalCount + validators.totalCount, validators.hasNext, validators.hasPrevious)
    else PageFacts(rest.totalCount, rest.hasNext, rest.hasPrevious)
  }

  /** The two queries of a page together: what they fetch is the window, what they report are its facts. */
  lemma PageOfTwoQueries<P, R>(vs: seq<P>, rest: seq<R>, asked: nat, matching: PaginationInfo, first: nat, after: nat,
                               limit: nat, offset: nat, rowsOf: P -> seq<R>, taken: seq<P>, page: Paginated<R>)
    requires |vs| <= asked && taken == Window(vs, after, first) && |taken| <= first
    requires if asked == 0 || after > asked then limit == offset == 0 else limit == first && offset == after
    requires asked != 0 ==> matching == PageOf(vs, limit, offset).info
    requires page == PageOf(rest, first - |taken|, OthersFrom(asked, |vs|, after))
    ensures Expand(Pins<P, R>(taken), rowsOf) + page.items == Expand(Window(Sources(vs, rest), after, first), rowsOf)
    ensures ReportedFacts(limit, matching, page.info) == Facts(asked, |vs|, |rest|, first, after)
  {
    PageRows(vs, rest, asked, first, after, rowsOf);
    PageReport(vs, |rest|, asked, matching, first, after, limit, offset, page.info);
  }

  lemma PageRows<P, R>(vs: seq<P>, rest: seq<R>, asked: nat, first: nat, after: nat, rowsOf: P -> seq<R>)
    requires |vs| <= asked && |Window(vs, after, first)| <= first
    ensures var taken := Window(vs, after, first);
            Expand(Pins<P, R>(taken), rowsOf)
                + Window(rest, OthersFrom(asked, |vs|, after), first - |taken|)
            == Expand(Window(Sources(vs, rest), after, first), rowsOf)
  {
    var taken := Window(vs, after, first);
    PageIsWindow(vs, rest, first, after);
    ExpandSources(taken, Window(rest, RestOffset(|vs|, after), first - |taken|), rowsOf);
  }

  lemma PageReport<P>(vs: seq<P>, rows: nat, asked: nat, matching: PaginationInfo, first: nat, after: nat,
                      limit: nat, offset: nat, rest: PaginationInfo)
    requires |vs| <= asked
    requires if asked == 0 || after > asked then limit == offset == 0 else limit == first && offset == after
    requires asked != 0 ==> matching == PageOf(vs, limit, offset).info
    requires var start := OthersFrom(asked, |vs|, after);
             rest == PaginationInfo(start + (first - |Window(vs, after, first)|) < rows, start > 0, rows)
    ensures ReportedFacts(limit, matching, rest) == Facts(asked, |vs|, rows, first, after)
  {
  }

  /** The validators of a page; none are queried when nothing is pinned or all of them lie behind. */
  method FetchPinned(validators: seq<Validator>, first: nat, after: nat, pinned: seq<string>)
    returns (limit: nat, offset: nat, page: Paginated<Validator>)
    requires UniqueOperators(validators)
    ensures if |pinned| == 0 || after > |pinned| then limit == offset == 0 else limit == first && offset == after
    ensures var vs := PinnedValidators(validators, pinned);
            && |vs| <= |pinned| && page.items == Window(vs, after, first) && |page.items| <= first
            && (pinned != [] ==> page.info == PageOf(vs, limit, offset).info)
    ensures forall v <- page.items :: v.info.Some?
  {
    limit, offset := first, after;
    if |pinned| == 0 || after > |pinned| {
      limit, offset := 0, 0;
    }
    page := QueryPaginatedValidators(validators, limit, offset, pinned);
    ValidatorsOfPage(validators, pinned, first, after, limit, offset);
  }

  /** The rows of a page of votes, and what the two queries report. */
  method FetchVotes(t: Tables, proposalId: int, first: nat, after: nat, pinned: seq<string>)
    returns (rows: seq<ProposalVote>, validatorLimit: nat, matching: PaginationInfo, others: PaginationInfo)
    requires UniqueOperators(t.validators)
    ensures rows == Expand(VoteSources(t, proposalId, pinned, first, after), VoteRowsOn(proposalId))
    ensures ReportedFacts(validatorLimit, matching, others)
         == Facts(|pinned|, |PinnedValidators(t.validators, pinned)|, |PageVotes(t, proposalId, pinned, first, after)|,
                  first, after)
  {
    var validatorOffset, validators;
    validatorLimit, validatorOffset, validators := FetchPinned(t.validators, first, after, pinned);
    ghost var vs := PinnedValidators(t.validators, pinned);
    var result, validatorDelegationAddresses := ValidatorVotes(validators.items, proposalId);
    ghost var rest := VotesExcluding(t.votes, proposalId, validatorDelegationAddresses);
    var voteLimit, voteOffset := RestWindow(first, after, |pinned|, |validators.items|, validators.info.totalCount);
    var votes := QueryPaginatedProposalVotes(t.votes, proposalId, voteLimit, voteOffset, validatorDelegationAddresses);
    rows := Append(result, votes.items);
    PageOfTwoQueries(vs, rest, |pinned|, validators.info, first, after, validatorLimit, validatorOffset,
                     VoteRowsOn(proposalId), validators.items, votes);
    matching, others := validators.info, votes.info;
  }

  /** The rows of a page of deposits, and what the two queries report. */
  method FetchDeposits(t: Tables, proposalId: int, first: nat, after: nat, pinned: seq<string>)
    returns (rows: seq<ProposalDeposit>, validatorLimit: nat, matching: PaginationInfo, others: PaginationInfo)
    requires UniqueOperators(t.validators)
    ensures rows == Expand(DepositSources(t, proposalId, pinned, first, after), DepositRowsOn(proposalId))
    ensures ReportedFacts(validatorLimit, matching, others)
         == Facts(|pinned|, |PinnedValidators(t.validators, pinned)|,
                  |DepositsExcluding(t.deposits, proposalId, pinned)|, first, after)
  {
    var validatorOffset, validators;
    validatorLimit, validatorOffset, validators := FetchPinned(t.validators, first, after, pinned);
    ghost var vs := PinnedValidators(t.validators, pinned);
    var result := ValidatorDeposits(validators.items, proposalId);
    ghost var rest := DepositsExcluding(t.deposits, proposalId, pinned);
    var depositLimit, depositOffset := RestWindow(first, after, |pinned|, |validators.items|,
                                                  validators.info.totalCount);
    var deposits := QueryPaginatedProposalDeposits(t.deposits, proposalId, depositLimit, depositOffset, pinned);
    rows := Append(result, deposits.items);
    PageOfTwoQueries(vs, rest, |pinned|, validators.info, first, after, validatorLimit, validatorOffset,
                     DepositRowsOn(proposalId), validators.items, deposits);
    matching, others := validators.info, deposits.info;
  }
}
