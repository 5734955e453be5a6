/** Batched reads of reactions: per target for the counts, and grouped by user for one's own. */
module ReactionLoader {
  import opened Wrappers
  import opened Strings
  import opened Windows
  import opened BatchQueries
  import opened ReactionTable

  function ProposalKey(address: string, proposalId: int): Key {
    Key(address, Proposal, Itoa(proposalId))
  }

  /** The rows a scan of the table sees, in some order. */
  ghost predicate RowsOf(rows: seq<Row>, t: Table) {
    && UniqueKeys(rows, KeyOf)
    && (forall row <- rows :: exists id :: id in t && t[id] == row)
    && (forall id :: id in t ==> t[id] in rows)
  }

  function KeyOf(row: Row): Key { row.key }
  function TargetIdOf(row: Row): string { row.key.targetId }

  function ByUser(address: string): Row -> bool { (row: Row) => row.key.address == address }

  // ------------------------------------------------- one user's reactions

  /** The condition is the user only: neither the targets nor their type restrict the scan. */
  function UserRows(rows: seq<Row>, address: string): seq<Row> { Filter(rows, ByUser(address)) }

  method QueryUserReactions(rows: seq<Row>, scopedTargetIds: seq<string>, scopedUserAddress: string)
    returns (result: seq<Option<Row>>)
    ensures result == Batch(UserRows(rows, scopedUserAddress), TargetIdOf, scopedTargetIds)
  {
    var reactions := UserRows(rows, scopedUserAddress);
    var targetIdToReaction := ByKey(reactions, TargetIdOf);
    result := [];
    for i := 0 to |scopedTargetIds|
      invariant result == Batch(reactions, TargetIdOf, scopedTargetIds)[..i]
    {
      var id := scopedTargetIds[i];
      assert Get(targetIdToReaction, id) == Lookup(reactions, TargetIdOf, id);
      result := result + [if id in targetIdToReaction then Some(targetIdToReaction[id]) else None];
    }
  }

  // ------------------------------------------------- the grouped loader

  datatype UserProposalReactionKey = UserProposalReactionKey(proposalId: GoInt, userAddress: string)

  function Itoas(ids: seq<GoInt>): seq<string> {
    seq(|ids|, i requires 0 <= i < |ids| => Itoa(ids[i]))
  }

  /** What the loader finds for one key. */
  function Found(rows: seq<Row>, key: UserProposalReactionKey): Option<Row> {
    Lookup(UserRows(rows, key.userAddress), TargetIdOf, Itoa(key.proposalId))
  }

  function FoundOf(rows: seq<Row>, keys: seq<UserProposalReactionKey>): seq<Option<Row>> {
    seq(|keys|, i requires 0 <= i < |keys| => Found(rows, keys[i]))
  }

  method GroupByUser(keys: seq<UserProposalReactionKey>) returns (groups: map<string, seq<GoInt>>)
    ensures forall key <- keys :: key.userAddress in groups && key.proposalId in groups[key.userAddress]
  {
    groups := map[];
    for i := 0 to |keys|
      invariant forall key <- keys[..i] :: key.userAddress in groups && key.proposalId in groups[key.userAddress]
    {
      var user := keys[i].userAddress;
      if user !in groups {
        groups := groups[user := []];
      }
      groups := groups[user := groups[user] + [keys[i].proposalId]];
    }
  }

  ghost predicate AllFound(found: map<UserProposalReactionKey, Option<Row>>, rows: seq<Row>) {
    forall key :: key in found ==> found[key] == Found(rows, key)
  }

  ghost predicate Fetched(found: map<UserProposalReactionKey, Option<Row>>, user: string, proposalIds: seq<GoInt>) {
    forall id <- proposalIds :: UserProposalReactionKey(id, user) in found
  }

  /** The answer at each place is the stored row of the user and the proposal asked for there, or nothing. */
  ghost predicate AnswersKeys(t: Table, keys: seq<UserProposalReactionKey>, result: seq<Option<Row>>) {
    && |result| == |keys|
    && forall i, row :: 0 <= i < |keys|
         ==> (result[i] == Some(row)
              <==> row in t.Values && row.key == Key(keys[i].userAddress, Proposal, Itoa(keys[i].proposalId)))
  }

  /** One query for each user, in whatever order the map yields them, and the answers put in the order of the keys. */
  method Fetch(rows: seq<Row>, keys: seq<UserProposalReactionKey>) returns (result: seq<Option<Row>>)
    ensures result == FoundOf(rows, keys)
    ensures forall t: Table :: RowsOf(rows, t) && Unique(t) && Checked(t) ==> AnswersKeys(t, keys, result)
  {
    var userToProposalIds := GroupByUser(keys);
    var keyToReaction := FetchUsers(rows, userToProposalIds);
    result := [];
    for i := 0 to |keys|
      invariant result == FoundOf(rows, keys)[..i]
    {
      assert keys[i] in keys && Fetched(keyToReaction, keys[i].userAddress, userToProposalIds[keys[i].userAddress]);
      result := result + [keyToReaction[keys[i]]];
    }
    forall t: Table | RowsOf(rows, t) && Unique(t) && Checked(t) ensures AnswersKeys(t, keys, FoundOf(rows, keys)) {
      FoundAnswers(rows, t, keys);
    }
  }

  method FetchUsers(rows: seq<Row>, userToProposalIds: map<string, seq<GoInt>>)
    returns (keyToReaction: map<UserProposalReactionKey, Option<Row>>)
    ensures AllFound(keyToReaction, rows)
    ensures forall user <- userToProposalIds :: Fetched(keyToReaction, user, userToProposalIds[user])
  {
    keyToReaction := map[];
    var users := userToProposalIds.Keys;
    while users != {}
      invariant users <= userToProposalIds.Keys && AllFound(keyToReaction, rows)
      invariant forall user :: user in userToProposalIds && user !in users
                  ==> Fetched(keyToReaction, user, userToProposalIds[user])
      decreases users
    {
      var user :| user in users;
      keyToReaction := FetchUser(rows, user, userToProposalIds[user], keyToReaction);
      users := users - {user};
    }
  }

  method FetchUser(rows: seq<Row>, user: string, proposalIds: seq<GoInt>,
                   before: map<UserProposalReactionKey, Option<Row>>)
    returns (keyToReaction: map<UserProposalReactionKey, Option<Row>>)
    requires AllFound(before, rows)
    ensures AllFound(keyToReaction, rows) && before.Keys <= keyToReaction.Keys
            && Fetched(keyToReaction, user, proposalIds)
  {
    keyToReaction := before;
    var userProposalReactions := QueryUserReactions(rows, Itoas(proposalIds), user);
    for i := 0 to |proposalIds|
      invariant AllFound(keyToReaction, rows) && before.Keys <= keyToReaction.Keys
      invariant Fetched(keyToReaction, user, proposalIds[..i])
    {
      keyToReaction := keyToReaction[UserProposalReactionKey(proposalIds[i], user) := userProposalReactions[i]];
    }
  }

  // ------------------------------------------------- why the target id alone is enough

  /** In the checked table a printed number names no target but a proposal. */
  lemma PrintedIsProposal(key: Key, n: int)
    requires AllowedTarget(key) && key.targetId == Itoa(n)
    ensures key.targetType == Proposal
  {
    assert AllDigits(Decimal(if n < 0 then -n else n));
    if n >= 0 {
      NumericIsProposal(key);
    } else if IsIscn(key.targetId) {
      IscnHasLetter(key.targetId);
    }
  }

  /** The loader's answer for a key, whatever else is in the batch, is the user's reaction to that proposal. */
  lemma FoundIsReaction(rows: seq<Row>, t: Table, key: UserProposalReactionKey)
    requires RowsOf(rows, t) && Unique(t) && Checked(t)
    ensures var id := Find(t, ProposalKey(key.userAddress, key.proposalId));
            Found(rows, key) == if id.Some? then Some(t[id.value]) else None
  {
    var mine, text := UserRows(rows, key.userAddress), Itoa(key.proposalId);
    LookupSound(mine, TargetIdOf, text);
    var id := Find(t, ProposalKey(key.userAddress, key.proposalId));
    if id.Some? {
      FilterMember(rows, ByUser(key.userAddress), t[id.value]);
    }
    if Found(rows, key).Some? {
      var row := Found(rows, key).value;
      FilterMember(rows, ByUser(key.userAddress), row);
      var other :| other in t && t[other] == row;
      PrintedIsProposal(row.key, key.proposalId);
      FindUnique(t, row.key, other);
    }
  }

  lemma FoundRow(rows: seq<Row>, t: Table, key: UserProposalReactionKey, row: Row)
    requires RowsOf(rows, t) && Unique(t) && Checked(t)
    ensures Found(rows, key) == Some(row)
       <==> row in t.Values && row.key == Key(key.userAddress, Proposal, Itoa(key.proposalId))
  {
    var k := ProposalKey(key.userAddress, key.proposalId);
    FoundIsReaction(rows, t, key);
    if row in t.Values && row.key == k {
      var id :| id in t && t[id] == row;
      FindUnique(t, k, id);
    }
  }

  lemma FoundAnswers(rows: seq<Row>, t: Table, keys: seq<UserProposalReactionKey>)
    requires RowsOf(rows, t) && Unique(t) && Checked(t)
    ensures AnswersKeys(t, keys, FoundOf(rows, keys))
  {
    forall i, row | 0 <= i < |keys|
      ensures FoundOf(rows, keys)[i] == Some(row)
         <==> row in t.Values && row.key == Key(keys[i].userAddress, Proposal, Itoa(keys[i].proposalId))
    {
      FoundRow(rows, t, keys[i], row);
    }
  }

  /** Without the check constraint the loader answers with reactions to something else. */
  lemma UncheckedIsWrong(address: string)
    ensures var stray := Row(Key(address, Post, Itoa(7)), ":like:");
            Found([stray], UserProposalReactionKey(7, address)) == Some(stray) && !AllowedTarget(stray.key)
  {
    var stray := Row(Key(address, Post, Itoa(7)), ":like:");
    assert [stray][1..] == [];
    assert UserRows([stray], address) == [stray] + UserRows([], address);
    assert Lookup([stray], TargetIdOf, Itoa(7)) == Some(stray);
    if AllowedTarget(stray.key) {
      PrintedIsProposal(stray.key, 7);
    }
  }

  // ------------------------------------------------- the counts of a target

  datatype TargetReactions = TargetReactions(targetId: string, reactions: map<string, nat>)

  function OnTarget(targetId: string): Row -> bool {
    (row: Row) => row.key.targetType == Proposal && row.key.targetId == targetId
  }

  function WithReaction(targetId: string, reaction: string): Row -> bool {
    (row: Row) => row.key.targetType == Proposal && row.key.targetId == targetId && row.reaction == reaction
  }

  /** How often each reaction to the target occurs; reactions that do not occur have no entry. */
  function Counts(rows: seq<Row>, targetId: string): map<string, nat> {
    map row | row in rows && OnTarget(targetId)(row) ::
      row.reaction := |Filter(rows, WithReaction(targetId, row.reaction))|
  }

  function IdsOn(scopedTargetIds: seq<string>): Row -> bool {
    (row: Row) => row.key.targetType == Proposal && row.key.targetId in scopedTargetIds
  }

  /** The grouped query: an entry for every target asked for that some row reacts to, in no particular order. */
  method GroupByTarget(rows: seq<Row>, scopedTargetIds: seq<string>) returns (res: seq<TargetReactions>)
    ensures forall r <- res :: r.reactions == Counts(rows, r.targetId)
    ensures forall id <- scopedTargetIds :: Counts(rows, id) != map[] ==> exists r <- res :: r.targetId == id
  {
    var targets := set row | row in rows && IdsOn(scopedTargetIds)(row) :: row.key.targetId;
    res := [];
    ghost var done := {};
    while targets != {}
      invariant forall r <- res :: r.reactions == Counts(rows, r.targetId)
      invariant done + targets == set row | row in rows && IdsOn(scopedTargetIds)(row) :: row.key.targetId
      invariant forall id :: id in done ==> exists r <- res :: r.targetId == id
      decreases targets
    {
      var id :| id in targets;
      targets, done := targets - {id}, done + {id};
      ghost var before := res;
      res := res + [TargetReactions(id, Counts(rows, id))];
      assert res[|before|].targetId == id;
      assert forall r :: r in res <==> r in before || r == TargetReactions(id, Counts(rows, id));
    }
    forall id | id in scopedTargetIds && Counts(rows, id) != map[] ensures id in done {
      var reaction :| reaction in Counts(rows, id);
      var row :| row in rows && OnTarget(id)(row) && row.reaction == reaction;
    }
  }

  /** What is known of each target in the map. */
  ghost predicate AllCounts(counts: map<string, map<string, nat>>, rows: seq<Row>) {
    forall id :: id in counts ==> counts[id] == Counts(rows, id)
  }

  /** The grouped rows by target, the last of a target counting. */
  method IndexByTarget(rows: seq<Row>, res: seq<TargetReactions>)
    returns (targetIdToReactions: map<string, map<string, nat>>)
    requires forall r <- res :: r.reactions == Counts(rows, r.targetId)
    ensures AllCounts(targetIdToReactions, rows) && forall r <- res :: r.targetId in targetIdToReactions
  {
    targetIdToReactions := map[];
    for i := 0 to |res|
      invariant AllCounts(targetIdToReactions, rows)
      invariant forall j :: 0 <= j < i ==> res[j].targetId in targetIdToReactions
    {
      assert res[i] in res;
      targetIdToReactions := targetIdToReactions[res[i].targetId := res[i].reactions];
    }
  }

  function CountsOf(rows: seq<Row>, scopedTargetIds: seq<string>): seq<map<string, nat>> {
    seq(|scopedTargetIds|, i requires 0 <= i < |scopedTargetIds| => Counts(rows, scopedTargetIds[i]))
  }

  /** The answer at each place has, for every reaction somebody holds on the target asked for there, the
      number of its holders, and no other reaction. */
  ghost predicate AnswersTargets(t: Table, scopedTargetIds: seq<string>, result: seq<map<string, nat>>) {
    && |result| == |scopedTargetIds|
    && forall i, reaction :: 0 <= i < |result|
         ==> if Holders(t, scopedTargetIds[i], reaction) == {} then reaction !in result[i]
             else reaction in result[i] && result[i][reaction] == |Holders(t, scopedTargetIds[i], reaction)|
  }

  lemma CountsAnswer(rows: seq<Row>, t: Table, scopedTargetIds: seq<string>)
    requires RowsOf(rows, t)
    ensures AnswersTargets(t, scopedTargetIds, CountsOf(rows, scopedTargetIds))
  {
    forall i, reaction | 0 <= i < |scopedTargetIds|
      ensures var counts := CountsOf(rows, scopedTargetIds)[i];
              if Holders(t, scopedTargetIds[i], reaction) == {} then reaction !in counts
              else reaction in counts && counts[reaction] == |Holders(t, scopedTargetIds[i], reaction)|
    {
      CountsAreHolders(rows, t, scopedTargetIds[i], reaction);
    }
  }

  method QueryTargetReactions(rows: seq<Row>, scopedTargetIds: seq<string>) returns (result: seq<map<string, nat>>)
    ensures result == CountsOf(rows, scopedTargetIds)
    ensures forall t: Table :: RowsOf(rows, t) ==> AnswersTargets(t, scopedTargetIds, result)
  {
    forall t: Table | RowsOf(rows, t) ensures AnswersTargets(t, scopedTargetIds, CountsOf(rows, scopedTargetIds)) {
      CountsAnswer(rows, t, scopedTargetIds);
    }
    var res := GroupByTarget(rows, scopedTargetIds);
    var targetIdToReactions := IndexByTarget(rows, res);
    result := [];
    for i := 0 to |scopedTargetIds|
      invariant result == CountsOf(rows, scopedTargetIds)[..i]
    {
      var id := scopedTargetIds[i];
      assert id in scopedTargetIds;
      result := result + [if id in targetIdToReactions then targetIdToReactions[id] else map[]];
    }
  }

  // ------------------------------------------------- counts are numbers of addresses

  /** The addresses whose stored reaction to the proposal is this one. */
  ghost function Holders(t: Table, targetId: string, reaction: string): set<string> {
    set id | id in t && WithReaction(targetId, reaction)(t[id]) :: t[id].key.address
  }

  lemma HoldersExact(t: Table, targetId: string, reaction: string, address: string)
    requires Unique(t)
    ensures address in Holders(t, targetId, reaction)
       <==> ReactionOf(t, Key(address, Proposal, targetId)) == Some(reaction)
  {
  }

  function Addresses(rows: seq<Row>): set<string> { set row | row in rows :: row.key.address }

  lemma {:induction false} DistinctAddresses(rows: seq<Row>)
    requires forall i, j :: 0 <= i < j < |rows| ==> rows[i].key.address != rows[j].key.address
    ensures |Addresses(rows)| == |rows|
  {
    if rows == [] {
      assert Addresses(rows) == {};
    } else {
      DistinctAddresses(rows[1..]);
      assert Addresses(rows) == {rows[0].key.address} + Addresses(rows[1..]);
      assert rows[0].key.address !in Addresses(rows[1..]);
    }
  }

  function OtherKey(): (Row, Row) -> bool { (a: Row, b: Row) => a.key != b.key }

  lemma KeptHolders(rows: seq<Row>, t: Table, targetId: string, reaction: string)
    requires RowsOf(rows, t)
    ensures Holders(t, targetId, reaction) == Addresses(Filter(rows, WithReaction(targetId, reaction)))
  {
    forall row
      ensures row in Filter(rows, WithReaction(targetId, reaction))
         <==> row in rows && WithReaction(targetId, reaction)(row)
    {
      FilterMember(rows, WithReaction(targetId, reaction), row);
    }
  }

  lemma KeptAddresses(rows: seq<Row>, t: Table, targetId: string, reaction: string)
    requires RowsOf(rows, t)
    ensures |Addresses(Filter(rows, WithReaction(targetId, reaction)))|
         == |Filter(rows, WithReaction(targetId, reaction))|
  {
    var kept := Filter(rows, WithReaction(targetId, reaction));
    FilterPairwise(rows, WithReaction(targetId, reaction), OtherKey());
    forall i | 0 <= i < |kept| ensures kept[i].key == Key(kept[i].key.address, Proposal, targetId) {
      FilterMember(rows, WithReaction(targetId, reaction), kept[i]);
    }
    DistinctAddresses(kept);
  }

  lemma KeptCounted(rows: seq<Row>, targetId: string, reaction: string)
    ensures var counts, kept := Counts(rows, targetId), Filter(rows, WithReaction(targetId, reaction));
            if kept == [] then reaction !in counts else reaction in counts && counts[reaction] == |kept|
  {
    var kept := Filter(rows, WithReaction(targetId, reaction));
    if reaction in Counts(rows, targetId) {
      var row :| row in rows && OnTarget(targetId)(row) && row.reaction == reaction;
      FilterMember(rows, WithReaction(targetId, reaction), row);
    }
    if kept != [] {
      FilterMember(rows, WithReaction(targetId, reaction), kept[0]);
    }
  }

  /** A reaction is counted once for every address that holds it; a reaction nobody holds is not listed. */
  lemma CountsAreHolders(rows: seq<Row>, t: Table, targetId: string, reaction: string)
    requires RowsOf(rows, t)
    ensures var counts, holders := Counts(rows, targetId), |Holders(t, targetId, reaction)|;
            if holders == 0 then reaction !in counts else reaction in counts && counts[reaction] == holders
  {
    KeptHolders(rows, t, targetId, reaction);
    KeptAddresses(rows, t, targetId, reaction);
    KeptCounted(rows, targetId, reaction);
  }
}
