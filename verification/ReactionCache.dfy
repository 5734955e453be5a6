/** The client's cached reactions to a proposal: updated after each click instead of fetched again. */
module ReactionCache {
  import opened Wrappers
  import opened Strings
  import opened Windows
  import opened ReactionTable
  import opened ReactionLoader

  datatype ReactionCount = ReactionCount(reaction: string, count: int)

  // ------------------------------------------------- the updater

  /** What the mutation does to one count: the reaction now set gains one, the one set before loses one. */
  function Bumped(r: ReactionCount, mine: Option<string>, reaction: Option<string>): ReactionCount {
    if reaction == Some(r.reaction) then r.(count := r.count + 1)
    else if mine == Some(r.reaction) then r.(count := r.count - 1)
    else r
  }

  function AllBumped(counts: seq<ReactionCount>, mine: Option<string>, reaction: Option<string>): seq<ReactionCount> {
    seq(|counts|, i requires 0 <= i < |counts| => Bumped(counts[i], mine, reaction))
  }

  predicate HasEntry(counts: seq<ReactionCount>, reaction: string) {
    exists i | 0 <= i < |counts| :: counts[i].reaction == reaction
  }

  function Pushed(counts: seq<ReactionCount>, reaction: Option<string>): seq<ReactionCount> {
    if reaction.Some? && !HasEntry(counts, reaction.value) then counts + [ReactionCount(reaction.value, 0)] else counts
  }

  function NonZero(): ReactionCount -> bool { (r: ReactionCount) => r.count != 0 }

  function Updated(counts: seq<ReactionCount>, mine: Option<string>, reaction: Option<string>): seq<ReactionCount> {
    Filter(AllBumped(Pushed(counts, reaction), mine, reaction), NonZero())
  }

  /** The cache entry of a proposal. */
  class CachedProposal {
    var myReaction: Option<string>
    var reactions: seq<ReactionCount>

    constructor (myReaction: Option<string>, reactions: seq<ReactionCount>)
      ensures this.myReaction == myReaction && this.reactions == reactions
    {
      this.myReaction, this.reactions := myReaction, reactions;
    }

    /** The field functions of one `modify`, which read the entry as it was before. */
    method Modify(reaction: Option<string>)
      modifies this
      ensures myReaction == reaction
      ensures reactions == Updated(old(reactions), old(myReaction), reaction)
    {
      var mutableReactionCounts := reactions;
      var isNewReaction := reaction.Some? && !HasEntry(reactions, reaction.value);
      if isNewReaction {
        mutableReactionCounts := mutableReactionCounts + [ReactionCount(reaction.value, 0)];
      }
      var mine := myReaction;
      reactions := Filter(AllBumped(mutableReactionCounts, mine, reaction), NonZero());
      myReaction := reaction;
    }
  }

  // ------------------------------------------------- agreement with the table

  /** Distinct reactions, each with the number of addresses that hold it, none with zero or less, and
      every reaction somebody holds. */
  ghost predicate Agree(counts: seq<ReactionCount>, t: Table, targetId: string) {
    && (forall i, j :: 0 <= i < j < |counts| ==> counts[i].reaction != counts[j].reaction)
    && (forall r :: r in counts <==> Counted(r, t, targetId))
  }

  ghost predicate Counted(r: ReactionCount, t: Table, targetId: string) {
    r.count > 0 && r.count == |Holders(t, targetId, r.reaction)|
  }

  ghost predicate UpToDate(mine: Option<string>, counts: seq<ReactionCount>, t: Table, me: string, targetId: string) {
    mine == ReactionOf(t, Key(me, Proposal, targetId)) && Agree(counts, t, targetId)
  }

  /** The mutation on the server; None unsets. */
  ghost function Mutated(t: Table, me: string, targetId: string, reaction: Option<string>, newId: string): Table {
    match reaction
    case Some(r) => Upsert(t, Key(me, Proposal, targetId), r, newId)
    case None => Unset(t, Key(me, Proposal, targetId))
  }

  ghost predicate Accepted(me: string, targetId: string, reaction: Option<string>) {
    reaction.Some? ==> Allowed(Row(Key(me, Proposal, targetId), reaction.value))
  }

  lemma MutatedUnique(t: Table, me: string, targetId: string, reaction: Option<string>, newId: string)
    requires Unique(t) && newId !in t
    ensures Unique(Mutated(t, me, targetId, reaction, newId))
  {
  }

  /** A mutation moves one address from the reaction it held to the one it sets. */
  lemma HoldersAfter(t: Table, me: string, targetId: string, reaction: Option<string>, newId: string, r: string)
    requires Unique(t) && newId !in t && Accepted(me, targetId, reaction)
    ensures Holders(Mutated(t, me, targetId, reaction, newId), targetId, r)
         == Holders(t, targetId, r) - {me} + if reaction == Some(r) then {me} else {}
    ensures ReactionOf(Mutated(t, me, targetId, reaction, newId), Key(me, Proposal, targetId)) == reaction
    ensures me in Holders(t, targetId, r) <==> ReactionOf(t, Key(me, Proposal, targetId)) == Some(r)
  {
    var t' := Mutated(t, me, targetId, reaction, newId);
    var mine := Key(me, Proposal, targetId);
    MutatedUnique(t, me, targetId, reaction, newId);
    forall a
      ensures a in Holders(t', targetId, r) <==> if a == me then reaction == Some(r) else a in Holders(t, targetId, r)
    {
      HoldersExact(t, targetId, r, a);
      HoldersExact(t', targetId, r, a);
      OperationsAffectOneKey(t, mine, if reaction.Some? then reaction.value else "", newId, Key(a, Proposal, targetId));
    }
    HoldersExact(t, targetId, r, me);
    HoldersExact(t', targetId, r, me);
    OperationsAffectOneKey(t, mine, if reaction.Some? then reaction.value else "", newId, mine);
  }

  /** What the two loaders answer agrees with the table they read. */
  lemma FetchedIsUpToDate(rows: seq<Row>, t: Table, me: string, proposalId: GoInt, counts: seq<ReactionCount>)
    requires RowsOf(rows, t) && Unique(t) && Checked(t)
    requires forall i, j :: 0 <= i < j < |counts| ==> counts[i].reaction != counts[j].reaction
    requires var stored := Counts(rows, Itoa(proposalId));
             forall r :: r in counts <==> r.reaction in stored && r.count == stored[r.reaction]
    ensures var mine := Found(rows, UserProposalReactionKey(proposalId, me));
            UpToDate(if mine.Some? then Some(mine.value.reaction) else None, counts, t, me, Itoa(proposalId))
  {
    FoundIsReaction(rows, t, UserProposalReactionKey(proposalId, me));
    forall r: ReactionCount ensures r in counts <==> Counted(r, t, Itoa(proposalId)) {
      CountsAreHolders(rows, t, Itoa(proposalId), r.reaction);
    }
  }

  // ------------------------------------------------- one mutation

  lemma UpdatedMember(counts: seq<ReactionCount>, mine: Option<string>, reaction: Option<string>, r: ReactionCount)
    ensures r in Updated(counts, mine, reaction)
       <==> r.count != 0 && exists p <- Pushed(counts, reaction) :: Bumped(p, mine, reaction) == r
  {
    var pushed := Pushed(counts, reaction);
    var bumped := AllBumped(pushed, mine, reaction);
    FilterMember(bumped, NonZero(), r);
    if r in bumped {
      var i :| 0 <= i < |bumped| && bumped[i] == r;
      assert pushed[i] in pushed;
    }
    if p :| p in pushed && Bumped(p, mine, reaction) == r {
      var i :| 0 <= i < |pushed| && pushed[i] == p;
      assert bumped[i] == r;
    }
  }

  function OtherReaction(): (ReactionCount, ReactionCount) -> bool {
    (a: ReactionCount, b: ReactionCount) => a.reaction != b.reaction
  }

  lemma UpdatedDistinct(counts: seq<ReactionCount>, mine: Option<string>, reaction: Option<string>)
    requires Pairwise(counts, OtherReaction())
    ensures Pairwise(Updated(counts, mine, reaction), OtherReaction())
  {
    FilterPairwise(AllBumped(Pushed(counts, reaction), mine, reaction), NonZero(), OtherReaction());
  }

  lemma PushedMember(counts: seq<ReactionCount>, t: Table, targetId: string, reaction: Option<string>, name: string)
    requires Agree(counts, t, targetId)
    ensures forall p <- Pushed(counts, reaction) ::
              p.reaction == name ==> p == ReactionCount(name, |Holders(t, targetId, name)|)
    ensures ReactionCount(name, |Holders(t, targetId, name)|) in Pushed(counts, reaction)
       <==> Holders(t, targetId, name) != {} || reaction == Some(name)
  {
    var p := ReactionCount(name, |Holders(t, targetId, name)|);
    if reaction == Some(name) && HasEntry(counts, name) {
      var i :| 0 <= i < |counts| && counts[i].reaction == name;
      assert counts[i] in counts;
    }
    if Counted(p, t, targetId) {
      assert p in counts;
    }
  }

  /** Only the entry of its own reaction decides what is listed for a reaction. */
  lemma UpdatedAt(counts: seq<ReactionCount>, t: Table, targetId: string, mine: Option<string>,
                  reaction: Option<string>, r: ReactionCount)
    requires Agree(counts, t, targetId)
    ensures var holders := Holders(t, targetId, r.reaction);
            r in Updated(counts, mine, reaction)
            <==> && r.count != 0 && (holders != {} || reaction == Some(r.reaction))
                 && r == Bumped(ReactionCount(r.reaction, |holders|), mine, reaction)
  {
    UpdatedMember(counts, mine, reaction, r);
    PushedMember(counts, t, targetId, reaction, r.reaction);
    if p :| p in Pushed(counts, reaction) && Bumped(p, mine, reaction) == r {
      assert p.reaction == r.reaction;
    }
  }

  /** Taking an address out of the holders and putting it back in changes their number as the update does. */
  lemma HolderCount(holders: set<string>, me: string, name: string, mine: Option<string>, reaction: Option<string>)
    requires me in holders <==> mine == Some(name)
    ensures var after := holders - {me} + if reaction == Some(name) then {me} else {};
            && (|after| == Bumped(ReactionCount(name, |holders|), mine, reaction).count
                <==> !(reaction == mine == Some(name)))
            && (|after| > 0 ==> holders != {} || reaction == Some(name))
  {
    if reaction == Some(name) {
      assert holders - {me} + {me} == if me in holders then holders else holders + {me};
    }
  }

  /** After the update, a reaction has the count the changed table gives it, unless it was set again. */
  lemma CountAfter(counts: seq<ReactionCount>, t: Table, me: string, targetId: string, reaction: Option<string>,
                   newId: string, r: ReactionCount)
    requires Unique(t) && newId !in t && Accepted(me, targetId, reaction) && Agree(counts, t, targetId)
    requires !(reaction == ReactionOf(t, Key(me, Proposal, targetId)) == Some(r.reaction))
    ensures r in Updated(counts, ReactionOf(t, Key(me, Proposal, targetId)), reaction)
       <==> Counted(r, Mutated(t, me, targetId, reaction, newId), targetId)
  {
    var mine := ReactionOf(t, Key(me, Proposal, targetId));
    UpdatedAt(counts, t, targetId, mine, reaction, r);
    HoldersAfter(t, me, targetId, reaction, newId, r.reaction);
    HolderCount(Holders(t, targetId, r.reaction), me, r.reaction, mine, reaction);
  }

  /** Setting a reaction again gives it one too many. */
  lemma SetAgain(counts: seq<ReactionCount>, t: Table, me: string, targetId: string, name: string, newId: string)
    requires Unique(t) && newId !in t && Accepted(me, targetId, Some(name)) && Agree(counts, t, targetId)
    requires ReactionOf(t, Key(me, Proposal, targetId)) == Some(name)
    ensures var t' := Mutated(t, me, targetId, Some(name), newId);
            ReactionCount(name, |Holders(t', targetId, name)| + 1) in Updated(counts, Some(name), Some(name))
  {
    HoldersAgain(t, me, targetId, name, newId);
    UpdatedAt(counts, t, targetId, Some(name), Some(name), ReactionCount(name, |Holders(t, targetId, name)| + 1));
  }

  lemma HoldersAgain(t: Table, me: string, targetId: string, name: string, newId: string)
    requires Unique(t) && newId !in t && Accepted(me, targetId, Some(name))
    requires ReactionOf(t, Key(me, Proposal, targetId)) == Some(name)
    ensures Holders(Mutated(t, me, targetId, Some(name), newId), targetId, name) == Holders(t, targetId, name)
  {
    HoldersAfter(t, me, targetId, Some(name), newId, name);
    HoldersExact(t, targetId, name, me);
    assert Holders(t, targetId, name) - {me} + {me} == Holders(t, targetId, name);
  }

  const LIKE_ROW: Row := Row(Key("like1", Proposal, "7"), ":like:")
  const ONE_LIKE: Table := map["1" := LIKE_ROW]

  lemma LikedFacts()
    ensures Unique(ONE_LIKE) && ReactionOf(ONE_LIKE, LIKE_ROW.key) == Some(":like:")
            && Accepted("like1", "7", Some(":like:"))
    ensures Holders(ONE_LIKE, "7", ":like:") == {"like1"}
  {
    FindUnique(ONE_LIKE, LIKE_ROW.key, "1");
    assert "1" in ONE_LIKE && ONE_LIKE["1"] == LIKE_ROW;
    assert ":like:"[1..5] == ['l', 'i', 'k', 'e'];
  }

  /** One reaction, set a second time: the cache then counts two, with one address holding it. */
  lemma CountedTwice()
    ensures UpToDate(Some(":like:"), [ReactionCount(":like:", 1)], ONE_LIKE, "like1", "7")
    ensures var t' := Mutated(ONE_LIKE, "like1", "7", Some(":like:"), "2");
            && Updated([ReactionCount(":like:", 1)], Some(":like:"), Some(":like:")) == [ReactionCount(":like:", 2)]
            && |Holders(t', "7", ":like:")| == 1
  {
    LikedFacts();
    OnlyLike();
    HoldersAgain(ONE_LIKE, "like1", "7", ":like:", "2");
    OneBumped(":like:", 1);
  }

  lemma OneBumped(name: string, count: nat)
    ensures Updated([ReactionCount(name, count)], Some(name), Some(name)) == [ReactionCount(name, count + 1)]
  {
    var one := [ReactionCount(name, count)];
    assert one[0].reaction == name;
    assert Pushed(one, Some(name)) == one;
    var bumped := AllBumped(one, Some(name), Some(name));
    assert bumped == [ReactionCount(name, count + 1)] && bumped[1..] == [];
    assert Filter(bumped, NonZero()) == [ReactionCount(name, count + 1)] + Filter([], NonZero());
  }

  lemma OnlyLike()
    ensures Agree([ReactionCount(":like:", 1)], ONE_LIKE, "7")
  {
    LikedFacts();
    forall r ensures r in [ReactionCount(":like:", 1)] <==> Counted(r, ONE_LIKE, "7") {
      if r.reaction != ":like:" {
        assert Holders(ONE_LIKE, "7", r.reaction) == {};
      }
    }
  }

  /** The updated entry agrees with the changed table exactly when the mutation does not set the
      reaction that is set already. */
  lemma UpdateExact(counts: seq<ReactionCount>, t: Table, me: string, targetId: string, reaction: Option<string>,
                    newId: string)
    requires Unique(t) && newId !in t && Accepted(me, targetId, reaction)
    requires Agree(counts, t, targetId)
    ensures var mine, t' := ReactionOf(t, Key(me, Proposal, targetId)), Mutated(t, me, targetId, reaction, newId);
            UpToDate(reaction, Updated(counts, mine, reaction), t', me, targetId)
            <==> reaction.None? || reaction != mine
  {
    var mine, t' := ReactionOf(t, Key(me, Proposal, targetId)), Mutated(t, me, targetId, reaction, newId);
    if reaction.Some? && reaction == mine {
      SetAgain(counts, t, me, targetId, reaction.value, newId);
    } else {
      HoldersAfter(t, me, targetId, reaction, newId, "");
      UpdatedDistinct(counts, mine, reaction);
      forall r ensures r in Updated(counts, mine, reaction) <==> Counted(r, t', targetId) {
        CountAfter(counts, t, me, targetId, reaction, newId, r);
      }
      DistinctReactions(Updated(counts, mine, reaction));
    }
  }

  lemma DistinctReactions(counts: seq<ReactionCount>)
    requires Pairwise(counts, OtherReaction())
    ensures forall i, j :: 0 <= i < j < |counts| ==> counts[i].reaction != counts[j].reaction
  {
  }

  // ------------------------------------------------- clicks

  /** The page of one user: the cache entry and the table behind it. */
  datatype View = View(mine: Option<string>, counts: seq<ReactionCount>, table: Table)

  /** A click on a reaction, with the id its row gets if there is none yet. */
  datatype Click = Click(reaction: string, newId: string)

  /** Clicking the reaction that is set takes it back, clicking another one sets that. */
  function Wanted(mine: Option<string>, reaction: string): Option<string> {
    if mine == Some(reaction) then None else Some(reaction)
  }

  /** The server answers first; a refused mutation leaves the cache as it was. */
  ghost function Clicked(v: View, me: string, targetId: string, click: Click): View {
    var wanted := Wanted(v.mine, click.reaction);
    if !Accepted(me, targetId, wanted) then v
    else View(wanted, Updated(v.counts, v.mine, wanted), Mutated(v.table, me, targetId, wanted, click.newId))
  }

  ghost function AfterClicks(v: View, me: string, targetId: string, clicks: seq<Click>): View
    decreases |clicks|
  {
    if clicks == [] then v else AfterClicks(Clicked(v, me, targetId, clicks[0]), me, targetId, clicks[1..])
  }

  ghost predicate InSync(v: View, me: string, targetId: string) {
    Unique(v.table) && UpToDate(v.mine, v.counts, v.table, me, targetId)
  }

  /** Ids are not used again. */
  ghost predicate FreshIds(t: Table, clicks: seq<Click>) {
    && (forall c <- clicks :: c.newId !in t)
    && (forall i, j :: 0 <= i < j < |clicks| ==> clicks[i].newId != clicks[j].newId)
  }

  /** Through any sequence of clicks the cache says what the table says. */
  lemma {:induction false} ClicksKeepCache(v: View, me: string, targetId: string, clicks: seq<Click>)
    requires InSync(v, me, targetId) && FreshIds(v.table, clicks)
    ensures InSync(AfterClicks(v, me, targetId, clicks), me, targetId)
    decreases |clicks|
  {
    if clicks != [] {
      var wanted, id := Wanted(v.mine, clicks[0].reaction), clicks[0].newId;
      if Accepted(me, targetId, wanted) {
        MutatedUnique(v.table, me, targetId, wanted, id);
        UpdateExact(v.counts, v.table, me, targetId, wanted, id);
      }
      var next := Clicked(v, me, targetId, clicks[0]);
      assert next.table.Keys <= v.table.Keys + {id};
      ClicksKeepCache(next, me, targetId, clicks[1..]);
    }
  }
}
