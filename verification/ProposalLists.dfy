/** What paging through the votes and the deposits of a proposal shows. */
module ProposalLists {
  import opened Windows
  import opened TwoSource
  import opened ProposalResolver

  // ------------------------------------------------- deposits: the pages tile the list

  /** The sources of the page of deposits at each offset. */
  function DepositPageAt(t: Tables, proposalId: int, pinned: seq<string>, first: nat): nat -> seq<DepositSource> {
    (after: nat) => DepositSources(t, proposalId, pinned, first, after)
  }

  /** The rows behind the deposit pages, page after page, are the list itself: nothing lost, nothing
      repeated, and enough pages show all of it, for every page size. */
  lemma {:induction false} DepositPagesTile(t: Tables, proposalId: int, pinned: seq<string>, first: nat, count: nat)
    requires first > 0
    ensures var list := DepositList(t, proposalId, pinned);
            var pages := Pages(DepositPageAt(t, proposalId, pinned, first), first, count);
            && pages == list[..Min(count * first, |list|)]
            && (count * first >= |list| ==> pages == list)
  {
    var list := DepositList(t, proposalId, pinned);
    WindowsTile(list, first, count);
    PagesSame(DepositPageAt(t, proposalId, pinned, first), WindowAt(list, first), first, count);
  }

  lemma {:induction false} PagesSame<T>(p: nat -> seq<T>, q: nat -> seq<T>, size: nat, count: nat)
    requires forall after: nat :: p(after) == q(after)
    ensures Pages(p, size, count) == Pages(q, size, count)
  {
    if count > 0 {
      PagesSame(p, q, size, count - 1);
    }
  }

  // ------------------------------------------------- votes: when the pages tile the list

  /** The votes on the proposal that are not by one of these addresses. */
  function VotesOn(t: Tables, proposalId: int): seq<ProposalVote> { VotesExcluding(t.votes, proposalId, []) }

  function VoteList(t: Tables, proposalId: int, pinned: seq<string>): seq<VoteSource> {
    var vs := PinnedValidators(t.validators, pinned);
    Sources(vs, VotesExcluding(t.votes, proposalId, SelfAddresses(vs)))
  }

  /** The pinned validators on the page that also starts the votes: those the full pages leave over. */
  function LastPinned(vs: seq<Validator>, first: nat): seq<Validator>
    requires first > 0
  {
    vs[|vs| - |vs| % first..]
  }

  /** The places that page has for votes; none when the last full page ends with the last validator. */
  function Room(vs: seq<Validator>, first: nat): nat
    requires first > 0
  {
    if |vs| % first == 0 then 0 else first - |vs| % first
  }

  /** The elements from `lo` up to `hi`, as far as they exist. */
  function Part<R>(rows: seq<R>, lo: nat, hi: nat): seq<R> {
    if lo <= hi then rows[Min(lo, |rows|)..Min(hi, |rows|)] else []
  }

  /** The first `seen` places of the pages: the pinned entries, then `room` rows of `own`, then the
      rows of `all` from `room` on. */
  function Seen<P, R>(vs: seq<P>, own: seq<R>, all: seq<R>, room: nat, seen: nat): seq<Source<P, R>> {
    if seen <= |vs| then Pins(vs[..seen])
    else Sources(vs, Part(own, 0, room) + Part(all, room, seen - |vs|))
  }

  lemma SeenPinned<P, R>(vs: seq<P>, own: seq<R>, all: seq<R>, room: nat, seen: nat, first: nat)
    requires seen + first <= |vs|
    ensures forall rows: seq<R>, offset: nat ::
              Seen(vs, own, all, room, seen) + Sources(vs[seen..seen + first], Window(rows, offset, 0))
                  == Seen(vs, own, all, room, seen + first)
  {
    forall rows: seq<R>, offset: nat
      ensures Seen(vs, own, all, room, seen) + Sources(vs[seen..seen + first], Window(rows, offset, 0))
           == Seen(vs, own, all, room, seen + first)
    {
      assert Window(rows, offset, 0) == [];
    }
  }

  lemma SeenShared<P, R>(vs: seq<P>, own: seq<R>, all: seq<R>, room: nat, seen: nat, first: nat)
    requires seen < |vs| < seen + first && room == seen + first - |vs|
    ensures Seen(vs, own, all, room, seen) + Sources(vs[seen..], Window(own, 0, room))
         == Seen(vs, own, all, room, seen + first)
  {
  }

  lemma SeenRest<P, R>(vs: seq<P>, own: seq<R>, all: seq<R>, room: nat, seen: nat, first: nat)
    requires first > 0 && |vs| + room <= seen
    ensures Seen(vs, own, all, room, seen) + Others(Window(all, seen - |vs|, first))
         == Seen(vs, own, all, room, seen + first)
  {
    var o, from := Part(own, 0, room), seen - |vs|;
    SeenFrom(vs, own, all, room, seen);
    SourcesAppend(vs, o + Part(all, room, from), Window(all, from, first));
    PartWindow(o, all, room, from, first);
  }

  lemma SeenFrom<P, R>(vs: seq<P>, own: seq<R>, all: seq<R>, room: nat, seen: nat)
    requires |vs| + room <= seen
    ensures Seen(vs, own, all, room, seen) == Sources(vs, Part(own, 0, room) + Part(all, room, seen - |vs|))
  {
    if seen == |vs| {
      assert Part(own, 0, 0) + Part(all, 0, 0) == [];
      assert vs[..seen] == vs && Sources<P, R>(vs, []) == Pins(vs);
    }
  }

  lemma PartWindow<R>(before: seq<R>, all: seq<R>, room: nat, from: nat, size: nat)
    requires room <= from
    ensures before + Part(all, room, from) + Window(all, from, size) == before + Part(all, room, from + size)
  {
  }

  lemma SourcesAppend<P, R>(vs: seq<P>, a: seq<R>, b: seq<R>)
    ensures Sources(vs, a) + Others(b) == Sources(vs, a + b)
  {
  }

  lemma VotePage(t: Tables, proposalId: int, pinned: seq<string>, first: nat, after: nat)
    ensures var vs := PinnedValidators(t.validators, pinned);
            var taken := Window(vs, after, first);
            && |taken| <= first
            && VoteSources(t, proposalId, pinned, first, after)
               == Sources(taken, Window(VotesExcluding(t.votes, proposalId, SelfAddresses(taken)),
                                        RestOffset(|vs|, after), first - |taken|))
  {
    PageIsWindow(PinnedValidators(t.validators, pinned), PageVotes(t, proposalId, pinned, first, after), first, after);
  }

  /** The votes on the page the pinned validators and the votes share. */
  function SharedVotes(t: Tables, proposalId: int, vs: seq<Validator>, first: nat): seq<ProposalVote>
    requires first > 0
  {
    VotesExcluding(t.votes, proposalId, SelfAddresses(LastPinned(vs, first)))
  }

  function SeenVotes(t: Tables, proposalId: int, vs: seq<Validator>, first: nat, seen: nat): seq<VoteSource>
    requires first > 0
  {
    Seen(vs, SharedVotes(t, proposalId, vs, first), VotesOn(t, proposalId), Room(vs, first), seen)
  }

  lemma {:induction false} MultiplesApart(a: nat, b: nat, f: nat)
    requires a < b
    ensures a * f + f <= b * f
  {
    assert b * f == (b - 1) * f + f;
    if a < b - 1 {
      MultiplesApart(a, b - 1, f);
    }
  }

  /** Where a page starting at a multiple of the page size lies: before the end of the pinned entries,
      across it, or after it. */
  lemma PagePosition(m: nat, first: nat, count: nat)
    requires first > 0
    ensures var seen := count * first;
            || seen + first <= m
            || (seen < m < seen + first && m % first == m - seen)
            || m + (if m % first == 0 then 0 else first - m % first) <= seen
  {
    Divided(m, first);
    MultiplesPlaced(count, m / first, first);
    PositionAt(m, m % first, m / first * first, count * first, first);
  }

  lemma Divided(m: nat, d: nat)
    requires d > 0
    ensures m == m / d * d + m % d
  {
  }

  lemma MultiplesPlaced(a: nat, b: nat, f: nat)
    ensures a * f + f <= b * f || a * f == b * f || b * f + f <= a * f
  {
    if a < b {
      MultiplesApart(a, b, f);
    } else if b < a {
      MultiplesApart(b, a, f);
    }
  }

  lemma PositionAt(m: nat, r: nat, last: nat, seen: nat, first: nat)
    requires m == last + r && r < first && (seen + first <= last || seen == last || last + first <= seen)
    ensures seen + first <= m || (seen < m < seen + first && r == m - seen)
            || m + (if r == 0 then 0 else first - r) <= seen
  {
  }

  lemma StepPinned(t: Tables, proposalId: int, pinned: seq<string>, first: nat, seen: nat)
    requires first > 0 && seen + first <= |PinnedValidators(t.validators, pinned)|
    ensures SeenVotes(t, proposalId, PinnedValidators(t.validators, pinned), first, seen)
            + VoteSources(t, proposalId, pinned, first, seen)
         == SeenVotes(t, proposalId, PinnedValidators(t.validators, pinned), first, seen + first)
  {
    var vs := PinnedValidators(t.validators, pinned);
    VotePage(t, proposalId, pinned, first, seen);
    assert Window(vs, seen, first) == vs[seen..seen + first];
    SeenPinned(vs, SharedVotes(t, proposalId, vs, first), VotesOn(t, proposalId), Room(vs, first), seen, first);
  }

  lemma StepShared(t: Tables, proposalId: int, pinned: seq<string>, first: nat, seen: nat)
    requires first > 0 && seen < |PinnedValidators(t.validators, pinned)| < seen + first
    requires |PinnedValidators(t.validators, pinned)| % first == |PinnedValidators(t.validators, pinned)| - seen
    ensures SeenVotes(t, proposalId, PinnedValidators(t.validators, pinned), first, seen)
            + VoteSources(t, proposalId, pinned, first, seen)
         == SeenVotes(t, proposalId, PinnedValidators(t.validators, pinned), first, seen + first)
  {
    var vs := PinnedValidators(t.validators, pinned);
    VotePage(t, proposalId, pinned, first, seen);
    assert Window(vs, seen, first) == vs[seen..] == LastPinned(vs, first);
    SeenShared(vs, SharedVotes(t, proposalId, vs, first), VotesOn(t, proposalId), Room(vs, first), seen, first);
  }

  lemma StepRest(t: Tables, proposalId: int, pinned: seq<string>, first: nat, seen: nat)
    requires first > 0
    requires |PinnedValidators(t.validators, pinned)| + Room(PinnedValidators(t.validators, pinned), first) <= seen
    ensures SeenVotes(t, proposalId, PinnedValidators(t.validators, pinned), first, seen)
            + VoteSources(t, proposalId, pinned, first, seen)
         == SeenVotes(t, proposalId, PinnedValidators(t.validators, pinned), first, seen + first)
  {
    var vs := PinnedValidators(t.validators, pinned);
    PageAfterPinned(t, proposalId, pinned, first, seen);
    SeenRest(vs, SharedVotes(t, proposalId, vs, first), VotesOn(t, proposalId), Room(vs, first), seen, first);
  }

  lemma PageAfterPinned(t: Tables, proposalId: int, pinned: seq<string>, first: nat, seen: nat)
    requires |PinnedValidators(t.validators, pinned)| <= seen
    ensures VoteSources(t, proposalId, pinned, first, seen)
         == Others(Window(VotesOn(t, proposalId), seen - |PinnedValidators(t.validators, pinned)|, first))
  {
    var vs := PinnedValidators(t.validators, pinned);
    VotePage(t, proposalId, pinned, first, seen);
    assert Window(vs, seen, first) == [] && SelfAddresses([]) == [];
    var rows := Window(VotesOn(t, proposalId), seen - |vs|, first);
    assert Sources<Validator, ProposalVote>([], rows) == Others(rows);
  }

  lemma VotePageStep(t: Tables, proposalId: int, pinned: seq<string>, first: nat, count: nat, seen: nat)
    requires first > 0 && seen == count * first
    ensures SeenVotes(t, proposalId, PinnedValidators(t.validators, pinned), first, seen)
            + VoteSources(t, proposalId, pinned, first, seen)
         == SeenVotes(t, proposalId, PinnedValidators(t.validators, pinned), first, seen + first)
  {
    var vs := PinnedValidators(t.validators, pinned);
    PagePosition(|vs|, first, count);
    if seen + first <= |vs| {
      StepPinned(t, proposalId, pinned, first, seen);
    } else if seen < |vs| {
      StepShared(t, proposalId, pinned, first, seen);
    } else {
      StepRest(t, proposalId, pinned, first, seen);
    }
  }

  /** The sources of the page of votes at each offset. */
  function VotePageAt(t: Tables, proposalId: int, pinned: seq<string>, first: nat): nat -> seq<VoteSource> {
    (after: nat) => VoteSources(t, proposalId, pinned, first, after)
  }

  /** The page at `offset` carries what is shown before it on to what is shown after it. */
  ghost predicate Extends<T>(page: nat -> seq<T>, shown: nat -> seq<T>, size: nat, offset: nat) {
    shown(offset) + page(offset) == shown(offset + size)
  }

  lemma {:induction false} PagesShown<T>(page: nat -> seq<T>, shown: nat -> seq<T>, size: nat, count: nat)
    requires shown(0) == [] && forall k: nat :: k < count ==> Extends(page, shown, size, k * size)
    ensures Pages(page, size, count) == shown(count * size)
  {
    if count > 0 {
      PagesShown(page, shown, size, count - 1);
      assert Extends(page, shown, size, (count - 1) * size);
      assert count * size == (count - 1) * size + size;
    }
  }

  /** What the pages of votes before each place show. */
  function SeenVotesAt(t: Tables, proposalId: int, vs: seq<Validator>, first: nat): nat -> seq<VoteSource>
    requires first > 0
  {
    (seen: nat) => SeenVotes(t, proposalId, vs, first, seen)
  }

  lemma VotePageExtends(t: Tables, proposalId: int, pinned: seq<string>, first: nat, count: nat, seen: nat)
    requires first > 0 && seen == count * first
    ensures Extends(VotePageAt(t, proposalId, pinned, first),
                    SeenVotesAt(t, proposalId, PinnedValidators(t.validators, pinned), first), first, seen)
  {
    VotePageStep(t, proposalId, pinned, first, count, seen);
  }

  /** What the first pages of votes show, in terms of the tables. */
  lemma VotePagesShow(t: Tables, proposalId: int, pinned: seq<string>, first: nat, count: nat)
    requires first > 0
    ensures Pages(VotePageAt(t, proposalId, pinned, first), first, count)
         == SeenVotes(t, proposalId, PinnedValidators(t.validators, pinned), first, count * first)
  {
    var shown := SeenVotesAt(t, proposalId, PinnedValidators(t.validators, pinned), first);
    forall k: nat | k < count ensures Extends(VotePageAt(t, proposalId, pinned, first), shown, first, k * first) {
      VotePageExtends(t, proposalId, pinned, first, k, k * first);
    }
    PagesShown(VotePageAt(t, proposalId, pinned, first), shown, first, count);
  }

  ghost predicate NoVotesBy(votes: seq<ProposalVote>, addresses: seq<string>) {
    forall v <- votes :: v.voterAddress !in addresses
  }

  lemma {:induction false} VotesOnMember(t: Tables, proposalId: int, v: ProposalVote)
    ensures v in VotesOn(t, proposalId) <==> v in t.votes && v.proposalId == proposalId
  {
    FilterMember(t.votes, VoteKept(proposalId, []), v);
  }

  /** Leaving out the votes of `more` instead of those of `few` leaves the same number exactly when
      nobody in `more` but not in `few` voted on the proposal. */
  lemma ExcludingMore(t: Tables, proposalId: int, few: seq<string>, more: seq<string>)
    requires forall a <- few :: a in more
    ensures var kept, fewer := VotesExcluding(t.votes, proposalId, few), VotesExcluding(t.votes, proposalId, more);
            && |fewer| <= |kept|
            && (|fewer| == |kept| <==> kept == fewer)
            && (kept == fewer
                <==> forall v <- VotesOn(t, proposalId) :: v.voterAddress in more ==> v.voterAddress in few)
  {
    var p, q := VoteKept(proposalId, few), VoteKept(proposalId, more);
    FilterStrict(t.votes, p, q);
    forall v ensures v in VotesOn(t, proposalId) <==> v in t.votes && v.proposalId == proposalId {
      VotesOnMember(t, proposalId, v);
    }
    if forall v <- t.votes :: p(v) == q(v) {
      FilterSame(t.votes, p, q);
    }
  }

  lemma SourcesInjective<P, R>(vs: seq<P>, a: seq<R>, b: seq<R>)
    ensures Sources(vs, a) == Sources(vs, b) <==> a == b
  {
    if Sources(vs, a) == Sources(vs, b) {
      assert |a| == |b|;
      forall i | 0 <= i < |a| ensures a[i] == b[i] {
        assert Sources(vs, a)[|vs| + i] == Other(a[i]) && Sources(vs, b)[|vs| + i] == Other(b[i]);
      }
    }
  }

  /** When the votes the pages show are the votes of the list. */
  lemma ShownAreListed(all: seq<ProposalVote>, own: seq<ProposalVote>, listed: seq<ProposalVote>, room: nat)
    requires |listed| <= |own| <= |all|
    requires |own| == |listed| <==> own == listed
    requires |all| == |listed| <==> all == listed
    requires |all| == |own| <==> all == own
    ensures Part(own, 0, room) + Part(all, room, |all|) == listed <==> all == listed || (|all| <= room && own == listed)
  {
  }

  /** Enough pages of votes show the list exactly when no pinned validator voted on the proposal, or
      all votes fit on the page they share with the last pinned validators and only those voted. */
  lemma VotePagesTile(t: Tables, proposalId: int, pinned: seq<string>, first: nat, count: nat)
    requires first > 0
    requires count * first >= |PinnedValidators(t.validators, pinned)| + |VotesOn(t, proposalId)|
    ensures var vs, all := PinnedValidators(t.validators, pinned), VotesOn(t, proposalId);
            Pages(VotePageAt(t, proposalId, pinned, first), first, count) == VoteList(t, proposalId, pinned)
            <==> || NoVotesBy(all, SelfAddresses(vs))
                 || (|all| <= Room(vs, first)
                     && forall v <- all :: v.voterAddress in SelfAddresses(vs)
                                           ==> v.voterAddress in SelfAddresses(LastPinned(vs, first)))
  {
    var vs, all := PinnedValidators(t.validators, pinned), VotesOn(t, proposalId);
    var last, room, seen := LastPinned(vs, first), Room(vs, first), count * first;
    var own, listed := SharedVotes(t, proposalId, vs, first), VotesExcluding(t.votes, proposalId, SelfAddresses(vs));
    VotePagesShow(t, proposalId, pinned, first, count);
    LastAmong(vs, first);
    ExcludingMore(t, proposalId, SelfAddresses(last), SelfAddresses(vs));
    ExcludingMore(t, proposalId, [], SelfAddresses(vs));
    ExcludingMore(t, proposalId, [], SelfAddresses(last));
    ShownAreListed(all, own, listed, room);
    SeenAll(vs, own, all, room, seen);
    SourcesInjective(vs, Part(own, 0, room) + Part(all, room, |all|), listed);
  }

  lemma LastAmong(vs: seq<Validator>, first: nat)
    requires first > 0
    ensures forall a <- SelfAddresses(LastPinned(vs, first)) :: a in SelfAddresses(vs)
  {
    var last, d := LastPinned(vs, first), |vs| - |vs| % first;
    forall i | 0 <= i < |last| ensures SelfAddresses(last)[i] in SelfAddresses(vs) {
      assert SelfAddresses(last)[i] == SelfAddresses(vs)[d + i];
    }
  }

  lemma SeenAll<P, R>(vs: seq<P>, own: seq<R>, all: seq<R>, room: nat, seen: nat)
    requires seen >= |vs| + |all| && |own| <= |all|
    ensures Seen(vs, own, all, room, seen) == Sources(vs, Part(own, 0, room) + Part(all, room, |all|))
  {
  }
}
