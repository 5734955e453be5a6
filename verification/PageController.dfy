/** The page buttons under a list, and the rows they lead to. */
module PageController {
  import opened Wrappers
  import opened Windows
  import opened TwoSource
  import opened ProposalResolver
  import opened VoteFacts
  import ProposalLists

  // ------------------------------------------------- previous and next

  function CeilDiv(n: nat, d: nat): nat
    requires d > 0
  {
    (n + d - 1) / d
  }

  function CurrentPage(offset: nat, size: nat): nat
    requires size > 0
  {
    offset / size
  }

  function TotalPage(items: nat, size: nat): nat
    requires size > 0
  {
    CeilDiv(items, size)
  }

  predicate CanGoPrevious(offset: nat, size: nat, items: nat)
    requires size > 0
  {
    TotalPage(items, size) != 0 && CurrentPage(offset, size) + 1 > 1
  }

  predicate CanGoNext(offset: nat, size: nat, items: nat)
    requires size > 0
  {
    TotalPage(items, size) != 0 && CurrentPage(offset, size) + 1 < TotalPage(items, size)
  }

  lemma {:induction false} TimesMonotone(a: nat, b: nat, f: nat)
    requires a <= b
    ensures a * f <= b * f
  {
    if a < b {
      TimesMonotone(a, b - 1, f);
      assert b * f == (b - 1) * f + f;
    }
  }

  lemma CeilDivExact(k: nat, n: nat, d: nat)
    requires d > 0
    ensures k < CeilDiv(n, d) <==> k * d < n
  {
    var c := CeilDiv(n, d);
    if k < c {
      TimesMonotone(k + 1, c, d);
      assert (k + 1) * d == k * d + d;
    } else {
      TimesMonotone(c, k, d);
    }
  }

  /** The next page exists exactly when an item lies beyond the end of the current one. */
  lemma CanGoNextExact(k: nat, size: nat, items: nat)
    requires size > 0
    ensures CurrentPage(k * size, size) == k
    ensures CanGoNext(k * size, size, items) <==> (k + 1) * size < items
  {
    CeilDivExact(k + 1, items, size);
    if k * size / size < k {
      TimesMonotone(k * size / size + 1, k, size);
    } else if k * size / size > k {
      TimesMonotone(k + 1, k * size / size, size);
    }
  }

  /** Pager and server agree on the next page exactly when the page is not cut short inside its last
      `size` items by an offset that is no multiple of the size; on multiples they always agree. */
  lemma PagerAgrees<T>(rows: seq<T>, offset: nat, size: nat)
    requires size > 0
    ensures var served := PageOf(rows, size, offset).info;
            && (CanGoNext(offset, size, served.totalCount) == served.hasNext
                <==> !((offset / size + 1) * size < |rows| <= offset + size))
            && (offset % size == 0 ==> CanGoNext(offset, size, served.totalCount) == served.hasNext)
            && (offset % size == 0
                ==> CanGoPrevious(offset, size, served.totalCount) == (served.hasPrevious && rows != []))
  {
    PageStart(offset, size);
    CanGoExact(offset, size, |rows|);
  }

  /** The page an offset lies on starts there exactly at the multiples of the size. */
  lemma PageStart(offset: nat, size: nat)
    requires size > 0
    ensures var next := (offset / size + 1) * size;
            && offset < next <= offset + size && (offset % size == 0 ==> next == offset + size)
            && (offset % size == 0 ==> (offset / size > 0 <==> offset > 0))
  {
    var k := offset / size;
    assert offset == k * size + offset % size && (k + 1) * size == k * size + size;
    TimesMonotone(0, k, size);
  }

  lemma CanGoExact(offset: nat, size: nat, items: nat)
    requires size > 0
    ensures CanGoNext(offset, size, items) <==> (offset / size + 1) * size < items
    ensures CanGoPrevious(offset, size, items) <==> items > 0 && offset / size > 0
  {
    CeilDivExact(offset / size + 1, items, size);
    CeilDivExact(0, items, size);
  }

  // ------------------------------------------------- clicking Next

  /** The button is there on page `k`: an item lies beyond the page. */
  predicate Continues(itemsAt: nat -> nat, k: nat, size: nat) {
    (k + 1) * size < itemsAt(k * size)
  }

  lemma ContinuesExact(itemsAt: nat -> nat, k: nat, size: nat, most: nat)
    requires size > 0 && forall offset: nat :: itemsAt(offset) <= most
    ensures CanGoNext(k * size, size, itemsAt(k * size)) <==> Continues(itemsAt, k, size)
    ensures Continues(itemsAt, k, size) ==> k < most
  {
    CanGoNextExact(k, size, itemsAt(k * size));
    TimesMonotone(1, size, k + 1);
    assert k < (k + 1) * size;
  }

  lemma ContinuesOf(itemsAt: nat -> nat, k: nat, size: nat, items: nat)
    requires itemsAt(k * size) == items
    ensures Continues(itemsAt, k, size) <==> (k + 1) * size < items
  {
  }

  /** The number of pages seen by who opens page `k` and clicks Next as long as the button is there;
      the list may report another number of items at every offset, but never more than `most`. */
  function Visited(itemsAt: nat -> nat, k: nat, size: nat, most: nat): (count: nat)
    requires size > 0 && forall offset: nat :: itemsAt(offset) <= most
    decreases most - k
  {
    ContinuesExact(itemsAt, k, size, most);
    if CanGoNext(k * size, size, itemsAt(k * size)) then Visited(itemsAt, k + 1, size, most) else k + 1
  }

  /** The last page seen is the first one without a Next button. */
  lemma {:induction false} VisitedExact(itemsAt: nat -> nat, k: nat, size: nat, most: nat)
    requires size > 0 && forall offset: nat :: itemsAt(offset) <= most
    ensures var n := Visited(itemsAt, k, size, most);
            n > k && !Continues(itemsAt, n - 1, size) && forall j: nat :: k <= j < n - 1 ==> Continues(itemsAt, j, size)
    decreases most - k
  {
    ContinuesExact(itemsAt, k, size, most);
    if Continues(itemsAt, k, size) {
      VisitedExact(itemsAt, k + 1, size, most);
    }
  }

  /** The first number of pages that holds all items. */
  lemma FewestPages(items: nat, size: nat, n: nat)
    requires size > 0 && n > 0
    requires items <= n * size && (n > 1 ==> (n - 1) * size < items)
    ensures n == if items == 0 then 1 else CeilDiv(items, size)
  {
    CeilDivExact(n, items, size);
    CeilDivExact(n - 1, items, size);
  }

  lemma VisitedOfConstant(itemsAt: nat -> nat, items: nat, size: nat)
    requires size > 0 && forall offset: nat :: itemsAt(offset) == items
    ensures var n := Visited(itemsAt, 0, size, items);
            n == (if items == 0 then 1 else TotalPage(items, size)) && items <= n * size
  {
    VisitedExact(itemsAt, 0, size, items);
    var n := Visited(itemsAt, 0, size, items);
    ContinuesOf(itemsAt, n - 1, size, items);
    if n > 1 {
      assert Continues(itemsAt, n - 2, size);
      ContinuesOf(itemsAt, n - 2, size, items);
    }
    FewestPages(items, size, n);
  }

  function ItemsAt<T>(rows: seq<T>, size: nat): nat -> seq<T> { (offset: nat) => PageOf(rows, size, offset).items }

  function TotalAt<T>(rows: seq<T>, size: nat): nat -> nat {
    (offset: nat) => PageOf(rows, size, offset).info.totalCount
  }

  lemma ItemsTile<T>(rows: seq<T>, size: nat, count: nat)
    requires size > 0
    ensures Pages(ItemsAt(rows, size), size, count) == rows[..Min(count * size, |rows|)]
  {
    WindowsTile(rows, size, count);
    ProposalLists.PagesSame(ItemsAt(rows, size), WindowAt(rows, size), size, count);
  }

  /** In a list from one table, clicking Next from the start shows every row once, in order, on
      ceil(total / size) pages (one empty page when there is no row). */
  lemma NextShowsAll<T>(rows: seq<T>, size: nat)
    requires size > 0
    ensures var n := Visited(TotalAt(rows, size), 0, size, |rows|);
            && n == (if rows == [] then 1 else TotalPage(|rows|, size))
            && Pages(ItemsAt(rows, size), size, n) == rows
  {
    VisitedOfConstant(TotalAt(rows, size), |rows|, size);
    ItemsTile(rows, size, Visited(TotalAt(rows, size), 0, size, |rows|));
  }

  // ------------------------------------------------- clicking Next through the deposits

  /** The total the server reports with each page of deposits, and the pager works with. */
  function DepositTotal(asked: nat, pinned: nat, rows: nat, first: nat, after: nat): nat {
    Facts(asked, pinned, rows, first, after).totalCount
  }

  function DepositTotals(asked: nat, pinned: nat, rows: nat, first: nat): nat -> nat {
    (after: nat) => DepositTotal(asked, pinned, rows, first, after)
  }

  function Max(a: nat, b: nat): nat { if a >= b then a else b }

  /** The rows of deposits that can be reached: past the pinned addresses the total no longer counts
      the pinned validators, and the Next button goes away too early. */
  function Reachable(asked: nat, rows: nat, first: nat): nat
    requires first > 0
  {
    Max((asked / first + 2) * first, CeilDiv(rows, first) * first)
  }

  lemma MultiplesUpTo(k: nat, asked: nat, first: nat)
    requires first > 0
    ensures k * first <= asked <==> k <= asked / first
  {
    var a := asked / first;
    if k <= a {
      TimesMonotone(k, a, first);
    } else {
      TimesMonotone(a + 1, k, first);
    }
  }

  lemma DepositContinues(asked: nat, pinned: nat, rows: nat, first: nat, k: nat)
    requires first > 0 && 0 < pinned <= asked
    ensures Continues(DepositTotals(asked, pinned, rows, first), k, first)
       <==> (k + 1) * first < if k <= asked / first then pinned + rows else rows
  {
    MultiplesUpTo(k, asked, first);
  }

  /** Where the buttons end: the first page without one. */
  lemma DepositPagesEnd(asked: nat, pinned: nat, rows: nat, first: nat, n: nat)
    requires first > 0 && 0 < pinned <= asked && n > 0
    requires !Continues(DepositTotals(asked, pinned, rows, first), n - 1, first)
    requires n > 1 ==> Continues(DepositTotals(asked, pinned, rows, first), n - 2, first)
    ensures n <= asked / first + 1 ==> n * first >= pinned + rows
    ensures n > asked / first + 1 ==> n == Max(asked / first + 2, CeilDiv(rows, first))
  {
    DepositContinues(asked, pinned, rows, first, n - 1);
    CeilDivExact(n, rows, first);
    if n > 1 {
      DepositContinues(asked, pinned, rows, first, n - 2);
      CeilDivExact(n - 1, rows, first);
    }
  }

  lemma LastVisitedOfDeposits(asked: nat, pinned: nat, rows: nat, first: nat)
    requires first > 0 && pinned <= asked
    ensures var itemsAt := DepositTotals(asked, pinned, rows, first);
            var n := Visited(itemsAt, 0, first, pinned + rows);
            && n > 0 && !Continues(itemsAt, n - 1, first) && (n > 1 ==> Continues(itemsAt, n - 2, first))
            && (pinned == 0 ==> n * first >= rows)
  {
    VisitedExact(DepositTotals(asked, pinned, rows, first), 0, first, pinned + rows);
  }

  lemma EnoughPages(asked: nat, rows: nat, first: nat, all: nat, n: nat)
    requires first > 0 && n > 0
    requires n <= asked / first + 1 ==> n * first >= all
    requires n > asked / first + 1 ==> n == Max(asked / first + 2, CeilDiv(rows, first))
    ensures n * first >= all <==> Reachable(asked, rows, first) >= all
  {
    if n <= asked / first + 1 {
      TimesMonotone(n, asked / first + 2, first);
    } else {
      TimesMonotone(asked / first + 2, n, first);
      TimesMonotone(CeilDiv(rows, first), n, first);
    }
  }

  lemma DepositPagesVisited(asked: nat, pinned: nat, rows: nat, first: nat)
    requires first > 0 && pinned <= asked
    ensures var n := Visited(DepositTotals(asked, pinned, rows, first), 0, first, pinned + rows);
            n * first >= pinned + rows <==> Reachable(asked, rows, first) >= pinned + rows
  {
    var n := Visited(DepositTotals(asked, pinned, rows, first), 0, first, pinned + rows);
    LastVisitedOfDeposits(asked, pinned, rows, first);
    if pinned == 0 {
      CeilDivExact(CeilDiv(rows, first), rows, first);
    } else {
      DepositPagesEnd(asked, pinned, rows, first, n);
      EnoughPages(asked, rows, first, pinned + rows, n);
    }
  }

  /** Pages of deposits show the whole list exactly when they have places for all of it. */
  lemma DepositPagesCover(t: Tables, proposalId: int, pinned: seq<string>, first: nat, n: nat)
    requires first > 0
    ensures Pages(ProposalLists.DepositPageAt(t, proposalId, pinned, first), first, n)
         == DepositList(t, proposalId, pinned)
       <==> n * first >= |PinnedValidators(t.validators, pinned)| + |DepositsExcluding(t.deposits, proposalId, pinned)|
  {
    ProposalLists.DepositPagesTile(t, proposalId, pinned, first, n);
    PrefixIsAll(DepositList(t, proposalId, pinned), n * first);
  }

  lemma PrefixIsAll<T>(list: seq<T>, n: nat)
    ensures list[..Min(n, |list|)] == list <==> n >= |list|
  {
  }

  /** Clicking Next from the first page of deposits shows the whole list exactly when the reachable
      rows cover it. */
  lemma NextShowsAllDeposits(t: Tables, proposalId: int, pinned: seq<string>, first: nat)
    requires first > 0 && UniqueOperators(t.validators)
    ensures var list := DepositList(t, proposalId, pinned);
            var p, d := |PinnedValidators(t.validators, pinned)|, |DepositsExcluding(t.deposits, proposalId, pinned)|;
            var n := Visited(DepositTotals(|pinned|, p, d, first), 0, first, p + d);
            Pages(ProposalLists.DepositPageAt(t, proposalId, pinned, first), first, n) == list
            <==> Reachable(|pinned|, d, first) >= p + d
  {
    var p, d := |PinnedValidators(t.validators, pinned)|, |DepositsExcluding(t.deposits, proposalId, pinned)|;
    PinnedFacts(t.validators, pinned);
    DepositPagesVisited(|pinned|, p, d, first);
    DepositPagesCover(t, proposalId, pinned, first, Visited(DepositTotals(|pinned|, p, d, first), 0, first, p + d));
  }

  // ------------------------------------------------- clicking Next through the votes

  /** The totals reported with the pages of votes; what a page leaves out makes them differ. */
  function VoteTotals(t: Tables, proposalId: int, pinned: seq<string>, first: nat): nat -> nat {
    (after: nat) => VotePageFacts(t, proposalId, pinned, first, after).totalCount
  }

  lemma VoteTotalBounded(t: Tables, proposalId: int, pinned: seq<string>, first: nat, after: nat)
    ensures VoteTotals(t, proposalId, pinned, first)(after)
         <= |PinnedValidators(t.validators, pinned)| + |ProposalLists.VotesOn(t, proposalId)|
  {
    PageVotesBounded(t, proposalId, pinned, first, after);
  }

  /** Whether the Next button leads through all pages of a list with `v` pinned validators and `d` votes:
      it can end on the last page with pinned validators, which offers `own` votes, or, as for
      deposits, past the pinned addresses. */
  predicate NextReaches(asked: nat, v: nat, own: nat, d: nat, first: nat)
    requires first > 0
  {
    || v == 0
    || (var q := CeilDiv(v, first);
        if v + own <= q * first then v + d <= q * first else v + d <= Reachable(asked, d, first))
  }

  /** The pages of votes up to the last one with pinned validators. */
  lemma VoteContinuesEarly(t: Tables, proposalId: int, pinned: seq<string>, first: nat, k: nat)
    requires UniqueOperators(t.validators) && first > 0 && k * first < |PinnedValidators(t.validators, pinned)|
    ensures Continues(VoteTotals(t, proposalId, pinned, first), k, first)
       <==> (k + 1) * first
            < |PinnedValidators(t.validators, pinned)| + |PageVotes(t, proposalId, pinned, first, k * first)|
  {
    VoteTotalEarly(t, proposalId, pinned, first, k * first);
    ContinuesOf(VoteTotals(t, proposalId, pinned, first), k, first,
                |PinnedValidators(t.validators, pinned)| + |PageVotes(t, proposalId, pinned, first, k * first)|);
  }

  lemma VoteTotalEarly(t: Tables, proposalId: int, pinned: seq<string>, first: nat, after: nat)
    requires UniqueOperators(t.validators) && first > 0 && after < |PinnedValidators(t.validators, pinned)|
    ensures VoteTotals(t, proposalId, pinned, first)(after)
         == |PinnedValidators(t.validators, pinned)| + |PageVotes(t, proposalId, pinned, first, after)|
  {
    PinnedFacts(t.validators, pinned);
  }

  /** The pages after it, which report what the pages of deposits would. */
  lemma VoteContinuesLate(t: Tables, proposalId: int, pinned: seq<string>, first: nat, k: nat)
    requires first > 0 && k * first >= |PinnedValidators(t.validators, pinned)|
    ensures Continues(VoteTotals(t, proposalId, pinned, first), k, first)
       <==> Continues(DepositTotals(|pinned|, |PinnedValidators(t.validators, pinned)|,
                                    |ProposalLists.VotesOn(t, proposalId)|, first), k, first)
  {
    NobodyLeftOut(t, proposalId, pinned, first, k * first);
  }

  /** Where the buttons end, from the pages where they continue. */
  lemma VotePagesEnd(itemsAt: nat -> nat, asked: nat, v: nat, own: nat, d: nat, first: nat, n: nat)
    requires first > 0 && 0 < v <= asked && own <= d && n > 0
    requires !Continues(itemsAt, n - 1, first) && forall j: nat :: j < n - 1 ==> Continues(itemsAt, j, first)
    requires forall k: nat :: k * first < v && (k + 1) * first < v ==> Continues(itemsAt, k, first)
    requires CeilDiv(v, first) > 0
    requires Continues(itemsAt, CeilDiv(v, first) - 1, first) <==> CeilDiv(v, first) * first < v + own
    requires forall k: nat :: k >= CeilDiv(v, first)
               ==> (Continues(itemsAt, k, first) <==> Continues(DepositTotals(asked, v, d, first), k, first))
    ensures v + d <= n * first <==> NextReaches(asked, v, own, d, first)
  {
    var q := CeilDiv(v, first);
    CeilDivExact(n, v, first);
    CeilDivExact(q - 1, v, first);
    TimesMonotone(n - 1, n, first);
    if n > q {
      assert Continues(itemsAt, q - 1, first);
      MultiplesUpTo(q - 1, asked, first);
      DepositContinues(asked, v, d, first, q - 1);
      assert n - 2 >= q ==> Continues(DepositTotals(asked, v, d, first), n - 2, first);
      DepositPagesEnd(asked, v, d, first, n);
      EnoughPages(asked, d, first, v + d, n);
    }
  }

  lemma VoteTotalsBounded(t: Tables, proposalId: int, pinned: seq<string>, first: nat)
    ensures forall after: nat :: VoteTotals(t, proposalId, pinned, first)(after)
                                 <= |PinnedValidators(t.validators, pinned)| + |ProposalLists.VotesOn(t, proposalId)|
  {
    forall after: nat
      ensures VoteTotals(t, proposalId, pinned, first)(after)
           <= |PinnedValidators(t.validators, pinned)| + |ProposalLists.VotesOn(t, proposalId)|
    {
      VoteTotalBounded(t, proposalId, pinned, first, after);
    }
  }

  lemma VoteButtonsEarly(t: Tables, proposalId: int, pinned: seq<string>, first: nat, k: nat)
    requires UniqueOperators(t.validators) && first > 0
    requires k * first < |PinnedValidators(t.validators, pinned)|
             && (k + 1) * first < |PinnedValidators(t.validators, pinned)|
    ensures Continues(VoteTotals(t, proposalId, pinned, first), k, first)
  {
    VoteContinuesEarly(t, proposalId, pinned, first, k);
  }

  /** The last page that starts before `v`. */
  lemma LastPageBefore(v: nat, first: nat)
    requires first > 0 && v > 0
    ensures var q := CeilDiv(v, first);
            q > 0 && (q - 1) * first < v && (q - 1 + 1) * first == q * first
  {
    CeilDivExact(0, v, first);
    CeilDivExact(CeilDiv(v, first) - 1, v, first);
  }

  /** The votes the last page with pinned validators has to choose from. */
  function LastPageVotes(t: Tables, proposalId: int, pinned: seq<string>, first: nat): nat
    requires first > 0 && |PinnedValidators(t.validators, pinned)| > 0
  {
    var q := CeilDiv(|PinnedValidators(t.validators, pinned)|, first);
    LastPageBefore(|PinnedValidators(t.validators, pinned)|, first);
    |PageVotes(t, proposalId, pinned, first, (q - 1) * first)|
  }

  lemma LastPageVotesBounded(t: Tables, proposalId: int, pinned: seq<string>, first: nat)
    requires first > 0 && |PinnedValidators(t.validators, pinned)| > 0
    ensures LastPageVotes(t, proposalId, pinned, first) <= |ProposalLists.VotesOn(t, proposalId)|
  {
    LastPageBefore(|PinnedValidators(t.validators, pinned)|, first);
    PageVotesBounded(t, proposalId, pinned, first,
                     (CeilDiv(|PinnedValidators(t.validators, pinned)|, first) - 1) * first);
  }

  lemma VoteButtonLast(t: Tables, proposalId: int, pinned: seq<string>, first: nat)
    requires UniqueOperators(t.validators) && first > 0 && |PinnedValidators(t.validators, pinned)| > 0
    ensures var v, own := |PinnedValidators(t.validators, pinned)|, LastPageVotes(t, proposalId, pinned, first);
            var q := CeilDiv(v, first);
            q > 0 && (Continues(VoteTotals(t, proposalId, pinned, first), q - 1, first) <==> q * first < v + own)
  {
    LastPageBefore(|PinnedValidators(t.validators, pinned)|, first);
    VoteContinuesEarly(t, proposalId, pinned, first, CeilDiv(|PinnedValidators(t.validators, pinned)|, first) - 1);
  }

  lemma VoteButtonsLate(t: Tables, proposalId: int, pinned: seq<string>, first: nat, k: nat)
    requires first > 0 && k >= CeilDiv(|PinnedValidators(t.validators, pinned)|, first)
    ensures Continues(VoteTotals(t, proposalId, pinned, first), k, first)
       <==> Continues(DepositTotals(|pinned|, |PinnedValidators(t.validators, pinned)|,
                                    |ProposalLists.VotesOn(t, proposalId)|, first), k, first)
  {
    CeilDivExact(k, |PinnedValidators(t.validators, pinned)|, first);
    VoteContinuesLate(t, proposalId, pinned, first, k);
  }

  /** The pages seen by clicking Next from the first page of votes. */
  function VotePagesSeen(t: Tables, proposalId: int, pinned: seq<string>, first: nat): nat
    requires first > 0
  {
    VoteTotalsBounded(t, proposalId, pinned, first);
    Visited(VoteTotals(t, proposalId, pinned, first), 0, first,
            |PinnedValidators(t.validators, pinned)| + |ProposalLists.VotesOn(t, proposalId)|)
  }

  lemma VotePagesSeenExact(t: Tables, proposalId: int, pinned: seq<string>, first: nat)
    requires first > 0
    ensures var n := VotePagesSeen(t, proposalId, pinned, first);
            && n > 0 && !Continues(VoteTotals(t, proposalId, pinned, first), n - 1, first)
            && forall j: nat :: j < n - 1 ==> Continues(VoteTotals(t, proposalId, pinned, first), j, first)
  {
    VoteTotalsBounded(t, proposalId, pinned, first);
    VisitedExact(VoteTotals(t, proposalId, pinned, first), 0, first,
                 |PinnedValidators(t.validators, pinned)| + |ProposalLists.VotesOn(t, proposalId)|);
  }

  lemma NoPinnedVotes(t: Tables, proposalId: int, pinned: seq<string>, first: nat)
    requires first > 0 && PinnedValidators(t.validators, pinned) == []
    ensures |ProposalLists.VotesOn(t, proposalId)| <= VotePagesSeen(t, proposalId, pinned, first) * first
  {
    var n := VotePagesSeen(t, proposalId, pinned, first);
    VotePagesSeenExact(t, proposalId, pinned, first);
    NobodyLeftOut(t, proposalId, pinned, first, (n - 1) * first);
  }

  lemma VotePagesCover(t: Tables, proposalId: int, pinned: seq<string>, first: nat)
    requires UniqueOperators(t.validators) && first > 0
    ensures var v, d := |PinnedValidators(t.validators, pinned)|, |ProposalLists.VotesOn(t, proposalId)|;
            v + d <= VotePagesSeen(t, proposalId, pinned, first) * first
            <==> NextReaches(|pinned|, v, if v == 0 then 0 else LastPageVotes(t, proposalId, pinned, first), d, first)
  {
    var itemsAt := VoteTotals(t, proposalId, pinned, first);
    var v, d := |PinnedValidators(t.validators, pinned)|, |ProposalLists.VotesOn(t, proposalId)|;
    if v == 0 {
      NoPinnedVotes(t, proposalId, pinned, first);
    } else {
      PinnedFacts(t.validators, pinned);
      VotePagesSeenExact(t, proposalId, pinned, first);
      VoteButtonLast(t, proposalId, pinned, first);
      LastPageVotesBounded(t, proposalId, pinned, first);
      forall k: nat | k * first < v && (k + 1) * first < v ensures Continues(itemsAt, k, first) {
        VoteButtonsEarly(t, proposalId, pinned, first, k);
      }
      forall k: nat | k >= CeilDiv(v, first)
        ensures Continues(itemsAt, k, first) <==> Continues(DepositTotals(|pinned|, v, d, first), k, first)
      {
        VoteButtonsLate(t, proposalId, pinned, first, k);
      }
      VotePagesEnd(itemsAt, |pinned|, v, LastPageVotes(t, proposalId, pinned, first), d, first,
                   VotePagesSeen(t, proposalId, pinned, first));
    }
  }

  lemma {:induction false} PagesGrow<T>(page: nat -> seq<T>, size: nat, m: nat, n: nat)
    requires m <= n
    ensures |Pages(page, size, m)| <= |Pages(page, size, n)|
    ensures m < n && page(m * size) != [] ==> |Pages(page, size, m)| < |Pages(page, size, n)|
  {
    if m < n {
      PagesGrow(page, size, m, n - 1);
    }
  }

  lemma AllVotesSeen(t: Tables, proposalId: int, pinned: seq<string>, first: nat, n: nat)
    requires first > 0 && |PinnedValidators(t.validators, pinned)| + |ProposalLists.VotesOn(t, proposalId)| <= n * first
    ensures var vs, all := PinnedValidators(t.validators, pinned), ProposalLists.VotesOn(t, proposalId);
            var own, room := ProposalLists.SharedVotes(t, proposalId, vs, first), ProposalLists.Room(vs, first);
            Pages(ProposalLists.VotePageAt(t, proposalId, pinned, first), first, n)
            == Sources(vs, ProposalLists.Part(own, 0, room) + ProposalLists.Part(all, room, |all|))
  {
    var vs, all := PinnedValidators(t.validators, pinned), ProposalLists.VotesOn(t, proposalId);
    ProposalLists.VotePagesShow(t, proposalId, pinned, first, n);
    ProposalLists.ExcludingMore(t, proposalId, [], SelfAddresses(ProposalLists.LastPinned(vs, first)));
    ProposalLists.SeenAll(vs, ProposalLists.SharedVotes(t, proposalId, vs, first), all, ProposalLists.Room(vs, first),
                          n * first);
  }

  /** Pages of votes show all there is to show exactly when they have places for the pinned validators
      and every vote. */
  lemma VotePagesComplete(t: Tables, proposalId: int, pinned: seq<string>, first: nat, n: nat, count: nat)
    requires first > 0 && n <= count
    requires |PinnedValidators(t.validators, pinned)| + |ProposalLists.VotesOn(t, proposalId)| <= count * first
    ensures Pages(ProposalLists.VotePageAt(t, proposalId, pinned, first), first, n)
            == Pages(ProposalLists.VotePageAt(t, proposalId, pinned, first), first, count)
       <==> |PinnedValidators(t.validators, pinned)| + |ProposalLists.VotesOn(t, proposalId)| <= n * first
  {
    if |PinnedValidators(t.validators, pinned)| + |ProposalLists.VotesOn(t, proposalId)| <= n * first {
      AllVotesSeen(t, proposalId, pinned, first, count);
      AllVotesSeen(t, proposalId, pinned, first, n);
    } else {
      FewerVotesSeen(t, proposalId, pinned, first, n, count);
    }
  }

  lemma FewerVotesSeen(t: Tables, proposalId: int, pinned: seq<string>, first: nat, n: nat, count: nat)
    requires first > 0 && n < count
    requires n * first < |PinnedValidators(t.validators, pinned)| + |ProposalLists.VotesOn(t, proposalId)|
    ensures Pages(ProposalLists.VotePageAt(t, proposalId, pinned, first), first, n)
            != Pages(ProposalLists.VotePageAt(t, proposalId, pinned, first), first, count)
  {
    NextVotes(t, proposalId, pinned, first, n * first);
    PagesGrow(ProposalLists.VotePageAt(t, proposalId, pinned, first), first, n, count);
  }

  /** Clicking Next from the first page of votes shows all that the pages of votes show exactly when the
      buttons do not end on the last page with pinned validators while votes follow, and the reachable
      rows cover the list. */
  lemma NextShowsAllVotes(t: Tables, proposalId: int, pinned: seq<string>, first: nat, count: nat)
    requires UniqueOperators(t.validators) && first > 0 && VotePagesSeen(t, proposalId, pinned, first) <= count
    requires |PinnedValidators(t.validators, pinned)| + |ProposalLists.VotesOn(t, proposalId)| <= count * first
    ensures var v, d := |PinnedValidators(t.validators, pinned)|, |ProposalLists.VotesOn(t, proposalId)|;
            Pages(ProposalLists.VotePageAt(t, proposalId, pinned, first), first,
                  VotePagesSeen(t, proposalId, pinned, first))
            == Pages(ProposalLists.VotePageAt(t, proposalId, pinned, first), first, count)
            <==> NextReaches(|pinned|, v, if v == 0 then 0 else LastPageVotes(t, proposalId, pinned, first), d, first)
  {
    VotePagesCover(t, proposalId, pinned, first);
    VotePagesComplete(t, proposalId, pinned, first, VotePagesSeen(t, proposalId, pinned, first), count);
  }

  // ------------------------------------------------- jumping over the gap

  /** A click on the pager; `isBreak` when on the dots. */
  datatype ClickEvent = ClickEvent(selected: nat, nextSelectedPage: Option<int>, isBreak: bool)

  /** The page a click leads to; None leaves it to the pager. */
  function OnClick(totalPage: nat, event: ClickEvent): Option<int> {
    if !event.isBreak then None
    else if event.nextSelectedPage == Some(event.selected + 1) then Some(ForwardJump(totalPage, event.selected))
    else if event.nextSelectedPage == Some(event.selected - 1) then Some(BackwardJump(event.selected))
    else None
  }

  function ForwardJump(totalPage: nat, selected: nat): int {
    ((totalPage as real - selected as real) / 2.0 + selected as real - 1.0).Floor
  }

  function BackwardJump(selected: nat): int { ((selected as real - 1.0) / 2.0).Floor }

  lemma ForwardIsWhole(totalPage: nat, selected: nat)
    ensures ForwardJump(totalPage, selected) == (totalPage + selected) / 2 - 1
  {
  }

  lemma BackwardIsWhole(selected: nat)
    ensures BackwardJump(selected) == (selected - 1) / 2
  {
  }

  /** A forward jump goes further, and not past the end, exactly with four pages or more to go; a
      backward jump goes back, and not before the start, exactly from any page but the first. */
  lemma JumpsAdvance(totalPage: nat, selected: nat)
    requires selected < totalPage
    ensures selected < ForwardJump(totalPage, selected) < totalPage <==> totalPage - selected >= 4
    ensures 0 <= BackwardJump(selected) < selected <==> selected >= 1
  {
  }

  /** The page a jump leads to starts inside the list, but for jumps from the first page backward or
      forward in a list of one page. */
  lemma JumpShowsItems(items: nat, size: nat, event: ClickEvent)
    requires size > 0 && event.selected < TotalPage(items, size)
    ensures var total := TotalPage(items, size);
            var page := OnClick(total, event);
            page.Some? ==> ((page.value >= 0 && page.value * size < items)
                            <==> event.selected > 0 || (event.nextSelectedPage == Some(1) && total > 1))
  {
    var page := OnClick(TotalPage(items, size), event);
    ForwardIsWhole(TotalPage(items, size), event.selected);
    BackwardIsWhole(event.selected);
    if page.Some? && page.value >= 0 {
      CeilDivExact(page.value, items, size);
    }
  }

  /** Forward jumps until fewer than four pages are left. */
  function Jumps(totalPage: nat, selected: nat): nat
    requires selected < totalPage
    decreases totalPage - selected
  {
    if totalPage - selected < 4 then 0
    else
      JumpsAdvance(totalPage, selected);
      1 + Jumps(totalPage, ForwardJump(totalPage, selected))
  }

  function Pow2(k: nat): nat { if k == 0 then 1 else 2 * Pow2(k - 1) }

  lemma {:induction false} Pow2AtLeastOne(k: nat)
    ensures Pow2(k) >= 1
  {
    if k > 0 {
      Pow2AtLeastOne(k - 1);
    }
  }

  /** k jumps are enough exactly for 2^k + 2 pages: every jump halves the distance, but for two pages. */
  lemma {:induction false} JumpsAreLogarithmic(totalPage: nat, selected: nat, k: nat)
    requires selected < totalPage
    ensures Jumps(totalPage, selected) <= k <==> totalPage - selected <= Pow2(k) + 2
    decreases totalPage - selected
  {
    Pow2AtLeastOne(k);
    if totalPage - selected >= 4 && k > 0 {
      JumpsAdvance(totalPage, selected);
      ForwardIsWhole(totalPage, selected);
      JumpsAreLogarithmic(totalPage, ForwardJump(totalPage, selected), k - 1);
    }
  }
}
