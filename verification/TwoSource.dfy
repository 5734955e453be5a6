/** A list shown as "pinned entries first, then everybody else", and one page of it. */
module TwoSource {
  import opened Windows

  /** Where a row of the shown list comes from. */
  datatype Source<P, R> = Pin(pin: P) | Other(row: R)

  function Pins<P, R>(pins: seq<P>): seq<Source<P, R>> {
    seq(|pins|, i requires 0 <= i < |pins| => Pin(pins[i]))
  }

  function Others<P, R>(rows: seq<R>): seq<Source<P, R>> {
    seq(|rows|, i requires 0 <= i < |rows| => Other(rows[i]))
  }

  /** The whole list: the pinned entries, then the other rows. */
  function Sources<P, R>(pins: seq<P>, rows: seq<R>): seq<Source<P, R>> {
    Pins(pins) + Others(rows)
  }

  /** A pinned entry gives the rows `rowsOf` finds for it. */
  function RowsFrom<P, R>(source: Source<P, R>, rowsOf: P -> seq<R>): seq<R> {
    match source case Pin(p) => rowsOf(p) case Other(r) => [r]
  }

  /** The rows of a stretch of the list. */
  function Expand<P, R>(sources: seq<Source<P, R>>, rowsOf: P -> seq<R>): seq<R> {
    if sources == [] then [] else RowsFrom(sources[0], rowsOf) + Expand(sources[1..], rowsOf)
  }

  /** Where the query for the other rows starts: what is left of the offset once the pinned entries are passed. */
  function RestOffset(pinned: nat, after: nat): nat { if after <= pinned then 0 else after - pinned }

  /** The two queries of a page, each with its own limit and offset, together fetch one window of the list. */
  lemma PageIsWindow<P, R>(pins: seq<P>, rows: seq<R>, first: nat, after: nat)
    ensures var taken := Window(pins, after, first);
            && |taken| <= first
            && Window(Sources(pins, rows), after, first)
               == Sources(taken, Window(rows, RestOffset(|pins|, after), first - |taken|))
  {
    var taken := Window(pins, after, first);
    var rest := Window(rows, RestOffset(|pins|, after), first - |taken|);
    var page, parts := Window(Sources(pins, rows), after, first), Sources(taken, rest);
    assert |page| == |parts|;
    forall i | 0 <= i < |page| ensures page[i] == parts[i] {
      assert page[i] == Sources(pins, rows)[after + i];
    }
  }

  lemma RowsConcat<R>(a: seq<R>, b: seq<R>, c: seq<R>)
    ensures a + (b + c) == a + b + c
  {
  }

  lemma {:induction false} ExpandConcat<P, R>(a: seq<Source<P, R>>, b: seq<Source<P, R>>, rowsOf: P -> seq<R>)
    ensures Expand(a + b, rowsOf) == Expand(a, rowsOf) + Expand(b, rowsOf)
  {
    if a == [] {
      assert a + b == b;
    } else {
      ExpandConcat(a[1..], b, rowsOf);
      assert (a + b)[1..] == a[1..] + b && (a + b)[0] == a[0];
      RowsConcat(RowsFrom(a[0], rowsOf), Expand(a[1..], rowsOf), Expand(b, rowsOf));
    }
  }

  lemma {:induction false} ExpandOthers<P, R>(rows: seq<R>, rowsOf: P -> seq<R>)
    ensures Expand(Others<P, R>(rows), rowsOf) == rows
  {
    if rows != [] {
      ExpandOthers(rows[1..], rowsOf);
      assert Others<P, R>(rows)[1..] == Others<P, R>(rows[1..]);
    }
  }

  lemma ExpandLastPin<P, R>(pins: seq<P>, p: P, rowsOf: P -> seq<R>)
    ensures Expand(Pins<P, R>(pins + [p]), rowsOf) == Expand(Pins<P, R>(pins), rowsOf) + rowsOf(p)
  {
    ExpandConcat(Pins<P, R>(pins), [Pin(p)], rowsOf);
    assert Pins<P, R>(pins + [p]) == Pins<P, R>(pins) + [Pin(p)];
    assert Expand([Source<P, R>.Pin(p)], rowsOf) == rowsOf(p) + Expand([], rowsOf);
  }

  lemma ExpandSources<P, R>(pins: seq<P>, rows: seq<R>, rowsOf: P -> seq<R>)
    ensures Expand(Sources(pins, rows), rowsOf) == Expand(Pins<P, R>(pins), rowsOf) + rows
  {
    ExpandConcat(Pins<P, R>(pins), Others<P, R>(rows), rowsOf);
    ExpandOthers<P, R>(rows, rowsOf);
  }

  // ------------------------------------------------- page information

  datatype PageFacts = PageFacts(totalCount: int, hasNext: bool, hasPrevious: bool)

  /** What the resolvers report for `pinned` matching entries out of `asked` pinned addresses and `rows` other rows. */
  function Facts(asked: nat, pinned: nat, rows: nat, first: nat, after: nat): PageFacts {
    if asked != 0 && after <= asked && first != 0 then PageFacts(rows + pinned, after + first < pinned, after > 0)
    else
      var offset := if asked != 0 then RestOffset(pinned, after) else after;
      PageFacts(rows, offset + first < rows, offset > 0)
  }

  /** `hasPreviousPage` is right on every page that shows anything; on a page of size 0 it is wrong
      exactly when the offset lies within the pinned entries. */
  lemma HasPreviousExact(asked: nat, pinned: nat, rows: nat, first: nat, after: nat)
    requires pinned <= asked
    ensures Facts(asked, pinned, rows, first, after).hasPrevious == (after > 0)
       <==> first > 0 || after == 0 || after > pinned
  {
  }

  /** `hasNextPage` never promises a place that is not there.  It misses places exactly on the pages that
      still query the pinned entries and reach their end while the list goes on (and, for pages of
      size 0, when only pinned entries are left).  A place need not have a row. */
  lemma HasNextExact(asked: nat, pinned: nat, rows: nat, first: nat, after: nat)
    requires pinned <= asked
    ensures var more := after + first < pinned + rows;
            var hasNext := Facts(asked, pinned, rows, first, after).hasNext;
            && (hasNext ==> more)
            && (hasNext == more
                <==> if first == 0 then rows > 0 || after >= pinned
                     else asked == 0 || after > asked || !(pinned <= after + first < pinned + rows))
  {
  }

  /** `totalCount` counts the places of the whole list exactly when no pinned address exists, or the page still
      queries the pinned entries. */
  lemma TotalCountExact(asked: nat, pinned: nat, rows: nat, first: nat, after: nat)
    requires pinned <= asked
    ensures Facts(asked, pinned, rows, first, after).totalCount == pinned + rows
       <==> pinned == 0 || (after <= asked && first > 0)
  {
  }

  // ------------------------------------------------- cursors

  /** The last position of `id`, -1 when it does not occur. */
  function LastIndex(ids: seq<string>, id: string): (k: int)
    ensures -1 <= k < |ids| && (k >= 0 ==> ids[k] == id)
  {
    if ids == [] then -1
    else if ids[|ids| - 1] == id then |ids| - 1
    else LastIndex(ids[..|ids| - 1], id)
  }

  lemma {:induction false} LastIndexIsLast(ids: seq<string>, id: string, i: nat)
    requires i < |ids| && ids[i] == id
    ensures i <= LastIndex(ids, id)
  {
    if i < |ids| - 1 {
      LastIndexIsLast(ids[..|ids| - 1], id, i);
    }
  }

  ghost predicate Distinct(ids: seq<string>) {
    forall i, j :: 0 <= i < j < |ids| ==> ids[i] != ids[j]
  }

  /** The last position of each id is its own. */
  ghost predicate OwnPositions(ids: seq<string>) { forall i :: 0 <= i < |ids| ==> LastIndex(ids, ids[i]) == i }

  /** Every row has its own position as its cursor exactly when no two rows share an id. */
  lemma {:induction false} CursorsExact(ids: seq<string>)
    ensures OwnPositions(ids) <==> Distinct(ids)
  {
    if Distinct(ids) {
      forall i | 0 <= i < |ids| ensures LastIndex(ids, ids[i]) == i {
        LastIndexIsLast(ids, ids[i], i);
      }
    }
    if OwnPositions(ids) {
      forall i, j | 0 <= i < j < |ids| ensures ids[i] != ids[j] {
        assert LastIndex(ids, ids[i]) == i && LastIndex(ids, ids[j]) == j;
      }
    }
  }
}
