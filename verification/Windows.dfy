/** Rows, filters and the LIMIT/OFFSET window of a query. */
module Windows {

  function Min(a: int, b: int): int { if a <= b then a else b }

  /** The rows a query with OFFSET `offset` LIMIT `limit` returns. */
  function Window<T>(rows: seq<T>, offset: nat, limit: nat): seq<T> {
    rows[Min(offset, |rows|)..Min(offset + limit, |rows|)]
  }

  /** The rows a WHERE clause keeps, in their order. */
  function Filter<T>(rows: seq<T>, keep: T -> bool): (kept: seq<T>)
    ensures |kept| <= |rows|
  {
    if rows == [] then []
    else (if keep(rows[0]) then [rows[0]] else []) + Filter(rows[1..], keep)
  }

  lemma {:induction false} FilterMember<T>(rows: seq<T>, keep: T -> bool, x: T)
    ensures x in Filter(rows, keep) <==> x in rows && keep(x)
  {
    if rows != [] {
      FilterMember(rows[1..], keep, x);
    }
  }

  lemma {:induction false} FilterAll<T>(rows: seq<T>, keep: T -> bool)
    requires forall x <- rows :: keep(x)
    ensures Filter(rows, keep) == rows
  {
    if rows != [] {
      FilterAll(rows[1..], keep);
    }
  }

  /** `related` holds of every two rows, the earlier one first. */
  ghost predicate Pairwise<T>(rows: seq<T>, related: (T, T) -> bool) {
    forall i, j :: 0 <= i < j < |rows| ==> related(rows[i], rows[j])
  }

  lemma {:induction false} FilterPairwise<T>(rows: seq<T>, keep: T -> bool, related: (T, T) -> bool)
    requires Pairwise(rows, related)
    ensures Pairwise(Filter(rows, keep), related)
  {
    if rows != [] {
      var rest := Filter(rows[1..], keep);
      assert Pairwise(rows[1..], related) by {
        assert forall i :: 0 <= i < |rows[1..]| ==> rows[1..][i] == rows[i + 1];
      }
      FilterPairwise(rows[1..], keep, related);
      forall x | x in rest ensures related(rows[0], x) {
        FilterMember(rows[1..], keep, x);
        var j :| 0 <= j < |rows[1..]| && rows[1..][j] == x;
        assert rows[j + 1] == x;
      }
    }
  }

  lemma WindowPairwise<T>(rows: seq<T>, offset: nat, limit: nat, related: (T, T) -> bool)
    requires Pairwise(rows, related)
    ensures Pairwise(Window(rows, offset, limit), related)
  {
  }

  lemma {:induction false} DistinctWithin<T>(xs: seq<T>, ys: seq<T>)
    requires forall i, j :: 0 <= i < j < |xs| ==> xs[i] != xs[j]
    requires forall x <- xs :: x in ys
    ensures |xs| <= |ys|
  {
    if xs != [] {
      assert xs[0] in ys;
      var k :| 0 <= k < |ys| && ys[k] == xs[0];
      var rest := ys[..k] + ys[k + 1..];
      forall x <- xs[1..] ensures x in rest {
        assert x != xs[0] && x in ys;
      }
      DistinctWithin(xs[1..], rest);
    }
  }

  /** Filtering by two conditions that agree on the rows. */
  lemma {:induction false} FilterSame<T>(rows: seq<T>, p: T -> bool, q: T -> bool)
    requires forall x <- rows :: p(x) == q(x)
    ensures Filter(rows, p) == Filter(rows, q)
  {
    if rows != [] {
      FilterSame(rows[1..], p, q);
    }
  }

  /** Dropping rows drops as many rows as are dropped: equal length only when nothing is. */
  lemma {:induction false} FilterStrict<T>(rows: seq<T>, p: T -> bool, q: T -> bool)
    requires forall x <- rows :: q(x) ==> p(x)
    ensures |Filter(rows, q)| <= |Filter(rows, p)|
    ensures |Filter(rows, q)| == |Filter(rows, p)| <==> forall x <- rows :: p(x) == q(x)
  {
    if rows != [] {
      FilterStrict(rows[1..], p, q);
      assert forall x :: x in rows <==> x == rows[0] || x in rows[1..];
    }
  }

  /** Windows of one size, from the start, side by side. */
  function Pages<T>(page: nat -> seq<T>, size: nat, count: nat): seq<T> {
    if count == 0 then [] else Pages(page, size, count - 1) + page((count - 1) * size)
  }

  function WindowAt<T>(rows: seq<T>, size: nat): nat -> seq<T> { (offset: nat) => Window(rows, offset, size) }

  /** Stepping the offset by the page size gives back the rows, each once and in order. */
  lemma {:induction false} WindowsTile<T>(rows: seq<T>, size: nat, count: nat)
    requires size > 0
    ensures Pages(WindowAt(rows, size), size, count) == rows[..Min(count * size, |rows|)]
  {
    if count > 0 {
      WindowsTile(rows, size, count - 1);
      var done := (count - 1) * size;
      assert count * size == done + size;
      assert rows[..Min(done, |rows|)] + Window(rows, done, size) == rows[..Min(done + size, |rows|)];
    }
  }
}
