/** Shared value types and the query-builder steps the controllers chain:
    `where` (a filter that keeps row order), page-number fallback and
    `paginate(page, perPage)` (a slice). */
module Query {

  datatype Option<+T> = None | Some(value: T)

  /** Users are identified by their integer primary key. */
  type UserId = int

  /** Rows per page used by every listing (`paginate(page, 10)`). */
  const PerPage: nat := 10

  /** `where(...)`: the rows that satisfy `cond`, in their stored order. */
  function Where<T(!new)>(rows: seq<T>, cond: T -> bool): (r: seq<T>)
    ensures |r| <= |rows|
    ensures forall x :: x in r <==> x in rows && cond(x)
    ensures forall k :: 0 <= k < |r| ==> cond(r[k])
    ensures multiset(r) <= multiset(rows)
  {
    if rows == [] then []
    else
      assert rows == [rows[0]] + rows[1..];
      if cond(rows[0]) then [rows[0]] + Where(rows[1..], cond)
      else Where(rows[1..], cond)
  }

  lemma {:induction false} WhereConcat<T(!new)>(a: seq<T>, b: seq<T>, cond: T -> bool)
    ensures Where(a + b, cond) == Where(a, cond) + Where(b, cond)
  {
    if a == [] {
      assert a + b == b;
    } else {
      assert (a + b)[1..] == a[1..] + b;
      WhereConcat(a[1..], b, cond);
    }
  }

  lemma {:induction false} WhereNone<T(!new)>(rows: seq<T>, cond: T -> bool)
    requires forall k :: 0 <= k < |rows| ==> !cond(rows[k])
    ensures Where(rows, cond) == []
  {
    if rows != [] {
      WhereNone(rows[1..], cond);
    }
  }

  lemma {:induction false} WhereAll<T(!new)>(rows: seq<T>, cond: T -> bool)
    requires forall k :: 0 <= k < |rows| ==> cond(rows[k])
    ensures Where(rows, cond) == rows
  {
    if rows != [] {
      WhereAll(rows[1..], cond);
    }
  }

  /** `Number(input)` followed by `isNaN(page) ? 1 : page`: an absent or
      non-numeric page parameter (None) becomes page 1. */
  function PageNumber(input: Option<int>): (r: int)
    ensures input.None? ==> r == 1
    ensures input.Some? ==> r == input.value
  {
    match input
    case None => 1
    case Some(n) => n
  }

  /** Index of the first row of a page; pages are numbered from 1 and a
      page number below 1 is read as page 1. */
  function Offset(page: int): (r: nat)
    ensures r % PerPage == 0
    ensures r == 0 <==> page <= 1
  {
    if page < 1 then 0 else (page - 1) * PerPage
  }

  /** `paginate(page, PerPage)`: the slice of at most PerPage rows starting
      at the page's offset. */
  function Paginate<T>(rows: seq<T>, page: int): (r: seq<T>)
    ensures |r| <= PerPage
    ensures forall k :: 0 <= k < |r| ==> Offset(page) + k < |rows| && r[k] == rows[Offset(page) + k]
    ensures Offset(page) + PerPage <= |rows| ==> |r| == PerPage
    ensures Offset(page) <= |rows| < Offset(page) + PerPage ==> |r| == |rows| - Offset(page)
  {
    var off := Offset(page);
    if off >= |rows| then []
    else if off + PerPage <= |rows| then rows[off..off + PerPage]
    else rows[off..]
  }

  /** Every row appears on exactly the page its position puts it on. */
  lemma RowOnItsPage<T>(rows: seq<T>, j: nat)
    requires j < |rows|
    ensures j % PerPage < |Paginate(rows, j / PerPage + 1)|
    ensures Paginate(rows, j / PerPage + 1)[j % PerPage] == rows[j]
  {
    var page := j / PerPage + 1;
    assert Offset(page) == (j / PerPage) * PerPage;
    assert (j / PerPage) * PerPage + j % PerPage == j;
  }
}
