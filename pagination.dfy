/**
 * Offset/limit pagination (pagination.py, and the copy of `paginate_items`
 * in app.py). A page is the slice of a table, ordered by ascending primary
 * key, that skips `(page - 1) * size` rows and keeps at most `size` rows.
 */
module Pagination {
  import opened Wrappers
  import opened Models
  import opened Tables

  const ItemsPerPage: nat := 10
  const TempCommentsPerPage: nat := 5
  const CommentsPerPage: nat := 5

  /**
   * The `page` query argument. Reading it with a default of 1 and `type=int`
   * yields 1 both when it is absent and when it is not an integer.
   */
  datatype PageArg = Absent | Given(n: int) | NotAnInteger

  function PageNumber(arg: PageArg): (p: int)
    ensures arg.Given? ==> p == arg.n
    ensures !arg.Given? ==> p == 1
  {
    match arg
    case Given(n) => n
    case _ => 1
  }

  /**
   * The number of rows that come before page `page`, `(page - 1) * size`
   * (OffsetIsProduct), counted one page at a time.
   */
  function Offset(page: int, size: nat): nat
    requires page >= 1
    decreases page
  {
    if page == 1 then 0 else Offset(page - 1, size) + size
  }

  lemma {:induction false} OffsetIsProduct(page: int, size: nat)
    requires page >= 1
    ensures Offset(page, size) == (page - 1) * size
    decreases page
  {
    if page > 1 {
      OffsetIsProduct(page - 1, size);
      assert (page - 1) * size == (page - 2) * size + size;
    }
  }

  lemma {:induction false} OffsetsApart(p: int, q: int, size: nat)
    requires 1 <= p < q
    ensures Offset(p, size) + size <= Offset(q, size)
    decreases q
  {
    if p < q - 1 {
      OffsetsApart(p, q - 1, size);
    }
  }

  /** `x`, or `n` when `x` is past it. */
  function Clip(x: nat, n: nat): nat
  {
    if x <= n then x else n
  }

  /**
   * `query.order_by(id).limit(size).offset((page - 1) * size)`: the rows of
   * ascending key order from the offset on, at most `size` of them.
   */
  function Paginate<T>(t: Table<T>, page: int, size: nat): (r: seq<Row<T>>)
    requires t.Valid() && page >= 1
    ensures |r| <= size
    ensures r == [] <==> size == 0 || Offset(page, size) >= |t.rows|
    ensures forall i :: 0 <= i < |r| ==> r[i].id in t.rows && r[i].fields == t.rows[r[i].id]
  {
    var rows := SortedRows(t);
    var lo := Offset(page, size);
    if lo >= |rows| then []
    else rows[lo .. if lo + size <= |rows| then lo + size else |rows|]
  }

  lemma AscendingSlice<T>(rows: seq<Row<T>>, lo: nat, hi: nat)
    requires lo <= hi <= |rows|
    requires AscendingIds(rows)
    ensures AscendingIds(rows[lo..hi])
  {
    forall i, j | 0 <= i < j < hi - lo
      ensures rows[lo..hi][i].id < rows[lo..hi][j].id
    {
      assert rows[lo..hi][i] == rows[lo + i] && rows[lo..hi][j] == rows[lo + j];
    }
  }

  lemma SliceIsWindow<X>(s: seq<X>, lo: nat, size: nat)
    ensures (if lo >= |s| then [] else s[lo .. if lo + size <= |s| then lo + size else |s|])
         == s[Clip(lo, |s|)..Clip(lo + size, |s|)]
  {
  }

  /**
   * Page `page` is exactly the ordered rows from position `(page - 1) * size`
   * up to, not including, `page * size`, clipped to the table.
   */
  lemma PageIsSlice<T>(t: Table<T>, page: int, size: nat)
    requires t.Valid() && page >= 1
    ensures Paginate(t, page, size)
         == SortedRows(t)[Clip((page - 1) * size, |t.rows|)..Clip((page - 1) * size + size, |t.rows|)]
  {
    OffsetIsProduct(page, size);
    SliceIsWindow(SortedRows(t), Offset(page, size), size);
  }

  /** A page lists its rows in strictly ascending key order. */
  lemma PageAscending<T>(t: Table<T>, page: int, size: nat)
    requires t.Valid() && page >= 1
    ensures AscendingIds(Paginate(t, page, size))
  {
    SortedRowsAscending(t);
    SliceIsWindow(SortedRows(t), Offset(page, size), size);
    var lo := Offset(page, size);
    AscendingSlice(SortedRows(t), Clip(lo, |t.rows|), Clip(lo + size, |t.rows|));
  }

  /**
   * The database runs `OFFSET (page - 1) * size` only when that count is a
   * non-negative `bigint`; otherwise the query raises.
   */
  predicate OffsetAccepted(page: int, size: nat)
  {
    0 <= (page - 1) * size <= BigintMax
  }

  /** `paginate_items`: pages of 10 items; `None` when the query raises. */
  function PaginateItems(items: Table<Item>, arg: PageArg): (r: Option<seq<Row<Item>>>)
    requires items.Valid()
    ensures r.None? <==> !OffsetAccepted(PageNumber(arg), ItemsPerPage)
    ensures r.Some? ==> |r.value| <= ItemsPerPage
    ensures r.Some? ==> (r.value == [] <==> (PageNumber(arg) - 1) * ItemsPerPage >= |items.rows|)
    ensures r.Some? ==> forall i :: 0 <= i < |r.value| ==>
      r.value[i].id in items.rows && r.value[i].fields == items.rows[r.value[i].id]
  {
    var page := PageNumber(arg);
    if !OffsetAccepted(page, ItemsPerPage) then None
    else
      OffsetIsProduct(page, ItemsPerPage);
      Some(Paginate(items, page, ItemsPerPage))
  }

  /** `paginate_temp_comments`: pages of 5 unmoderated comments; `None` when the query raises. */
  function PaginateTempComments(comments: Table<Comment>, arg: PageArg): (r: Option<seq<Row<Comment>>>)
    requires comments.Valid()
    ensures r.None? <==> !OffsetAccepted(PageNumber(arg), TempCommentsPerPage)
    ensures r.Some? ==> |r.value| <= TempCommentsPerPage
    ensures r.Some? ==> (r.value == [] <==> (PageNumber(arg) - 1) * TempCommentsPerPage >= |comments.rows|)
    ensures r.Some? ==> forall i :: 0 <= i < |r.value| ==>
      r.value[i].id in comments.rows && r.value[i].fields == comments.rows[r.value[i].id]
  {
    var page := PageNumber(arg);
    if !OffsetAccepted(page, TempCommentsPerPage) then None
    else
      OffsetIsProduct(page, TempCommentsPerPage);
      Some(Paginate(comments, page, TempCommentsPerPage))
  }

  /** `paginate_comments`: pages of 5 approved comments; `None` when the query raises. */
  function PaginateComments(comments: Table<Comment>, arg: PageArg): (r: Option<seq<Row<Comment>>>)
    requires comments.Valid()
    ensures r.None? <==> !OffsetAccepted(PageNumber(arg), CommentsPerPage)
    ensures r.Some? ==> |r.value| <= CommentsPerPage
    ensures r.Some? ==> (r.value == [] <==> (PageNumber(arg) - 1) * CommentsPerPage >= |comments.rows|)
    ensures r.Some? ==> forall i :: 0 <= i < |r.value| ==>
      r.value[i].id in comments.rows && r.value[i].fields == comments.rows[r.value[i].id]
  {
    var page := PageNumber(arg);
    if !OffsetAccepted(page, CommentsPerPage) then None
    else
      OffsetIsProduct(page, CommentsPerPage);
      Some(Paginate(comments, page, CommentsPerPage))
  }

  lemma SliceAt<X>(s: seq<X>, lo: nat, size: nat, i: int)
    requires 0 <= i < |s[Clip(lo, |s|)..Clip(lo + size, |s|)]|
    ensures lo + i < |s| && s[Clip(lo, |s|)..Clip(lo + size, |s|)][i] == s[lo + i]
  {
  }

  /** Row `i` of page `p` is row `Offset(p, size) + i` of the ordered table. */
  lemma PageRowAt<T>(t: Table<T>, p: int, size: nat, i: int)
    requires t.Valid() && p >= 1 && 0 <= i < |Paginate(t, p, size)|
    ensures Offset(p, size) + i < |t.rows|
    ensures Paginate(t, p, size)[i] == SortedRows(t)[Offset(p, size) + i]
  {
    SliceIsWindow(SortedRows(t), Offset(p, size), size);
    SliceAt(SortedRows(t), Offset(p, size), size, i);
  }

  lemma PageRowsBefore<T>(t: Table<T>, p: int, q: int, size: nat, i: int, j: int)
    requires t.Valid() && 1 <= p < q
    requires 0 <= i < |Paginate(t, p, size)| && 0 <= j < |Paginate(t, q, size)|
    ensures Paginate(t, p, size)[i].id < Paginate(t, q, size)[j].id
  {
    OffsetsApart(p, q, size);
    SortedRowsAscending(t);
    PageRowAt(t, p, size, i);
    PageRowAt(t, q, size, j);
    var rows := SortedRows(t);
    assert rows[Offset(p, size) + i].id < rows[Offset(q, size) + j].id;
  }

  /** Two different pages of the same table share no row. */
  lemma PagesDisjoint<T>(t: Table<T>, p: int, q: int, size: nat)
    requires t.Valid() && p >= 1 && q >= 1 && p != q
    ensures forall i, j :: 0 <= i < |Paginate(t, p, size)| && 0 <= j < |Paginate(t, q, size)| ==>
              Paginate(t, p, size)[i].id != Paginate(t, q, size)[j].id
  {
    forall i, j | 0 <= i < |Paginate(t, p, size)| && 0 <= j < |Paginate(t, q, size)|
      ensures Paginate(t, p, size)[i].id != Paginate(t, q, size)[j].id
    {
      if p < q { PageRowsBefore(t, p, q, size, i, j); } else { PageRowsBefore(t, q, p, size, j, i); }
    }
  }

  /** Pages 1 to k of a table, concatenated in order. */
  function PagesUpTo<T>(t: Table<T>, k: nat, size: nat): seq<Row<T>>
    requires t.Valid()
  {
    if k == 0 then [] else PagesUpTo(t, k - 1, size) + Paginate(t, k, size)
  }

  lemma SliceExtends<X>(s: seq<X>, lo: nat, size: nat)
    ensures s[..Clip(lo, |s|)] + s[Clip(lo, |s|)..Clip(lo + size, |s|)] == s[..Clip(lo + size, |s|)]
  {
  }

  /** The rows before page k followed by page k are the rows before page k + 1. */
  lemma PageExtends<T>(t: Table<T>, k: int, size: nat)
    requires t.Valid() && k >= 1
    ensures SortedRows(t)[..Clip(Offset(k, size), |t.rows|)] + Paginate(t, k, size)
         == SortedRows(t)[..Clip(Offset(k + 1, size), |t.rows|)]
  {
    SliceIsWindow(SortedRows(t), Offset(k, size), size);
    SliceExtends(SortedRows(t), Offset(k, size), size);
  }

  lemma {:induction false} PagesCoverOffset<T>(t: Table<T>, k: nat, size: nat)
    requires t.Valid()
    ensures PagesUpTo(t, k, size) == SortedRows(t)[..Clip(Offset(k + 1, size), |t.rows|)]
  {
    if k > 0 {
      PagesCoverOffset(t, k - 1, size);
      PageExtends(t, k, size);
    }
  }

  /** Pages 1 to k together are the first min(k * size, n) rows in key order. */
  lemma PagesCover<T>(t: Table<T>, k: nat, size: nat)
    requires t.Valid()
    ensures k * size <= |t.rows| ==> PagesUpTo(t, k, size) == SortedRows(t)[..k * size]
    ensures k * size > |t.rows| ==> PagesUpTo(t, k, size) == SortedRows(t)
  {
    PagesCoverOffset(t, k, size);
    OffsetIsProduct(k + 1, size);
  }
}
