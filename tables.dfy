/**
 * A database table as the handlers see it: rows keyed by an
 * auto-incremented integer primary key, listed in key order by
 * `order_by(id)`, and the insert, column update and delete the handlers
 * perform on it.
 */
module Tables {

  /** A row as `format()` projects it: the primary key and the other columns. */
  datatype Row<T> = Row(id: int, fields: T)

  /**
   * A table: its rows by primary key, and the next value of the sequence
   * that hands out its keys (an auto-incremented integer primary key).
   */
  datatype Table<T> = Table(rows: map<int, T>, nextId: int)
  {
    /** Every key was handed out by the key sequence, which starts at 1. */
    ghost predicate Valid()
    {
      1 <= nextId && forall id :: id in rows ==> 1 <= id < nextId
    }
  }

  ghost predicate AscendingIds<T>(rows: seq<Row<T>>)
  {
    forall i, j :: 0 <= i < j < |rows| ==> rows[i].id < rows[j].id
  }

  /** The rows whose keys lie in [lo, hi), in ascending key order. */
  function Scan<T>(rows: map<int, T>, lo: int, hi: int): (r: seq<Row<T>>)
    ensures forall i :: 0 <= i < |r| ==> lo <= r[i].id < hi && r[i].id in rows && r[i].fields == rows[r[i].id]
    decreases hi - lo
  {
    if lo >= hi then []
    else if lo in rows then [Row(lo, rows[lo])] + Scan(rows, lo + 1, hi)
    else Scan(rows, lo + 1, hi)
  }

  /** The keys of `rows` that lie in [lo, hi). */
  ghost function KeysIn<T>(rows: map<int, T>, lo: int, hi: int): set<int>
  {
    set id | id in rows && lo <= id < hi
  }

  lemma {:induction false} ScanAscending<T>(rows: map<int, T>, lo: int, hi: int)
    ensures AscendingIds(Scan(rows, lo, hi))
    decreases hi - lo
  {
    if lo < hi {
      ScanAscending(rows, lo + 1, hi);
      var tail := Scan(rows, lo + 1, hi);
      if lo in rows {
        var r := Scan(rows, lo, hi);
        assert r == [Row(lo, rows[lo])] + tail;
        forall i, j | 0 <= i < j < |r|
          ensures r[i].id < r[j].id
        {
          assert r[j] == tail[j - 1];
          if i > 0 { assert r[i] == tail[i - 1]; }
        }
      }
    }
  }

  lemma {:induction false} ScanCount<T>(rows: map<int, T>, lo: int, hi: int)
    ensures |Scan(rows, lo, hi)| == |KeysIn(rows, lo, hi)|
    decreases hi - lo
  {
    if lo >= hi {
      assert KeysIn(rows, lo, hi) == {};
    } else {
      ScanCount(rows, lo + 1, hi);
      var rest := KeysIn(rows, lo + 1, hi);
      if lo in rows {
        assert KeysIn(rows, lo, hi) == {lo} + rest;
      } else {
        assert KeysIn(rows, lo, hi) == rest;
      }
    }
  }

  lemma {:induction false} ScanComplete<T>(rows: map<int, T>, lo: int, hi: int, id: int)
    requires id in rows && lo <= id < hi
    ensures exists i :: 0 <= i < |Scan(rows, lo, hi)| && Scan(rows, lo, hi)[i].id == id
    decreases hi - lo
  {
    var r := Scan(rows, lo, hi);
    if id == lo {
      assert r[0].id == id;
    } else {
      ScanComplete(rows, lo + 1, hi, id);
      var tail := Scan(rows, lo + 1, hi);
      var i :| 0 <= i < |tail| && tail[i].id == id;
      if lo in rows {
        assert r[i + 1].id == id;
      } else {
        assert r[i].id == id;
      }
    }
  }

  /** The whole table in the order `order_by(id)` gives it. */
  function SortedRows<T>(t: Table<T>): (r: seq<Row<T>>)
    requires t.Valid()
    ensures |r| == |t.rows|
    ensures forall i :: 0 <= i < |r| ==> r[i].id in t.rows && r[i].fields == t.rows[r[i].id]
  {
    ScanCount(t.rows, 1, t.nextId);
    assert KeysIn(t.rows, 1, t.nextId) == t.rows.Keys;
    Scan(t.rows, 1, t.nextId)
  }

  /** The ordered rows have strictly ascending keys. */
  lemma SortedRowsAscending<T>(t: Table<T>)
    requires t.Valid()
    ensures AscendingIds(SortedRows(t))
  {
    ScanAscending(t.rows, 1, t.nextId);
  }

  /** Every row of the table appears among the ordered rows. */
  lemma SortedRowsComplete<T>(t: Table<T>, id: int)
    requires t.Valid() && id in t.rows
    ensures exists i :: 0 <= i < |SortedRows(t)| && SortedRows(t)[i] == Row(id, t.rows[id])
  {
    ScanComplete(t.rows, 1, t.nextId, id);
    var i :| 0 <= i < |SortedRows(t)| && SortedRows(t)[i].id == id;
    assert SortedRows(t)[i] == Row(id, t.rows[id]);
  }

  /**
   * Inserting a row: it takes the next key of the sequence, which is larger
   * than every key in the table, and every other row stays as it was.
   */
  function Insert<T>(t: Table<T>, x: T): (r: Table<T>)
    requires t.Valid()
    ensures r.Valid()
    ensures t.nextId !in t.rows && r.rows.Keys == t.rows.Keys + {t.nextId}
    ensures r.nextId == t.nextId + 1
    ensures |r.rows| == |t.rows| + 1
    ensures r.rows[t.nextId] == x
    ensures forall id :: id in t.rows ==> id < t.nextId && r.rows[id] == t.rows[id]
  {
    Table(t.rows[t.nextId := x], t.nextId + 1)
  }

  /** Overwriting the columns of one existing row; keys and other rows stay. */
  function Update<T>(t: Table<T>, id: int, x: T): (r: Table<T>)
    requires t.Valid() && id in t.rows
    ensures r.Valid()
    ensures r.rows.Keys == t.rows.Keys && |r.rows| == |t.rows| && r.nextId == t.nextId
    ensures r.rows[id] == x
    ensures forall k :: k in t.rows && k != id ==> r.rows[k] == t.rows[k]
  {
    Table(t.rows[id := x], t.nextId)
  }

  /**
   * Deleting the row with key `id`: exactly that row goes, so the table
   * shrinks by one when it was there; the key is not handed out again.
   */
  function Remove<T>(t: Table<T>, id: int): (r: Table<T>)
    requires t.Valid()
    ensures r.Valid()
    ensures r.rows.Keys == t.rows.Keys - {id} && r.nextId == t.nextId
    ensures |r.rows| == if id in t.rows then |t.rows| - 1 else |t.rows|
    ensures forall k :: k in r.rows ==> r.rows[k] == t.rows[k]
  {
    var r := Table(t.rows - {id}, t.nextId);
    assert r.rows.Keys == t.rows.Keys - {id};
    r
  }

  lemma {:induction false} ScanSnoc<T>(rows: map<int, T>, lo: int, hi: int)
    requires lo <= hi
    ensures Scan(rows, lo, hi + 1)
         == Scan(rows, lo, hi) + (if hi in rows then [Row(hi, rows[hi])] else [])
    decreases hi - lo
  {
    if lo < hi {
      ScanSnoc(rows, lo + 1, hi);
    }
  }

  lemma {:induction false} ScanAgree<T>(a: map<int, T>, b: map<int, T>, lo: int, hi: int)
    requires forall id :: lo <= id < hi ==> (id in a <==> id in b)
    requires forall id :: lo <= id < hi && id in a ==> a[id] == b[id]
    ensures Scan(a, lo, hi) == Scan(b, lo, hi)
    decreases hi - lo
  {
    if lo < hi {
      ScanAgree(a, b, lo + 1, hi);
    }
  }

  /** An inserted row is listed last, after all the rows already there. */
  lemma InsertListedLast<T>(t: Table<T>, x: T)
    requires t.Valid()
    ensures SortedRows(Insert(t, x)) == SortedRows(t) + [Row(t.nextId, x)]
  {
    var r := Insert(t, x);
    ScanSnoc(r.rows, 1, t.nextId);
    ScanAgree(r.rows, t.rows, 1, t.nextId);
  }

  lemma {:induction false} ScanBeyondKeys<T>(rows: map<int, T>, lo: int, hi: int, hi2: int)
    requires lo <= hi <= hi2
    requires forall id :: id in rows ==> id < hi
    ensures Scan(rows, lo, hi2) == Scan(rows, lo, hi)
    decreases hi2 - hi
  {
    if hi < hi2 {
      ScanBeyondKeys(rows, lo, hi, hi2 - 1);
      ScanSnoc(rows, lo, hi2 - 1);
    }
  }

  /** The listing depends on the rows only, not on where the key sequence is. */
  lemma SortedRowsOnlyRows<T>(a: Table<T>, b: Table<T>)
    requires a.Valid() && b.Valid() && a.rows == b.rows
    ensures SortedRows(a) == SortedRows(b)
  {
    if a.nextId <= b.nextId {
      ScanBeyondKeys(a.rows, 1, a.nextId, b.nextId);
    } else {
      ScanBeyondKeys(b.rows, 1, b.nextId, a.nextId);
    }
  }
}
