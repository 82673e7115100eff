/**
 * Rowid allocation of an SQLite table declared with `INTEGER PRIMARY KEY` and no AUTOINCREMENT:
 * a row inserted without an id gets one more than the largest rowid in the table, or 1 when the
 * table is empty. A table is held as the sequence of its rows in ascending rowid order, which is
 * also the order in which a scan of the table visits them.
 */
module Rowids {
  import opened Sequences

  /** The rows are in strictly ascending order of `key`, so no key occurs twice. */
  ghost predicate Ascending<R>(rows: seq<R>, key: R -> int)
  {
    forall i, j :: 0 <= i < j < |rows| ==> key(rows[i]) < key(rows[j])
  }

  /** The rowid SQLite gives the next inserted row: one larger than the largest rowid, 1 for an empty table. */
  function NextRowid<R>(rows: seq<R>, key: R -> int): (r: int)
    requires Ascending(rows, key)
    ensures forall i :: 0 <= i < |rows| ==> key(rows[i]) < r
    ensures rows == [] ==> r == 1
    ensures rows != [] ==> r - 1 == key(rows[|rows| - 1])
  {
    if rows == [] then 1 else key(rows[|rows| - 1]) + 1
  }

  /** Appending the row that received the next rowid keeps the table in rowid order. */
  lemma AppendKeepsAscending<R>(rows: seq<R>, key: R -> int, x: R)
    requires Ascending(rows, key) && key(x) == NextRowid(rows, key)
    ensures Ascending(rows + [x], key)
  {
  }

  /** Every row a DELETE keeps has a key above `low` when every row of the table had. */
  lemma {:induction false} FilterKeepsBound<R(!new)>(rows: seq<R>, key: R -> int, keep: R -> bool, low: int)
    requires forall i :: 0 <= i < |rows| ==> low < key(rows[i])
    ensures forall k :: 0 <= k < |Filter(rows, keep)| ==> low < key(Filter(rows, keep)[k])
  {
    if rows != [] {
      assert rows == [rows[0]] + rows[1..];
      FilterKeepsBound(rows[1..], key, keep, low);
    }
  }

  /** Removing rows (a DELETE) keeps the table in rowid order. */
  lemma {:induction false} FilterKeepsAscending<R(!new)>(rows: seq<R>, key: R -> int, keep: R -> bool)
    requires Ascending(rows, key)
    ensures Ascending(Filter(rows, keep), key)
  {
    if rows != [] {
      var tail := rows[1..];
      FilterKeepsAscending(tail, key, keep);
      if keep(rows[0]) {
        var rest := Filter(tail, keep);
        FilterKeepsBound(tail, key, keep, key(rows[0]));
        var r := [rows[0]] + rest;
        assert r == Filter(rows, keep);
        forall i, j | 0 <= i < j < |r| ensures key(r[i]) < key(r[j]) {
          assert r[j] == rest[j - 1];
          if i > 0 {
            assert r[i] == rest[i - 1];
          }
        }
      }
    }
  }
}
