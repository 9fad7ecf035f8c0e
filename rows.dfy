/**
 * A SQLite table as the sequence of its rows in rowid order, and the three
 * row-level queries the handlers issue against it:
 *   First  -- `db.get(SELECT * ... WHERE col = ?)`, the first matching row
 *   Select -- `SELECT * ... WHERE col = ?`, every matching row in order
 *   Delete -- `DELETE FROM ... WHERE col = ?`
 * The column is given as a key function on rows.
 */
module Rows {
  import opened Wrappers

  /** Index of the first row whose key is `k`, if any. */
  function First<T, K(==)>(rows: seq<T>, key: T -> K, k: K): (r: Option<nat>)
    ensures r.Some? ==> r.value < |rows| && key(rows[r.value]) == k
    ensures r.Some? ==> forall j :: 0 <= j < r.value ==> key(rows[j]) != k
    ensures r.None? <==> forall j :: 0 <= j < |rows| ==> key(rows[j]) != k
    decreases |rows|
  {
    if |rows| == 0 then None
    else if key(rows[0]) == k then Some(0)
    else match First(rows[1..], key, k)
      case None => None
      case Some(i) => Some(i + 1)
  }

  /** Every row whose key is `k`, in table order. */
  function Select<T(==), K(==)>(rows: seq<T>, key: T -> K, k: K): (r: seq<T>)
    ensures forall i :: 0 <= i < |r| ==> r[i] in rows && key(r[i]) == k
    ensures forall j :: 0 <= j < |rows| && key(rows[j]) == k ==> rows[j] in r
    decreases |rows|
  {
    if |rows| == 0 then []
    else Select(rows[..|rows| - 1], key, k)
         + (if key(rows[|rows| - 1]) == k then [rows[|rows| - 1]] else [])
  }

  /** The table after deleting every row whose key is `k`. */
  function Delete<T(==), K(==)>(rows: seq<T>, key: T -> K, k: K): (r: seq<T>)
    ensures forall i :: 0 <= i < |r| ==> r[i] in rows && key(r[i]) != k
    ensures forall j :: 0 <= j < |rows| && key(rows[j]) != k ==> rows[j] in r
    ensures |r| <= |rows|
    decreases |rows|
  {
    if |rows| == 0 then []
    else Delete(rows[..|rows| - 1], key, k)
         + (if key(rows[|rows| - 1]) != k then [rows[|rows| - 1]] else [])
  }

  /** No two rows share a key: the column holds at most one row per key value. */
  ghost predicate AtMostOnePerKey<T, K(!new)>(rows: seq<T>, key: T -> K) {
    forall k :: |Select(rows, key, k)| <= 1
  }

  /** Appending a row (an INSERT) adds it to the selection of its own key only. */
  lemma SelectAppend<T, K>(rows: seq<T>, key: T -> K, x: T, k: K)
    ensures Select(rows + [x], key, k)
            == Select(rows, key, k) + (if key(x) == k then [x] else [])
  {
    assert (rows + [x])[..|rows|] == rows;
  }

  /** After a DELETE on `k`, no row with key `k` is left ... */
  lemma {:induction false} SelectDeleteSame<T, K>(rows: seq<T>, key: T -> K, k: K)
    ensures Select(Delete(rows, key, k), key, k) == []
    decreases |rows|
  {
    if |rows| > 0 {
      var init := rows[..|rows| - 1];
      var last := rows[|rows| - 1];
      SelectDeleteSame(init, key, k);
      if key(last) != k {
        assert Delete(rows, key, k) == Delete(init, key, k) + [last];
        SelectAppend(Delete(init, key, k), key, last, k);
      } else {
        assert Delete(rows, key, k) == Delete(init, key, k);
      }
    }
  }

  /** ... and the rows of every other key are exactly as they were. */
  lemma {:induction false} SelectDeleteOther<T, K>(rows: seq<T>, key: T -> K, k: K, k': K)
    requires k' != k
    ensures Select(Delete(rows, key, k), key, k') == Select(rows, key, k')
    decreases |rows|
  {
    if |rows| > 0 {
      var init := rows[..|rows| - 1];
      var last := rows[|rows| - 1];
      SelectDeleteOther(init, key, k, k');
      assert Select(rows, key, k') == Select(init, key, k') + (if key(last) == k' then [last] else []);
      if key(last) != k {
        assert Delete(rows, key, k) == Delete(init, key, k) + [last];
        SelectAppend(Delete(init, key, k), key, last, k');
      } else {
        assert Delete(rows, key, k) == Delete(init, key, k);
      }
    }
  }

  /** `First` finds a row exactly when `Select` is non-empty, and it is the first one selected. */
  lemma {:induction false} FirstIsSelectHead<T, K>(rows: seq<T>, key: T -> K, k: K)
    ensures First(rows, key, k).None? <==> Select(rows, key, k) == []
    ensures First(rows, key, k).Some? ==> rows[First(rows, key, k).value] == Select(rows, key, k)[0]
    decreases |rows|
  {
    if |rows| > 0 {
      var init := rows[..|rows| - 1];
      var last := rows[|rows| - 1];
      FirstIsSelectHead(init, key, k);
      var f := First(rows, key, k);
      var fi := First(init, key, k);
      assert forall j :: 0 <= j < |init| ==> init[j] == rows[j];
      if fi.Some? {
        assert f == fi;
      } else if key(last) == k {
        assert f == Some(|rows| - 1);
      } else {
        assert f.None?;
      }
    }
  }

  /** A DELETE keeps the at-most-one-row-per-key property. */
  lemma DeleteKeepsAtMostOne<T, K(!new)>(rows: seq<T>, key: T -> K, k: K)
    requires AtMostOnePerKey(rows, key)
    ensures AtMostOnePerKey(Delete(rows, key, k), key)
  {
    forall k' ensures |Select(Delete(rows, key, k), key, k')| <= 1 {
      if k' == k {
        SelectDeleteSame(rows, key, k);
      } else {
        SelectDeleteOther(rows, key, k, k');
      }
    }
  }

  /** An INSERT of a row whose key no row has keeps the at-most-one-row-per-key property. */
  lemma AppendKeepsAtMostOne<T, K(!new)>(rows: seq<T>, key: T -> K, x: T)
    requires AtMostOnePerKey(rows, key)
    requires Select(rows, key, key(x)) == []
    ensures AtMostOnePerKey(rows + [x], key)
  {
    forall k' ensures |Select(rows + [x], key, k')| <= 1 {
      SelectAppend(rows, key, x, k');
    }
  }

  /** `First` looks at the key column only: rows with the same keys give the same answer. */
  lemma {:induction false} FirstSameKeys<T, U, K>(a: seq<T>, ka: T -> K, b: seq<U>, kb: U -> K, k: K)
    requires |a| == |b| && forall j :: 0 <= j < |a| ==> ka(a[j]) == kb(b[j])
    ensures First(a, ka, k) == First(b, kb, k)
    decreases |a|
  {
    if |a| > 0 {
      FirstSameKeys(a[1..], ka, b[1..], kb, k);
    }
  }

  /**
   * DELETE every row with key `k`, then INSERT `x` keyed `k`: the rows keyed
   * `k` are exactly `[x]`, and the rows of every other key are untouched.
   */
  lemma ReplaceByKey<T, K>(rows: seq<T>, key: T -> K, x: T)
    ensures Select(Delete(rows, key, key(x)) + [x], key, key(x)) == [x]
    ensures forall k' :: k' != key(x) ==>
              Select(Delete(rows, key, key(x)) + [x], key, k') == Select(rows, key, k')
  {
    var kept := Delete(rows, key, key(x));
    SelectDeleteSame(rows, key, key(x));
    SelectAppend(kept, key, x, key(x));
    forall k' | k' != key(x)
      ensures Select(kept + [x], key, k') == Select(rows, key, k')
    {
      SelectAppend(kept, key, x, k');
      SelectDeleteOther(rows, key, key(x), k');
    }
  }
}
