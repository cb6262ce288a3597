/** The order GetAll promises (`ORDER BY <text column> ASC`) and what it
    means for a sequence of rows to be a listing of a table in that order. */
module Ordering {

  /** Lexicographic order on strings, character code by character code. */
  predicate LexLe(a: string, b: string)
  {
    if a == [] then true
    else if b == [] then false
    else if a[0] != b[0] then a[0] < b[0]
    else LexLe(a[1..], b[1..])
  }

  lemma {:induction false} LexLeTotal(a: string, b: string)
    ensures LexLe(a, b) || LexLe(b, a)
  {
    if a != [] && b != [] && a[0] == b[0] {
      LexLeTotal(a[1..], b[1..]);
    }
  }

  lemma {:induction false} LexLeTransitive(a: string, b: string, c: string)
    requires LexLe(a, b) && LexLe(b, c)
    ensures LexLe(a, c)
  {
    if a != [] && b != [] && c != [] && a[0] == b[0] && b[0] == c[0] {
      LexLeTransitive(a[1..], b[1..], c[1..]);
    }
  }

  lemma {:induction false} LexLeReflexive(a: string)
    ensures LexLe(a, a)
  {
    if a != [] {
      LexLeReflexive(a[1..]);
    }
  }

  /** Rows in ascending order of their sort key; rows with equal keys may
      come in either order, as SQL leaves ties unordered. */
  ghost predicate SortedBy<R>(rows: seq<R>, key: R -> string)
  {
    forall i, j :: 0 <= i < j < |rows| ==> LexLe(key(rows[i]), key(rows[j]))
  }

  /** Every row of the table is stored under its own id. */
  ghost predicate KeyedBy<R>(table: map<int, R>, idOf: R -> int)
  {
    forall k :: k in table ==> idOf(table[k]) == k
  }

  /** `rows` holds every row of `table` exactly once and nothing else. */
  ghost predicate Enumerates<R>(table: map<int, R>, rows: seq<R>, idOf: R -> int)
  {
    && (forall i :: 0 <= i < |rows| ==> idOf(rows[i]) in table && table[idOf(rows[i])] == rows[i])
    && (forall i, j :: 0 <= i < j < |rows| ==> idOf(rows[i]) != idOf(rows[j]))
    && (forall k :: k in table ==> exists i :: 0 <= i < |rows| && idOf(rows[i]) == k)
  }

  /** What `SELECT ... ORDER BY key ASC` over the whole table may return. */
  ghost predicate IsListing<R>(table: map<int, R>, rows: seq<R>, idOf: R -> int, key: R -> string)
  {
    Enumerates(table, rows, idOf) && SortedBy(rows, key)
  }

  /** The first position at which `x` can be placed in sorted `rows`
      without breaking the order. */
  function InsertionPoint<R>(rows: seq<R>, x: string, key: R -> string): (p: nat)
    ensures p <= |rows|
    ensures forall i :: 0 <= i < p ==> LexLe(key(rows[i]), x)
    ensures p < |rows| ==> !LexLe(key(rows[p]), x)
  {
    if rows == [] || !LexLe(key(rows[0]), x) then 0
    else 1 + InsertionPoint(rows[1..], x, key)
  }

  /** Placing a row at its insertion point keeps a sorted sequence sorted. */
  lemma InsertSorted<R>(rows: seq<R>, x: R, key: R -> string)
    requires SortedBy(rows, key)
    ensures var p := InsertionPoint(rows, key(x), key);
            SortedBy(rows[..p] + [x] + rows[p..], key)
  {
    var p := InsertionPoint(rows, key(x), key);
    var out := rows[..p] + [x] + rows[p..];
    assert forall i :: 0 <= i < p ==> out[i] == rows[i];
    assert out[p] == x;
    assert forall i :: p < i < |out| ==> out[i] == rows[i - 1];
    forall i, j | 0 <= i < j < |out|
      ensures LexLe(key(out[i]), key(out[j]))
    {
      if j != p && p <= i {
        if i == p {
          LexLeTotal(key(rows[p]), key(x));
          if j - 1 > p {
            LexLeTransitive(key(x), key(rows[p]), key(rows[j - 1]));
          }
        }
      } else if i < p && p < j {
        LexLeTotal(key(rows[p]), key(x));
        if j - 1 > p {
          LexLeTransitive(key(x), key(rows[p]), key(rows[j - 1]));
        }
        LexLeTransitive(key(rows[i]), key(x), key(out[j]));
      }
    }
  }

  /** Placing the row stored under `k` anywhere in an enumeration of the
      rest of the table enumerates the whole table. */
  lemma InsertEnumerates<R>(table: map<int, R>, k: int, rows: seq<R>, p: nat, idOf: R -> int)
    requires k in table && KeyedBy(table, idOf) && p <= |rows|
    requires Enumerates(table - {k}, rows, idOf)
    ensures Enumerates(table, rows[..p] + [table[k]] + rows[p..], idOf)
  {
    var x := table[k];
    var out := rows[..p] + [x] + rows[p..];
    assert forall i :: 0 <= i < |out| ==> out[i] == if i < p then rows[i] else if i == p then x else rows[i - 1];
    forall i | 0 <= i < |out|
      ensures idOf(out[i]) in table && table[idOf(out[i])] == out[i]
    {
      if i < p {
        assert idOf(rows[i]) in table - {k};
      } else if i > p {
        assert idOf(rows[i - 1]) in table - {k};
      }
    }
    forall i, j | 0 <= i < j < |out|
      ensures idOf(out[i]) != idOf(out[j])
    {
      if i == p {
        assert idOf(rows[j - 1]) in table - {k};
      } else if j == p {
        assert idOf(rows[i]) in table - {k};
      } else {
        var i' := if i < p then i else i - 1;
        var j' := if j < p then j else j - 1;
        assert i' < j' && out[i] == rows[i'] && out[j] == rows[j'];
      }
    }
    forall m | m in table
      ensures exists i :: 0 <= i < |out| && idOf(out[i]) == m
    {
      if m == k {
        assert idOf(out[p]) == m;
      } else {
        assert m in table - {k};
        var i :| 0 <= i < |rows| && idOf(rows[i]) == m;
        var i' := if i < p then i else i + 1;
        assert out[i'] == rows[i];
      }
    }
  }

  /** For every table there is a response the ORDER BY query can give:
      a sorted listing always exists. */
  lemma ListingExists<R>(table: map<int, R>, idOf: R -> int, key: R -> string)
    requires KeyedBy(table, idOf)
    ensures exists rows :: IsListing(table, rows, idOf, key)
    decreases |table|
  {
    if k :| k in table {
      var rest := table - {k};
      assert |rest| < |table| by {
        assert rest.Keys == table.Keys - {k};
      }
      ListingExists(rest, idOf, key);
      var rows :| IsListing(rest, rows, idOf, key);
      var p := InsertionPoint(rows, key(table[k]), key);
      InsertSorted(rows, table[k], key);
      InsertEnumerates(table, k, rows, p, idOf);
      assert IsListing(table, rows[..p] + [table[k]] + rows[p..], idOf, key);
    } else {
      var none: seq<R> := [];
      assert IsListing(table, none, idOf, key);
    }
  }

  /** In a listing, a row whose key is strictly smaller than another's
      comes before it, whatever order the rows were stored in. */
  lemma SmallerKeyFirst<R>(table: map<int, R>, rows: seq<R>, idOf: R -> int, key: R -> string, i: nat, j: nat)
    requires IsListing(table, rows, idOf, key)
    requires i < |rows| && j < |rows|
    requires !LexLe(key(rows[j]), key(rows[i]))
    ensures i < j
  {
    if j == i {
      LexLeReflexive(key(rows[i]));
    }
  }

  /** The only listing of an empty table is the empty sequence. */
  lemma EmptyListing<R>(rows: seq<R>, idOf: R -> int, key: R -> string)
    ensures IsListing(map[], rows, idOf, key) <==> rows == []
  {
    var empty: map<int, R> := map[];
    if rows != [] {
      assert idOf(rows[0]) !in empty;
    }
  }
}
