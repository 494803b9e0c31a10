/** Keyed tables: inserting rows one by one under a primary key and a uniqueness
    constraint, as SQLite does inside a transaction. */
module Tables {
  import opened Base

  /** SQLite refuses a row under a used key, or one that clashes with a stored row. */
  predicate Refused<K(!new), V>(table: map<K, V>, key: K, row: V, clash: (V, V) -> bool) {
    key in table || exists k | k in table :: clash(table[k], row)
  }

  /** The table after inserting the rows in turn, or nothing if one is refused. */
  function Inserted<K(!new), V>(table: map<K, V>, keys: seq<K>, rows: seq<V>, clash: (V, V) -> bool): (r: Option<map<K, V>>)
    requires |keys| == |rows|
    decreases |keys|
  {
    if keys == [] then Some(table)
    else if Refused(table, keys[0], rows[0], clash) then None
    else Inserted(table[keys[0] := rows[0]], keys[1..], rows[1..], clash)
  }

  method InsertRows<K(==, !new), V>(table: map<K, V>, keys: seq<K>, rows: seq<V>, clash: (V, V) -> bool)
    returns (r: Option<map<K, V>>)
    requires |keys| == |rows|
    ensures r == Inserted(table, keys, rows, clash)
  {
    var result := table;
    for i := 0 to |keys|
      invariant Inserted(result, keys[i..], rows[i..], clash) == Inserted(table, keys, rows, clash)
    {
      assert keys[i..][1..] == keys[i + 1..] && rows[i..][1..] == rows[i + 1..];
      if Refused(result, keys[i], rows[i], clash) {
        return None;
      }
      result := result[keys[i] := rows[i]];
    }
    return Some(result);
  }

  /** What a successful insertion tells: the keys were unused and distinct, every
      row is stored under its key, and nothing else changed. */
  ghost predicate Extends<K(!new), V>(table: map<K, V>, keys: seq<K>, rows: seq<V>, result: map<K, V>)
    requires |keys| == |rows|
  {
    && (forall k :: k in result <==> k in table || k in keys)
    && (forall k :: k in table ==> k in result && result[k] == table[k])
    && (forall i :: 0 <= i < |keys| ==> keys[i] !in table && keys[i] in result && result[keys[i]] == rows[i])
    && (forall i, j :: 0 <= i < j < |keys| ==> keys[i] != keys[j])
  }

  lemma {:induction false} InsertedExtends<K(!new), V>(table: map<K, V>, keys: seq<K>, rows: seq<V>, clash: (V, V) -> bool)
    requires |keys| == |rows| && Inserted(table, keys, rows, clash).Some?
    ensures Extends(table, keys, rows, Inserted(table, keys, rows, clash).value)
    decreases |keys|
  {
    if keys != [] {
      InsertedExtends(table[keys[0] := rows[0]], keys[1..], rows[1..], clash);
      ExtendsCons(table, keys, rows, Inserted(table, keys, rows, clash).value);
    }
  }

  lemma ExtendsCons<K(!new), V>(table: map<K, V>, keys: seq<K>, rows: seq<V>, result: map<K, V>)
    requires |keys| == |rows| && keys != [] && keys[0] !in table
    requires Extends(table[keys[0] := rows[0]], keys[1..], rows[1..], result)
    ensures Extends(table, keys, rows, result)
  {
    assert forall k :: k in keys <==> k == keys[0] || k in keys[1..];
    forall i | 0 < i < |keys|
      ensures keys[i] !in table && keys[i] != keys[0] && keys[i] in result && result[keys[i]] == rows[i]
    {
      assert keys[1..][i - 1] == keys[i] && rows[1..][i - 1] == rows[i];
    }
    forall i, j | 0 < i < j < |keys| ensures keys[i] != keys[j] {
      assert keys[1..][i - 1] == keys[i] && keys[1..][j - 1] == keys[j];
    }
  }

  /** Inserting succeeds exactly when the keys are new and distinct and no row
      clashes with a stored or an earlier one. */
  ghost predicate Insertable<K(!new), V>(table: map<K, V>, keys: seq<K>, rows: seq<V>, clash: (V, V) -> bool)
    requires |keys| == |rows|
  {
    && (forall i :: 0 <= i < |keys| ==> !Refused(table, keys[i], rows[i], clash))
    && (forall i, j :: 0 <= i < j < |keys| ==> keys[i] != keys[j] && !clash(rows[i], rows[j]))
  }

  lemma {:induction false} InsertedExactly<K(!new), V>(table: map<K, V>, keys: seq<K>, rows: seq<V>, clash: (V, V) -> bool)
    requires |keys| == |rows|
    ensures Inserted(table, keys, rows, clash).Some? <==> Insertable(table, keys, rows, clash)
    decreases |keys|
  {
    if keys != [] && !Refused(table, keys[0], rows[0], clash) {
      InsertedExactly(table[keys[0] := rows[0]], keys[1..], rows[1..], clash);
      InsertableCons(table, keys, rows, clash);
    }
  }

  lemma InsertableCons<K(!new), V>(table: map<K, V>, keys: seq<K>, rows: seq<V>, clash: (V, V) -> bool)
    requires |keys| == |rows| && keys != [] && !Refused(table, keys[0], rows[0], clash)
    ensures Insertable(table, keys, rows, clash) <==> Insertable(table[keys[0] := rows[0]], keys[1..], rows[1..], clash)
  {
    var next := table[keys[0] := rows[0]];
    forall i | 0 < i < |keys|
      ensures Refused(next, keys[i], rows[i], clash)
              <==> Refused(table, keys[i], rows[i], clash) || keys[0] == keys[i] || clash(rows[0], rows[i])
    {
      RefusedAfter(table, keys[0], rows[0], keys[i], rows[i], clash);
    }
    assert forall i :: 0 < i < |keys| ==> keys[1..][i - 1] == keys[i] && rows[1..][i - 1] == rows[i];
    assert forall i :: 0 <= i < |keys| - 1 ==> keys[1..][i] == keys[i + 1] && rows[1..][i] == rows[i + 1];
  }

  lemma RefusedAfter<K(!new), V>(table: map<K, V>, k: K, v: V, key: K, row: V, clash: (V, V) -> bool)
    requires k !in table
    ensures Refused(table[k := v], key, row, clash) <==> Refused(table, key, row, clash) || k == key || clash(v, row)
  {
    var next := table[k := v];
    assert next[k] == v && forall o :: o in table ==> next[o] == table[o];
    if o :| o in table && clash(table[o], row) {
      assert clash(next[o], row);
    }
    if clash(v, row) {
      assert clash(next[k], row);
    }
  }

  /** Inserting in two goes is inserting in one. */
  lemma {:induction false} InsertedAppend<K(!new), V>(table: map<K, V>, keys: seq<K>, rows: seq<V>, more: seq<K>, others: seq<V>,
                                                      clash: (V, V) -> bool)
    requires |keys| == |rows| && |more| == |others|
    ensures Inserted(table, keys + more, rows + others, clash)
            == if Inserted(table, keys, rows, clash).None? then None
               else Inserted(Inserted(table, keys, rows, clash).value, more, others, clash)
    decreases |keys|
  {
    if keys == [] {
      assert keys + more == more && rows + others == others;
    } else {
      assert (keys + more)[1..] == keys[1..] + more && (rows + others)[1..] == rows[1..] + others;
      InsertedAppend(table[keys[0] := rows[0]], keys[1..], rows[1..], more, others, clash);
    }
  }

  // ------------------------------------------------------------------------- sums

  /** `SELECT SUM(…)` over the rows of a table. */
  ghost function Total<K(!new), V>(rows: map<K, V>, size: V -> nat): nat
    decreases |rows|
  {
    if rows == map[] then 0
    else
      var k :| k in rows;
      assert |rows - {k}| < |rows|;
      size(rows[k]) + Total(rows - {k}, size)
  }

  /** The sum does not depend on the order in which rows are taken. */
  lemma {:induction false} TotalWithout<K(!new), V>(rows: map<K, V>, k: K, size: V -> nat)
    requires k in rows
    ensures Total(rows, size) == size(rows[k]) + Total(rows - {k}, size)
    decreases |rows|
  {
    var u :| u in rows && Total(rows, size) == size(rows[u]) + Total(rows - {u}, size);
    if u != k {
      assert |rows - {u}| < |rows| && |rows - {k}| < |rows|;
      TotalWithout(rows - {u}, k, size);
      TotalWithout(rows - {k}, u, size);
      assert rows - {u} - {k} == rows - {k} - {u};
    }
  }

  method SumRows<K(==, !new), V(==)>(rows: map<K, V>, size: V -> nat) returns (total: nat)
    ensures total == Total(rows, size)
  {
    total := 0;
    var rest := rows;
    while rest != map[]
      invariant total + Total(rest, size) == Total(rows, size)
      decreases |rest|
    {
      var k :| k in rest;
      TotalWithout(rest, k, size);
      assert |rest - {k}| < |rest|;
      total := total + size(rest[k]);
      rest := rest - {k};
    }
  }
}
