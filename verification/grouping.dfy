/** Grouping a table's rows by a key into a dictionary of lists, the way both
    indexes of the calculator are built, and looking a key up in the result. */
module Grouping {

  /** The rows whose key is `k`, in input order: the reference meaning of a group. */
  function Select<T(==,!new), K(==,!new)>(rows: seq<T>, key: T -> K, k: K): (r: seq<T>)
    ensures forall x :: x in r <==> x in rows && key(x) == k
    decreases |rows|
  {
    if |rows| == 0 then []
    else
      (if key(rows[0]) == k then [rows[0]] else []) + Select(rows[1..], key, k)
  }

  /** Selecting from a table extended by one row extends the selection by that
      row exactly when the row has the key. */
  lemma {:induction false} SelectAppend<T(!new), K(!new)>(rows: seq<T>, key: T -> K, x: T, k: K)
    ensures Select(rows + [x], key, k) == Select(rows, key, k) + (if key(x) == k then [x] else [])
    decreases |rows|
  {
    if |rows| == 0 {
      assert rows + [x] == [x];
      assert [x][1..] == [];
    } else {
      var head := if key(rows[0]) == k then [rows[0]] else [];
      var tail := if key(x) == k then [x] else [];
      assert (rows + [x])[0] == rows[0];
      assert (rows + [x])[1..] == rows[1..] + [x];
      SelectAppend(rows[1..], key, x, k);
      calc {
        Select(rows + [x], key, k);
        head + Select(rows[1..] + [x], key, k);
        head + (Select(rows[1..], key, k) + tail);
        (head + Select(rows[1..], key, k)) + tail;
      }
    }
  }

  /** A key no row carries selects nothing. */
  lemma SelectNone<T(!new), K(!new)>(rows: seq<T>, key: T -> K, k: K)
    requires forall x :: x in rows ==> key(x) != k
    ensures Select(rows, key, k) == []
  {
  }

  /** One pass over the rows: a row whose key is not yet present opens an empty
      group, then the row is appended to its key's group. */
  function GroupBy<T(==,!new), K(==,!new)>(rows: seq<T>, key: T -> K): (m: map<K, seq<T>>)
    ensures forall k :: k in m <==> exists i :: 0 <= i < |rows| && key(rows[i]) == k
    ensures forall k :: k in m ==> m[k] == Select(rows, key, k)
    decreases |rows|
  {
    if |rows| == 0 then map[]
    else
      var init := rows[..|rows| - 1];
      var row := rows[|rows| - 1];
      assert rows == init + [row];
      var m := GroupBy(init, key);
      GroupByStep(init, key, row, m);
      m[key(row) := Lookup(m, key(row)) + [row]]
  }

  /** Appending one row to the grouped table keeps the table's two invariants:
      its keys are the keys of the rows read so far, and each group is the
      selection of those rows. */
  lemma GroupByStep<T(!new), K(!new)>(init: seq<T>, key: T -> K, row: T, m: map<K, seq<T>>)
    requires forall k :: k in m <==> exists i :: 0 <= i < |init| && key(init[i]) == k
    requires forall k :: k in m ==> m[k] == Select(init, key, k)
    ensures var rows := init + [row];
            var m' := m[key(row) := Lookup(m, key(row)) + [row]];
            && (forall k :: k in m' <==> exists i :: 0 <= i < |rows| && key(rows[i]) == k)
            && (forall k :: k in m' ==> m'[k] == Select(rows, key, k))
  {
    var rows := init + [row];
    var m' := m[key(row) := Lookup(m, key(row)) + [row]];
    forall k | k in m'
      ensures m'[k] == Select(rows, key, k)
    {
      SelectAppend(init, key, row, k);
      if k !in m {
        forall x | x in init
          ensures key(x) != k
        {
          var i :| 0 <= i < |init| && init[i] == x;
        }
        SelectNone(init, key, k);
      }
    }
    forall k
      ensures k in m' <==> exists i :: 0 <= i < |rows| && key(rows[i]) == k
    {
      if k in m' {
        if k == key(row) {
          assert key(rows[|init|]) == k;
        } else {
          var i :| 0 <= i < |init| && key(init[i]) == k;
          assert key(rows[i]) == k;
        }
      }
      if exists i :: 0 <= i < |rows| && key(rows[i]) == k {
        var i :| 0 <= i < |rows| && key(rows[i]) == k;
        if i < |init| {
          assert key(init[i]) == k;
        }
      }
    }
  }

  /** The group stored under `k`, or the empty list when `k` is absent. */
  function Lookup<K, T>(m: map<K, seq<T>>, k: K): seq<T>
  {
    if k in m then m[k] else []
  }

  /** Looking a key up in the grouped table yields exactly the rows with that
      key, in input order, and nothing when no row has it. */
  lemma LookupGroupBy<T(!new), K(!new)>(rows: seq<T>, key: T -> K, k: K)
    ensures Lookup(GroupBy(rows, key), k) == Select(rows, key, k)
    ensures Lookup(GroupBy(rows, key), k) == [] <==> forall x :: x in rows ==> key(x) != k
  {
    var m := GroupBy(rows, key);
    if k in m {
      var i :| 0 <= i < |rows| && key(rows[i]) == k;
      assert rows[i] in Select(rows, key, k);
    } else {
      forall x | x in rows
        ensures key(x) != k
      {
        var i :| 0 <= i < |rows| && rows[i] == x;
      }
      SelectNone(rows, key, k);
    }
  }
}
