/** A database table with a unique index, seen as a map from the indexed key
    to the row, and the two write statements the storage layer issues:
    a multi-row upsert (insert, or replace the row holding the same key) and
    a multi-row plain insert (which fails on any key collision). */
module Keyed {
  import opened Results

  /** Every row is stored under its own key: the unique index is honest. */
  predicate WellKeyed<K(==), V>(m: map<K, V>, key: V -> K)
  {
    forall k :: k in m ==> key(m[k]) == k
  }

  /** The keys of a batch of rows. */
  function KeysOf<K(==), V>(rows: seq<V>, key: V -> K): set<K>
  {
    set i | 0 <= i < |rows| :: key(rows[i])
  }

  /** `rows[i]` is the last row of the batch carrying its key, so it is the
      one an upsert leaves in the table. */
  predicate LastOfKey<K(==), V>(rows: seq<V>, i: nat, key: V -> K)
    requires i < |rows|
  {
    forall j :: i < j < |rows| ==> key(rows[j]) != key(rows[i])
  }

  /** `rows[i]` is the first row of the batch carrying its key, so it is the
      one an upsert inserts when the key is new to the table. */
  predicate FirstOfKey<K(==), V>(rows: seq<V>, i: nat, key: V -> K)
    requires i < |rows|
  {
    forall j :: 0 <= j < i ==> key(rows[j]) != key(rows[i])
  }

  /** The batch's keys are new to the table and pairwise distinct: the
      condition under which a plain insert succeeds. */
  predicate Fresh<K(==), V>(m: map<K, V>, rows: seq<V>, key: V -> K)
  {
    && (forall i :: 0 <= i < |rows| ==> key(rows[i]) !in m)
    && (forall i, j :: 0 <= i < j < |rows| ==> key(rows[i]) != key(rows[j]))
  }

  /** Upsert of a batch, row by row in batch order: a later row with the same
      key overwrites an earlier one, rows under other keys are untouched. */
  function UpsertAll<K(==), V>(m: map<K, V>, rows: seq<V>, key: V -> K): (r: map<K, V>)
    ensures r.Keys == m.Keys + KeysOf(rows, key)
    ensures forall k :: k in m && k !in KeysOf(rows, key) ==> r[k] == m[k]
    ensures forall i :: 0 <= i < |rows| && LastOfKey(rows, i, key) ==> r[key(rows[i])] == rows[i]
    ensures WellKeyed(m, key) ==> WellKeyed(r, key)
    decreases |rows|
  {
    if rows == [] then m
    else
      var m' := m[key(rows[0]) := rows[0]];
      var r := UpsertAll(m', rows[1..], key);
      KeysOfCons(rows, key);
      LastOfKeyCons(rows, key);
      r
  }

  lemma KeysOfCons<K, V>(rows: seq<V>, key: V -> K)
    requires rows != []
    ensures KeysOf(rows, key) == {key(rows[0])} + KeysOf(rows[1..], key)
  {
    var tail := rows[1..];
    forall k | k in KeysOf(rows, key)
      ensures k in {key(rows[0])} + KeysOf(tail, key)
    {
      var i :| 0 <= i < |rows| && key(rows[i]) == k;
      if i > 0 {
        assert key(tail[i - 1]) == k;
      }
    }
    forall k | k in KeysOf(tail, key)
      ensures k in KeysOf(rows, key)
    {
      var i :| 0 <= i < |tail| && key(tail[i]) == k;
      assert key(rows[i + 1]) == k;
    }
  }

  lemma LastOfKeyCons<K, V>(rows: seq<V>, key: V -> K)
    requires rows != []
    ensures LastOfKey(rows, 0, key) ==> key(rows[0]) !in KeysOf(rows[1..], key)
    ensures forall i :: 1 <= i < |rows| && LastOfKey(rows, i, key) ==> LastOfKey(rows[1..], i - 1, key)
  {
    var tail := rows[1..];
    forall i | 1 <= i < |rows| && LastOfKey(rows, i, key)
      ensures LastOfKey(tail, i - 1, key)
    {
      forall j | i - 1 < j < |tail|
        ensures key(tail[j]) != key(tail[i - 1])
      {
        assert tail[j] == rows[j + 1];
      }
    }
  }

  lemma FirstOfKeyCons<K, V>(rows: seq<V>, key: V -> K)
    requires rows != []
    ensures forall i :: 1 <= i < |rows| && FirstOfKey(rows, i, key) ==>
      key(rows[i]) != key(rows[0]) && FirstOfKey(rows[1..], i - 1, key)
  {
    var tail := rows[1..];
    forall i | 1 <= i < |rows| && FirstOfKey(rows, i, key)
      ensures FirstOfKey(tail, i - 1, key)
    {
      forall j | 0 <= j < i - 1
        ensures key(tail[j]) != key(tail[i - 1])
      {
        assert tail[j] == rows[j + 1];
      }
    }
  }

  /** Plain multi-row insert: succeeds exactly when the batch is fresh for the
      table, and then stores every row under its key. */
  function InsertAll<K(==), V>(m: map<K, V>, rows: seq<V>, key: V -> K): (r: Result<map<K, V>>)
    ensures r.Ok? <==> Fresh(m, rows, key)
    ensures r.Err? ==> r.error == DuplicateKey
    ensures r.Ok? ==> r.value.Keys == m.Keys + KeysOf(rows, key)
    ensures r.Ok? ==> forall k :: k in m ==> r.value[k] == m[k]
    ensures r.Ok? ==> forall i :: 0 <= i < |rows| ==> r.value[key(rows[i])] == rows[i]
    decreases |rows|
  {
    if rows == [] then Ok(m)
    else if key(rows[0]) in m then Err(DuplicateKey)
    else
      var r := InsertAll(m[key(rows[0]) := rows[0]], rows[1..], key);
      KeysOfCons(rows, key);
      FreshCons(m, rows, key);
      r
  }

  lemma FreshCons<K, V>(m: map<K, V>, rows: seq<V>, key: V -> K)
    requires rows != [] && key(rows[0]) !in m
    ensures Fresh(m, rows, key) <==> Fresh(m[key(rows[0]) := rows[0]], rows[1..], key)
  {
    var tail := rows[1..];
    var m' := m[key(rows[0]) := rows[0]];
    if Fresh(m, rows, key) {
      forall i | 0 <= i < |tail|
        ensures key(tail[i]) !in m'
      {
        assert tail[i] == rows[i + 1];
      }
      forall i, j | 0 <= i < j < |tail|
        ensures key(tail[i]) != key(tail[j])
      {
        assert tail[i] == rows[i + 1] && tail[j] == rows[j + 1];
      }
    }
    if Fresh(m', tail, key) {
      forall i | 0 <= i < |rows|
        ensures key(rows[i]) !in m
      {
        if i > 0 {
          assert rows[i] == tail[i - 1];
        }
      }
      forall i, j | 0 <= i < j < |rows|
        ensures key(rows[i]) != key(rows[j])
      {
        assert rows[j] == tail[j - 1];
        if i > 0 {
          assert rows[i] == tail[i - 1];
        }
      }
    }
  }

  /** Every key of a batch has a last row carrying it. */
  lemma {:induction false} LastOfKeyExists<K, V>(rows: seq<V>, key: V -> K, k: K)
    requires k in KeysOf(rows, key)
    ensures exists i :: 0 <= i < |rows| && key(rows[i]) == k && LastOfKey(rows, i, key)
    decreases |rows|
  {
    var n := |rows| - 1;
    if key(rows[n]) == k {
      assert LastOfKey(rows, n, key);
    } else {
      var front := rows[..n];
      var i0 :| 0 <= i0 < |rows| && key(rows[i0]) == k;
      assert i0 < n && key(front[i0]) == k;
      LastOfKeyExists(front, key, k);
      var i :| 0 <= i < |front| && key(front[i]) == k && LastOfKey(front, i, key);
      forall j | i < j < |rows|
        ensures key(rows[j]) != key(rows[i])
      {
        if j < n {
          assert rows[j] == front[j];
        }
      }
    }
  }

  /** Re-applying the same upsert batch changes nothing. */
  lemma {:induction false} UpsertAllIdempotent<K, V>(m: map<K, V>, rows: seq<V>, key: V -> K)
    ensures UpsertAll(UpsertAll(m, rows, key), rows, key) == UpsertAll(m, rows, key)
  {
    var once := UpsertAll(m, rows, key);
    var twice := UpsertAll(once, rows, key);
    assert twice.Keys == once.Keys;
    forall k | k in once
      ensures twice[k] == once[k]
    {
      if k in KeysOf(rows, key) {
        LastOfKeyExists(rows, key, k);
        var i :| 0 <= i < |rows| && key(rows[i]) == k && LastOfKey(rows, i, key);
      }
    }
  }

  /** When a plain insert succeeds it leaves the same table as the upsert of
      the same batch would. */
  lemma {:induction false} InsertAgreesWithUpsert<K, V>(m: map<K, V>, rows: seq<V>, key: V -> K)
    requires Fresh(m, rows, key)
    ensures InsertAll(m, rows, key) == Ok(UpsertAll(m, rows, key))
  {
    var ins := InsertAll(m, rows, key).value;
    var ups := UpsertAll(m, rows, key);
    forall k | k in ins
      ensures ins[k] == ups[k]
    {
      if k in KeysOf(rows, key) {
        var i :| 0 <= i < |rows| && key(rows[i]) == k;
        assert LastOfKey(rows, i, key);
      }
    }
    assert ins.Keys == ups.Keys;
    assert ins == ups;
  }
}
