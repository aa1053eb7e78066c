/** The two table operations the reconciler is built from: staging the rows that are not yet
    stored (the "check existence, collect the rest" loops of src/database_updater.py) and the bulk
    insert of a staged batch (`session.bulk_insert_mappings`), which fails on a primary-key
    collision. */
module Staging {
  import opened Wrappers

  /** `row` is already stored: the table holds a row under its key whose natural key agrees.
      This is the `exists().where(and_(...))` query, given that the table is keyed by `key`. */
  predicate Present<T, N(==)>(table: map<int, T>, row: T, key: T -> int, natural: T -> N) {
    key(row) in table && natural(table[key(row)]) == natural(row)
  }

  /** The rows of `rows`, in order, that are not already present in `table`. The check looks at
      the table only, never at the rows staged so far. */
  function StageNew<T, N(==)>(table: map<int, T>, rows: seq<T>, key: T -> int, natural: T -> N): seq<T>
    decreases |rows|
  {
    if rows == [] then []
    else
      var last := rows[|rows| - 1];
      StageNew(table, rows[..|rows| - 1], key, natural)
        + (if Present(table, last, key, natural) then [] else [last])
  }

  /** Two rows of `batch` share a primary key. */
  predicate HasDuplicateKey<T>(batch: seq<T>, key: T -> int) {
    exists p, q :: 0 <= p < q < |batch| && key(batch[p]) == key(batch[q])
  }

  /** Some row that is not present is staged although its key is already stored (under a
      different natural key). */
  ghost predicate AbsentButKeyStored<T, N>(table: map<int, T>, rows: seq<T>, key: T -> int, natural: T -> N) {
    exists i :: 0 <= i < |rows| && !Present(table, rows[i], key, natural) && key(rows[i]) in table
  }

  /** Two different rows that are not present carry the same key, so both are staged. */
  ghost predicate AbsentTwice<T, N>(table: map<int, T>, rows: seq<T>, key: T -> int, natural: T -> N) {
    exists i, j :: 0 <= i < j < |rows| && !Present(table, rows[i], key, natural)
      && !Present(table, rows[j], key, natural) && key(rows[i]) == key(rows[j])
  }

  /** A bulk insert of `batch` into `table`: `None` is the integrity error raised when a row's
      key is already in the table or appears twice in the batch. */
  function InsertAll<T>(table: map<int, T>, batch: seq<T>, key: T -> int): Option<map<int, T>>
    decreases |batch|
  {
    if batch == [] then Some(table)
    else if key(batch[0]) in table then None
    else InsertAll(table[key(batch[0]) := batch[0]], batch[1..], key)
  }

  /** A row is staged exactly when it is one of `rows` and is not present. */
  lemma {:induction false} StageNewMember<T, N>(table: map<int, T>, rows: seq<T>, key: T -> int, natural: T -> N, x: T)
    ensures x in StageNew(table, rows, key, natural) <==> x in rows && !Present(table, x, key, natural)
    decreases |rows|
  {
    if rows != [] {
      var init := rows[..|rows| - 1];
      StageNewMember(table, init, key, natural, x);
      assert rows == init + [rows[|rows| - 1]];
    }
  }

  /** Exactly the rows that are not present are staged. */
  lemma StageNewMembers<T, N>(table: map<int, T>, rows: seq<T>, key: T -> int, natural: T -> N)
    ensures forall x :: x in StageNew(table, rows, key, natural) <==> x in rows && !Present(table, x, key, natural)
  {
    forall x {
      StageNewMember(table, rows, key, natural, x);
    }
  }

  /** Two rows that are both absent and share a key are both staged, so the batch holds a
      duplicate key. */
  lemma {:induction false} StageNewDuplicate<T, N>(table: map<int, T>, rows: seq<T>, key: T -> int, natural: T -> N, i: nat, j: nat)
    requires i < j < |rows|
    requires !Present(table, rows[i], key, natural) && !Present(table, rows[j], key, natural)
    requires key(rows[i]) == key(rows[j])
    ensures HasDuplicateKey(StageNew(table, rows, key, natural), key)
    decreases |rows|
  {
    var init := rows[..|rows| - 1];
    var prev := StageNew(table, init, key, natural);
    var staged := StageNew(table, rows, key, natural);
    assert staged[..|prev|] == prev;
    if j < |rows| - 1 {
      StageNewDuplicate(table, init, key, natural, i, j);
      var p, q :| 0 <= p < q < |prev| && key(prev[p]) == key(prev[q]);
      assert staged[p] == prev[p] && staged[q] == prev[q];
    } else {
      StageNewMembers(table, init, key, natural);
      assert rows[i] == init[i];
      var p :| 0 <= p < |prev| && prev[p] == rows[i];
      assert staged[p] == rows[i] && staged[|prev|] == rows[j];
    }
  }

  /** A bulk insert succeeds exactly when no key of the batch is stored and no key repeats. */
  lemma {:induction false} InsertAllSucceeds<T>(table: map<int, T>, batch: seq<T>, key: T -> int)
    ensures InsertAll(table, batch, key).Some?
        <==> (forall i :: 0 <= i < |batch| ==> key(batch[i]) !in table) && !HasDuplicateKey(batch, key)
    decreases |batch|
  {
    if batch != [] {
      var k := key(batch[0]);
      var rest := batch[1..];
      if k !in table {
        InsertAllSucceeds(table[k := batch[0]], rest, key);
        if HasDuplicateKey(batch, key) && !HasDuplicateKey(rest, key) {
          var p, q :| 0 <= p < q < |batch| && key(batch[p]) == key(batch[q]);
          if p == 0 {
            assert key(rest[q - 1]) in table[k := batch[0]];
          }
        }
        if HasDuplicateKey(rest, key) {
          var p, q :| 0 <= p < q < |rest| && key(rest[p]) == key(rest[q]);
          assert key(batch[p + 1]) == key(batch[q + 1]);
        }
      } else {
        assert key(batch[0]) in table;
      }
    }
  }

  /** After a successful bulk insert the table holds its old rows unchanged and every row of the
      batch under its key. */
  lemma {:induction false} InsertAllContents<T>(table: map<int, T>, batch: seq<T>, key: T -> int, r: map<int, T>)
    requires InsertAll(table, batch, key) == Some(r)
    ensures forall k :: k in table ==> k in r && r[k] == table[k]
    ensures forall i :: 0 <= i < |batch| ==> key(batch[i]) in r && r[key(batch[i])] == batch[i]
    decreases |batch|
  {
    if batch != [] {
      var k := key(batch[0]);
      var rest := batch[1..];
      var t' := table[k := batch[0]];
      InsertAllContents(t', rest, key, r);
      forall i | 0 <= i < |batch| ensures key(batch[i]) in r && r[key(batch[i])] == batch[i] {
        if i > 0 {
          assert batch[i] == rest[i - 1];
        } else {
          InsertAllSucceeds(t', rest, key);
        }
      }
    }
  }

  /** ... and no key besides those. */
  lemma {:induction false} InsertAllKeys<T>(table: map<int, T>, batch: seq<T>, key: T -> int, r: map<int, T>)
    requires InsertAll(table, batch, key) == Some(r)
    ensures forall k :: k in r ==> k in table || exists i :: 0 <= i < |batch| && key(batch[i]) == k
    decreases |batch|
  {
    if batch != [] {
      var k := key(batch[0]);
      var rest := batch[1..];
      InsertAllKeys(table[k := batch[0]], rest, key, r);
      forall x | x in r ensures x in table || exists i :: 0 <= i < |batch| && key(batch[i]) == x {
        if x !in table && x != k {
          var i :| 0 <= i < |rest| && key(rest[i]) == x;
          assert key(batch[i + 1]) == x;
        }
      }
    }
  }

  /** A successful bulk insert keeps a table keyed by `key`. */
  lemma InsertAllKeyed<T>(table: map<int, T>, batch: seq<T>, key: T -> int)
    requires forall k :: k in table ==> key(table[k]) == k
    requires InsertAll(table, batch, key).Some?
    ensures var r := InsertAll(table, batch, key).value; forall k :: k in r ==> key(r[k]) == k
  {
    var r := InsertAll(table, batch, key).value;
    InsertAllContents(table, batch, key, r);
    InsertAllKeys(table, batch, key, r);
    forall k | k in r ensures key(r[k]) == k {
      if k !in table {
        var i :| 0 <= i < |batch| && key(batch[i]) == k;
      }
    }
  }

  /** A duplicate key in the staged batch comes from two different absent rows with that key. */
  lemma {:induction false} StageNewDuplicateSource<T, N>(table: map<int, T>, rows: seq<T>, key: T -> int, natural: T -> N)
    requires HasDuplicateKey(StageNew(table, rows, key, natural), key)
    ensures AbsentTwice(table, rows, key, natural)
    decreases |rows|
  {
    var init := rows[..|rows| - 1];
    var prev := StageNew(table, init, key, natural);
    var staged := StageNew(table, rows, key, natural);
    assert staged[..|prev|] == prev;
    if HasDuplicateKey(prev, key) {
      StageNewDuplicateSource(table, init, key, natural);
      var i, j :| 0 <= i < j < |init| && !Present(table, init[i], key, natural)
        && !Present(table, init[j], key, natural) && key(init[i]) == key(init[j]);
      assert init[i] == rows[i] && init[j] == rows[j];
    } else {
      var p, q :| 0 <= p < q < |staged| && key(staged[p]) == key(staged[q]);
      assert q == |prev| && staged[q] == rows[|rows| - 1];
      StageNewMembers(table, init, key, natural);
      assert staged[p] == prev[p] && prev[p] in prev;
      var i :| 0 <= i < |init| && init[i] == prev[p];
      assert rows[i] == init[i];
    }
  }

  /** When every row is already present nothing is staged. */
  lemma StageNewAllPresent<T, N>(table: map<int, T>, rows: seq<T>, key: T -> int, natural: T -> N)
    requires forall i :: 0 <= i < |rows| ==> Present(table, rows[i], key, natural)
    ensures StageNew(table, rows, key, natural) == []
  {
    StageNewMembers(table, rows, key, natural);
  }

  /** Staging against `table` and bulk-inserting into `into`, a table with the same keys (the
      working copy after earlier writes of the run), fails exactly when an absent row's key is
      stored or two absent rows share a key. */
  lemma StagedInsertFails<T, N>(table: map<int, T>, into: map<int, T>, rows: seq<T>, key: T -> int, natural: T -> N)
    requires into.Keys == table.Keys
    ensures InsertAll(into, StageNew(table, rows, key, natural), key).None?
        <==> AbsentButKeyStored(table, rows, key, natural) || AbsentTwice(table, rows, key, natural)
  {
    var staged := StageNew(table, rows, key, natural);
    InsertAllSucceeds(into, staged, key);
    StageNewMembers(table, rows, key, natural);
    if AbsentButKeyStored(table, rows, key, natural) {
      var i :| 0 <= i < |rows| && !Present(table, rows[i], key, natural) && key(rows[i]) in table;
      assert rows[i] in staged;
      var p :| 0 <= p < |staged| && staged[p] == rows[i];
    }
    if AbsentTwice(table, rows, key, natural) {
      var i, j :| 0 <= i < j < |rows| && !Present(table, rows[i], key, natural)
        && !Present(table, rows[j], key, natural) && key(rows[i]) == key(rows[j]);
      StageNewDuplicate(table, rows, key, natural, i, j);
    }
    if InsertAll(into, staged, key).None? {
      if HasDuplicateKey(staged, key) {
        StageNewDuplicateSource(table, rows, key, natural);
      } else {
        var p :| 0 <= p < |staged| && key(staged[p]) in into;
        assert staged[p] in staged;
        var i :| 0 <= i < |rows| && rows[i] == staged[p];
      }
    }
  }

  /** After staging against `table` and a successful bulk insert into `into` (a table with the
      same keys), the rows of `into` are kept and every absent row is stored under its key. */
  lemma StagedInsertKeeps<T, N>(table: map<int, T>, into: map<int, T>, rows: seq<T>, key: T -> int, natural: T -> N, r: map<int, T>)
    requires into.Keys == table.Keys
    requires InsertAll(into, StageNew(table, rows, key, natural), key) == Some(r)
    ensures forall k :: k in into ==> k in r && r[k] == into[k]
    ensures forall i :: 0 <= i < |rows| && !Present(table, rows[i], key, natural) ==> key(rows[i]) in r && r[key(rows[i])] == rows[i]
  {
    var staged := StageNew(table, rows, key, natural);
    InsertAllContents(into, staged, key, r);
    StageNewMembers(table, rows, key, natural);
    forall i | 0 <= i < |rows| && !Present(table, rows[i], key, natural)
      ensures key(rows[i]) in r && r[key(rows[i])] == rows[i]
    {
      assert rows[i] in staged;
      var p :| 0 <= p < |staged| && staged[p] == rows[i];
    }
  }

  /** ... and the only keys it adds are those of absent rows. */
  lemma StagedInsertOnly<T, N>(table: map<int, T>, into: map<int, T>, rows: seq<T>, key: T -> int, natural: T -> N, r: map<int, T>)
    requires into.Keys == table.Keys
    requires InsertAll(into, StageNew(table, rows, key, natural), key) == Some(r)
    ensures forall k :: k in r ==> k in table || exists i :: 0 <= i < |rows| && !Present(table, rows[i], key, natural) && key(rows[i]) == k
  {
    var staged := StageNew(table, rows, key, natural);
    forall k | k in r && k !in table
      ensures exists i :: 0 <= i < |rows| && !Present(table, rows[i], key, natural) && key(rows[i]) == k
    {
      InsertAllKeys(into, staged, key, r);
      var p :| 0 <= p < |staged| && key(staged[p]) == k;
      assert staged[p] in staged;
      StageNewMember(table, rows, key, natural, staged[p]);
      var i :| 0 <= i < |rows| && rows[i] == staged[p];
    }
  }

  /** ... and, when `into` agrees with `table` on natural keys, every row is present afterwards. */
  lemma StagedInsertAllPresent<T, N>(table: map<int, T>, into: map<int, T>, rows: seq<T>, key: T -> int, natural: T -> N, r: map<int, T>)
    requires into.Keys == table.Keys
    requires forall k :: k in table ==> natural(into[k]) == natural(table[k])
    requires InsertAll(into, StageNew(table, rows, key, natural), key) == Some(r)
    ensures forall i :: 0 <= i < |rows| ==> Present(r, rows[i], key, natural)
  {
    StagedInsertKeeps(table, into, rows, key, natural, r);
    forall i | 0 <= i < |rows| ensures Present(r, rows[i], key, natural) {
      var k := key(rows[i]);
      if Present(table, rows[i], key, natural) {
        assert r[k] == into[k];
      } else {
        assert r[k] == rows[i];
      }
    }
  }
}
