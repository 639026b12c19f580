/**
 * A database table as a sequence of rows, and the queries and updates the
 * repositories run on it: lookup of the first row with a given key
 * (FirstOrDefault / FindAsync), filtering (Where), replacing the row with the
 * key of a record (Update) and removing the rows with a key (Remove).
 */
module Tables {
  import opened Wrappers

  /** No two rows share a key: the primary-key constraint of the table. */
  ghost predicate UniqueKeys<K, V(!new)>(rows: seq<V>, key: V -> K) {
    forall i, j :: 0 <= i < j < |rows| ==> key(rows[i]) != key(rows[j])
  }

  /** The first row whose key is k, or None when no row has it. */
  function Find<K(==), V(!new)>(rows: seq<V>, key: V -> K, k: K): (r: Option<V>)
    ensures r.None? <==> forall i :: 0 <= i < |rows| ==> key(rows[i]) != k
    ensures r.Some? ==> exists i :: 0 <= i < |rows| && rows[i] == r.value && key(rows[i]) == k
                                    && forall j :: 0 <= j < i ==> key(rows[j]) != k
  {
    if rows == [] then None
    else if key(rows[0]) == k then Some(rows[0])
    else
      var r := Find(rows[1..], key, k);
      assert forall i :: 1 <= i < |rows| ==> rows[i] == rows[1..][i - 1];
      r
  }

  /** a is b with some elements left out: the elements of a occur in b in the same order. */
  ghost predicate Subsequence<V(!new)>(a: seq<V>, b: seq<V>)
    decreases |b|
  {
    if a == [] then true
    else if b == [] then false
    else (a[0] == b[0] && Subsequence(a[1..], b[1..])) || Subsequence(a, b[1..])
  }

  /** The rows that satisfy p, in table order. */
  function Filter<V(!new)>(rows: seq<V>, p: V -> bool): (r: seq<V>)
    ensures forall x :: multiset(r)[x] == if p(x) then multiset(rows)[x] else 0
    ensures forall x :: x in r <==> x in rows && p(x)
    ensures Subsequence(r, rows)
  {
    if rows == [] then []
    else
      var rest := Filter(rows[1..], p);
      assert rows == [rows[0]] + rows[1..];
      assert multiset(rows) == multiset{rows[0]} + multiset(rows[1..]);
      if p(rows[0]) then
        assert ([rows[0]] + rest)[1..] == rest;
        [rows[0]] + rest
      else
        rest
  }

  /** Every row with the key of v replaced by v; all other rows as they were. */
  function Replace<K(==), V(!new)>(rows: seq<V>, key: V -> K, v: V): (r: seq<V>)
    ensures |r| == |rows|
    ensures forall i :: 0 <= i < |rows| ==> r[i] == if key(rows[i]) == key(v) then v else rows[i]
  {
    if rows == [] then []
    else
      var r := [if key(rows[0]) == key(v) then v else rows[0]] + Replace(rows[1..], key, v);
      assert forall i :: 1 <= i < |rows| ==> rows[i] == rows[1..][i - 1];
      r
  }

  /** The rows whose key is not k, in table order. */
  function RemoveKey<K(==), V(!new)>(rows: seq<V>, key: V -> K, k: K): (r: seq<V>)
    ensures forall x :: multiset(r)[x] == if key(x) == k then 0 else multiset(rows)[x]
    ensures forall x :: x in r <==> x in rows && key(x) != k
    ensures Subsequence(r, rows)
  {
    if rows == [] then []
    else
      var rest := RemoveKey(rows[1..], key, k);
      assert rows == [rows[0]] + rows[1..];
      assert multiset(rows) == multiset{rows[0]} + multiset(rows[1..]);
      if key(rows[0]) == k then rest
      else
        assert ([rows[0]] + rest)[1..] == rest;
        [rows[0]] + rest
  }

  // ---------------------------------------------------------------------------
  // Lookup after each kind of update.

  /** Appending a row: a key already stored still finds its old row; otherwise the new row answers for its own key. */
  lemma {:induction false} FindAppend<K, V(!new)>(rows: seq<V>, key: V -> K, v: V, k: K)
    ensures Find(rows + [v], key, k) ==
            if Find(rows, key, k).Some? then Find(rows, key, k)
            else if key(v) == k then Some(v) else None
  {
    if rows == [] {
      assert rows + [v] == [v];
    } else {
      assert (rows + [v])[1..] == rows[1..] + [v];
      FindAppend(rows[1..], key, v, k);
    }
  }

  /** Replacing a row: its key now finds the new record; every other key finds what it found before. */
  lemma {:induction false} FindReplace<K, V(!new)>(rows: seq<V>, key: V -> K, v: V, k: K)
    ensures Find(Replace(rows, key, v), key, k) ==
            if k != key(v) then Find(rows, key, k)
            else if Find(rows, key, k).Some? then Some(v) else None
  {
    if rows != [] {
      var r := Replace(rows, key, v);
      assert r[1..] == Replace(rows[1..], key, v);
      FindReplace(rows[1..], key, v, k);
    }
  }

  /** Removing a key: that key finds nothing; every other key finds what it found before. */
  lemma {:induction false} FindRemoveKey<K, V(!new)>(rows: seq<V>, key: V -> K, k: K, k': K)
    ensures Find(RemoveKey(rows, key, k), key, k') == if k' == k then None else Find(rows, key, k')
  {
    if rows != [] {
      FindRemoveKey(rows[1..], key, k, k');
      if key(rows[0]) != k {
        assert ([rows[0]] + RemoveKey(rows[1..], key, k))[1..] == RemoveKey(rows[1..], key, k);
      }
    }
  }

  /** Removing a key that no row has leaves the table as it was. */
  lemma {:induction false} RemoveKeyAbsent<K, V(!new)>(rows: seq<V>, key: V -> K, k: K)
    requires Find(rows, key, k).None?
    ensures RemoveKey(rows, key, k) == rows
  {
    if rows != [] {
      assert key(rows[0]) != k;
      assert Find(rows, key, k) == Find(rows[1..], key, k);
      RemoveKeyAbsent(rows[1..], key, k);
      assert RemoveKey(rows, key, k) == [rows[0]] + rows[1..];
      assert [rows[0]] + rows[1..] == rows;
    }
  }

  // ---------------------------------------------------------------------------
  // The primary-key constraint under each kind of update.

  /** Appending a row whose key is not yet stored keeps the keys unique. */
  lemma UniqueKeysAppend<K, V(!new)>(rows: seq<V>, key: V -> K, v: V)
    requires UniqueKeys(rows, key) && Find(rows, key, key(v)).None?
    ensures UniqueKeys(rows + [v], key)
  {
    forall i, j | 0 <= i < j < |rows + [v]|
      ensures key((rows + [v])[i]) != key((rows + [v])[j])
    {
      assert (rows + [v])[i] == rows[i];
    }
  }

  /** Replacing a row keeps every key where it was, so the keys stay unique. */
  lemma UniqueKeysReplace<K, V(!new)>(rows: seq<V>, key: V -> K, v: V)
    requires UniqueKeys(rows, key)
    ensures UniqueKeys(Replace(rows, key, v), key)
  {
    var r := Replace(rows, key, v);
    assert forall i :: 0 <= i < |rows| ==> key(r[i]) == key(rows[i]);
  }

  /** Removing the rows with a key keeps the remaining keys unique. */
  lemma {:induction false} UniqueKeysRemoveKey<K, V(!new)>(rows: seq<V>, key: V -> K, k: K)
    requires UniqueKeys(rows, key)
    ensures UniqueKeys(RemoveKey(rows, key, k), key)
  {
    if rows != [] {
      UniqueKeysTail(rows, key);
      UniqueKeysRemoveKey(rows[1..], key, k);
      var rest := RemoveKey(rows[1..], key, k);
      if key(rows[0]) != k {
        forall y | y in rest ensures key(y) != key(rows[0]) {
          KeyNotInTail(rows, key, y);
        }
        UniqueKeysCons(rows[0], rest, key);
      }
    }
  }

  /** A row whose key no other row has can go in front of a table with unique keys. */
  lemma UniqueKeysCons<K, V(!new)>(x: V, rest: seq<V>, key: V -> K)
    requires UniqueKeys(rest, key)
    requires forall y :: y in rest ==> key(y) != key(x)
    ensures UniqueKeys([x] + rest, key)
  {
    var r := [x] + rest;
    forall i, j | 0 <= i < j < |r| ensures key(r[i]) != key(r[j]) {
      assert r[j] == rest[j - 1];
      if i > 0 { assert r[i] == rest[i - 1]; }
    }
  }

  /** The rows after the first keep unique keys. */
  lemma UniqueKeysTail<K, V(!new)>(rows: seq<V>, key: V -> K)
    requires UniqueKeys(rows, key) && rows != []
    ensures UniqueKeys(rows[1..], key)
  {
    var tail := rows[1..];
    forall i, j | 0 <= i < j < |tail| ensures key(tail[i]) != key(tail[j]) {
      assert tail[i] == rows[i + 1] && tail[j] == rows[j + 1];
    }
  }

  /** With unique keys, no row after the first has the first row's key. */
  lemma KeyNotInTail<K, V(!new)>(rows: seq<V>, key: V -> K, x: V)
    requires UniqueKeys(rows, key) && rows != [] && x in rows[1..]
    ensures key(x) != key(rows[0])
  {
    var m :| 0 <= m < |rows[1..]| && rows[1..][m] == x;
    assert rows[m + 1] == x;
  }

  // ---------------------------------------------------------------------------
  // Under the primary-key constraint a lookup is exact.

  /** With unique keys, the row found for k is the stored row with key k. */
  lemma FindUnique<K, V(!new)>(rows: seq<V>, key: V -> K, v: V)
    requires UniqueKeys(rows, key)
    ensures Find(rows, key, key(v)) == Some(v) <==> v in rows
  {
    if v in rows {
      var i :| 0 <= i < |rows| && rows[i] == v;
      var r := Find(rows, key, key(v));
      var j :| 0 <= j < |rows| && rows[j] == r.value && key(rows[j]) == key(v);
      assert i == j;
    }
  }

  /** With unique keys, a stored row occurs exactly once. */
  lemma {:induction false} OccursOnce<K, V(!new)>(rows: seq<V>, key: V -> K, v: V)
    requires UniqueKeys(rows, key) && v in rows
    ensures multiset(rows)[v] == 1
  {
    var tail := rows[1..];
    assert rows == [rows[0]] + tail;
    assert multiset(rows) == multiset{rows[0]} + multiset(tail);
    UniqueKeysTail(rows, key);
    if rows[0] == v {
      assert v !in tail by {
        if v in tail { KeyNotInTail(rows, key, v); }
      }
    } else {
      OccursOnce(tail, key, v);
    }
  }

  /** With unique keys, the only stored row with the key of a stored row v is v. */
  lemma SameKeySameRow<K, V(!new)>(rows: seq<V>, key: V -> K, v: V, x: V)
    requires UniqueKeys(rows, key) && v in rows && x in rows && key(x) == key(v)
    ensures x == v
  {
    var i :| 0 <= i < |rows| && rows[i] == x;
    var j :| 0 <= j < |rows| && rows[j] == v;
    assert i == j;
  }

  /** With unique keys, removing the key of a stored row removes exactly that one row. */
  lemma RemoveKeyExactlyOne<K, V(!new)>(rows: seq<V>, key: V -> K, v: V)
    requires UniqueKeys(rows, key) && v in rows
    ensures multiset(RemoveKey(rows, key, key(v))) == multiset(rows) - multiset{v}
    ensures |RemoveKey(rows, key, key(v))| == |rows| - 1
  {
    var r := RemoveKey(rows, key, key(v));
    OccursOnce(rows, key, v);
    forall x ensures multiset(r)[x] == (multiset(rows) - multiset{v})[x] {
      if key(x) == key(v) && x in rows {
        SameKeySameRow(rows, key, v, x);
      }
    }
    assert multiset(r) == multiset(rows) - multiset{v};
    assert |multiset(r)| == |multiset(rows)| - 1;
  }
}
