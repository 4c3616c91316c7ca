/**
 * Sequences of records identified by a key, as both the session deduplication and the
 * dataset merge identify listings: the set of keys of a sequence, and sequences whose
 * keys are pairwise distinct.
 */
module Keyed {

  /** The keys of a sequence of rows. */
  function KeysBy<R, K(==)>(rows: seq<R>, key: R -> K): set<K> {
    set i | 0 <= i < |rows| :: key(rows[i])
  }

  /** No two rows share a key. */
  predicate UniqueBy<R, K(==)>(rows: seq<R>, key: R -> K) {
    forall i, j :: 0 <= i < j < |rows| ==> key(rows[i]) != key(rows[j])
  }

  /** Two sequences whose rows have the same keys, position by position. */
  predicate SameKeys<R, K(==)>(a: seq<R>, b: seq<R>, key: R -> K) {
    |a| == |b| && forall i :: 0 <= i < |a| ==> key(a[i]) == key(b[i])
  }

  lemma SameKeysSet<R, K>(a: seq<R>, b: seq<R>, key: R -> K)
    requires SameKeys(a, b, key)
    ensures KeysBy(a, key) == KeysBy(b, key)
  {
    forall k | k in KeysBy(a, key) ensures k in KeysBy(b, key) {
      var i :| 0 <= i < |a| && key(a[i]) == k;
      assert key(b[i]) == k;
    }
    forall k | k in KeysBy(b, key) ensures k in KeysBy(a, key) {
      var i :| 0 <= i < |b| && key(b[i]) == k;
      assert key(a[i]) == k;
    }
  }

  lemma SameKeysAppend<R, K>(a: seq<R>, b: seq<R>, x: R, y: R, key: R -> K)
    requires SameKeys(a, b, key) && key(x) == key(y)
    ensures SameKeys(a + [x], b + [y], key)
  {
    assert forall i :: 0 <= i < |a| ==> (a + [x])[i] == a[i] && (b + [y])[i] == b[i];
  }

  lemma SameKeysConcat<R, K>(a: seq<R>, b: seq<R>, c: seq<R>, d: seq<R>, key: R -> K)
    requires SameKeys(a, b, key) && SameKeys(c, d, key)
    ensures SameKeys(a + c, b + d, key)
  {
    forall i | 0 <= i < |a + c| ensures key((a + c)[i]) == key((b + d)[i]) {
      if i < |a| {
        assert (a + c)[i] == a[i] && (b + d)[i] == b[i];
      } else {
        assert (a + c)[i] == c[i - |a|] && (b + d)[i] == d[i - |a|];
      }
    }
  }

  lemma SameKeysPrefix<R, K>(a: seq<R>, b: seq<R>, n: nat, key: R -> K)
    requires SameKeys(a, b, key) && n <= |a|
    ensures SameKeys(a[..n], b[..n], key)
  {
    assert forall i :: 0 <= i < n ==> a[..n][i] == a[i] && b[..n][i] == b[i];
  }

  lemma KeysByAppend<R, K>(rows: seq<R>, x: R, key: R -> K)
    ensures KeysBy(rows + [x], key) == KeysBy(rows, key) + {key(x)}
  {
    var s := rows + [x];
    assert forall i :: 0 <= i < |rows| ==> s[i] == rows[i];
    assert s[|rows|] == x;
  }

  lemma KeysByConcat<R, K>(a: seq<R>, b: seq<R>, key: R -> K)
    ensures KeysBy(a + b, key) == KeysBy(a, key) + KeysBy(b, key)
  {
    var s := a + b;
    forall k | k in KeysBy(a, key) + KeysBy(b, key) ensures k in KeysBy(s, key) {
      if k in KeysBy(a, key) {
        var i :| 0 <= i < |a| && key(a[i]) == k;
        assert s[i] == a[i];
      } else {
        var i :| 0 <= i < |b| && key(b[i]) == k;
        assert s[|a| + i] == b[i];
      }
    }
    forall k | k in KeysBy(s, key) ensures k in KeysBy(a, key) + KeysBy(b, key) {
      var i :| 0 <= i < |s| && key(s[i]) == k;
      if i < |a| { assert s[i] == a[i]; } else { assert s[i] == b[i - |a|]; }
    }
  }

  /** The first `n` rows have no key the whole sequence lacks. */
  lemma KeysByPrefix<R, K>(rows: seq<R>, n: nat, key: R -> K)
    requires n <= |rows|
    ensures KeysBy(rows[..n], key) <= KeysBy(rows, key)
  {
    forall k | k in KeysBy(rows[..n], key) ensures k in KeysBy(rows, key) {
      var i :| 0 <= i < n && key(rows[..n][i]) == k;
      assert rows[..n][i] == rows[i];
    }
  }

  lemma KeysByEmpty<R, K>(rows: seq<R>, key: R -> K)
    ensures KeysBy(rows, key) == {} <==> rows == []
  {
    if rows != [] {
      assert key(rows[0]) in KeysBy(rows, key);
    }
  }

  /** Two key-disjoint sequences with distinct keys concatenate to one with distinct keys. */
  lemma UniqueByConcat<R, K>(a: seq<R>, b: seq<R>, key: R -> K)
    requires UniqueBy(a, key) && UniqueBy(b, key) && KeysBy(a, key) !! KeysBy(b, key)
    ensures UniqueBy(a + b, key)
  {
    var s := a + b;
    forall i, j | 0 <= i < j < |s| ensures key(s[i]) != key(s[j]) {
      if j < |a| {
        assert s[i] == a[i] && s[j] == a[j];
      } else if i >= |a| {
        assert s[i] == b[i - |a|] && s[j] == b[j - |a|];
      } else {
        assert s[i] == a[i] && s[j] == b[j - |a|];
        assert key(a[i]) in KeysBy(a, key);
        assert key(b[j - |a|]) in KeysBy(b, key);
      }
    }
  }

  lemma UniqueByPrefix<R, K>(rows: seq<R>, n: nat, key: R -> K)
    requires UniqueBy(rows, key) && n <= |rows|
    ensures UniqueBy(rows[..n], key)
  {
    forall i, j | 0 <= i < j < n ensures key(rows[..n][i]) != key(rows[..n][j]) {
      assert rows[..n][i] == rows[i] && rows[..n][j] == rows[j];
    }
  }
}
