/**
 * The table primitives the pipeline calls on a data frame, over a frame seen
 * as the sequence of its rows in index order: boolean-mask selection
 * (`df[mask]`), `drop_duplicates(subset=key, keep="last")` and the set of
 * distinct keys that `nunique` counts.
 */
module Frame {

  /** Boolean-mask selection `df[mask]`: the rows satisfying `keep`, taken front to back (`SelectCons`). */
  function Select<T>(s: seq<T>, keep: T -> bool): (r: seq<T>)
    ensures |r| <= |s|
  {
    if s == [] then [] else (if keep(s[0]) then [s[0]] else []) + Select(s[1..], keep)
  }

  /** Every selected row is a row of the table that satisfies the mask. */
  lemma {:induction false} SelectSound<T>(s: seq<T>, keep: T -> bool)
    ensures forall i :: 0 <= i < |Select(s, keep)| ==> Select(s, keep)[i] in s && keep(Select(s, keep)[i])
  {
    if s != [] {
      var t := s[1..];
      SelectSound(t, keep);
      var head := if keep(s[0]) then [s[0]] else [];
      var r := Select(s, keep);
      assert r == head + Select(t, keep);
      forall i | 0 <= i < |r| ensures r[i] in s && keep(r[i]) {
        if i < |head| {
          assert r[i] == s[0];
        } else {
          assert r[i] == Select(t, keep)[i - |head|];
          assert r[i] in t;
          var m :| 0 <= m < |t| && t[m] == r[i];
          assert s[m + 1] == r[i];
        }
      }
    }
  }

  /** Every row of the table that satisfies the mask is selected. */
  lemma {:induction false} SelectComplete<T>(s: seq<T>, keep: T -> bool)
    ensures forall i :: 0 <= i < |s| && keep(s[i]) ==> s[i] in Select(s, keep)
  {
    if s != [] {
      SelectComplete(s[1..], keep);
      assert forall i :: 0 < i < |s| ==> s[i] == s[1..][i - 1];
    }
  }

  lemma SelectCons<T>(x: T, t: seq<T>, keep: T -> bool)
    ensures Select([x] + t, keep) == (if keep(x) then [x] else []) + Select(t, keep)
  {
    assert ([x] + t)[1..] == t;
  }

  /** The distinct keys carried by the rows of `s`. */
  function KeySet<T, K>(s: seq<T>, key: T -> K): (ks: set<K>)
    ensures forall i :: 0 <= i < |s| ==> key(s[i]) in ks
  {
    if s == [] then {} else {key(s[0])} + KeySet(s[1..], key)
  }

  /** Every key in the set is carried by some row. */
  lemma {:induction false} KeySetWitness<T, K>(s: seq<T>, key: T -> K, k: K)
    requires k in KeySet(s, key)
    ensures exists i :: 0 <= i < |s| && key(s[i]) == k
  {
    if key(s[0]) != k {
      KeySetWitness(s[1..], key, k);
      var i :| 0 <= i < |s[1..]| && key(s[1..][i]) == k;
      assert s[1..][i] == s[i + 1];
    }
  }

  lemma KeySetCons<T, K>(x: T, t: seq<T>, key: T -> K)
    ensures KeySet([x] + t, key) == {key(x)} + KeySet(t, key)
  {
    assert ([x] + t)[1..] == t;
  }

  /** There are no more distinct keys than rows. */
  lemma {:induction false} KeySetSize<T, K>(s: seq<T>, key: T -> K)
    ensures |KeySet(s, key)| <= |s|
  {
    if s != [] {
      KeySetSize(s[1..], key);
    }
  }

  /** No two rows of `s` share a key. */
  predicate DistinctKeys<T, K(==)>(s: seq<T>, key: T -> K) {
    forall i, j :: 0 <= i < j < |s| ==> key(s[i]) != key(s[j])
  }

  /**
   * `drop_duplicates(subset=key, keep="last")`: of the rows sharing a key only
   * the last one stays (`DedupLastKeepsLast`, `DedupLastOnlyLast`), taken front
   * to back (`DedupLastCons`).
   */
  function DedupLast<T, K(==)>(s: seq<T>, key: T -> K): (r: seq<T>)
    ensures |r| <= |s|
    ensures forall i :: 0 <= i < |r| ==> r[i] in s
    ensures KeySet(r, key) == KeySet(s, key)
    ensures DistinctKeys(r, key)
  {
    if s == [] then []
    else
      var rest := DedupLast(s[1..], key);
      KeySetCons(s[0], s[1..], key);
      assert s == [s[0]] + s[1..];
      if key(s[0]) in KeySet(s[1..], key) then rest
      else
        KeySetCons(s[0], rest, key);
        [s[0]] + rest
  }

  lemma DedupLastCons<T, K>(x: T, t: seq<T>, key: T -> K)
    ensures DedupLast([x] + t, key) ==
      if key(x) in KeySet(t, key) then DedupLast(t, key) else [x] + DedupLast(t, key)
  {
    assert ([x] + t)[1..] == t;
  }

  /** No row after position `i` carries the key of row `i`. */
  predicate LastOfKey<T, K(==)>(s: seq<T>, key: T -> K, i: int)
    requires 0 <= i < |s|
  {
    forall j :: i < j < |s| ==> key(s[j]) != key(s[i])
  }

  /** Keep-last: every row that is the last of its key stays. */
  lemma {:induction false} DedupLastKeepsLast<T, K>(s: seq<T>, key: T -> K)
    ensures forall i :: 0 <= i < |s| && LastOfKey(s, key, i) ==> s[i] in DedupLast(s, key)
  {
    if s != [] {
      var x, t := s[0], s[1..];
      assert s == [x] + t;
      DedupLastKeepsLast(t, key);
      DedupLastCons(x, t, key);
      forall i | 0 <= i < |s| && LastOfKey(s, key, i) ensures s[i] in DedupLast(s, key) {
        if i == 0 {
          if key(x) in KeySet(t, key) {
            KeySetWitness(t, key, key(x));
            assert false;
          }
        } else {
          assert t[i - 1] == s[i];
          assert LastOfKey(t, key, i - 1) by {
            forall j | i - 1 < j < |t| ensures key(t[j]) != key(t[i - 1]) {
              assert t[j] == s[j + 1];
            }
          }
        }
      }
    }
  }

  /** Keep-last: every row that stays is the last row of its key. */
  lemma {:induction false} DedupLastOnlyLast<T, K>(s: seq<T>, key: T -> K)
    ensures var r := DedupLast(s, key);
      forall i :: 0 <= i < |r| ==> exists m :: 0 <= m < |s| && s[m] == r[i] && LastOfKey(s, key, m)
  {
    if s != [] {
      var x, t := s[0], s[1..];
      assert s == [x] + t;
      DedupLastOnlyLast(t, key);
      DedupLastCons(x, t, key);
      var r, rt := DedupLast(s, key), DedupLast(t, key);
      forall i | 0 <= i < |r| ensures exists m :: 0 <= m < |s| && s[m] == r[i] && LastOfKey(s, key, m) {
        if key(x) !in KeySet(t, key) && i == 0 {
          assert r[0] == x && LastOfKey(s, key, 0);
        } else {
          var i' := if key(x) in KeySet(t, key) then i else i - 1;
          assert r[i] == rt[i'];
          var m :| 0 <= m < |t| && t[m] == rt[i'] && LastOfKey(t, key, m);
          assert s[m + 1] == r[i];
          assert LastOfKey(s, key, m + 1) by {
            forall j | m + 1 < j < |s| ensures key(s[j]) != key(s[m + 1]) {
              assert s[j] == t[j - 1];
            }
          }
        }
      }
    }
  }

  /** Selecting rows never makes two of them share a key. */
  lemma {:induction false} SelectKeepsDistinct<T, K>(s: seq<T>, keep: T -> bool, key: T -> K)
    requires DistinctKeys(s, key)
    ensures DistinctKeys(Select(s, keep), key)
  {
    if s != [] {
      var t := s[1..];
      assert DistinctKeys(t, key) by {
        forall i, j | 0 <= i < j < |t| ensures key(t[i]) != key(t[j]) {
          assert t[i] == s[i + 1] && t[j] == s[j + 1];
        }
      }
      SelectKeepsDistinct(t, keep, key);
      SelectSound(t, keep);
      var r := Select(t, keep);
      if keep(s[0]) {
        forall j | 0 <= j < |r| ensures key(s[0]) != key(r[j]) {
          assert r[j] in t;
          var m :| 0 <= m < |t| && t[m] == r[j];
          assert t[m] == s[m + 1];
        }
      }
    }
  }

  /** When no two rows share a key, there are as many distinct keys as rows. */
  lemma {:induction false} DistinctKeysCard<T, K>(s: seq<T>, key: T -> K)
    requires DistinctKeys(s, key)
    ensures |KeySet(s, key)| == |s|
  {
    if s != [] {
      var t := s[1..];
      assert DistinctKeys(t, key) by {
        forall i, j | 0 <= i < j < |t| ensures key(t[i]) != key(t[j]) {
          assert t[i] == s[i + 1] && t[j] == s[j + 1];
        }
      }
      DistinctKeysCard(t, key);
      if key(s[0]) in KeySet(t, key) {
        KeySetWitness(t, key, key(s[0]));
        assert false;
      }
    }
  }

}
