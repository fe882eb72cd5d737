/**
 * The order `groupby` sorts its string keys in: lexicographic by character
 * code, a proper prefix coming first.
 */
module Order {

  /** `a` sorts strictly before `b`. */
  predicate Before(a: string, b: string) {
    if a == [] then b != []
    else b != [] && (a[0] < b[0] || (a[0] == b[0] && Before(a[1..], b[1..])))
  }

  lemma {:induction false} BeforeIrreflexive(a: string)
    ensures !Before(a, a)
  {
    if a != [] {
      BeforeIrreflexive(a[1..]);
    }
  }

  lemma {:induction false} BeforeTransitive(a: string, b: string, c: string)
    requires Before(a, b) && Before(b, c)
    ensures Before(a, c)
  {
    if a != [] && a[0] == b[0] && b[0] == c[0] {
      BeforeTransitive(a[1..], b[1..], c[1..]);
    }
  }

  /** Any two different strings are ordered one way or the other. */
  lemma {:induction false} BeforeTotal(a: string, b: string)
    requires a != b
    ensures Before(a, b) || Before(b, a)
  {
    if a != [] && b != [] && a[0] == b[0] {
      assert a == [a[0]] + a[1..] && b == [b[0]] + b[1..];
      BeforeTotal(a[1..], b[1..]);
    }
  }

  /** The keys are in strictly increasing order. */
  predicate Sorted(ks: seq<string>) {
    forall i, j :: 0 <= i < j < |ks| ==> Before(ks[i], ks[j])
  }

  /** A strictly increasing sequence repeats no key. */
  lemma SortedDistinct(ks: seq<string>)
    requires Sorted(ks)
    ensures forall i, j :: 0 <= i < j < |ks| ==> ks[i] != ks[j]
  {
    forall i, j | 0 <= i < j < |ks| ensures ks[i] != ks[j] {
      BeforeIrreflexive(ks[i]);
    }
  }

  /** The tail of sorted keys is sorted and does not hold the head. */
  lemma SortedTail(ks: seq<string>)
    requires ks != [] && Sorted(ks)
    ensures Sorted(ks[1..]) && ks[0] !in ks[1..]
  {
    SortedDistinct(ks);
    assert forall i :: 0 <= i < |ks[1..]| ==> ks[1..][i] == ks[i + 1];
  }

  /** Adds key `k` to the sorted keys `ks` at its place, unless it is already there. */
  function Insert(ks: seq<string>, k: string): (r: seq<string>)
    requires Sorted(ks)
    ensures Sorted(r)
    ensures forall x :: x in r <==> x in ks || x == k
    ensures |r| == if k in ks then |ks| else |ks| + 1
  {
    if ks == [] then [k]
    else if ks[0] == k then ks
    else if Before(k, ks[0]) then
      forall j | 0 <= j < |ks| ensures Before(k, ks[j]) {
        if j > 0 {
          BeforeTransitive(k, ks[0], ks[j]);
        }
      }
      BeforeIrreflexive(k);
      assert k !in ks;
      var r := [k] + ks;
      forall i, j | 0 <= i < j < |r| ensures Before(r[i], r[j]) {
        assert r[j] == ks[j - 1];
        if i > 0 {
          assert r[i] == ks[i - 1];
        }
      }
      r
    else
      var rest := Insert(ks[1..], k);
      BeforeTotal(k, ks[0]);
      assert ks == [ks[0]] + ks[1..];
      forall j | 0 <= j < |rest| ensures Before(ks[0], rest[j]) {
        if rest[j] != k {
          assert rest[j] in ks[1..];
          var m :| 0 <= m < |ks[1..]| && ks[1..][m] == rest[j];
          assert ks[m + 1] == rest[j];
        }
      }
      assert forall i :: 0 < i <= |rest| ==> ([ks[0]] + rest)[i] == rest[i - 1];
      [ks[0]] + rest
  }
}
