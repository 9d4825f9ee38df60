/** Sequence facts shared by the path search and the entity registry. */
module Seqs {

  /** No element occurs twice. */
  predicate Distinct<T(==)>(s: seq<T>) {
    forall i, j :: 0 <= i < j < |s| ==> s[i] != s[j]
  }

  /** A slice of a concatenation that lies within one of the two parts is a
      slice of that part. */
  lemma SliceConcat<T>(a: seq<T>, b: seq<T>, i: int, j: int)
    requires 0 <= i <= j <= |a| + |b|
    ensures j <= |a| ==> (a + b)[i..j] == a[i..j]
    ensures |a| <= i ==> (a + b)[i..j] == b[i - |a|..j - |a|]
  {
    if j <= |a| {
      assert forall k :: 0 <= k < j - i ==> (a + b)[i..j][k] == a[i..j][k];
    }
    if |a| <= i {
      assert forall k :: 0 <= k < j - i ==> (a + b)[i..j][k] == b[i - |a|..j - |a|][k];
    }
  }

  /** A slice of a slice is a slice of the whole. */
  lemma SliceOfSlice<T>(s: seq<T>, lo: int, hi: int, i: int, j: int)
    requires 0 <= lo <= hi <= |s| && 0 <= i <= j <= hi - lo
    ensures s[lo..hi][i..j] == s[lo + i..lo + j]
  {
    forall k | 0 <= k < j - i
      ensures s[lo..hi][i..j][k] == s[lo + i..lo + j][k]
    {
      assert s[lo..hi][i..j][k] == s[lo..hi][i + k] == s[lo + i + k];
    }
  }

  /** Being a prefix is transitive. */
  lemma PrefixOfPrefix<T>(a: seq<T>, b: seq<T>, c: seq<T>)
    requires |a| <= |b| <= |c| && b[..|a|] == a && c[..|b|] == b
    ensures c[..|a|] == a
  {
    assert c[..|a|] == c[..|b|][..|a|];
  }

  /** Replacing element k by v adds v and keeps every other element. */
  lemma UpdateMembers<T>(s: seq<T>, k: int, v: T)
    requires 0 <= k < |s|
    ensures v in multiset(s[k := v])
    ensures forall x :: x in multiset(s[k := v]) ==> x in multiset(s) || x == v
    ensures forall x :: x in multiset(s) && x != s[k] ==> x in multiset(s[k := v])
  {
    assert s[k := v][k] == v;
    forall x | x in multiset(s) && x != s[k]
      ensures x in multiset(s[k := v])
    {
      var j :| 0 <= j < |s| && s[j] == x;
      assert s[k := v][j] == x;
    }
  }
}
