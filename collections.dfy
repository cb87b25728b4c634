/**
 * Value helpers shared by the model: an option type for the error paths of
 * the source, sums over the values of a map (the source accumulates over
 * unordered maps, whose iteration order must not matter), and a few
 * sequence predicates.
 */
module Collections {

  datatype Option<+T> = None | Some(value: T)

  /** The value stored under `k`, or `default` when `k` is absent
      (what `operator[]` of an unordered map yields for a missing key). */
  function Get<K, V>(m: map<K, V>, k: K, default: V): V
  {
    if k in m then m[k] else default
  }

  /** Sum of the values of a map, in no particular order. */
  ghost function Sum<K>(m: map<K, real>): real
    decreases |m|
  {
    if m == map[] then 0.0
    else
      var k :| k in m;
      m[k] + Sum(m - {k})
  }

  /** The sum does not depend on which key is taken out first. */
  lemma {:induction false} SumRemove<K>(m: map<K, real>, k: K)
    requires k in m
    ensures Sum(m) == m[k] + Sum(m - {k})
    decreases |m|
  {
    var j :| j in m && Sum(m) == m[j] + Sum(m - {j});
    if j != k {
      assert |m - {j}| < |m|;
      SumRemove(m - {j}, k);
      SumRemove(m - {k}, j);
      assert (m - {j}) - {k} == (m - {k}) - {j};
    }
  }

  /** Changing one value changes the sum by the difference. */
  lemma {:induction false} SumUpdate<K>(m: map<K, real>, k: K, v: real)
    ensures Sum(m[k := v]) == Sum(m) - Get(m, k, 0.0) + v
  {
    SumRemove(m[k := v], k);
    assert m[k := v] - {k} == m - {k};
    if k in m {
      SumRemove(m, k);
    } else {
      assert m - {k} == m;
    }
  }
  /** A sum of non-negative values is non-negative and bounds every value. */
  lemma {:induction false} SumBounds<K>(m: map<K, real>, k: K)
    requires forall j :: j in m ==> m[j] >= 0.0
    requires k in m
    ensures m[k] <= Sum(m)
  {
    SumRemove(m, k);
    SumNonNegative(m - {k});
  }

  lemma {:induction false} SumNonNegative<K>(m: map<K, real>)
    requires forall j :: j in m ==> m[j] >= 0.0
    ensures Sum(m) >= 0.0
    decreases |m|
  {
    if m != map[] {
      var k :| k in m && Sum(m) == m[k] + Sum(m - {k});
      SumNonNegative(m - {k});
    }
  }

  /** A sum of positive values over a non-empty map is positive. */
  lemma {:induction false} SumPositive<K>(m: map<K, real>)
    requires forall j :: j in m ==> m[j] > 0.0
    requires m != map[]
    ensures Sum(m) > 0.0
  {
    var k :| k in m;
    SumRemove(m, k);
    SumNonNegative(m - {k});
  }

  /** A positive count over a count at least as large is a fraction in (0, 1]. */
  lemma FractionInUnit(k: real, n: real)
    requires 0.0 < k <= n
    ensures 0.0 < k / n <= 1.0
  {
  }

  /** A sum of values at most one is at most the number of keys. */
  lemma {:induction false} SumAtMostSize<K>(m: map<K, real>)
    requires forall j :: j in m ==> m[j] <= 1.0
    ensures Sum(m) <= |m| as real
    decreases |m|
  {
    if m != map[] {
      var k :| k in m && Sum(m) == m[k] + Sum(m - {k});
      SumAtMostSize(m - {k});
    }
  }

  /** `sub` is obtained from `s` by deleting elements. */
  ghost predicate IsSubsequence<T>(sub: seq<T>, s: seq<T>)
    decreases |s|
  {
    if sub == [] then true
    else if s == [] then false
    else if sub[0] == s[0] then IsSubsequence(sub[1..], s[1..])
    else IsSubsequence(sub, s[1..])
  }

  /** A subsequence of the tail is a subsequence of the whole. */
  lemma {:induction false} SubsequenceOfTail<T>(sub: seq<T>, s: seq<T>)
    requires s != [] && IsSubsequence(sub, s[1..])
    ensures IsSubsequence(sub, s)
    decreases |s|, |sub|
  {
    if sub != [] && sub[0] == s[0] {
      SubsequenceDropHead(sub, s[1..]);
    }
  }

  /** Dropping the first element of a subsequence keeps it a subsequence. */
  lemma {:induction false} SubsequenceDropHead<T>(sub: seq<T>, t: seq<T>)
    requires sub != [] && IsSubsequence(sub, t)
    ensures IsSubsequence(sub[1..], t)
    decreases |t|, |sub|
  {
    if sub[0] == t[0] {
      SubsequenceOfTail(sub[1..], t);
    } else {
      SubsequenceDropHead(sub, t[1..]);
      SubsequenceOfTail(sub[1..], t);
    }
  }

  lemma {:induction false} SubsequenceTransitive<T>(x: seq<T>, y: seq<T>, z: seq<T>)
    requires IsSubsequence(x, y) && IsSubsequence(y, z)
    ensures IsSubsequence(x, z)
    decreases |z|, |y|
  {
    if x != [] && y != [] {
      if y[0] == z[0] {
        if x[0] == y[0] {
          SubsequenceTransitive(x[1..], y[1..], z[1..]);
        } else {
          SubsequenceTransitive(x, y[1..], z[1..]);
          SubsequenceOfTail(x, z);
        }
      } else {
        SubsequenceTransitive(x, y, z[1..]);
        SubsequenceOfTail(x, z);
      }
    }
  }

  lemma {:induction false} SubsequenceReflexive<T>(s: seq<T>)
    ensures IsSubsequence(s, s)
    decreases |s|
  {
    if s != [] { SubsequenceReflexive(s[1..]); }
  }

  /** Every slice of a sequence is a subsequence of it. */
  lemma {:induction false} SliceIsSubsequence<T>(s: seq<T>, a: nat, b: nat)
    requires a <= b <= |s|
    ensures IsSubsequence(s[a..b], s)
    decreases |s|
  {
    if a < b {
      if a == 0 {
        assert s[a..b][0] == s[0] && s[a..b][1..] == s[1..][0..b - 1];
        SliceIsSubsequence(s[1..], 0, b - 1);
      } else {
        assert s[a..b] == s[1..][a - 1..b - 1] by {
          forall i | 0 <= i < b - a ensures s[a..b][i] == s[1..][a - 1..b - 1][i] {
            assert s[1..][a - 1 + i] == s[a + i];
          }
        }
        SliceIsSubsequence(s[1..], a - 1, b - 1);
        SubsequenceOfTail(s[a..b], s);
      }
    }
  }

  /** The elements of `s` that satisfy `keep`, in order. */
  function Filter<T>(s: seq<T>, keep: T -> bool): (r: seq<T>)
    ensures |r| <= |s|
  {
    if s == [] then []
    else if keep(s[0]) then [s[0]] + Filter(s[1..], keep)
    else Filter(s[1..], keep)
  }

  /** The survivors of a filter are exactly the elements that pass it. */
  lemma {:induction false} FilterMembership<T>(s: seq<T>, keep: T -> bool)
    ensures forall x :: x in Filter(s, keep) <==> x in s && keep(x)
    decreases |s|
  {
    if s != [] {
      FilterMembership(s[1..], keep);
      assert forall x :: x in s <==> x == s[0] || x in s[1..];
    }
  }

  /** Filtering one more element at the end. */
  lemma {:induction false} FilterAppend<T>(s: seq<T>, x: T, keep: T -> bool)
    ensures Filter(s + [x], keep) == Filter(s, keep) + (if keep(x) then [x] else [])
    decreases |s|
  {
    if s == [] {
      assert [x][1..] == [];
    } else {
      assert (s + [x])[0] == s[0] && (s + [x])[1..] == s[1..] + [x];
      FilterAppend(s[1..], x, keep);
    }
  }

  /** Filtering keeps the survivors in their order. */
  lemma {:induction false} FilterSubsequence<T>(s: seq<T>, keep: T -> bool)
    ensures IsSubsequence(Filter(s, keep), s)
    decreases |s|
  {
    if s != [] {
      FilterSubsequence(s[1..], keep);
      if keep(s[0]) {
        assert Filter(s, keep)[1..] == Filter(s[1..], keep);
      } else {
        SubsequenceOfTail(Filter(s, keep), s);
      }
    }
  }

  /** `v.erase(std::remove_if(v.begin(), v.end(), ...), v.end())`: the elements
      that are kept, moved to the front in order, and the rest cut off. */
  method EraseIf<T>(v: seq<T>, keep: T -> bool) returns (r: seq<T>)
    ensures r == Filter(v, keep)
  {
    r := [];
    var i := 0;
    while i < |v|
      invariant 0 <= i <= |v|
      invariant r == Filter(v[..i], keep)
    {
      FilterAppend(v[..i], v[i], keep);
      assert v[..i + 1] == v[..i] + [v[i]];
      if keep(v[i]) {
        r := r + [v[i]];
      }
      i := i + 1;
    }
    assert v[..i] == v;
  }

  /** No element occurs twice. */
  predicate Distinct<T(==)>(s: seq<T>)
  {
    forall i, j :: 0 <= i < j < |s| ==> s[i] != s[j]
  }
}
