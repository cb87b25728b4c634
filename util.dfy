/**
 * The string and sequence helpers of src/util.cpp and include/util.hpp:
 * `split`, a `strtok` loop that overwrites the buffer it scans, the linear
 * membership scan `one_of`, and the merge-based `intersect` of two sorted
 * ranges written through an output position.
 */
module Util {
  import opened Collections

  // ---------------------------------------------------------------------------
  // split

  /** The C string held by a buffer: everything before the first NUL. */
  function CString(s: string): (r: string)
    ensures |r| <= |s| && r == s[..|r|]
    ensures '\0' !in r
    ensures |r| < |s| ==> s[|r|] == '\0'
  {
    if s == [] || s[0] == '\0' then []
    else [s[0]] + CString(s[1..])
  }

  /** The pending token `cur`, emitted only when it is non-empty. */
  function Flush(cur: string): seq<string>
  {
    if cur == [] then [] else [cur]
  }

  /** The tokens `strtok` returns for `s` when the run `cur` is already open. */
  function TokensFrom(s: string, delims: string, cur: string): seq<string>
    decreases |s|
  {
    if s == [] then Flush(cur)
    else if s[0] in delims then Flush(cur) + TokensFrom(s[1..], delims, [])
    else TokensFrom(s[1..], delims, cur + [s[0]])
  }

  /** The maximal runs of non-delimiter characters of `s`, in order. */
  function Tokens(s: string, delims: string): seq<string>
  {
    TokensFrom(s, delims, [])
  }

  /** `s` with every delimiter deleted. */
  function DropDelims(s: string, delims: string): (r: string)
    ensures |r| <= |s|
  {
    if s == [] then []
    else if s[0] in delims then DropDelims(s[1..], delims)
    else [s[0]] + DropDelims(s[1..], delims)
  }

  function Concat(ts: seq<string>): string
  {
    if ts == [] then [] else ts[0] + Concat(ts[1..])
  }

  /** The tokens joined back together with the single separator `c`. */
  function Join(ts: seq<string>, c: char): string
  {
    if ts == [] then []
    else if |ts| == 1 then ts[0]
    else ts[0] + [c] + Join(ts[1..], c)
  }

  predicate NoDelims(t: string, delims: string)
  {
    forall i :: 0 <= i < |t| ==> t[i] !in delims
  }

  /**
   * `split(str, delimiters)`: the tokens of the C string in `str`, found with
   * `strtok`. `strtok` writes a NUL over the delimiter that ends each token;
   * every other character of the buffer is left as it was. The delimiter set
   * is itself read as a C string.
   */
  method Split(str: array<char>, delimiters: string) returns (result: seq<string>)
    modifies str
    ensures result == Tokens(CString(old(str[..])), CString(delimiters))
    ensures forall i :: 0 <= i < str.Length ==>
              str[i] == old(str[i]) || (old(str[i]) in CString(delimiters) && str[i] == '\0')
  {
    ghost var s := str[..];
    ghost var cs := CString(s);
    var d := CString(delimiters);
    ghost var all := Tokens(cs, d);
    result := [];
    var cur: string := [];
    var i := 0;
    while i < str.Length && str[i] != '\0'
      invariant 0 <= i <= |cs|
      invariant forall k :: i <= k < str.Length ==> str[k] == s[k]
      invariant forall k :: 0 <= k < i ==> str[k] == s[k] || (s[k] in d && str[k] == '\0')
      invariant result + TokensFrom(cs[i..], d, cur) == all
    {
      var ch := str[i];
      CStringAt(s, i);
      SplitStep(result, cs, i, d, cur, all);
      if ch in d {
        if cur != [] {
          result := result + [cur];
          // strtok terminates the token in place
          str[i] := '\0';
        }
        cur := [];
      } else {
        cur := cur + [ch];
      }
      i := i + 1;
    }
    CStringEnd(s, i);
    assert cs[i..] == [];
    result := result + Flush(cur);
  }

  /** A non-NUL character before the end of the C string belongs to it. */
  lemma CStringAt(s: string, i: nat)
    requires i <= |CString(s)| && i < |s| && s[i] != '\0'
    ensures i < |CString(s)| && CString(s)[i] == s[i]
  {
  }

  /** The C string ends at the first NUL, or at the end of the buffer. */
  lemma CStringEnd(s: string, i: nat)
    requires i <= |CString(s)| && (i == |s| || (i < |s| && s[i] == '\0'))
    ensures i == |CString(s)|
  {
  }

  /** One character of the loop in `Split`. */
  lemma {:induction false} TokensFromStep(cs: string, i: nat, d: string, cur: string)
    requires i < |cs|
    ensures TokensFrom(cs[i..], d, cur)
      == if cs[i] in d then Flush(cur) + TokensFrom(cs[i + 1..], d, [])
         else TokensFrom(cs[i + 1..], d, cur + [cs[i]])
  {
    assert cs[i..][0] == cs[i] && cs[i..][1..] == cs[i + 1..];
  }

  /** The loop invariant of `Split` survives one more character. */
  lemma SplitStep(result: seq<string>, cs: string, i: nat, d: string, cur: string, all: seq<string>)
    requires i < |cs|
    requires result + TokensFrom(cs[i..], d, cur) == all
    ensures cs[i] in d ==> (result + Flush(cur)) + TokensFrom(cs[i + 1..], d, []) == all
    ensures cs[i] !in d ==> result + TokensFrom(cs[i + 1..], d, cur + [cs[i]]) == all
  {
    TokensFromStep(cs, i, d, cur);
    if cs[i] in d {
      assert result + (Flush(cur) + TokensFrom(cs[i + 1..], d, [])) == all;
    }
  }

  /** Every token is non-empty and holds no delimiter. */
  lemma {:induction false} TokensFromWellFormed(s: string, delims: string, cur: string)
    requires NoDelims(cur, delims)
    ensures forall t :: t in TokensFrom(s, delims, cur) ==> t != [] && NoDelims(t, delims)
    decreases |s|
  {
    if s != [] {
      if s[0] in delims {
        TokensFromWellFormed(s[1..], delims, []);
      } else {
        TokensFromWellFormed(s[1..], delims, cur + [s[0]]);
      }
    }
  }

  lemma {:induction false} TokensWellFormed(s: string, delims: string)
    ensures forall t :: t in Tokens(s, delims) ==> t != [] && NoDelims(t, delims)
  {
    TokensFromWellFormed(s, delims, []);
  }

  lemma {:induction false} ConcatAppend(a: seq<string>, b: seq<string>)
    ensures Concat(a + b) == Concat(a) + Concat(b)
  {
    if a == [] {
      assert a + b == b;
    } else {
      assert (a + b)[0] == a[0] && (a + b)[1..] == a[1..] + b;
      ConcatAppend(a[1..], b);
      calc {
        Concat(a + b);
        a[0] + Concat(a[1..] + b);
        a[0] + (Concat(a[1..]) + Concat(b));
        (a[0] + Concat(a[1..])) + Concat(b);
      }
    }
  }

  /** Joining the tokens gives back the input with its delimiters deleted. */
  lemma {:induction false} TokensFromConcat(s: string, delims: string, cur: string)
    ensures Concat(TokensFrom(s, delims, cur)) == cur + DropDelims(s, delims)
    decreases |s|
  {
    if s != [] {
      if s[0] in delims {
        TokensFromConcat(s[1..], delims, []);
        ConcatAppend(Flush(cur), TokensFrom(s[1..], delims, []));
      } else {
        TokensFromConcat(s[1..], delims, cur + [s[0]]);
      }
    }
  }

  lemma {:induction false} TokensConcat(s: string, delims: string)
    ensures Concat(Tokens(s, delims)) == DropDelims(s, delims)
  {
    TokensFromConcat(s, delims, []);
  }

  /** Input made of delimiters only (the empty input included) has no tokens. */
  lemma {:induction false} TokensOfDelimitersOnly(s: string, delims: string)
    requires forall i :: 0 <= i < |s| ==> s[i] in delims
    ensures Tokens(s, delims) == []
    decreases |s|
  {
    if s != [] {
      TokensOfDelimitersOnly(s[1..], delims);
    }
  }

  /** A run without delimiters only extends the open token. */
  lemma {:induction false} TokensFromRun(t: string, rest: string, delims: string, cur: string)
    requires NoDelims(t, delims)
    ensures TokensFrom(t + rest, delims, cur) == TokensFrom(rest, delims, cur + t)
    decreases |t|
  {
    if t != [] {
      assert (t + rest)[0] == t[0] && (t + rest)[1..] == t[1..] + rest;
      assert t[0] !in delims;
      TokensFromRun(t[1..], rest, delims, cur + [t[0]]);
      assert t == [t[0]] + t[1..];
      calc {
        TokensFrom(t + rest, delims, cur);
        TokensFrom(t[1..] + rest, delims, cur + [t[0]]);
        TokensFrom(rest, delims, cur + [t[0]] + t[1..]);
        { assert cur + [t[0]] + t[1..] == cur + t; }
        TokensFrom(rest, delims, cur + t);
      }
    } else {
      assert t + rest == rest && cur + t == cur;
    }
  }

  /** Splitting is the inverse of joining with one delimiter: the runs are maximal. */
  lemma {:induction false} TokensOfJoin(ts: seq<string>, c: char, delims: string)
    requires c in delims
    requires forall i :: 0 <= i < |ts| ==> ts[i] != [] && NoDelims(ts[i], delims)
    ensures Tokens(Join(ts, c), delims) == ts
    decreases |ts|
  {
    if |ts| == 1 {
      TokensFromRun(ts[0], [], delims, []);
      assert ts[0] + [] == ts[0] && [] + ts[0] == ts[0];
      assert ts == [ts[0]];
    } else if |ts| > 1 {
      var rest := Join(ts[1..], c);
      assert Join(ts, c) == ts[0] + ([c] + rest);
      TokensFromRun(ts[0], [c] + rest, delims, []);
      assert ([c] + rest)[1..] == rest;
      TokensOfJoin(ts[1..], c, delims);
      assert [] + ts[0] == ts[0];
    }
  }

  // ---------------------------------------------------------------------------
  // one_of

  /** `one_of(begin, end, value)`: whether `value` equals some element of the range. */
  method OneOf<T(==)>(range: seq<T>, value: T) returns (found: bool)
    ensures found <==> value in range
  {
    var i := 0;
    while i < |range|
      invariant 0 <= i <= |range|
      invariant value !in range[..i]
    {
      if range[i] == value {
        return true;
      }
      assert range[..i + 1] == range[..i] + [range[i]];
      i := i + 1;
    }
    assert range[..i] == range;
    return false;
  }

  // ---------------------------------------------------------------------------
  // intersect

  predicate NonDecreasing(s: seq<int>)
  {
    forall i, j :: 0 <= i < j < |s| ==> s[i] <= s[j]
  }

  /** What the merge loop writes for the ranges `a` and `b`. */
  function Merged(a: seq<int>, b: seq<int>): seq<int>
    decreases |a| + |b|
  {
    if a == [] || b == [] then []
    else if a[0] == b[0] then [a[0]] + Merged(a[1..], b[1..])
    else if a[0] < b[0] then Merged(a[1..], b)
    else Merged(a, b[1..])
  }

  /**
   * `intersect(first, second, out)`: walks both ranges once, writing each
   * common element to `out` starting at `outStart`, and returns the position
   * just past the last element written. Only the written cells change.
   */
  method Intersect(a: seq<int>, b: seq<int>, out: array<int>, outStart: nat) returns (outEnd: nat)
    requires outStart + |Merged(a, b)| <= out.Length
    modifies out
    ensures outEnd == outStart + |Merged(a, b)|
    ensures out[outStart..outEnd] == Merged(a, b)
    ensures forall k :: 0 <= k < out.Length && !(outStart <= k < outEnd) ==> out[k] == old(out[k])
  {
    var i, j := 0, 0;
    outEnd := outStart;
    while i < |a| && j < |b|
      invariant 0 <= i <= |a| && 0 <= j <= |b|
      invariant outStart <= outEnd
      invariant outEnd + |Merged(a[i..], b[j..])| == outStart + |Merged(a, b)|
      invariant out[outStart..outEnd] + Merged(a[i..], b[j..]) == Merged(a, b)
      invariant forall k :: 0 <= k < out.Length && !(outStart <= k < outEnd) ==> out[k] == old(out[k])
      decreases |a| - i + |b| - j
    {
      assert a[i..][1..] == a[i + 1..] && b[j..][1..] == b[j + 1..];
      if a[i] == b[j] {
        out[outEnd] := a[i];
        assert out[outStart..outEnd + 1] == out[outStart..outEnd] + [a[i]];
        i, j, outEnd := i + 1, j + 1, outEnd + 1;
      } else if a[i] < b[j] {
        i := i + 1;
      } else {
        j := j + 1;
      }
    }
    assert Merged(a[i..], b[j..]) == [];
  }

  /** The merge of two sorted ranges is sorted. */
  lemma {:induction false} MergedNonDecreasing(a: seq<int>, b: seq<int>)
    requires NonDecreasing(a) && NonDecreasing(b)
    ensures NonDecreasing(Merged(a, b))
    ensures forall x :: x in Merged(a, b) ==> (a != [] && a[0] <= x) && (b != [] && b[0] <= x)
    decreases |a| + |b|
  {
    if a != [] && b != [] {
      if a[0] == b[0] {
        MergedNonDecreasing(a[1..], b[1..]);
        var m := Merged(a[1..], b[1..]);
        var r := [a[0]] + m;
        assert Merged(a, b) == r;
        forall i, j | 0 <= i < j < |r| ensures r[i] <= r[j] {
          if i == 0 {
            assert r[j] == m[j - 1] && m[j - 1] in m;
            assert a[0] <= a[1];
          } else {
            assert r[i] == m[i - 1] && r[j] == m[j - 1];
          }
        }
      } else if a[0] < b[0] {
        MergedNonDecreasing(a[1..], b);
      } else {
        MergedNonDecreasing(a, b[1..]);
      }
    }
  }

  /** What `intersect` writes is a subsequence of each input, hence no longer than either. */
  lemma {:induction false} MergedSubsequence(a: seq<int>, b: seq<int>)
    ensures IsSubsequence(Merged(a, b), a) && IsSubsequence(Merged(a, b), b)
    ensures |Merged(a, b)| <= |a| && |Merged(a, b)| <= |b|
    decreases |a| + |b|
  {
    if a != [] && b != [] {
      if a[0] == b[0] {
        MergedSubsequence(a[1..], b[1..]);
      } else if a[0] < b[0] {
        MergedSubsequence(a[1..], b);
        SubsequenceOfTail(Merged(a[1..], b), a);
      } else {
        MergedSubsequence(a, b[1..]);
        SubsequenceOfTail(Merged(a, b[1..]), b);
      }
    }
  }

  /** On sorted ranges every match consumes one element of each side: the
      result is the multiset intersection of the inputs. */
  lemma {:induction false} MergedIsMultisetIntersection(a: seq<int>, b: seq<int>)
    requires NonDecreasing(a) && NonDecreasing(b)
    ensures multiset(Merged(a, b)) == multiset(a) * multiset(b)
    decreases |a| + |b|
  {
    if a == [] || b == [] {
      assert multiset(a) * multiset(b) == multiset{};
    } else {
      assert a == [a[0]] + a[1..] && b == [b[0]] + b[1..];
      if a[0] == b[0] {
        MergedIsMultisetIntersection(a[1..], b[1..]);
        IntersectAddBoth(a[0], multiset(a[1..]), multiset(b[1..]));
      } else if a[0] < b[0] {
        MergedIsMultisetIntersection(a[1..], b);
        assert a[0] !in b;
        IntersectAddAbsent(a[0], multiset(a[1..]), multiset(b));
      } else {
        MergedIsMultisetIntersection(a, b[1..]);
        assert b[0] !in a;
        IntersectAddAbsent(b[0], multiset(b[1..]), multiset(a));
      }
    }
  }

  /** A common element added to both sides is added once to the intersection. */
  lemma IntersectAddBoth(x: int, p: multiset<int>, q: multiset<int>)
    ensures (multiset{x} + p) * (multiset{x} + q) == multiset{x} + p * q
  {
    forall y ensures ((multiset{x} + p) * (multiset{x} + q))[y] == (multiset{x} + p * q)[y] {
      if y == x {
        assert (multiset{x} + p)[y] == p[y] + 1 && (multiset{x} + q)[y] == q[y] + 1;
      }
    }
  }

  /** An element missing from one side does not reach the intersection. */
  lemma IntersectAddAbsent(x: int, p: multiset<int>, q: multiset<int>)
    requires x !in q
    ensures (multiset{x} + p) * q == p * q && q * (multiset{x} + p) == q * p
  {
    forall y ensures ((multiset{x} + p) * q)[y] == (p * q)[y] {
      if y == x {
        assert q[y] == 0;
      }
    }
    assert q * (multiset{x} + p) == (multiset{x} + p) * q;
    assert q * p == p * q;
  }

  /** Hence an element is written exactly when it occurs in both ranges. */
  lemma {:induction false} MergedMembership(a: seq<int>, b: seq<int>, x: int)
    requires NonDecreasing(a) && NonDecreasing(b)
    ensures x in Merged(a, b) <==> x in a && x in b
  {
    MergedIsMultisetIntersection(a, b);
    assert x in Merged(a, b) <==> multiset(Merged(a, b))[x] > 0;
  }
}
