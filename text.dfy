/**
 * Character and string primitives the C++ code takes from its standard
 * library: the ASCII character classes of `isalnum`/`isdigit`/`tolower`,
 * the lexicographic `operator<` of `std::string`, `std::string::find`,
 * `std::string::substr`, and the wrap-around arithmetic of `size_t`.
 */
module Text {
  import opened Collections

  predicate IsDigit(c: char) { '0' <= c <= '9' }

  predicate IsAlnum(c: char) { IsDigit(c) || 'a' <= c <= 'z' || 'A' <= c <= 'Z' }

  /** ASCII `tolower`: upper-case letters map to lower case, everything else is kept. */
  function ToLower(c: char): (r: char)
    ensures !('A' <= r <= 'Z')
    ensures IsAlnum(r) <==> IsAlnum(c)
    ensures !('A' <= c <= 'Z') ==> r == c
  {
    if 'A' <= c <= 'Z' then (c as int + 32) as char else c
  }

  /** `std::transform(s.begin(), s.end(), s.begin(), tolower)`. */
  function Lower(s: string): (r: string)
    ensures |r| == |s|
    ensures forall i :: 0 <= i < |s| ==> r[i] == ToLower(s[i])
  {
    seq(|s|, i requires 0 <= i < |s| => ToLower(s[i]))
  }

  // ---------------------------------------------------------------------------
  // Lexicographic order of std::string

  /** `a < b` for strings: the first differing character decides, a proper prefix is smaller. */
  predicate LexLess(a: string, b: string)
    decreases |a|
  {
    if a == [] then b != []
    else if b == [] then false
    else if a[0] != b[0] then a[0] < b[0]
    else LexLess(a[1..], b[1..])
  }

  lemma {:induction false} LexLessIrreflexive(a: string)
    ensures !LexLess(a, a)
    decreases |a|
  {
    if a != [] { LexLessIrreflexive(a[1..]); }
  }

  lemma {:induction false} LexLessTransitive(a: string, b: string, c: string)
    requires LexLess(a, b) && LexLess(b, c)
    ensures LexLess(a, c)
    decreases |a|
  {
    if a != [] && a[0] == b[0] && b[0] == c[0] {
      LexLessTransitive(a[1..], b[1..], c[1..]);
    }
  }

  /** Any two strings are equal or ordered one way. */
  lemma {:induction false} LexLessTotal(a: string, b: string)
    ensures a == b || LexLess(a, b) || LexLess(b, a)
    decreases |a|
  {
    if a != [] && b != [] && a[0] == b[0] {
      LexLessTotal(a[1..], b[1..]);
      if a[1..] == b[1..] {
        assert a == [a[0]] + a[1..] && b == [b[0]] + b[1..];
      }
    }
  }

  /** At most one of `a < b`, `b < a` holds. */
  lemma {:induction false} LexLessAsymmetric(a: string, b: string)
    requires LexLess(a, b)
    ensures !LexLess(b, a)
    decreases |a|
  {
    if a != [] && b != [] && a[0] == b[0] {
      LexLessAsymmetric(a[1..], b[1..]);
    }
  }

  /** Ascending order as `std::sort` with `operator<` leaves it (equal neighbours allowed). */
  predicate Ascending(s: seq<string>)
  {
    forall i, j :: 0 <= i < j < |s| ==> !LexLess(s[j], s[i])
  }

  /** Ascending with no repeated element. */
  predicate StrictlyAscending(s: seq<string>)
  {
    forall i, j :: 0 <= i < j < |s| ==> LexLess(s[i], s[j])
  }

  // ---------------------------------------------------------------------------
  // std::string::find and std::string::substr

  /** `pat` occurs in `s` at index `k`. */
  predicate OccursAt(s: string, pat: string, k: nat)
  {
    k + |pat| <= |s| && MatchesFrom(s, pat, k, 0)
  }

  /** The characters of `pat` from index `j` on are those of `s` from `k + j` on. */
  predicate MatchesFrom(s: string, pat: string, k: nat, j: nat)
    requires k + |pat| <= |s|
    decreases |pat| - j
  {
    j >= |pat| || (s[k + j] == pat[j] && MatchesFrom(s, pat, k, j + 1))
  }

  lemma {:induction false} MatchesFromChars(s: string, pat: string, k: nat, j: nat)
    requires k + |pat| <= |s|
    ensures MatchesFrom(s, pat, k, j) <==> forall i :: j <= i < |pat| ==> s[k + i] == pat[i]
    decreases |pat| - j
  {
    if j < |pat| {
      MatchesFromChars(s, pat, k, j + 1);
    }
  }

  /** An occurrence, as a slice. */
  lemma {:induction false} OccursAtSlice(s: string, pat: string, k: nat)
    ensures OccursAt(s, pat, k) <==> k + |pat| <= |s| && s[k..k + |pat|] == pat
  {
    if k + |pat| <= |s| {
      MatchesFromChars(s, pat, k, 0);
      if forall i :: 0 <= i < |pat| ==> s[k + i] == pat[i] {
        assert s[k..k + |pat|] == pat;
      } else {
        var i :| 0 <= i < |pat| && s[k + i] != pat[i];
        assert s[k..k + |pat|][i] != pat[i];
      }
    }
  }

  /** `s.find(pat, from)`: the first index at or after `from` where `pat` occurs;
      None stands for `npos`. */
  function Find(s: string, pat: string, from: nat): (r: Option<nat>)
    ensures r.Some? ==> from <= r.value && OccursAt(s, pat, r.value)
    ensures r.Some? ==> forall k :: from <= k < r.value ==> !OccursAt(s, pat, k)
    ensures r.None? ==> forall k :: from <= k ==> !OccursAt(s, pat, k)
    decreases |s| - from
  {
    if from + |pat| > |s| then None
    else if OccursAt(s, pat, from) then Some(from)
    else Find(s, pat, from + 1)
  }

  /** Find returns the first occurrence it reaches. */
  lemma {:induction false} FindIs(s: string, pat: string, from: nat, p: nat)
    requires from <= p && OccursAt(s, pat, p)
    requires forall k :: from <= k < p ==> !OccursAt(s, pat, k)
    ensures Find(s, pat, from) == Some(p)
  {
  }

  /** An occurrence, character by character. */
  lemma {:induction false} OccursAtChars(s: string, pat: string, k: nat)
    ensures OccursAt(s, pat, k) <==>
      k + |pat| <= |s| && forall i :: k <= i < k + |pat| ==> s[i] == pat[i - k]
  {
    if k + |pat| <= |s| {
      MatchesFromChars(s, pat, k, 0);
      assert (forall i :: 0 <= i < |pat| ==> s[k + i] == pat[i]) <==>
        (forall i :: k <= i < k + |pat| ==> s[i] == pat[i - k]) by {
        if forall i :: 0 <= i < |pat| ==> s[k + i] == pat[i] {
          forall i | k <= i < k + |pat| ensures s[i] == pat[i - k] {
            assert s[k + (i - k)] == pat[i - k];
          }
        }
      }
    }
  }

  /** Find fails when there is no occurrence at or after `from`. */
  lemma {:induction false} FindNone(s: string, pat: string, from: nat)
    requires forall k :: from <= k ==> !OccursAt(s, pat, k)
    ensures Find(s, pat, from).None?
  {
  }

  /** Find skips a stretch where the pattern does not occur. */
  lemma {:induction false} FindSkip(s: string, pat: string, from: nat, until: nat)
    requires from <= until
    requires forall k :: from <= k < until ==> !OccursAt(s, pat, k)
    ensures Find(s, pat, from) == Find(s, pat, until)
    decreases until - from
  {
    if from < until && from + |pat| <= |s| {
      FindSkip(s, pat, from + 1, until);
    }
  }

  /** Nothing is found in `a + b` from |a| on when nothing is found in `b`. */
  lemma {:induction false} FindAfter(a: string, b: string, pat: string)
    requires Find(b, pat, 0).None?
    ensures Find(a + b, pat, |a|).None?
  {
    forall k | |a| <= k ensures !OccursAt(a + b, pat, k) {
      OccursAtSuffix(a, b, pat, k - |a|);
    }
    FindNone(a + b, pat, |a|);
  }

  /** The first `c` at or after `from`, found by looking at single characters. */
  lemma {:induction false} FindChar(s: string, c: char, from: nat, p: nat)
    requires from <= p < |s| && s[p] == c
    requires forall k :: from <= k < p ==> s[k] != c
    ensures Find(s, [c], from) == Some(p)
  {
    forall k | from <= k <= p ensures OccursAt(s, [c], k) <==> s[k] == c {
      OccursAtSlice(s, [c], k);
      assert s[k..k + 1] == [s[k]];
    }
    FindIs(s, [c], from, p);
  }

  /** An occurrence that ends inside `a` is an occurrence in `a + b`, and back. */
  lemma {:induction false} OccursAtPrefix(a: string, b: string, pat: string, k: nat)
    requires k + |pat| <= |a|
    ensures OccursAt(a + b, pat, k) <==> OccursAt(a, pat, k)
  {
    OccursAtSlice(a + b, pat, k);
    OccursAtSlice(a, pat, k);
    assert (a + b)[k..k + |pat|] == a[k..k + |pat|];
  }

  /** An occurrence in `b` is an occurrence in `a + b` shifted by |a|, and back. */
  lemma {:induction false} OccursAtSuffix(a: string, b: string, pat: string, k: nat)
    ensures OccursAt(a + b, pat, |a| + k) <==> OccursAt(b, pat, k)
  {
    OccursAtSlice(a + b, pat, |a| + k);
    OccursAtSlice(b, pat, k);
    if |a| + k + |pat| <= |a + b| {
      assert (a + b)[|a| + k..|a| + k + |pat|] == b[k..k + |pat|];
    }
  }

  /** `s.substr(pos, count)`: None when `pos > |s|` (the `out_of_range` exception);
      otherwise at most `count` characters starting at `pos`. */
  function Substr(s: string, pos: nat, count: nat): (r: Option<string>)
    ensures r.None? <==> pos > |s|
    ensures r.Some? ==> r.value == s[pos..if pos + count <= |s| then pos + count else |s|]
  {
    if pos > |s| then None
    else if pos + count <= |s| then Some(s[pos..pos + count])
    else Some(s[pos..])
  }

  // ---------------------------------------------------------------------------
  // size_t arithmetic

  const SIZE_T_RANGE: nat := 0x1_0000_0000_0000_0000

  /** `std::string::npos`, the largest `size_t`. */
  const NPOS: nat := SIZE_T_RANGE - 1

  /** A `find` result as the `size_t` the C++ code stores. */
  function Pos(r: Option<nat>): nat
  {
    if r.Some? then r.value else NPOS
  }

  /** Unsigned `a + b` and `a - b` on `size_t`: both wrap around modulo 2^64. */
  function AddSize(a: nat, b: nat): (r: nat)
    requires a < SIZE_T_RANGE && b < SIZE_T_RANGE
    ensures r < SIZE_T_RANGE && (r - (a + b)) % SIZE_T_RANGE == 0
  {
    if a + b < SIZE_T_RANGE then a + b else a + b - SIZE_T_RANGE
  }

  function SubSize(a: nat, b: nat): (r: nat)
    requires a < SIZE_T_RANGE && b < SIZE_T_RANGE
    ensures r < SIZE_T_RANGE && (r - (a - b)) % SIZE_T_RANGE == 0
  {
    if a >= b then a - b else a - b + SIZE_T_RANGE
  }
}
