/**
 * The tokenizer: splitting a document on white space, stripping
 * punctuation, case folding, stopword removal and stemming, and the
 * term-count bookkeeping a `Tokenizer` object keeps across calls.
 *
 * The stopword list and the stemmer are supplied when the tokenizer is
 * built: the list as a set of words, the stemmer as the function giving the
 * index of the last character of a word's stem.
 */
module Tokenizer {
  import opened Collections
  import opened Text
  import Util

  /** The delimiters `tokenize` splits on: space, tab, line feed, carriage
      return, vertical tab and form feed. */
  const WHITESPACE: string := " \t\n\r\U{000B}\U{000C}"

  // ---------------------------------------------------------------------------
  // remove_punctuation

  /** The characters removed from anywhere in a token. */
  predicate IsQuoteLike(c: char)
  {
    c == '\"' || c == ',' || c == '<' || c == '>' || c == '\''
  }

  /** `std::replace(s.begin(), s.end(), from, to)`. */
  function Replace(s: string, from: char, to: char): (r: string)
    ensures |r| == |s|
    ensures forall i :: 0 <= i < |s| ==> r[i] == (if s[i] == from then to else s[i])
  {
    seq(|s|, i requires 0 <= i < |s| => if s[i] == from then to else s[i])
  }

  /** The erase-remove idiom: every `c` is deleted, the rest keeps its order. */
  function Erase(s: string, c: char): (r: string)
    ensures c !in r
    ensures forall x :: x in r ==> x in s
    ensures forall x :: x in s && x != c ==> x in r
    ensures IsSubsequence(r, s)
  {
    if s == [] then []
    else if s[0] == c then
      var r := Erase(s[1..], c);
      SubsequenceOfTail(r, s);
      r
    else
      var r := [s[0]] + Erase(s[1..], c);
      assert r[1..] == Erase(s[1..], c);
      r
  }

  lemma {:induction false} EraseAppend(a: string, b: string, c: char)
    ensures Erase(a + b, c) == Erase(a, c) + Erase(b, c)
    decreases |a|
  {
    if a == [] {
      assert a + b == b;
    } else {
      assert (a + b)[0] == a[0] && (a + b)[1..] == a[1..] + b;
      EraseAppend(a[1..], b, c);
    }
  }

  lemma {:induction false} EraseNone(s: string, c: char)
    requires c !in s
    ensures Erase(s, c) == s
    decreases |s|
  {
    if s != [] {
      EraseNone(s[1..], c);
      assert s == [s[0]] + s[1..];
    }
  }

  lemma {:induction false} EraseOnly(s: string, c: char)
    requires forall k :: 0 <= k < |s| ==> s[k] == c
    ensures Erase(s, c) == []
    decreases |s|
  {
    if s != [] {
      EraseOnly(s[1..], c);
    }
  }

  /** The first pass of `remove_punctuation`: the four replacements followed by
      erasing every apostrophe. */
  function StripQuotes(token: string): (t: string)
    ensures forall i :: 0 <= i < |t| ==> !IsQuoteLike(t[i])
  {
    var q := Replace(Replace(Replace(Replace(token, '\"', '\''), ',', '\''), '<', '\''), '>', '\'');
    assert forall x :: x in q ==> x == '\'' || !IsQuoteLike(x) by {
      assert forall i :: 0 <= i < |q| ==> q[i] == (if IsQuoteLike(token[i]) then '\'' else token[i]);
    }
    Erase(q, '\'')
  }

  /** The first pass only deletes characters of the token. */
  lemma {:induction false} StripQuotesDeletes(token: string)
    ensures IsSubsequence(StripQuotes(token), token)
    decreases |token|
  {
    if token != [] {
      var q := Replace(Replace(Replace(Replace(token, '\"', '\''), ',', '\''), '<', '\''), '>', '\'');
      var q' := Replace(Replace(Replace(Replace(token[1..], '\"', '\''), ',', '\''), '<', '\''), '>', '\'');
      assert q[1..] == q';
      StripQuotesDeletes(token[1..]);
      if IsQuoteLike(token[0]) {
        assert q[0] == '\'';
        assert StripQuotes(token) == StripQuotes(token[1..]);
        SubsequenceOfTail(StripQuotes(token), token);
      } else {
        assert q[0] == token[0];
        assert StripQuotes(token) == [token[0]] + StripQuotes(token[1..]);
      }
    }
  }

  predicate HasAlnum(t: string)
  {
    exists i :: 0 <= i < |t| && IsAlnum(t[i])
  }

  /** The index of the first alphanumeric character. */
  function FirstAlnum(t: string): (k: nat)
    requires HasAlnum(t)
    ensures k < |t| && IsAlnum(t[k])
    ensures forall j :: 0 <= j < k ==> !IsAlnum(t[j])
  {
    if IsAlnum(t[0]) then 0
    else
      assert HasAlnum(t[1..]) by {
        var i :| 0 <= i < |t| && IsAlnum(t[i]);
        assert t[1..][i - 1] == t[i];
      }
      1 + FirstAlnum(t[1..])
  }

  /** The index of the last alphanumeric character. */
  function LastAlnum(t: string): (k: nat)
    requires HasAlnum(t)
    ensures k < |t| && IsAlnum(t[k])
    ensures forall j :: k < j < |t| ==> !IsAlnum(t[j])
  {
    if IsAlnum(t[|t| - 1]) then |t| - 1
    else
      assert HasAlnum(t[..|t| - 1]) by {
        var i :| 0 <= i < |t| && IsAlnum(t[i]);
        assert t[..|t| - 1][i] == t[i];
      }
      LastAlnum(t[..|t| - 1])
  }

  /** The front scan of punctuation removal runs off the token: once the
      quote-like characters are gone, the token is non-empty and has no
      alphanumeric character. */
  predicate RunsOff(token: string)
  {
    StripQuotes(token) != [] && !HasAlnum(StripQuotes(token))
  }

  /**
   * Punctuation removal with the scans kept inside the token: after the first
   * pass, everything before the first and after the last alphanumeric
   * character is dropped, and a token with no alphanumeric character becomes
   * empty.
   */
  function StripPunctuation(token: string): (r: string)
    ensures forall i :: 0 <= i < |r| ==> !IsQuoteLike(r[i])
    ensures r != [] ==> IsAlnum(r[0]) && IsAlnum(r[|r| - 1])
    ensures HasAlnum(StripQuotes(token)) <==> r != []
  {
    var t := StripQuotes(token);
    if !HasAlnum(t) then []
    else
      var r := t[FirstAlnum(t)..LastAlnum(t) + 1];
      assert r[0] == t[FirstAlnum(t)];
      r
  }

  /**
   * `remove_punctuation` as written. Its front scan has no bound: it stops
   * only at an alphanumeric character or an apostrophe, so on a token whose
   * first pass leaves a non-empty string without an alphanumeric character
   * it runs over the terminating NUL and beyond (None). Otherwise it agrees
   * with `StripPunctuation`.
   */
  method RemovePunctuation(token: string) returns (r: Option<string>)
    ensures r.None? <==> RunsOff(token)
    ensures r.Some? ==> r.value == StripPunctuation(token)
  {
    // the four replacements and the erasure of the apostrophes
    var result := StripQuotes(token);
    ghost var t := result;
    if result == [] {
      return Some(result);
    }
    var i := 0;
    while i < |result| && result[i] != '\'' && !IsAlnum(result[i])
      invariant 0 <= i <= |result| == |t|
      invariant forall k :: 0 <= k < i ==> result[k] == '\'' && !IsAlnum(t[k])
      invariant forall k :: i <= k < |t| ==> result[k] == t[k]
    {
      result := result[i := '\''];
      i := i + 1;
    }
    if i == |result| {
      // the scan reaches the terminating NUL, which is not alphanumeric either
      return None;
    }
    assert IsAlnum(t[i]);
    assert FirstAlnum(t) == i;
    var j := |result| - 1;
    while result[j] != '\'' && !IsAlnum(result[j])
      invariant i <= j < |result| == |t|
      invariant forall k :: 0 <= k < i ==> result[k] == '\''
      invariant forall k :: i <= k <= j ==> result[k] == t[k]
      invariant forall k :: j < k < |t| ==> result[k] == '\'' && !IsAlnum(t[k])
      decreases j
    {
      result := result[j := '\''];
      j := j - 1;
    }
    assert LastAlnum(t) == j;
    EraseMarked(result, t, i, j);
    result := Erase(result, '\'');
    StripPunctuationSpan(token, i, j);
    return Some(result);
  }

  /** With an alphanumeric character, punctuation removal keeps the span between the outermost ones. */
  lemma StripPunctuationSpan(token: string, i: nat, j: nat)
    requires HasAlnum(StripQuotes(token))
    requires i == FirstAlnum(StripQuotes(token)) && j == LastAlnum(StripQuotes(token))
    ensures StripPunctuation(token) == StripQuotes(token)[i..j + 1]
  {
  }

  /** Erasing the apostrophes written over both ends leaves the middle. */
  lemma {:induction false} EraseMarked(marked: string, t: string, i: nat, j: nat)
    requires i <= j < |marked| == |t|
    requires forall k :: 0 <= k < i ==> marked[k] == '\''
    requires forall k :: i <= k <= j ==> marked[k] == t[k]
    requires forall k :: j < k < |t| ==> marked[k] == '\''
    requires forall k :: 0 <= k < |t| ==> !IsQuoteLike(t[k])
    ensures Erase(marked, '\'') == t[i..j + 1]
  {
    assert marked == marked[..i] + t[i..j + 1] + marked[j + 1..];
    EraseAppend(marked[..i] + t[i..j + 1], marked[j + 1..], '\'');
    EraseAppend(marked[..i], t[i..j + 1], '\'');
    EraseOnly(marked[..i], '\'');
    EraseOnly(marked[j + 1..], '\'');
    EraseNone(t[i..j + 1], '\'');
  }

  /** A token of punctuation only sends the as-written scan off the end, while
      the bounded version yields the empty string. */
  lemma {:induction false} PunctuationOnlyToken()
    ensures RunsOff("!!!")
    ensures StripPunctuation("!!!") == []
  {
    assert Replace(Replace(Replace(Replace("!!!", '\"', '\''), ',', '\''), '<', '\''), '>', '\'') == "!!!";
    assert Erase("!!!", '\'') == "!!!" by { EraseNone("!!!", '\''); }
  }

  /** Punctuation removal only deletes characters of the token. */
  lemma {:induction false} StripPunctuationDeletes(token: string)
    ensures IsSubsequence(StripPunctuation(token), token)
  {
    var t := StripQuotes(token);
    StripQuotesDeletes(token);
    if HasAlnum(t) {
      SliceIsSubsequence(t, FirstAlnum(t), LastAlnum(t) + 1);
      SubsequenceTransitive(StripPunctuation(token), t, token);
    }
  }

  /** Removing punctuation twice is the same as once. */
  lemma {:induction false} StripPunctuationIdempotent(token: string)
    ensures StripPunctuation(StripPunctuation(token)) == StripPunctuation(token)
  {
    var r := StripPunctuation(token);
    StripQuotesOfClean(r);
    if r != [] {
      AlnumBounds(r);
    }
  }

  /** A string without quote-like characters passes the first pass unchanged. */
  lemma StripQuotesOfClean(r: string)
    requires forall i :: 0 <= i < |r| ==> !IsQuoteLike(r[i])
    ensures StripQuotes(r) == r
  {
    var q := Replace(Replace(Replace(Replace(r, '\"', '\''), ',', '\''), '<', '\''), '>', '\'');
    assert q == r;
    assert '\'' !in r by {
      assert forall i :: 0 <= i < |r| ==> r[i] != '\'';
    }
    EraseNone(r, '\'');
  }

  /** A string that starts and ends with an alphanumeric character is its own span. */
  lemma AlnumBounds(r: string)
    requires r != [] && IsAlnum(r[0]) && IsAlnum(r[|r| - 1])
    ensures HasAlnum(r) && FirstAlnum(r) == 0 && LastAlnum(r) == |r| - 1
  {
  }

  // ---------------------------------------------------------------------------
  // Token and term sequences

  /** The raw tokens of a document: the `strtok` split of its C string on white space. */
  function RawTokens(doc: string): (ts: seq<string>)
    ensures forall i :: 0 <= i < |ts| ==> ts[i] != [] && Util.NoDelims(ts[i], WHITESPACE)
  {
    var ts := Util.Tokens(Util.CString(doc), WHITESPACE);
    Util.TokensWellFormed(Util.CString(doc), WHITESPACE);
    assert forall i :: 0 <= i < |ts| ==> ts[i] in ts;
    ts
  }

  /** Each token paired with its position. */
  function Numbered(ts: seq<string>): (r: seq<(string, nat)>)
    ensures |r| == |ts|
    ensures forall i :: 0 <= i < |ts| ==> r[i] == (ts[i], i)
  {
    seq(|ts|, i requires 0 <= i < |ts| => (ts[i], i))
  }

  /** Every string passed through `f`, in order. */
  function MapStrings(ts: seq<string>, f: string -> string): (r: seq<string>)
    ensures |r| == |ts|
    ensures forall i :: 0 <= i < |ts| ==> r[i] == f(ts[i])
  {
    seq(|ts|, i requires 0 <= i < |ts| => f(ts[i]))
  }

  /** Every word of a (word, position) sequence passed through `f`, positions kept. */
  function MapWords(ps: seq<(string, nat)>, f: string -> string): (r: seq<(string, nat)>)
    ensures |r| == |ps|
    ensures forall i :: 0 <= i < |ps| ==> r[i] == (f(ps[i].0), ps[i].1)
  {
    seq(|ps|, i requires 0 <= i < |ps| => (f(ps[i].0), ps[i].1))
  }

  /** `std::transform` of a string vector onto itself with a step `f` that
      may fail (None): the transform fails at the first failing element. */
  method TransformStrings(v: seq<string>, f: string -> Option<string>) returns (r: Option<seq<string>>)
    ensures r.None? <==> exists i :: 0 <= i < |v| && f(v[i]).None?
    ensures r.Some? ==> |r.value| == |v| && forall i :: 0 <= i < |v| ==> f(v[i]) == Some(r.value[i])
  {
    var w := v;
    var i := 0;
    while i < |w|
      invariant 0 <= i <= |w| == |v|
      invariant forall k :: 0 <= k < i ==> f(v[k]) == Some(w[k])
      invariant forall k :: i <= k < |v| ==> w[k] == v[k]
    {
      var y := f(w[i]);
      if y.None? {
        return None;
      }
      w := w[i := y.value];
      i := i + 1;
    }
    return Some(w);
  }

  /** `std::transform` of a (word, position) vector onto itself, applying a
      step `f` that may fail to the word and keeping the position. */
  method TransformWords(v: seq<(string, nat)>, f: string -> Option<string>) returns (r: Option<seq<(string, nat)>>)
    ensures r.None? <==> exists i :: 0 <= i < |v| && f(v[i].0).None?
    ensures r.Some? ==> |r.value| == |v|
    ensures r.Some? ==> forall i :: 0 <= i < |v| ==> f(v[i].0) == Some(r.value[i].0) && r.value[i].1 == v[i].1
  {
    var w := v;
    var i := 0;
    while i < |w|
      invariant 0 <= i <= |w| == |v|
      invariant forall k :: 0 <= k < i ==> f(v[k].0) == Some(w[k].0) && w[k].1 == v[k].1
      invariant forall k :: i <= k < |v| ==> w[k] == v[k]
    {
      var y := f(w[i].0);
      if y.None? {
        return None;
      }
      w := w[i := (y.value, w[i].1)];
      i := i + 1;
    }
    return Some(w);
  }

  predicate IsNonEmpty(s: string) { s != [] }

  predicate HasTerm(p: (string, nat)) { p.0 != [] }

  /** Positions strictly increase along the sequence. */
  predicate PositionsIncrease(ps: seq<(string, nat)>)
  {
    forall i, j :: 0 <= i < j < |ps| ==> ps[i].1 < ps[j].1
  }

  lemma {:induction false} FilterKeepsPositionsIncreasing(ps: seq<(string, nat)>)
    requires PositionsIncrease(ps)
    ensures PositionsIncrease(Filter(ps, HasTerm))
    decreases |ps|
  {
    if ps != [] {
      FilterKeepsPositionsIncreasing(ps[1..]);
      var rest := Filter(ps[1..], HasTerm);
      FilterMembership(ps[1..], HasTerm);
      forall p | p in rest ensures ps[0].1 < p.1 {
        var k :| 0 <= k < |ps[1..]| && ps[1..][k] == p;
      }
    }
  }

  /**
   * The terms kept from the tokens `raw` under the normalizer `f` are
   * non-empty, their positions strictly increase, each is the normalized
   * raw token at its position, and every raw token that does not normalize
   * to the empty string is kept.
   */
  lemma {:induction false} TermsCharacterization(raw: seq<string>, f: string -> string)
    ensures var terms := Filter(MapWords(Numbered(raw), f), HasTerm);
      PositionsIncrease(terms) &&
      (forall k :: 0 <= k < |terms| ==>
         terms[k].0 != [] && terms[k].1 < |raw| && terms[k].0 == f(raw[terms[k].1])) &&
      (forall i :: 0 <= i < |raw| && f(raw[i]) != [] ==> (f(raw[i]), i) in terms)
  {
    var pairs := MapWords(Numbered(raw), f);
    var terms := Filter(pairs, HasTerm);
    FilterMembership(pairs, HasTerm);
    assert PositionsIncrease(pairs) by {
      assert forall i :: 0 <= i < |pairs| ==> pairs[i].1 == i;
    }
    FilterKeepsPositionsIncreasing(pairs);
    forall k | 0 <= k < |terms|
      ensures terms[k].0 != [] && terms[k].1 < |raw| && terms[k].0 == f(raw[terms[k].1])
    {
      assert terms[k] in terms;
      var i :| 0 <= i < |pairs| && pairs[i] == terms[k];
      assert pairs[i] == (f(raw[i]), i);
    }
    forall i | 0 <= i < |raw| && f(raw[i]) != []
      ensures (f(raw[i]), i) in terms
    {
      assert pairs[i] == (f(raw[i]), i);
      assert pairs[i] in pairs;
    }
  }

  /** Dropping the empty strings keeps the order of the others and drops nothing else. */
  lemma {:induction false} NonEmptyCharacterization(ts: seq<string>)
    ensures var r := Filter(ts, IsNonEmpty);
      IsSubsequence(r, ts) &&
      (forall s :: s in r ==> s != []) &&
      (forall s :: s in ts && s != [] ==> s in r)
  {
    FilterSubsequence(ts, IsNonEmpty);
    FilterMembership(ts, IsNonEmpty);
  }

  /** Word counts: `m` with one more occurrence of `w`. */
  function Increment(m: map<string, nat>, w: string): (r: map<string, nat>)
    ensures r.Keys == m.Keys + {w}
    ensures r[w] == Get(m, w, 0) + 1
    ensures forall v :: v in m && v != w ==> r[v] == m[v]
  {
    m[w := Get(m, w, 0) + 1]
  }

  /** `m` with one more occurrence of every word of `ws`, in order. */
  function AddAll(m: map<string, nat>, ws: seq<string>): map<string, nat>
  {
    if ws == [] then m else Increment(AddAll(m, ws[..|ws| - 1]), ws[|ws| - 1])
  }

  /** Counting a sequence of words adds each word's number of occurrences and
      makes every word a key. */
  lemma {:induction false} AddAllCounts(m: map<string, nat>, ws: seq<string>)
    ensures AddAll(m, ws).Keys == m.Keys + set w | w in ws
    ensures forall w :: Get(AddAll(m, ws), w, 0) == Get(m, w, 0) + multiset(ws)[w]
    decreases |ws|
  {
    if ws != [] {
      var init, x := ws[..|ws| - 1], ws[|ws| - 1];
      AddAllCounts(m, init);
      assert ws == init + [x];
      SnocOccurrences(init, x);
      IncrementCounts(AddAll(m, init), x);
    }
  }

  /** One more word at the end: one more occurrence of it, and it is a member. */
  lemma SnocOccurrences(init: seq<string>, x: string)
    ensures multiset(init + [x]) == multiset(init) + multiset{x}
    ensures (set w | w in init + [x]) == (set w | w in init) + {x}
  {
  }

  /** Incrementing a word adds one to its count and to no other. */
  lemma IncrementCounts(m: map<string, nat>, x: string)
    ensures forall w :: Get(Increment(m, x), w, 0) == Get(m, w, 0) + (if w == x then 1 else 0)
  {
  }

  /** `std::for_each` over words incrementing each one's count in `m`. */
  method CountAll(m: map<string, nat>, ws: seq<string>) returns (r: map<string, nat>)
    ensures r == AddAll(m, ws)
  {
    r := m;
    var i := 0;
    while i < |ws|
      invariant 0 <= i <= |ws|
      invariant r == AddAll(m, ws[..i])
    {
      assert ws[..i + 1][..i] == ws[..i];
      r := Increment(r, ws[i]);
      i := i + 1;
    }
    assert ws[..i] == ws;
  }

  /** The words of a sequence of (word, position) pairs. */
  function Words(ps: seq<(string, nat)>): (ws: seq<string>)
    ensures |ws| == |ps|
    ensures forall i :: 0 <= i < |ps| ==> ws[i] == ps[i].0
  {
    seq(|ps|, i requires 0 <= i < |ps| => ps[i].0)
  }

  /** The word cut after index `wordEnd`, the stemmer's `int` result: cast to
      `size_t`, plus one, as the length of a `substr` from 0 (which clamps). */
  function StemPrefix(word: string, wordEnd: int): (r: string)
    ensures r <= word
    ensures 0 <= wordEnd < |word| && wordEnd < NPOS ==> |r| == wordEnd + 1
  {
    var cut := AddSize(wordEnd % SIZE_T_RANGE, 1);
    var r := Substr(word, 0, cut).value;
    assert r == word[..if cut <= |word| then cut else |word|];
    r
  }

  /** Counters of `Tokenizer::Stats` (the top-term arrays are not modelled). */
  datatype Stats = Stats(
    totalUnnormalizedTokens: nat,
    totalNormalizedTokens: nat,
    totalUnnormalizedTerms: nat,
    totalNormalizedTerms: nat)

  class Tokenizer {
    /** The stopword list, read once from its file. */
    const stopwords: set<string>
    /** The stemmer: the index of the last character of the stem of a word. */
    const stem: string -> int
    var unnormalizedTerms: map<string, nat>
    var normalizedTerms: map<string, nat>
    var stats: Stats

    constructor (stopwords: set<string>, stem: string -> int)
      ensures this.stopwords == stopwords && this.stem == stem
      ensures unnormalizedTerms == map[] && normalizedTerms == map[]
      ensures stats == Stats(0, 0, 0, 0)
    {
      this.stopwords := stopwords;
      this.stem := stem;
      unnormalizedTerms := map[];
      normalizedTerms := map[];
      stats := Stats(0, 0, 0, 0);
    }

    /** `tokenize`: the white-space tokens of a copy of `str`, each with its
        position; only the raw token counter changes. */
    method Tokenize(str: string) returns (result: seq<(string, nat)>)
      modifies this`stats
      ensures result == Numbered(RawTokens(str))
      ensures stats == old(stats).(totalUnnormalizedTokens := old(stats.totalUnnormalizedTokens) + |result|)
    {
      var copy := new char[|str|](i requires 0 <= i < |str| => str[i]);
      assert copy[..] == str;
      assert Util.CString(WHITESPACE) == WHITESPACE;
      var tokens := Util.Split(copy, WHITESPACE);
      result := [];
      var i := 0;
      while i < |tokens|
        invariant 0 <= i <= |tokens|
        invariant result == Numbered(tokens[..i])
      {
        result := result + [(tokens[i], i)];
        i := i + 1;
      }
      assert tokens[..i] == tokens;
      stats := stats.(totalUnnormalizedTokens := stats.totalUnnormalizedTokens + |result|);
    }

    predicate IsStopword(word: string)
    {
      word in stopwords
    }

    /**
     * The normal form of a token: punctuation removal, lower case, the empty
     * string for a stopword, and otherwise the prefix ending at the index the
     * stemmer returns (the stemmer's result is cast to `size_t` and one is
     * added).
     */
    function NormalForm(token: string): string
    {
      var word := Lower(StripPunctuation(token));
      if IsStopword(word) then [] else StemPrefix(word, stem(word))
    }

    /** `normalize` as written: undefined (None) where its punctuation
        removal runs off the token, and otherwise the token's normal form. */
    function Normalize(token: string): Option<string>
    {
      if RunsOff(token) then None else Some(NormalForm(token))
    }

    /** Normalizing fails exactly on a token whose punctuation removal runs
        off it. Otherwise a stopword normalizes to the empty string and any
        other word to a prefix of its punctuation-free lower-case form, as
        long as the stemmer says. */
    lemma NormalizeStopwordOrStem(token: string)
      ensures Normalize(token).None? <==> RunsOff(token)
      ensures Normalize(token).Some? ==>
        var w := Lower(StripPunctuation(token)); var r := Normalize(token).value;
        (w in stopwords ==> r == []) &&
        r <= w &&
        (w !in stopwords && 0 <= stem(w) < |w| && stem(w) < NPOS ==> |r| == stem(w) + 1)
    {
    }

    /** A normalized token has no quote-like character and no upper-case letter. */
    lemma NormalizeCharacters(token: string)
      ensures Normalize(token).Some? ==> var r := Normalize(token).value;
        forall i :: 0 <= i < |r| ==> !IsQuoteLike(r[i]) && !('A' <= r[i] <= 'Z')
    {
      var sp := StripPunctuation(token);
      var r := NormalForm(token);
      forall i | 0 <= i < |r| ensures !IsQuoteLike(r[i]) && !('A' <= r[i] <= 'Z') {
        assert r[i] == Lower(sp)[i] == ToLower(sp[i]);
        assert !IsQuoteLike(sp[i]);
      }
    }

    /** `normalize_all`: normalizes the vector in place, then erases the empty
        strings. It fails exactly when one of the tokens cannot be normalized. */
    method NormalizeAll(tokens: seq<string>) returns (result: Option<seq<string>>)
      ensures result.None? <==> exists i :: 0 <= i < |tokens| && RunsOff(tokens[i])
      ensures result.Some? ==> result.value == Filter(MapStrings(tokens, NormalForm), IsNonEmpty)
    {
      var v := TransformStrings(tokens, Normalize);
      if v.None? {
        return None;
      }
      assert v.value == MapStrings(tokens, NormalForm);
      var kept := EraseIf(v.value, IsNonEmpty);
      return Some(kept);
    }

    /** A document whose punctuation removal stays inside every raw token. */
    predicate Normalizable(doc: string)
    {
      forall i :: 0 <= i < |RawTokens(doc)| ==> !RunsOff(RawTokens(doc)[i])
    }

    /** The terms of a document: the normal forms of its tokens with their
        positions, without the ones that are the empty string. */
    function DocTerms(doc: string): seq<(string, nat)>
    {
      Filter(MapWords(Numbered(RawTokens(doc)), NormalForm), HasTerm)
    }

    /**
     * `get_doc_terms`: tokenizes the document, counts every raw token,
     * normalizes and drops the empty results, counts every surviving term,
     * and refreshes the counters. On a document that is not normalizable the
     * normalization step is undefined (None); the state is then the one
     * reached before it.
     */
    method GetDocTerms(doc: string) returns (terms: Option<seq<(string, nat)>>)
      modifies this`stats, this`unnormalizedTerms, this`normalizedTerms
      ensures terms.Some? <==> Normalizable(doc)
      ensures unnormalizedTerms == AddAll(old(unnormalizedTerms), RawTokens(doc))
      ensures terms.None? ==>
        normalizedTerms == old(normalizedTerms) &&
        stats == old(stats).(totalUnnormalizedTokens := old(stats.totalUnnormalizedTokens) + |RawTokens(doc)|)
      ensures terms.Some? ==>
        terms.value == DocTerms(doc) &&
        normalizedTerms == AddAll(old(normalizedTerms), Words(terms.value)) &&
        stats == Stats(
          old(stats.totalUnnormalizedTokens) + |RawTokens(doc)|,
          old(stats.totalNormalizedTokens) + |terms.value|,
          |unnormalizedTerms|,
          |normalizedTerms|)
    {
      ghost var before := stats;
      var tokens := Tokenize(doc);
      WordsOfNumbered(RawTokens(doc));
      var unnormalized := stats.totalUnnormalizedTokens;
      var normalizedCount := stats.totalNormalizedTokens;
      assert unnormalized == before.totalUnnormalizedTokens + |RawTokens(doc)|;
      assert normalizedCount == before.totalNormalizedTokens;
      unnormalizedTerms := CountAll(unnormalizedTerms, Words(tokens));
      var normalized := TransformWords(tokens, Normalize);
      if normalized.None? {
        return None;
      }
      assert normalized.value == MapWords(tokens, NormalForm);
      var kept := EraseIf(normalized.value, HasTerm);
      normalizedTerms := CountAll(normalizedTerms, Words(kept));
      stats := Stats(unnormalized, normalizedCount + |kept|, |unnormalizedTerms|, |normalizedTerms|);
      return Some(kept);
    }

    /**
     * The terms of a document are non-empty, their positions strictly
     * increase, each is the normal form of the raw token at its position, and
     * every raw token whose normal form is not the empty string is kept.
     */
    lemma DocTermsCharacterization(doc: string)
      ensures var raw := RawTokens(doc); var terms := DocTerms(doc);
        PositionsIncrease(terms) &&
        (forall k :: 0 <= k < |terms| ==>
           terms[k].0 != [] && terms[k].1 < |raw| && terms[k].0 == NormalForm(raw[terms[k].1])) &&
        (forall i :: 0 <= i < |raw| && NormalForm(raw[i]) != [] ==> (NormalForm(raw[i]), i) in terms)
    {
      TermsCharacterization(RawTokens(doc), NormalForm);
    }

    /** A document of white space only has no terms. */
    lemma DocTermsOfBlank(doc: string)
      requires forall i :: 0 <= i < |doc| ==> doc[i] in WHITESPACE
      ensures DocTerms(doc) == []
    {
      Util.TokensOfDelimitersOnly(Util.CString(doc), WHITESPACE);
    }
  }

  /** Dropping the positions gives back the tokens. */
  lemma WordsOfNumbered(ts: seq<string>)
    ensures Words(Numbered(ts)) == ts
  {
  }

  /** Tokens are non-empty and hold no white space. */
  lemma {:induction false} TokensWellFormed(doc: string)
    ensures forall p :: p in Numbered(RawTokens(doc)) ==>
      p.0 != [] && forall c :: c in p.0 ==> c !in WHITESPACE
  {
    var raw := RawTokens(doc);
    forall p | p in Numbered(raw)
      ensures p.0 != [] && forall c :: c in p.0 ==> c !in WHITESPACE
    {
      var i :| 0 <= i < |raw| && Numbered(raw)[i] == p;
      assert Util.NoDelims(raw[i], WHITESPACE);
    }
  }

  /** The keys and counts of the term counts after counting a sequence of words. */
  lemma {:induction false} TermCountsAfterCounting(m: map<string, nat>, ws: seq<string>, w: string)
    ensures w in AddAll(m, ws) <==> w in m || w in ws
    ensures Get(AddAll(m, ws), w, 0) == Get(m, w, 0) + multiset(ws)[w]
  {
    AddAllCounts(m, ws);
  }
}
