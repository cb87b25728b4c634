/**
 * The multinomial Naive Bayes classifier: class priors from label
 * frequencies, per-class "mega-documents" (all samples of a class added
 * together) and add-one smoothed word likelihoods; prediction picks a class
 * of highest log-posterior score. Probabilities are exact reals and the
 * logarithm is an uninterpreted function passed in by the caller.
 */
module NaiveBayes {
  import opened Collections

  /** A sample: how many times each word occurs in a document. */
  type Sample<W> = map<W, nat>

  /** Every recorded count is at least one, as for a sample built by counting words. */
  predicate PositiveCounts<W(==,!new)>(s: Sample<W>)
  {
    forall w :: w in s ==> s[w] > 0
  }

  predicate AllPositive<W(==,!new)>(x: seq<Sample<W>>)
  {
    forall i :: 0 <= i < |x| ==> PositiveCounts(x[i])
  }

  /** Every word of every sample. */
  function Vocabulary<W(==,!new)>(x: seq<Sample<W>>): (v: set<W>)
    ensures forall i, w :: 0 <= i < |x| && w in x[i] ==> w in v
    ensures forall w :: w in v ==> exists i :: 0 <= i < |x| && w in x[i]
  {
    set i, w | 0 <= i < |x| && w in x[i] :: w
  }

  // ---------------------------------------------------------------------
  // Priors
  // ---------------------------------------------------------------------

  /** The label counts `++m_prior[c]` leaves behind, one label after the other. */
  function ClassCounts<C(==,!new)>(y: seq<C>): (r: map<C, real>)
    ensures forall c :: c in r <==> c in y
    ensures forall c :: c in r ==> r[c] == multiset(y)[c] as real
    decreases |y|
  {
    if y == [] then map[]
    else
      var m := ClassCounts(y[..|y| - 1]);
      var c := y[|y| - 1];
      assert y == y[..|y| - 1] + [c];
      m[c := Get(m, c, 0.0) + 1.0]
  }

  lemma {:induction false} MultisetCountBound<C>(y: seq<C>, c: C)
    ensures multiset(y)[c] <= |y|
    decreases |y|
  {
    if y != [] {
      assert y == y[..|y| - 1] + [y[|y| - 1]];
      MultisetCountBound(y[..|y| - 1], c);
    }
  }

  /** The class priors: the relative frequency of every label that occurs. */
  function Priors<C(==,!new)>(y: seq<C>): (r: map<C, real>)
    ensures forall c :: c in r <==> c in y
    ensures forall c :: c in r ==> r[c] == multiset(y)[c] as real / |y| as real
    ensures forall c :: c in r ==> 0.0 < r[c] <= 1.0
  {
    var counts := ClassCounts(y);
    assert forall c :: c in counts ==> 0.0 < counts[c] / |y| as real <= 1.0 by {
      forall c | c in counts { PriorInUnit(y, c); }
    }
    map c | c in counts :: counts[c] / |y| as real
  }

  lemma {:induction false} PriorInUnit<C(!new)>(y: seq<C>, c: C)
    requires c in ClassCounts(y)
    ensures 0.0 < ClassCounts(y)[c] / |y| as real <= 1.0
  {
    var k := ClassCounts(y)[c];
    var n := |y| as real;
    assert 1.0 <= k <= n by {
      MultisetCountBound(y, c);
      assert c in multiset(y);
    }
    FractionInUnit(k, n);
  }


  /** The label counts add up to the number of labels. */
  lemma {:induction false} ClassCountsSum<C(!new)>(y: seq<C>)
    ensures Sum(ClassCounts(y)) == |y| as real
    decreases |y|
  {
    if y != [] {
      var m := ClassCounts(y[..|y| - 1]);
      var c := y[|y| - 1];
      ClassCountsSum(y[..|y| - 1]);
      SumUpdate(m, c, Get(m, c, 0.0) + 1.0);
    }
  }

  /** Dividing every value divides the sum. */
  lemma {:induction false} SumDivide<K>(m: map<K, real>, d: real)
    requires d != 0.0
    ensures Sum(map k | k in m :: m[k] / d) == Sum(m) / d
    decreases |m|
  {
    var q := map k | k in m :: m[k] / d;
    if m != map[] {
      var k :| k in m;
      SumRemove(m, k);
      SumRemove(q, k);
      assert q - {k} == map j | j in m - {k} :: (m - {k})[j] / d;
      SumDivide(m - {k}, d);
      DivideSum(m[k], Sum(m - {k}), d);
    } else {
      assert q == map[];
    }
  }

  lemma {:induction false} DivideSum(a: real, b: real, d: real)
    requires d != 0.0
    ensures (a + b) / d == a / d + b / d
  {
  }

  lemma {:induction false} DivideSelf(n: real)
    requires n != 0.0
    ensures n / n == 1.0
  {
  }

  /** The priors of a non-empty training set add up to one. */
  lemma {:induction false} PriorsSumToOne<C(!new)>(y: seq<C>)
    requires y != []
    ensures Sum(Priors(y)) == 1.0
  {
    var counts := ClassCounts(y);
    var n := |y| as real;
    assert Sum(counts) == n by { ClassCountsSum(y); }
    DivideSelf(n);
    assert Sum(Priors(y)) == Sum(counts) / n by {
      SumDivide(counts, n);
      assert Priors(y) == map c | c in counts :: counts[c] / n;
    }
  }

  /** Counting one more label adds one to its count. */
  lemma {:induction false} ClassCountsStep<C(!new)>(y: seq<C>, i: nat)
    requires i < |y|
    ensures ClassCounts(y[..i + 1]) == ClassCounts(y[..i])[y[i] := Get(ClassCounts(y[..i]), y[i], 0.0) + 1.0]
  {
    assert y[..i + 1][..i] == y[..i];
    assert y[..i + 1][i] == y[i];
  }

  /** `++m_prior[c]` over the labels, in order. */
  method CountLabels<C(==,!new)>(y: seq<C>) returns (counts: map<C, real>)
    ensures counts == ClassCounts(y)
  {
    counts := map[];
    var i := 0;
    assert y[..0] == [];
    while i < |y|
      invariant 0 <= i <= |y|
      invariant counts == ClassCounts(y[..i])
    {
      ClassCountsStep(y, i);
      counts := counts[y[i] := Get(counts, y[i], 0.0) + 1.0];
      i := i + 1;
    }
    assert y[..i] == y;
  }

  /** `count /= n_samples` for every entry of the count map, in place. */
  method DivideCounts<C(==,!new)>(counts: map<C, real>, n: nat) returns (priors: map<C, real>)
    requires counts == map[] || n > 0
    ensures priors == map c | c in counts :: counts[c] / n as real
  {
    priors := counts;
    var todo := counts.Keys;
    while todo != {}
      invariant todo <= counts.Keys
      invariant priors.Keys == counts.Keys
      invariant forall c :: c in priors ==>
        priors[c] == if c in todo then counts[c] else counts[c] / n as real
      decreases |todo|
    {
      var c :| c in todo;
      priors := priors[c := priors[c] / n as real];
      todo := todo - {c};
    }
  }

  // ---------------------------------------------------------------------
  // Mega-documents
  // ---------------------------------------------------------------------

  /** Word-wise sum of two samples. */
  function Merge<W(==,!new)>(a: Sample<W>, b: Sample<W>): (r: Sample<W>)
    ensures r.Keys == a.Keys + b.Keys
  {
    map w | w in a.Keys + b.Keys :: Get(a, w, 0) + Get(b, w, 0)
  }

  /** Adds one sample into the mega-document of class `c`; an empty sample
      creates no entry, since the inner loop of the source never runs. */
  function AddSample<W(==,!new), C(==,!new)>(md: map<C, Sample<W>>, c: C, s: Sample<W>): map<C, Sample<W>>
  {
    if s == map[] then md else md[c := Merge(Get(md, c, map[]), s)]
  }

  /** `class_megadocs` after the first `k` samples. */
  function MegaDocs<W(==,!new), C(==,!new)>(x: seq<Sample<W>>, y: seq<C>, k: nat): (md: map<C, Sample<W>>)
    requires k <= |x| == |y|
    ensures forall c :: c in md ==> md[c] != map[]
    ensures AllPositive(x) ==> forall c :: c in md ==> PositiveCounts(md[c])
  {
    if k == 0 then map[]
    else AddSample(MegaDocs(x, y, k - 1), y[k - 1], x[k - 1])
  }

  /** How often `w` occurs, all together, in those of the first `k` samples labelled `c`. */
  function ClassWordCount<W(==,!new), C(==,!new)>(x: seq<Sample<W>>, y: seq<C>, k: nat, c: C, w: W): nat
    requires k <= |x| == |y|
  {
    if k == 0 then 0
    else ClassWordCount(x, y, k - 1, c, w) + (if y[k - 1] == c then Get(x[k - 1], w, 0) else 0)
  }

  /** What adding one sample does to the mega-documents. */
  lemma {:induction false} AddSampleEffect<W(!new), C(!new)>(md: map<C, Sample<W>>, c: C, s: Sample<W>)
    ensures forall d :: d in AddSample(md, c, s) <==> d in md || (d == c && s != map[])
    ensures forall d, w :: d in AddSample(md, c, s) ==>
      (w in AddSample(md, c, s)[d] <==> (d in md && w in md[d]) || (d == c && w in s))
    ensures forall d, w :: d in AddSample(md, c, s) && w in AddSample(md, c, s)[d] ==>
      AddSample(md, c, s)[d][w] ==
        (if d in md && w in md[d] then md[d][w] else 0) + (if d == c then Get(s, w, 0) else 0)
  {
  }

  /** A class has a mega-document exactly when a non-empty sample carries its label. */
  lemma {:induction false} MegaDocsClasses<W(!new), C(!new)>(x: seq<Sample<W>>, y: seq<C>, k: nat)
    requires k <= |x| == |y|
    ensures forall c :: c in MegaDocs(x, y, k) <==> exists i :: 0 <= i < k && y[i] == c && x[i] != map[]
  {
    if k > 0 {
      MegaDocsClasses(x, y, k - 1);
      AddSampleEffect(MegaDocs(x, y, k - 1), y[k - 1], x[k - 1]);
    }
  }

  /** The words of a class's mega-document are the words of the samples with its label. */
  lemma {:induction false} MegaDocsWords<W(!new), C(!new)>(x: seq<Sample<W>>, y: seq<C>, k: nat)
    requires k <= |x| == |y|
    ensures forall c, w :: c in MegaDocs(x, y, k) ==>
      (w in MegaDocs(x, y, k)[c] <==> exists i :: 0 <= i < k && y[i] == c && w in x[i])
  {
    if k > 0 {
      MegaDocsWords(x, y, k - 1);
      MegaDocsClasses(x, y, k - 1);
      AddSampleEffect(MegaDocs(x, y, k - 1), y[k - 1], x[k - 1]);
    }
  }

  /** Each word of a mega-document is counted as often as it occurs in the samples of the class. */
  lemma {:induction false} MegaDocsCounts<W(!new), C(!new)>(x: seq<Sample<W>>, y: seq<C>, k: nat)
    requires k <= |x| == |y|
    ensures forall c, w :: c in MegaDocs(x, y, k) && w in MegaDocs(x, y, k)[c] ==>
      MegaDocs(x, y, k)[c][w] == ClassWordCount(x, y, k, c, w)
  {
    if k > 0 {
      var md := MegaDocs(x, y, k - 1);
      MegaDocsCounts(x, y, k - 1);
      AddSampleEffect(md, y[k - 1], x[k - 1]);
      forall c, w | c in MegaDocs(x, y, k) && w in MegaDocs(x, y, k)[c]
        ensures MegaDocs(x, y, k)[c][w] == ClassWordCount(x, y, k, c, w)
      {
        if !(c in md && w in md[c]) {
          ClassWordCountAbsent(x, y, k - 1, c, w);
        }
      }
    }
  }

  /** A word outside the mega-document of a class counts zero for it. */
  lemma {:induction false} ClassWordCountAbsent<W(!new), C(!new)>(x: seq<Sample<W>>, y: seq<C>, k: nat, c: C, w: W)
    requires k <= |x| == |y|
    requires !(c in MegaDocs(x, y, k) && w in MegaDocs(x, y, k)[c])
    ensures ClassWordCount(x, y, k, c, w) == 0
  {
    if k > 0 {
      AddSampleEffect(MegaDocs(x, y, k - 1), y[k - 1], x[k - 1]);
      ClassWordCountAbsent(x, y, k - 1, c, w);
    }
  }

  lemma {:induction false} MergeEmpty<W(!new)>(a: Sample<W>)
    ensures Merge(a, map[]) == a
  {
    assert Merge(a, map[]).Keys == a.Keys;
  }

  /** Merging one more word adds its count to the merged entry. */
  lemma {:induction false} MergeOneMore<W(!new)>(a: Sample<W>, r: Sample<W>, w: W, v: nat)
    requires w !in r
    ensures Merge(a, r[w := v]) == Merge(a, r)[w := Get(Merge(a, r), w, 0) + v]
  {
    var lhs, rhs := Merge(a, r[w := v]), Merge(a, r)[w := Get(Merge(a, r), w, 0) + v];
    assert lhs.Keys == rhs.Keys;
    forall u | u in lhs ensures lhs[u] == rhs[u] { }
  }

  lemma {:induction false} AddWordStep<W(!new), C(!new)>(md0: map<C, Sample<W>>, cls: C, part: Sample<W>,
                                                         word: W, v: nat, md: map<C, Sample<W>>)
    requires word !in part
    requires md == AddSample(md0, cls, part)
    ensures var doc := Get(md, cls, map[]);
      md[cls := doc[word := Get(doc, word, 0) + v]] == AddSample(md0, cls, part[word := v])
  {
    var a := Get(md0, cls, map[]);
    assert part[word := v] != map[] by { assert word in part[word := v]; }
    MergeOneMore(a, part, word, v);
    if part == map[] {
      MergeEmpty(a);
    }
  }

  /** The inner loop of `fit` over the words of one sample:
      `class_megadocs[cls][word] += count` for each, in no particular order. */
  method AddSampleWords<W(==,!new), C(==,!new)>(md0: map<C, Sample<W>>, cls: C, smp: Sample<W>)
    returns (md: map<C, Sample<W>>)
    ensures md == AddSample(md0, cls, smp)
  {
    md := md0;
    var todo := smp.Keys;
    ghost var part: Sample<W> := map[];
    while todo != {}
      invariant todo <= smp.Keys
      invariant part.Keys == smp.Keys - todo
      invariant forall w :: w in part ==> part[w] == smp[w]
      invariant md == AddSample(md0, cls, part)
      decreases |todo|
    {
      var word :| word in todo;
      AddWordStep(md0, cls, part, word, smp[word], md);
      var doc := Get(md, cls, map[]);
      md := md[cls := doc[word := Get(doc, word, 0) + smp[word]]];
      part := part[word := smp[word]];
      todo := todo - {word};
    }
    assert part == smp;
  }

  /** The loop of `fit` that builds `class_megadocs`, sample by sample. */
  method BuildMegaDocs<W(==,!new), C(==,!new)>(x: seq<Sample<W>>, y: seq<C>) returns (md: map<C, Sample<W>>)
    requires |x| == |y|
    ensures md == MegaDocs(x, y, |x|)
  {
    md := map[];
    var i := 0;
    while i < |x|
      invariant 0 <= i <= |x|
      invariant md == MegaDocs(x, y, i)
    {
      md := AddSampleWords(md, y[i], x[i]);
      i := i + 1;
    }
  }

  // ---------------------------------------------------------------------
  // Smoothed likelihoods
  // ---------------------------------------------------------------------

  /** The counts of a sample as reals. */
  function Counts<W(==,!new)>(s: Sample<W>): map<W, real>
  {
    map w | w in s :: s[w] as real
  }

  /** The number of word occurrences in a sample. */
  ghost function Total<W(!new)>(s: Sample<W>): real
  {
    Sum(Counts(s))
  }

  /** A non-empty sample with positive counts has a positive total, at least each count. */
  lemma {:induction false} TotalBounds<W(!new)>(s: Sample<W>, w: W)
    requires PositiveCounts(s) && w in s
    ensures 0.0 < Total(s) && s[w] as real <= Total(s)
  {
    SumBounds(Counts(s), w);
  }

  /** `std::accumulate` over the counts of a mega-document. */
  method TotalWordCount<W(==,!new)>(s: Sample<W>) returns (total: nat)
    ensures total as real == Total(s)
  {
    total := 0;
    var todo := s.Keys;
    ghost var part: map<W, real> := map[];
    while todo != {}
      invariant todo <= s.Keys
      invariant part.Keys == s.Keys - todo
      invariant forall w :: w in part ==> part[w] == s[w] as real
      invariant total as real == Sum(part)
      decreases |todo|
    {
      var w :| w in todo;
      SumUpdate(part, w, s[w] as real);
      total := total + s[w];
      part := part[w := s[w] as real];
      todo := todo - {w};
    }
    assert part == Counts(s);
  }

  /** Add-one smoothing: `(count + 1) / (total + |m_dict|)`. */
  function Smoothed(count: nat, total: real, dictSize: nat): real
    requires total > 0.0
  {
    (count as real + 1.0) / (total + dictSize as real)
  }

  /** Mega-documents as `fit` builds them from samples with positive counts. */
  predicate WellFormedDocs<W(==,!new), C(==,!new)>(md: map<C, Sample<W>>)
  {
    forall c :: c in md ==> md[c] != map[] && PositiveCounts(md[c])
  }

  /**
   * `lik` holds the smoothed likelihood of exactly the (class, word) pairs
   * in `stored`, each a word of the mega-document of the class; a word has
   * an entry only together with some class.
   */
  ghost predicate Stored<W(!new), C(!new)>(lik: map<W, map<C, real>>, md: map<C, Sample<W>>, n: nat,
                                           stored: set<(C, W)>)
    requires WellFormedDocs(md)
  {
    (forall w :: w in lik ==> lik[w] != map[]) &&
    (forall p :: p in stored ==> p.1 in lik && p.0 in lik[p.1]) &&
    (forall w, c :: w in lik && c in lik[w] ==>
       (c, w) in stored && c in md && w in md[c] &&
       0.0 < Total(md[c]) && lik[w][c] == Smoothed(md[c][w], Total(md[c]), n))
  }

  /**
   * `m_likelihood` after fit: an entry for word `w` and class `c` exactly
   * when `w` is in the mega-document of `c`, holding `(count + 1) / (total + n)`.
   */
  ghost predicate IsLikelihoodTable<W(!new), C(!new)>(lik: map<W, map<C, real>>, md: map<C, Sample<W>>, n: nat)
    requires WellFormedDocs(md)
  {
    (forall w :: w in lik ==> lik[w] != map[]) &&
    (forall c, w :: c in md && w in md[c] ==> w in lik && c in lik[w]) &&
    SmoothedValues(lik, md, n)
  }

  /** Every entry of `lik` is the smoothed count of a word of a mega-document. */
  ghost predicate SmoothedValues<W(!new), C(!new)>(lik: map<W, map<C, real>>, md: map<C, Sample<W>>, n: nat)
  {
    forall w, c :: w in lik && c in lik[w] ==>
      c in md && w in md[c] && 0.0 < Total(md[c]) && lik[w][c] == Smoothed(md[c][w], Total(md[c]), n)
  }

  /** Once every pair is stored, the table is complete. */
  lemma {:induction false} StoredAll<W(!new), C(!new)>(lik: map<W, map<C, real>>, md: map<C, Sample<W>>, n: nat,
                                                       stored: set<(C, W)>)
    requires WellFormedDocs(md)
    requires Stored(lik, md, n, stored)
    requires forall c, w :: c in md && w in md[c] ==> (c, w) in stored
    ensures IsLikelihoodTable(lik, md, n)
  {
    forall c, w | c in md && w in md[c]
      ensures w in lik && c in lik[w]
    {
      assert (c, w) in stored;
    }
  }

  /** Storing `m_likelihood[word][cls]` adds the pair to the stored ones. */
  lemma {:induction false} StoreOne<W(!new), C(!new)>(lik: map<W, map<C, real>>, md: map<C, Sample<W>>, n: nat,
                                                      stored: set<(C, W)>, c: C, w: W)
    requires WellFormedDocs(md) && Stored(lik, md, n, stored)
    requires c in md && w in md[c]
    ensures 0.0 < Total(md[c])
    ensures Stored(lik[w := Get(lik, w, map[])[c := Smoothed(md[c][w], Total(md[c]), n)]], md, n, stored + {(c, w)})
  {
    TotalBounds(md[c], w);
    var lik' := lik[w := Get(lik, w, map[])[c := Smoothed(md[c][w], Total(md[c]), n)]];
    forall u | u in lik' ensures lik'[u] != map[] {
      if u == w { assert c in lik'[u]; }
    }
    forall p | p in stored + {(c, w)} ensures p.1 in lik' && p.0 in lik'[p.1] {
      if p != (c, w) { assert p.1 in lik && p.0 in lik[p.1]; }
    }
    forall u, d | u in lik' && d in lik'[u]
      ensures (d, u) in stored + {(c, w)} && d in md && u in md[d] &&
        0.0 < Total(md[d]) && lik'[u][d] == Smoothed(md[d][u], Total(md[d]), n)
    {
      if !(u == w && d == c) { assert u in lik && d in lik[u]; }
    }
  }

  /** The loop that fills `m_likelihood`: the classes of the mega-documents
      in no particular order, and the words of each. */
  method SmoothLikelihoods<W(==,!new), C(==,!new)>(md: map<C, Sample<W>>, n: nat) returns (lik: map<W, map<C, real>>)
    requires WellFormedDocs(md)
    ensures IsLikelihoodTable(lik, md, n)
  {
    lik := map[];
    ghost var stored: set<(C, W)> := {};
    var classes := md.Keys;
    while classes != {}
      invariant classes <= md.Keys
      invariant Stored(lik, md, n, stored)
      invariant forall c, w :: c in md && w in md[c] && c !in classes ==> (c, w) in stored
      invariant forall p :: p in stored ==> p.0 !in classes
      decreases |classes|
    {
      var cls :| cls in classes;
      var smp := md[cls];
      var total := TotalWordCount(smp);
      var words := smp.Keys;
      while words != {}
        invariant words <= smp.Keys
        invariant Stored(lik, md, n, stored)
        invariant forall c, w :: c in md && w in md[c] && c !in classes ==> (c, w) in stored
        invariant forall w :: w in smp && w !in words ==> (cls, w) in stored
        invariant forall p :: p in stored ==> p.0 !in classes || (p.0 == cls && p.1 !in words)
        decreases |words|
      {
        var word :| word in words;
        StoreOne(lik, md, n, stored, cls, word);
        var doc := Get(lik, word, map[]);
        lik := lik[word := doc[cls := (smp[word] as real + 1.0) / (total as real + n as real)]];
        stored := stored + {(cls, word)};
        words := words - {word};
      }
      classes := classes - {cls};
    }
    StoredAll(lik, md, n, stored);
  }

  /** A word is in the mega-document of a class exactly when some sample
      with that label has the word. */
  lemma {:induction false} MegaDocsPairs<W(!new), C(!new)>(x: seq<Sample<W>>, y: seq<C>, c: C, w: W)
    requires |x| == |y|
    ensures (c in MegaDocs(x, y, |x|) && w in MegaDocs(x, y, |x|)[c]) <==>
            exists i :: 0 <= i < |x| && y[i] == c && w in x[i]
  {
    MegaDocsClasses(x, y, |x|);
    MegaDocsWords(x, y, |x|);
    if exists i :: 0 <= i < |x| && y[i] == c && w in x[i] {
      var i :| 0 <= i < |x| && y[i] == c && w in x[i];
      assert x[i] != map[];
    }
  }

  /** The entries `fit` stores: exactly the words and classes that occur
      together in some sample. */
  lemma {:induction false} FittedLikelihoodKeys<W(!new), C(!new)>(x: seq<Sample<W>>, y: seq<C>,
                                                                  lik: map<W, map<C, real>>, n: nat, w: W, c: C)
    requires |x| == |y| && AllPositive(x)
    requires IsLikelihoodTable(lik, MegaDocs(x, y, |x|), n)
    ensures (w in lik && c in lik[w]) <==> exists i :: 0 <= i < |x| && y[i] == c && w in x[i]
  {
    var md := MegaDocs(x, y, |x|);
    assert (w in lik && c in lik[w]) <==> c in md && w in md[c];
    MegaDocsPairs(x, y, c, w);
  }

  /** Add-one smoothing of a word's count within its document's total over
      a non-empty dictionary gives a probability. */
  lemma {:induction false} SmoothedInUnit<W(!new)>(doc: Sample<W>, w: W, v: real, n: nat)
    requires PositiveCounts(doc) && w in doc && 0 < n
    requires 0.0 < Total(doc) && v == Smoothed(doc[w], Total(doc), n)
    ensures 0.0 < v <= 1.0
  {
    TotalBounds(doc, w);
    FractionInUnit(doc[w] as real + 1.0, Total(doc) + n as real);
  }

  /** With a non-empty dictionary every smoothed likelihood is a probability. */
  lemma {:induction false} LikelihoodInUnit<W(!new), C(!new)>(lik: map<W, map<C, real>>, md: map<C, Sample<W>>, n: nat)
    requires WellFormedDocs(md)
    requires IsLikelihoodTable(lik, md, n)
    requires 0 < n
    ensures forall w, c :: w in lik && c in lik[w] ==> 0.0 < lik[w][c] <= 1.0
  {
    forall w, c | w in lik && c in lik[w]
      ensures 0.0 < lik[w][c] <= 1.0
    {
      SmoothedInUnit(md[c], w, lik[w][c], n);
    }
  }

  /** Every word of a mega-document is a word of the training set. */
  lemma {:induction false} VocabularyCoversDocs<W(!new), C(!new)>(x: seq<Sample<W>>, y: seq<C>, c: C, w: W)
    requires |x| == |y|
    requires c in MegaDocs(x, y, |x|) && w in MegaDocs(x, y, |x|)[c]
    ensures w in Vocabulary(x)
  {
    MegaDocsWords(x, y, |x|);
    var i :| 0 <= i < |x| && y[i] == c && w in x[i];
  }

  /** Smoothing over the vocabulary of the training set, every likelihood
      `fit` stores is a probability. */
  lemma {:induction false} VocabularyLikelihoodInUnit<W(!new), C(!new)>(x: seq<Sample<W>>, y: seq<C>,
                                                                        lik: map<W, map<C, real>>)
    requires |x| == |y| && AllPositive(x)
    requires IsLikelihoodTable(lik, MegaDocs(x, y, |x|), |Vocabulary(x)|)
    ensures forall w, c :: w in lik && c in lik[w] ==> 0.0 < lik[w][c] <= 1.0
  {
    var md := MegaDocs(x, y, |x|);
    if lik != map[] {
      var w :| w in lik;
      var c :| c in lik[w];
      VocabularyCoversDocs(x, y, c, w);
      LikelihoodInUnit(lik, md, |Vocabulary(x)|);
    }
  }

  /** The total of a document holding one word once. */
  lemma {:induction false} TotalOfOne<W(!new)>(w: W)
    ensures Total(map[w := 1]) == 1.0
  {
    assert Counts(map[w := 1]) == map[][w := 1.0];
    SumUpdate(map[], w, 1.0);
  }

  /**
   * With an empty dictionary (the state of a default-constructed
   * classifier, which `fit` leaves as it is) a single sample holding one
   * word once gets likelihood 2 for that word: not a probability.
   */
  lemma {:induction false} EmptyDictionaryLikelihood(lik: map<int, map<int, real>>)
    requires IsLikelihoodTable(lik, MegaDocs([map[7 := 1]], [0], 1), 0)
    ensures 7 in lik && 0 in lik[7] && lik[7][0] == 2.0
  {
    var md := MegaDocs([map[7 := 1]], [0], 1);
    assert md == map[0 := map[7 := 1]] by {
      assert Merge(map[], map[7 := 1]) == map[7 := 1];
    }
    TotalOfOne(7);
  }

  /** The words of a training set, as a loop over the samples gathers them. */
  method CollectVocabulary<W(==,!new)>(x: seq<Sample<W>>) returns (v: set<W>)
    ensures v == Vocabulary(x)
  {
    v := {};
    var i := 0;
    while i < |x|
      invariant 0 <= i <= |x|
      invariant v == Vocabulary(x[..i])
    {
      var words := KeySet(x[i]);
      assert x[..i + 1] == x[..i] + [x[i]];
      assert Vocabulary(x[..i + 1]) == Vocabulary(x[..i]) + x[i].Keys by {
        assert forall w :: w in x[i] ==> w in Vocabulary(x[..i + 1]) by {
          assert x[..i + 1][i] == x[i];
        }
        assert forall w :: w in Vocabulary(x[..i + 1]) ==> w in Vocabulary(x[..i]) || w in x[i] by {
          forall w | w in Vocabulary(x[..i + 1])
            ensures w in Vocabulary(x[..i]) || w in x[i]
          {
            var j :| 0 <= j < i + 1 && w in x[..i + 1][j];
            if j < i {
              assert x[..i][j] == x[..i + 1][j];
            }
          }
        }
        assert forall w :: w in Vocabulary(x[..i]) ==> w in Vocabulary(x[..i + 1]) by {
          forall w | w in Vocabulary(x[..i])
            ensures w in Vocabulary(x[..i + 1])
          {
            var j :| 0 <= j < i && w in x[..i][j];
            assert x[..i][j] == x[..i + 1][j];
          }
        }
      }
      v := v + words;
      i := i + 1;
    }
    assert x[..i] == x;
  }

  // ---------------------------------------------------------------------
  // Scoring, as `predict` does it
  // ---------------------------------------------------------------------

  /** The probability `predict` uses for word `w` in class `c`: the
      recorded likelihood, or one over the dictionary size. */
  function WordProbability<W, C>(lik: map<W, map<C, real>>, dictSize: nat, w: W, c: C): real
    requires (w in lik && c in lik[w]) || dictSize > 0
  {
    if w in lik && c in lik[w] then lik[w][c] else 1.0 / dictSize as real
  }

  /** `count * log(p)` for every word of a sample. */
  ghost function WordTerms<W, C>(lik: map<W, map<C, real>>, dictSize: nat, x: Sample<W>,
                                 c: C, ln: real -> real): (t: map<W, real>)
    requires dictSize > 0 || x == map[]
    ensures t.Keys == x.Keys
  {
    map w | w in x :: WordTerm(lik, dictSize, x, w, c, ln)
  }

  /** `count * log(p)` for one word of a sample. */
  function WordTerm<W, C>(lik: map<W, map<C, real>>, dictSize: nat, x: Sample<W>, w: W, c: C,
                          ln: real -> real): real
    requires w in x && (dictSize > 0 || x == map[])
  {
    x[w] as real * ln(WordProbability(lik, dictSize, w, c))
  }

  /** The sum of `count * log(p)` over the words of a sample. */
  ghost function LogLikelihood<W, C>(lik: map<W, map<C, real>>, dictSize: nat, x: Sample<W>,
                                     c: C, ln: real -> real): real
    requires dictSize > 0 || x == map[]
  {
    Sum(WordTerms(lik, dictSize, x, c, ln))
  }

  /** `log prior[c]`, or the 0 a missing entry of the score map starts from. */
  ghost function LogPrior<C>(prior: map<C, real>, c: C, ln: real -> real): real
  {
    if c in prior then ln(prior[c]) else 0.0
  }

  /**
   * The score of class `c` after the first `k` entries of the class list:
   * its log prior, plus the sample's log likelihood for each of those
   * entries equal to `c`.
   */
  ghost function PartialScore<W, C>(prior: map<C, real>, classes: seq<C>, lik: map<W, map<C, real>>,
                                    dictSize: nat, x: Sample<W>, c: C, ln: real -> real, k: nat): real
    requires k <= |classes|
    requires dictSize > 0 || classes == [] || x == map[]
    decreases k
  {
    if k == 0 then LogPrior(prior, c, ln)
    else
      PartialScore(prior, classes, lik, dictSize, x, c, ln, k - 1) +
      if classes[k - 1] == c then LogLikelihood(lik, dictSize, x, c, ln) else 0.0
  }

  /** `n` copies of `l` added up. */
  function Repeat(n: nat, l: real): (r: real)
    ensures r == n as real * l
    decreases n
  {
    if n == 0 then 0.0 else Repeat(n - 1, l) + l
  }

  /** The score in closed form: the log prior plus the log likelihood
      once for every time the class occurs in the list. */
  lemma {:induction false} PartialScoreClosedForm<W, C>(prior: map<C, real>, classes: seq<C>,
                                                         lik: map<W, map<C, real>>, dictSize: nat,
                                                         x: Sample<W>, c: C, ln: real -> real, k: nat)
    requires k <= |classes|
    requires dictSize > 0 || x == map[]
    ensures PartialScore(prior, classes, lik, dictSize, x, c, ln, k) ==
            LogPrior(prior, c, ln) + Repeat(multiset(classes[..k])[c], LogLikelihood(lik, dictSize, x, c, ln))
    decreases k
  {
    if k == 0 {
      assert multiset(classes[..k])[c] == 0;
    } else {
      PartialScoreClosedForm(prior, classes, lik, dictSize, x, c, ln, k - 1);
      assert classes[..k] == classes[..k - 1] + [classes[k - 1]];
    }
  }

  /** A class absent from the first `k` entries scores just its log prior. */
  lemma {:induction false} PartialScoreAbsent<W, C>(prior: map<C, real>, classes: seq<C>,
                                                     lik: map<W, map<C, real>>, dictSize: nat,
                                                     x: Sample<W>, c: C, ln: real -> real, k: nat)
    requires k <= |classes|
    requires dictSize > 0 || classes == [] || x == map[]
    requires c !in classes[..k]
    ensures PartialScore(prior, classes, lik, dictSize, x, c, ln, k) == LogPrior(prior, c, ln)
    decreases k
  {
    if k > 0 {
      assert classes[..k - 1] == classes[..k][..k - 1];
      assert classes[k - 1] == classes[..k][k - 1];
      PartialScoreAbsent(prior, classes, lik, dictSize, x, c, ln, k - 1);
    }
  }

  /** An empty sample adds nothing to any score. */
  lemma {:induction false} LogLikelihoodEmpty<W, C>(lik: map<W, map<C, real>>, dictSize: nat,
                                                     c: C, ln: real -> real)
    ensures LogLikelihood(lik, dictSize, map[], c, ln) == 0.0
  {
    assert WordTerms(lik, dictSize, map[], c, ln) == map[];
  }

  /** The scores `predict` holds after the first `k` entries of the class list. */
  ghost predicate PosteriorAfter<W, C(!new)>(posterior: map<C, real>, prior: map<C, real>, classes: seq<C>,
                                             lik: map<W, map<C, real>>, dictSize: nat, x: Sample<W>,
                                             ln: real -> real, k: nat)
    requires k <= |classes|
    requires dictSize > 0 || classes == [] || x == map[]
  {
    (forall c :: c in posterior <==> c in prior || (x != map[] && c in classes[..k])) &&
    (forall c :: c in posterior ==> posterior[c] == PartialScore(prior, classes, lik, dictSize, x, c, ln, k))
  }

  /** The first loop of `predict`: every class starts at its log prior. */
  method LogPriors<C(==,!new)>(prior: map<C, real>, ln: real -> real) returns (posterior: map<C, real>)
    ensures posterior.Keys == prior.Keys
    ensures forall c :: c in prior ==> posterior[c] == ln(prior[c])
  {
    posterior := map[];
    var todo := prior.Keys;
    while todo != {}
      invariant todo <= prior.Keys
      invariant posterior.Keys == prior.Keys - todo
      invariant forall c :: c in posterior ==> posterior[c] == ln(prior[c])
      decreases |todo|
    {
      var c :| c in todo;
      posterior := posterior[c := ln(prior[c])];
      todo := todo - {c};
    }
  }

  /** The inner loop of `predict` for one class: `count * log(p)` summed
      over the words of the sample. */
  method SampleLogLikelihood<W(==,!new), C>(lik: map<W, map<C, real>>, dictSize: nat, x: Sample<W>,
                                            cls: C, ln: real -> real)
    returns (sum: real)
    requires dictSize > 0 || x == map[]
    ensures sum == LogLikelihood(lik, dictSize, x, cls, ln)
  {
    sum := 0.0;
    var todo := x.Keys;
    ghost var part: map<W, real> := map[];
    while todo != {}
      invariant todo <= x.Keys
      invariant part.Keys == x.Keys - todo
      invariant forall w :: w in part ==> part[w] == WordTerm(lik, dictSize, x, w, cls, ln)
      invariant sum == Sum(part)
      decreases |todo|
    {
      var word :| word in todo;
      var exists_ := word in lik && cls in lik[word];
      var logprob := ln(if exists_ then lik[word][cls] else 1.0 / dictSize as real);
      ghost var t := WordTerm(lik, dictSize, x, word, cls, ln);
      assert t == x[word] as real * logprob;
      SumUpdate(part, word, t);
      sum := sum + x[word] as real * logprob;
      part := part[word := t];
      todo := todo - {word};
    }
    assert part == WordTerms(lik, dictSize, x, cls, ln);
  }

  /**
   * One round of the outer loop of `predict`: the class's score grows by
   * the sample's log likelihood, and a class first met here starts from 0.
   * The source adds each word's term to the stored score in turn; the sum
   * is formed first here, which over the reals gives the same score.
   */
  method AddWordTerms<W(==,!new), C(==)>(posterior: map<C, real>, lik: map<W, map<C, real>>, dictSize: nat,
                                         x: Sample<W>, cls: C, ln: real -> real)
    returns (r: map<C, real>)
    requires dictSize > 0 || x == map[]
    ensures r == if x == map[] then posterior
                 else posterior[cls := Get(posterior, cls, 0.0) + LogLikelihood(lik, dictSize, x, cls, ln)]
  {
    var sum := SampleLogLikelihood(lik, dictSize, x, cls, ln);
    r := if x == map[] then posterior else posterior[cls := Get(posterior, cls, 0.0) + sum];
  }

  /** One round of the outer loop of `predict` keeps the scores up to date. */
  lemma {:induction false} NextClass<W, C(!new)>(before: map<C, real>, after: map<C, real>, prior: map<C, real>,
                                                  classes: seq<C>, lik: map<W, map<C, real>>, dictSize: nat,
                                                  x: Sample<W>, ln: real -> real, i: nat)
    requires i < |classes| && (dictSize > 0 || x == map[])
    requires PosteriorAfter(before, prior, classes, lik, dictSize, x, ln, i)
    requires after == if x == map[] then before
                      else before[classes[i] := Get(before, classes[i], 0.0) + LogLikelihood(lik, dictSize, x, classes[i], ln)]
    ensures PosteriorAfter(after, prior, classes, lik, dictSize, x, ln, i + 1)
  {
    var cls := classes[i];
    assert classes[..i + 1] == classes[..i] + [cls];
    if x == map[] {
      LogLikelihoodEmpty(lik, dictSize, cls, ln);
    } else if cls !in before {
      PartialScoreAbsent(prior, classes, lik, dictSize, x, cls, ln, i);
    }
  }

  /** The last step of `predict`: a key of highest value, the first such
      in iteration order. */
  method ArgMax<C(==,!new)>(posterior: map<C, real>) returns (best: C)
    requires posterior != map[]
    ensures best in posterior
    ensures forall c :: c in posterior ==> posterior[c] <= posterior[best]
  {
    best :| best in posterior;
    var bestScore := posterior[best];
    var todo := posterior.Keys - {best};
    while todo != {}
      invariant todo <= posterior.Keys
      invariant best in posterior && bestScore == posterior[best]
      invariant forall c :: c in posterior && c !in todo ==> posterior[c] <= bestScore
      decreases |todo|
    {
      var c :| c in todo;
      if bestScore < posterior[c] {
        best, bestScore := c, posterior[c];
      }
      todo := todo - {c};
    }
  }

  // ---------------------------------------------------------------------
  // The classifier
  // ---------------------------------------------------------------------

  /** The keys of a map, each once, in the order a loop over it meets them. */
  method KeysOf<K(==,!new), V>(m: map<K, V>) returns (ks: seq<K>)
    ensures Distinct(ks)
    ensures forall k :: k in ks <==> k in m
  {
    ks := [];
    var todo := m.Keys;
    while todo != {}
      invariant todo <= m.Keys
      invariant Distinct(ks)
      invariant forall k :: k in ks <==> k in m && k !in todo
      decreases |todo|
    {
      var k :| k in todo;
      ks := ks + [k];
      todo := todo - {k};
    }
  }

  /** `m_dict.insert` for every key of a map. */
  method KeySet<K(==,!new), V>(m: map<K, V>) returns (ks: set<K>)
    ensures ks == m.Keys
  {
    ks := {};
    var todo := m.Keys;
    while todo != {}
      invariant todo <= m.Keys
      invariant ks == m.Keys - todo
      decreases |todo|
    {
      var k :| k in todo;
      ks := ks + {k};
      todo := todo - {k};
    }
  }

  class Classifier<W(==,!new), C(==,!new)> {
    /** `m_dict`: the words the smoothing denominator counts. */
    var dict: set<W>
    /** `m_class_vec`: the classes whose score includes the sample's words. */
    var classVec: seq<C>
    /** `m_prior` */
    var prior: map<C, real>
    /** `m_likelihood`: word, then class, to probability. */
    var likelihood: map<W, map<C, real>>

    /** The default constructor: everything empty. */
    constructor Default()
      ensures dict == {} && classVec == [] && prior == map[] && likelihood == map[]
    {
      dict := {};
      classVec := [];
      prior := map[];
      likelihood := map[];
    }

    /** The constructor from a prior and a likelihood table: both stored
        as given, the classes are the prior's keys and the dictionary the
        likelihood's words. */
    constructor (prior: map<C, real>, likelihood: map<W, map<C, real>>)
      ensures this.prior == prior && this.likelihood == likelihood
      ensures Distinct(classVec) && forall c :: c in classVec <==> c in prior
      ensures dict == likelihood.Keys
    {
      var classes := KeysOf(prior);
      var words := KeySet(likelihood);
      this.prior := prior;
      this.likelihood := likelihood;
      classVec := classes;
      dict := words;
    }

    /**
     * `fit`: the prior and the likelihood are recomputed from the training
     * set alone; the dictionary and the class list are left as they were,
     * so the smoothing denominator adds the size of the old dictionary.
     */
    method Fit(x: seq<Sample<W>>, y: seq<C>)
      requires |x| == |y|
      requires AllPositive(x)
      modifies this`prior, this`likelihood
      ensures prior == Priors(y)
      ensures IsLikelihoodTable(likelihood, MegaDocs(x, y, |x|), |dict|)
    {
      var counts := CountLabels(y);
      prior := DivideCounts(counts, |y|);
      var md := BuildMegaDocs(x, y);
      likelihood := SmoothLikelihoods(md, |dict|);
    }

    /**
     * `fit` as it was evidently meant to work: the dictionary becomes the
     * vocabulary of the training set and the class list the classes of the
     * new prior, so that every stored likelihood is a probability.
     */
    method FitWithVocabulary(x: seq<Sample<W>>, y: seq<C>)
      requires |x| == |y|
      requires AllPositive(x)
      modifies this
      ensures dict == Vocabulary(x)
      ensures prior == Priors(y)
      ensures Distinct(classVec) && forall c :: c in classVec <==> c in prior
      ensures IsLikelihoodTable(likelihood, MegaDocs(x, y, |x|), |dict|)
      ensures forall w, c :: w in likelihood && c in likelihood[w] ==> 0.0 < likelihood[w][c] <= 1.0
    {
      dict := CollectVocabulary(x);
      var counts := CountLabels(y);
      prior := DivideCounts(counts, |y|);
      classVec := KeysOf(prior);
      var md := BuildMegaDocs(x, y);
      likelihood := SmoothLikelihoods(md, |dict|);
      VocabularyLikelihoodInUnit(x, y, likelihood);
    }

    /** Whether every probability a sample needs can be formed: with an
        empty dictionary the fallback `1 / |dict|` is not a number. */
    predicate CanScore(x: Sample<W>)
      reads this
    {
      |dict| > 0 || classVec == [] || x == map[]
    }

    /** The score `predict` gives class `c`. */
    ghost function Score(x: Sample<W>, c: C, ln: real -> real): real
      reads this
      requires CanScore(x)
    {
      PartialScore(prior, classVec, likelihood, |dict|, x, c, ln, |classVec|)
    }

    /** The classes that get a score: the prior's, and those of the class
        list unless the sample is empty. */
    ghost function Candidates(x: Sample<W>): set<C>
      reads this
    {
      prior.Keys + if x == map[] then {} else set c | c in classVec
    }

    /**
     * `predict`: a class of highest score among the scored classes (the
     * source keeps the first maximum of an unordered map, so which of
     * several equal maxima is left open). The map of scores must not be
     * empty, since `max_element` of an empty map is dereferenced.
     */
    method Predict(x: Sample<W>, ln: real -> real) returns (best: C)
      requires Candidates(x) != {}
      requires CanScore(x)
      ensures best in Candidates(x)
      ensures forall c :: c in Candidates(x) ==> Score(x, c, ln) <= Score(x, best, ln)
    {
      var posterior := LogPriors(prior, ln);
      var i := 0;
      while i < |classVec|
        invariant 0 <= i <= |classVec|
        invariant PosteriorAfter(posterior, prior, classVec, likelihood, |dict|, x, ln, i)
      {
        ghost var before := posterior;
        posterior := AddWordTerms(posterior, likelihood, |dict|, x, classVec[i], ln);
        NextClass(before, posterior, prior, classVec, likelihood, |dict|, x, ln, i);
        i := i + 1;
      }
      assert classVec[..i] == classVec;
      assert posterior.Keys == Candidates(x);
      best := ArgMax(posterior);
    }

    /**
     * With an empty class list, as right after `fit` on a default-constructed
     * classifier, the sample plays no part: for a strictly increasing
     * logarithm, the class `predict` picks has the highest prior.
     */
    lemma {:induction false} HighestPriorWins(x: Sample<W>, best: C, ln: real -> real)
      requires classVec == []
      requires forall a, b :: a < b ==> ln(a) < ln(b)
      requires best in Candidates(x)
      requires forall c :: c in Candidates(x) ==> Score(x, c, ln) <= Score(x, best, ln)
      ensures best in prior
      ensures forall c :: c in prior ==> prior[c] <= prior[best]
    {
      forall c | c in prior
        ensures prior[c] <= prior[best]
      {
        assert c in Candidates(x);
      }
    }

    /** Batch `predict`: one prediction per sample, in order. */
    method PredictAll(xs: seq<Sample<W>>, ln: real -> real) returns (ys: seq<C>)
      requires forall i :: 0 <= i < |xs| ==> Candidates(xs[i]) != {} && CanScore(xs[i])
      ensures |ys| == |xs|
      ensures forall i :: 0 <= i < |xs| ==>
        ys[i] in Candidates(xs[i]) &&
        forall c :: c in Candidates(xs[i]) ==> Score(xs[i], c, ln) <= Score(xs[i], ys[i], ln)
    {
      ys := [];
      var i := 0;
      while i < |xs|
        invariant 0 <= i <= |xs| && |ys| == i
        invariant forall j :: 0 <= j < i ==>
          ys[j] in Candidates(xs[j]) &&
          forall c :: c in Candidates(xs[j]) ==> Score(xs[j], c, ln) <= Score(xs[j], ys[j], ln)
      {
        var c := Predict(xs[i], ln);
        ys := ys + [c];
        i := i + 1;
      }
    }
  }
}
