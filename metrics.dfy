/**
 * The evaluation metrics of include/metrics.hpp over a vector of true labels
 * and a vector of predicted labels: per-class precision, recall and F-beta
 * (the `NoAvg` variants, maps from class to value), their micro and macro
 * averages, and `f_beta` itself. Counts are exact, so the ratios are reals;
 * a division the program performs by zero (which yields NaN or infinity in
 * floating point) is the `None` of an option.
 */
module Metrics {
  import opened Collections

  /** The averaging a metric applies; `NoAvg` selects the per-class maps. */
  datatype AvgType = Micro | Macro | NoAvg

  // ---------------------------------------------------------------------------
  // Counts

  /** The classes of the correct predictions among the first `k` positions,
      each once per correct prediction (the diagonal of the confusion matrix). */
  function Hits<C(==,!new)>(yTrue: seq<C>, yPred: seq<C>, k: nat): (d: multiset<C>)
    requires k <= |yTrue| <= |yPred|
    ensures |d| <= k
  {
    if k == 0 then multiset{}
    else Hits(yTrue, yPred, k - 1) + (if yTrue[k - 1] == yPred[k - 1] then multiset{yTrue[k - 1]} else multiset{})
  }

  /** A class is a hit exactly when some position predicts it correctly. */
  lemma {:induction false} HitsMembership<C(!new)>(yTrue: seq<C>, yPred: seq<C>, k: nat, c: C)
    requires k <= |yTrue| <= |yPred|
    ensures c in Hits(yTrue, yPred, k) <==> exists i :: 0 <= i < k && yTrue[i] == c && yPred[i] == c
  {
    if k > 0 {
      HitsMembership(yTrue, yPred, k - 1, c);
      if yTrue[k - 1] == c && yPred[k - 1] == c {
        assert c in Hits(yTrue, yPred, k);
      }
    }
  }

  /** Every hit of a class is also a prediction of it and a true label of it. */
  lemma {:induction false} HitsBound<C(!new)>(yTrue: seq<C>, yPred: seq<C>, k: nat, c: C)
    requires k <= |yTrue| <= |yPred|
    ensures Hits(yTrue, yPred, k)[c] <= multiset(yPred[..k])[c]
    ensures Hits(yTrue, yPred, k)[c] <= multiset(yTrue[..k])[c]
  {
    if k > 0 {
      HitsBound(yTrue, yPred, k - 1, c);
      assert yPred[..k] == yPred[..k - 1] + [yPred[k - 1]];
      assert yTrue[..k] == yTrue[..k - 1] + [yTrue[k - 1]];
    }
  }

  /** The bounds of `HitsBound` for every class at once. */
  lemma HitsBoundAll<C(!new)>(yTrue: seq<C>, yPred: seq<C>, k: nat)
    requires k <= |yTrue| <= |yPred|
    ensures forall c :: Hits(yTrue, yPred, k)[c] <= multiset(yPred[..k])[c]
    ensures forall c :: Hits(yTrue, yPred, k)[c] <= multiset(yTrue[..k])[c]
  {
    forall c ensures Hits(yTrue, yPred, k)[c] <= multiset(yPred[..k])[c] && Hits(yTrue, yPred, k)[c] <= multiset(yTrue[..k])[c] {
      HitsBound(yTrue, yPred, k, c);
    }
  }

  /** A multiset of counts as the map an unordered map of counters holds:
      a key for every class counted at least once. */
  function Counters<C(==,!new)>(d: multiset<C>): (m: map<C, real>)
    ensures forall c :: c in m <==> c in d
  {
    map c | c in d :: d[c] as real
  }

  /** Incrementing the counter of one class (`map[c]++`). */
  lemma {:induction false} CountersAdd<C(!new)>(d: multiset<C>, c: C)
    ensures Counters(d + multiset{c}) == Counters(d)[c := Get(Counters(d), c, 0.0) + 1.0]
  {
  }

  // ---------------------------------------------------------------------------
  // Per-class precision and recall

  /** The correct predictions of each correctly predicted class over its count in `base`. */
  function Ratios<C(==,!new)>(yTrue: seq<C>, yPred: seq<C>, base: multiset<C>): (m: map<C, real>)
    requires |yTrue| <= |yPred|
    requires forall c :: Hits(yTrue, yPred, |yTrue|)[c] <= base[c]
  {
    var d := Hits(yTrue, yPred, |yTrue|);
    map c | c in d :: d[c] as real / base[c] as real
  }

  /** `precision<NoAvg>` as a value: per class, true positives over predictions. */
  function PrecisionMap<C(==,!new)>(yTrue: seq<C>, yPred: seq<C>): map<C, real>
    requires |yTrue| <= |yPred|
  {
    var n := |yTrue|;
    HitsBoundAll(yTrue, yPred, n);
    Ratios(yTrue, yPred, multiset(yPred[..n]))
  }

  /** `recall<NoAvg>` as a value: per class, true positives over true labels. */
  function RecallMap<C(==,!new)>(yTrue: seq<C>, yPred: seq<C>): map<C, real>
    requires |yTrue| <= |yPred|
  {
    var n := |yTrue|;
    HitsBoundAll(yTrue, yPred, n);
    Ratios(yTrue, yPred, multiset(yTrue[..n]))
  }

  /**
   * `precision<NoAvg>`: counts the predictions and the correct predictions
   * of every class in one pass, then divides the second counters by the
   * first in place.
   */
  method PrecisionNoAvg<C(==,!new)>(yTrue: seq<C>, yPred: seq<C>) returns (precision: map<C, real>)
    requires |yTrue| <= |yPred|
    ensures precision == PrecisionMap(yTrue, yPred)
  {
    var n := |yTrue|;
    precision := map[];
    var positiveCount: multiset<C> := multiset{};
    var i := 0;
    while i < n
      invariant 0 <= i <= n
      invariant positiveCount == multiset(yPred[..i])
      invariant precision == Counters(Hits(yTrue, yPred, i))
    {
      CountStep(yTrue, yPred, i);
      positiveCount := positiveCount + multiset{yPred[i]};
      if yTrue[i] == yPred[i] {
        precision := precision[yPred[i] := Get(precision, yPred[i], 0.0) + 1.0];
      }
      i := i + 1;
    }
    HitsBoundAll(yTrue, yPred, n);
    precision := DivideCounters(precision, Hits(yTrue, yPred, n), positiveCount);
    RatiosUnfold(yTrue, yPred, positiveCount);
  }

  /**
   * `recall<NoAvg>`: the same pass counting true labels instead of
   * predictions.
   */
  method RecallNoAvg<C(==,!new)>(yTrue: seq<C>, yPred: seq<C>) returns (recall: map<C, real>)
    requires |yTrue| <= |yPred|
    ensures recall == RecallMap(yTrue, yPred)
  {
    var n := |yTrue|;
    recall := map[];
    var trueCount: multiset<C> := multiset{};
    var i := 0;
    while i < n
      invariant 0 <= i <= n
      invariant trueCount == multiset(yTrue[..i])
      invariant recall == Counters(Hits(yTrue, yPred, i))
    {
      CountStep(yTrue, yPred, i);
      trueCount := trueCount + multiset{yTrue[i]};
      if yTrue[i] == yPred[i] {
        recall := recall[yPred[i] := Get(recall, yPred[i], 0.0) + 1.0];
      }
      i := i + 1;
    }
    HitsBoundAll(yTrue, yPred, n);
    recall := DivideCounters(recall, Hits(yTrue, yPred, n), trueCount);
    RatiosUnfold(yTrue, yPred, trueCount);
  }

  /** One more position: its labels are counted, and its class is a hit when the prediction is right. */
  lemma CountStep<C(!new)>(yTrue: seq<C>, yPred: seq<C>, i: nat)
    requires i < |yTrue| <= |yPred|
    ensures multiset(yPred[..i + 1]) == multiset(yPred[..i]) + multiset{yPred[i]}
    ensures multiset(yTrue[..i + 1]) == multiset(yTrue[..i]) + multiset{yTrue[i]}
    ensures yTrue[i] == yPred[i] ==>
      Counters(Hits(yTrue, yPred, i + 1)) == Counters(Hits(yTrue, yPred, i))[yPred[i] := Get(Counters(Hits(yTrue, yPred, i)), yPred[i], 0.0) + 1.0]
    ensures yTrue[i] != yPred[i] ==> Hits(yTrue, yPred, i + 1) == Hits(yTrue, yPred, i)
  {
    assert yPred[..i + 1] == yPred[..i] + [yPred[i]];
    assert yTrue[..i + 1] == yTrue[..i] + [yTrue[i]];
    if yTrue[i] == yPred[i] {
      CountersAdd(Hits(yTrue, yPred, i), yPred[i]);
    }
  }

  /** `Ratios` spelled out. */
  lemma RatiosUnfold<C(!new)>(yTrue: seq<C>, yPred: seq<C>, base: multiset<C>)
    requires |yTrue| <= |yPred|
    requires forall c :: Hits(yTrue, yPred, |yTrue|)[c] <= base[c]
    ensures Ratios(yTrue, yPred, base)
      == map c | c in Hits(yTrue, yPred, |yTrue|) :: Hits(yTrue, yPred, |yTrue|)[c] as real / base[c] as real
  {
  }

  /** The second loop: every counter divided by the class's count in `base`
      (`value /= count.at(cls)`), one key at a time in any order. */
  method DivideCounters<C(==,!new)>(counters: map<C, real>, ghost d: multiset<C>, base: multiset<C>)
    returns (r: map<C, real>)
    requires counters == Counters(d)
    requires forall c :: d[c] <= base[c]
    ensures r == map c | c in d :: d[c] as real / base[c] as real
  {
    r := counters;
    var todo := counters.Keys;
    while todo != {}
      invariant todo <= r.Keys && r.Keys == counters.Keys
      invariant forall c :: c in r ==> r[c] == if c in todo then counters[c] else counters[c] / base[c] as real
      decreases |todo|
    {
      var cls :| cls in todo;
      assert base[cls] > 0;
      r := r[cls := r[cls] / base[cls] as real];
      todo := todo - {cls};
    }
  }

  /** The keys of the per-class maps are exactly the classes predicted
      correctly at least once; a class never predicted correctly has no entry
      rather than the value 0. */
  lemma {:induction false} PerClassKeys<C(!new)>(yTrue: seq<C>, yPred: seq<C>, c: C)
    requires |yTrue| <= |yPred|
    ensures c in PrecisionMap(yTrue, yPred) <==> exists i :: 0 <= i < |yTrue| && yTrue[i] == c && yPred[i] == c
    ensures c in RecallMap(yTrue, yPred) <==> c in PrecisionMap(yTrue, yPred)
  {
    HitsMembership(yTrue, yPred, |yTrue|, c);
  }

  /** Every per-class precision and recall lies in (0, 1]. */
  lemma {:induction false} PerClassInUnit<C(!new)>(yTrue: seq<C>, yPred: seq<C>, c: C)
    requires |yTrue| <= |yPred|
    requires c in PrecisionMap(yTrue, yPred)
    ensures 0.0 < PrecisionMap(yTrue, yPred)[c] <= 1.0
    ensures 0.0 < RecallMap(yTrue, yPred)[c] <= 1.0
  {
    var n := |yTrue|;
    var d := Hits(yTrue, yPred, n);
    HitsBound(yTrue, yPred, n, c);
    assert yTrue[..n] == yTrue;
    FractionInUnit(d[c] as real, multiset(yPred[..n])[c] as real);
    FractionInUnit(d[c] as real, multiset(yTrue)[c] as real);
  }

  // ---------------------------------------------------------------------------
  // Averages

  /** The fraction of positions predicted correctly; no value for no labels. */
  function Accuracy<C(==,!new)>(yTrue: seq<C>, yPred: seq<C>): (r: Option<real>)
    requires |yTrue| <= |yPred|
  {
    if |yTrue| == 0 then None
    else Some(|Hits(yTrue, yPred, |yTrue|)| as real / |yTrue| as real)
  }

  /** All correct predictions among the first `k` positions are hits. */
  lemma {:induction false} AllHits<C(!new)>(yTrue: seq<C>, yPred: seq<C>, k: nat)
    requires k <= |yTrue| <= |yPred|
    ensures |Hits(yTrue, yPred, k)| == k <==> yTrue[..k] == yPred[..k]
  {
    if k > 0 {
      AllHits(yTrue, yPred, k - 1);
      assert yTrue[..k] == yTrue[..k - 1] + [yTrue[k - 1]];
      assert yPred[..k] == yPred[..k - 1] + [yPred[k - 1]];
      if yTrue[..k] == yPred[..k] {
        assert yTrue[..k - 1] == yTrue[..k][..k - 1];
        assert yPred[..k - 1] == yPred[..k][..k - 1];
        assert yTrue[k - 1] == yTrue[..k][k - 1];
      }
    }
  }

  /** Accuracy lies in [0, 1], and is 1 exactly when every prediction is right. */
  lemma {:induction false} AccuracyRange<C(!new)>(yTrue: seq<C>, yPred: seq<C>)
    requires 0 < |yTrue| <= |yPred|
    ensures Accuracy(yTrue, yPred).Some?
    ensures 0.0 <= Accuracy(yTrue, yPred).value <= 1.0
    ensures Accuracy(yTrue, yPred).value == 1.0 <==> yTrue == yPred[..|yTrue|]
  {
    var n := |yTrue|;
    AllHits(yTrue, yPred, n);
    assert yTrue[..n] == yTrue;
    RatioRange(|Hits(yTrue, yPred, n)| as real, n as real);
  }

  /** A count over a positive count at least as large lies in [0, 1], and is 1 exactly when they agree. */
  lemma RatioRange(h: real, n: real)
    requires 0.0 <= h <= n && 0.0 < n
    ensures 0.0 <= h / n <= 1.0
    ensures h / n == 1.0 <==> h == n
  {
    if h > 0.0 {
      FractionInUnit(h, n);
    }
    if h / n == 1.0 {
      assert h == (h / n) * n;
    }
    if h == n {
      QuotientOf(h, n, 1.0);
    }
  }

  /** The micro average of precision, and equally of recall: one pass counting
      the correct predictions, then a division by the number of labels. */
  method MicroAverage<C(==,!new)>(yTrue: seq<C>, yPred: seq<C>) returns (r: Option<real>)
    requires |yTrue| <= |yPred|
    ensures r == Accuracy(yTrue, yPred)
  {
    var tp := 0.0;
    var i := 0;
    while i < |yTrue|
      invariant 0 <= i <= |yTrue|
      invariant tp == |Hits(yTrue, yPred, i)| as real
    {
      tp := tp + if yTrue[i] == yPred[i] then 1.0 else 0.0;
      i := i + 1;
    }
    if |yTrue| == 0 {
      return None;
    }
    return Some(tp / |yTrue| as real);
  }

  /** The unweighted mean of the values of a map; no value for an empty map. */
  ghost function Mean<C(!new)>(m: map<C, real>): Option<real>
  {
    if m == map[] then None else Some(Sum(m) / |m| as real)
  }

  /** A mean of values in (0, 1] is in (0, 1]. */
  lemma {:induction false} MeanInUnit<C(!new)>(m: map<C, real>)
    requires m != map[]
    requires forall c :: c in m ==> 0.0 < m[c] <= 1.0
    ensures Mean(m).Some? && 0.0 < Mean(m).value <= 1.0
  {
    SumPositive(m);
    SumAtMostSize(m);
    FractionInUnit(Sum(m), |m| as real);
  }

  /** The macro average: the values summed in the map's order, then divided
      by the number of classes. */
  method MacroAverage<C(==,!new)>(m: map<C, real>) returns (r: Option<real>)
    ensures r == Mean(m)
  {
    var total := 0.0;
    var todo := m.Keys;
    ghost var part: map<C, real> := map[];
    while todo != {}
      invariant todo <= m.Keys
      invariant part.Keys == m.Keys - todo
      invariant forall c :: c in part ==> part[c] == m[c]
      invariant total == Sum(part)
      decreases |todo|
    {
      var cls :| cls in todo;
      SumUpdate(part, cls, m[cls]);
      total := total + m[cls];
      part := part[cls := m[cls]];
      todo := todo - {cls};
    }
    assert part == m;
    if m == map[] {
      return None;
    }
    return Some(total / |m| as real);
  }

  /** `precision<Micro>` and `precision<Macro>`. */
  method AveragedPrecision<C(==,!new)>(avg: AvgType, yTrue: seq<C>, yPred: seq<C>) returns (r: Option<real>)
    requires avg != NoAvg
    requires |yTrue| <= |yPred|
    ensures avg == Micro ==> r == Accuracy(yTrue, yPred)
    ensures avg == Macro ==> r == Mean(PrecisionMap(yTrue, yPred))
  {
    if avg == Micro {
      r := MicroAverage(yTrue, yPred);
    } else {
      var separate := PrecisionNoAvg(yTrue, yPred);
      r := MacroAverage(separate);
    }
  }

  /** `recall<Micro>` and `recall<Macro>`. */
  method AveragedRecall<C(==,!new)>(avg: AvgType, yTrue: seq<C>, yPred: seq<C>) returns (r: Option<real>)
    requires avg != NoAvg
    requires |yTrue| <= |yPred|
    ensures avg == Micro ==> r == Accuracy(yTrue, yPred)
    ensures avg == Macro ==> r == Mean(RecallMap(yTrue, yPred))
  {
    if avg == Micro {
      r := MicroAverage(yTrue, yPred);
    } else {
      var separate := RecallNoAvg(yTrue, yPred);
      r := MacroAverage(separate);
    }
  }

  /** A macro-averaged precision or recall of a non-empty map lies in (0, 1]. */
  lemma {:induction false} MacroInUnit<C(!new)>(yTrue: seq<C>, yPred: seq<C>)
    requires |yTrue| <= |yPred|
    requires PrecisionMap(yTrue, yPred) != map[]
    ensures Mean(PrecisionMap(yTrue, yPred)).Some? && 0.0 < Mean(PrecisionMap(yTrue, yPred)).value <= 1.0
    ensures Mean(RecallMap(yTrue, yPred)).Some? && 0.0 < Mean(RecallMap(yTrue, yPred)).value <= 1.0
  {
    var p := PrecisionMap(yTrue, yPred);
    var r := RecallMap(yTrue, yPred);
    forall c | c in p ensures 0.0 < p[c] <= 1.0 && 0.0 < r[c] <= 1.0 {
      PerClassInUnit(yTrue, yPred, c);
    }
    var c :| c in p;
    PerClassKeys(yTrue, yPred, c);
    forall c | c in r ensures 0.0 < r[c] <= 1.0 {
      PerClassKeys(yTrue, yPred, c);
      PerClassInUnit(yTrue, yPred, c);
    }
    MeanInUnit(p);
    MeanInUnit(r);
  }

  // ---------------------------------------------------------------------------
  // F-beta

  /** `f_beta(precision, recall, beta)`; no value when the denominator is zero. */
  function FBeta(p: real, r: real, beta: real): (f: Option<real>)
    ensures f.None? <==> beta * beta * p + r == 0.0
  {
    var betaSq := beta * beta;
    if betaSq * p + r == 0.0 then None
    else Some((1.0 + betaSq) * (p * r) / (betaSq * p + r))
  }

  /** With precision equal to recall, F-beta is that value, whatever beta. */
  lemma {:induction false} FBetaOfEqual(p: real, beta: real)
    requires 0.0 < p
    ensures FBeta(p, p, beta) == Some(p)
  {
    assert 0.0 <= beta * beta;
    EqualQuotient(beta * beta, p);
    FBetaValue(p, p, beta);
    assert (1.0 + beta * beta) * (p * p) / (beta * beta * p + p) == p;
  }

  lemma EqualQuotient(b: real, p: real)
    requires 0.0 <= b && 0.0 < p
    ensures b * p + p != 0.0
    ensures (1.0 + b) * (p * p) / (b * p + p) == p
  {
    NonNegativeProduct(b, p);
    var den := b * p + p;
    var num := (1.0 + b) * (p * p);
    assert num == den * p;
    QuotientOf(num, den, p);
  }

  /** F-beta of a precision and a recall in (0, 1] is defined and in (0, 1]. */
  lemma {:induction false} FBetaInUnit(p: real, r: real, beta: real)
    requires 0.0 < p <= 1.0 && 0.0 < r <= 1.0
    ensures FBeta(p, r, beta).Some?
    ensures 0.0 < FBeta(p, r, beta).value <= 1.0
  {
    NonNegativeProduct(beta * beta, p);
    FBetaValue(p, r, beta);
    QuotientInUnit(beta * beta, p, r);
  }

  lemma QuotientInUnit(b: real, p: real, r: real)
    requires 0.0 <= b
    requires 0.0 < p <= 1.0 && 0.0 < r <= 1.0
    ensures 0.0 < (1.0 + b) * (p * r) / (b * p + r) <= 1.0
  {
    var bp := b * p;
    NonNegativeProduct(b, p);
    var pr := p * r;
    ProductBelow(r, p);
    ProductBelow(bp, r);
    assert b * pr == bp * r;
    var num := (1.0 + b) * pr;
    assert num == bp * r + pr;
    PositiveProduct(1.0 + b, pr);
    FractionInUnit(num, bp + r);
  }

  /** The value of F-beta where the denominator is not zero. */
  lemma FBetaValue(p: real, r: real, beta: real)
    requires beta * beta * p + r != 0.0
    ensures FBeta(p, r, beta) == Some((1.0 + beta * beta) * (p * r) / (beta * beta * p + r))
  {
  }

  lemma PositiveProduct(x: real, y: real)
    requires 0.0 < x && 0.0 < y
    ensures 0.0 < x * y
  {
  }

  /** The quotient of a product by one of its factors. */
  lemma QuotientOf(a: real, b: real, q: real)
    requires b != 0.0 && a == q * b
    ensures a / b == q
  {
  }

  lemma NonNegativeProduct(x: real, y: real)
    requires 0.0 <= x && 0.0 <= y
    ensures 0.0 <= x * y
  {
  }

  /** Scaling a non-negative value by a factor in (0, 1] does not increase it. */
  lemma ProductBelow(x: real, f: real)
    requires 0.0 <= x && 0.0 < f <= 1.0
    ensures x * f <= x && f * x <= x
    ensures 0.0 < x ==> 0.0 < f * x
  {
  }

  /** F-beta of no correct prediction at all is 0/0. */
  lemma {:induction false} FBetaOfZero(beta: real)
    ensures FBeta(0.0, 0.0, beta).None?
  {
  }

  /** Per class, F-beta of the class's precision and recall. */
  function FScoreMap<C(==,!new)>(yTrue: seq<C>, yPred: seq<C>, beta: real): (m: map<C, real>)
    requires |yTrue| <= |yPred|
    ensures m.Keys == PrecisionMap(yTrue, yPred).Keys
    ensures forall c :: c in m ==> 0.0 < m[c] <= 1.0
  {
    var p := PrecisionMap(yTrue, yPred);
    var r := RecallMap(yTrue, yPred);
    assert forall c :: c in p ==> c in r && FBeta(p[c], r[c], beta).Some? && 0.0 < FBeta(p[c], r[c], beta).value <= 1.0 by {
      forall c | c in p ensures c in r && FBeta(p[c], r[c], beta).Some? && 0.0 < FBeta(p[c], r[c], beta).value <= 1.0 {
        PerClassKeys(yTrue, yPred, c);
        PerClassInUnit(yTrue, yPred, c);
        FBetaInUnit(p[c], r[c], beta);
      }
    }
    map c | c in p :: FBeta(p[c], r[c], beta).value
  }

  /**
   * `f_score<NoAvg>` as written: the "recall" map it combines with the
   * precision map is a second call of `precision<NoAvg>`, so every class's
   * F-beta is computed from its precision twice and equals the precision.
   */
  method FScoreNoAvgAsWritten<C(==,!new)>(yTrue: seq<C>, yPred: seq<C>, beta: real) returns (fscores: map<C, real>)
    requires |yTrue| <= |yPred|
    ensures fscores == PrecisionMap(yTrue, yPred)
  {
    var separatePrecision := PrecisionNoAvg(yTrue, yPred);
    var separateRecall := PrecisionNoAvg(yTrue, yPred);
    fscores := map[];
    var todo := separatePrecision.Keys;
    while todo != {}
      invariant todo <= separatePrecision.Keys
      invariant fscores.Keys == separatePrecision.Keys - todo
      invariant forall c :: c in fscores ==> fscores[c] == separatePrecision[c]
      decreases |todo|
    {
      var cls :| cls in todo;
      PerClassInUnit(yTrue, yPred, cls);
      FBetaOfEqual(separatePrecision[cls], beta);
      fscores := fscores[cls := FBeta(separatePrecision[cls], separateRecall[cls], beta).value];
      todo := todo - {cls};
    }
  }

  /** `f_score<NoAvg>` combining each class's precision with its recall. */
  method FScoreNoAvg<C(==,!new)>(yTrue: seq<C>, yPred: seq<C>, beta: real) returns (fscores: map<C, real>)
    requires |yTrue| <= |yPred|
    ensures fscores == FScoreMap(yTrue, yPred, beta)
  {
    var separatePrecision := PrecisionNoAvg(yTrue, yPred);
    var separateRecall := RecallNoAvg(yTrue, yPred);
    ghost var target := FScoreMap(yTrue, yPred, beta);
    fscores := map[];
    var todo := separatePrecision.Keys;
    while todo != {}
      invariant todo <= separatePrecision.Keys
      invariant fscores.Keys == separatePrecision.Keys - todo
      invariant forall c :: c in fscores ==> fscores[c] == target[c]
      decreases |todo|
    {
      var cls :| cls in todo;
      PerClassKeys(yTrue, yPred, cls);
      PerClassInUnit(yTrue, yPred, cls);
      FBetaInUnit(separatePrecision[cls], separateRecall[cls], beta);
      fscores := fscores[cls := FBeta(separatePrecision[cls], separateRecall[cls], beta).value];
      todo := todo - {cls};
    }
  }

  /** On true labels [0, 1] and predictions [0, 0], class 0 has precision 1/2
      and recall 1: its F1 is 2/3, but precision fed in twice gives 1/2. */
  lemma {:induction false} PrecisionTwiceCounterexample()
    ensures PrecisionMap([0, 1], [0, 0]) == map[0 := 0.5]
    ensures FScoreMap([0, 1], [0, 0], 1.0) == map[0 := 2.0 / 3.0]
  {
    var yTrue, yPred := [0, 1], [0, 0];
    assert Hits(yTrue, yPred, 2) == multiset{0};
    assert yPred[..2] == yPred;
    assert multiset(yPred) == multiset{0, 0};
    assert yTrue[..2] == yTrue;
    assert multiset(yTrue) == multiset{0, 1};
    assert PrecisionMap(yTrue, yPred) == map[0 := 0.5];
    assert RecallMap(yTrue, yPred) == map[0 := 1.0];
    assert FBeta(0.5, 1.0, 1.0) == Some(2.0 / 3.0);
  }

  /** The mean of a single value is that value. */
  lemma MeanOfOne<C(!new)>(c: C, v: real)
    ensures Mean(map[c := v]) == Some(v)
  {
    SumRemove(map[c := v], c);
    assert map[c := v] - {c} == map[];
  }

  /** On the same labels the macro F-score as written is 1/2 where the mean
      of the per-class F1 scores is 2/3. */
  lemma {:induction false} MacroPrecisionCounterexample()
    ensures Mean(PrecisionMap([0, 1], [0, 0])) == Some(0.5)
    ensures Mean(FScoreMap([0, 1], [0, 0], 1.0)) == Some(2.0 / 3.0)
  {
    PrecisionTwiceCounterexample();
    MeanOfOne(0, 0.5);
    MeanOfOne(0, 2.0 / 3.0);
  }

  /**
   * `f_score<Micro>` and `f_score<Macro>` as written. The micro score
   * combines the micro precision and recall; the macro score averages the
   * per-class scores of `f_score<NoAvg>` as written, called without passing
   * `beta` on, so it is the mean of the per-class precisions.
   */
  method AveragedFScore<C(==,!new)>(avg: AvgType, yTrue: seq<C>, yPred: seq<C>, beta: real) returns (r: Option<real>)
    requires avg != NoAvg
    requires |yTrue| <= |yPred|
    ensures avg == Micro ==> r == (var a := Accuracy(yTrue, yPred); if a.None? then None else FBeta(a.value, a.value, beta))
    ensures avg == Macro ==> r == Mean(PrecisionMap(yTrue, yPred))
  {
    if avg == Micro {
      var microPrecision := MicroAverage(yTrue, yPred);
      var microRecall := MicroAverage(yTrue, yPred);
      if microPrecision.None? {
        return None;
      }
      r := FBeta(microPrecision.value, microRecall.value, beta);
    } else {
      var separate := FScoreNoAvgAsWritten(yTrue, yPred, 1.0);
      r := MacroAverage(separate);
    }
  }

  /** `f_score<Macro>` over the corrected per-class scores: the mean of the
      per-class F1 scores, each combining the class's precision and recall. */
  method MacroFScore<C(==,!new)>(yTrue: seq<C>, yPred: seq<C>) returns (r: Option<real>)
    requires |yTrue| <= |yPred|
    ensures r == Mean(FScoreMap(yTrue, yPred, 1.0))
  {
    var separate := FScoreNoAvg(yTrue, yPred, 1.0);
    r := MacroAverage(separate);
  }

  /** The micro F-beta is the accuracy whenever some prediction is right. */
  lemma {:induction false} MicroFScoreIsAccuracy<C(!new)>(yTrue: seq<C>, yPred: seq<C>, beta: real)
    requires |yTrue| <= |yPred|
    requires Accuracy(yTrue, yPred).Some? && Accuracy(yTrue, yPred).value > 0.0
    ensures FBeta(Accuracy(yTrue, yPred).value, Accuracy(yTrue, yPred).value, beta) == Accuracy(yTrue, yPred)
  {
    FBetaOfEqual(Accuracy(yTrue, yPred).value, beta);
  }
}
