/**
 * Feature selection by mutual information: for each class, every word of the
 * training set gets the mutual information between "the document contains the
 * word" and "the document has the class"; the `k` best words of each class are
 * kept, and training documents of a class lose every other word. Words are
 * strings ordered as `std::string`'s `operator<`; `log2` is an uninterpreted
 * function passed in by the caller.
 */
module FeatureSelection {
  import opened Collections
  import opened Text
  import opened NaiveBayes

  // ---------------------------------------------------------------------
  // The contingency table of one word against the target class
  // ---------------------------------------------------------------------

  /** `count[e_w][e_c]`: `n11` documents hold the word and have the target
      class, `n10` hold it with another class, `n01` lack it and have the
      class, `n00` lack it and have another class. */
  datatype Table = Table(n00: nat, n01: nat, n10: nat, n11: nat)

  /** How many of the first `k` documents agree with `inDoc` on holding `w`
      and with `inClass` on being labelled `target`. */
  function Cell<C(==)>(x: seq<Sample<string>>, y: seq<C>, target: C, w: string,
                       inDoc: bool, inClass: bool, k: nat): (n: nat)
    requires k <= |x| && k <= |y|
    ensures n <= k
  {
    if k == 0 then 0
    else
      Cell(x, y, target, w, inDoc, inClass, k - 1)
        + (if (w in x[k - 1]) == inDoc && (y[k - 1] == target) == inClass then 1 else 0)
  }

  /** Cells of one class column add up to the class's documents. */
  lemma {:induction false} CellColumns<C>(x: seq<Sample<string>>, y: seq<C>, target: C, w: string, k: nat)
    requires k <= |x| && k <= |y|
    ensures Cell(x, y, target, w, true, true, k) + Cell(x, y, target, w, false, true, k)
            == multiset(y[..k])[target]
    ensures Cell(x, y, target, w, true, false, k) + Cell(x, y, target, w, false, false, k)
            == k - multiset(y[..k])[target]
  {
    if k > 0 {
      CellColumns(x, y, target, w, k - 1);
      assert y[..k] == y[..k - 1] + [y[k - 1]];
    }
  }

  /** The table of word `w`, counted cell by cell over all documents. */
  function Contingency<C(==)>(x: seq<Sample<string>>, y: seq<C>, target: C, w: string): (t: Table)
    requires |x| == |y|
    ensures t.n00 + t.n01 + t.n10 + t.n11 == |x|
    ensures t.n01 + t.n11 == multiset(y)[target]
  {
    CellColumns(x, y, target, w, |x|);
    assert y[..|x|] == y;
    Table(Cell(x, y, target, w, false, false, |x|), Cell(x, y, target, w, false, true, |x|),
          Cell(x, y, target, w, true, false, |x|), Cell(x, y, target, w, true, true, |x|))
  }

  /** A word held by every document leaves the "without the word" row empty. */
  lemma {:induction false} CellOfAbsentEmpty<C>(x: seq<Sample<string>>, y: seq<C>, target: C, w: string,
                                                inClass: bool, k: nat)
    requires k <= |x| && k <= |y|
    requires forall i :: 0 <= i < k ==> w in x[i]
    ensures Cell(x, y, target, w, false, inClass, k) == 0
  {
    if k > 0 {
      CellOfAbsentEmpty(x, y, target, w, inClass, k - 1);
    }
  }

  // ---------------------------------------------------------------------
  // The index from words to the documents holding them
  // ---------------------------------------------------------------------

  /** `word_docs[w]`: the positions among the first `k` documents that hold `w`, in increasing order. */
  function DocsWith(x: seq<Sample<string>>, w: string, k: nat): (ids: seq<nat>)
    requires k <= |x|
    ensures forall j :: 0 <= j < |ids| ==> ids[j] < k
  {
    if k == 0 then [] else DocsWith(x, w, k - 1) + (if w in x[k - 1] then [k - 1] else [])
  }

  /** The index lists exactly the documents holding the word, in increasing order. */
  lemma {:induction false} DocsWithMembers(x: seq<Sample<string>>, w: string, k: nat)
    requires k <= |x|
    ensures forall i :: i in DocsWith(x, w, k) <==> 0 <= i < k && w in x[i]
    ensures forall j1, j2 :: 0 <= j1 < j2 < |DocsWith(x, w, k)| ==> DocsWith(x, w, k)[j1] < DocsWith(x, w, k)[j2]
  {
    if k > 0 {
      DocsWithMembers(x, w, k - 1);
    }
  }

  /** Builds `word_docs`: one pass over the documents, appending each document's position to every word it holds. */
  method IndexDocs(x: seq<Sample<string>>) returns (wordDocs: map<string, seq<nat>>)
    ensures wordDocs.Keys == Vocabulary(x)
    ensures forall w :: w in wordDocs ==> wordDocs[w] == DocsWith(x, w, |x|)
  {
    wordDocs := map[];
    var i := 0;
    while i < |x|
      invariant i <= |x|
      invariant forall w :: w in wordDocs <==> DocsWith(x, w, i) != []
      invariant forall w :: w in wordDocs ==> wordDocs[w] == DocsWith(x, w, i)
    {
      wordDocs := IndexDocument(x, i, wordDocs);
      i := i + 1;
    }
    IndexKeys(x, wordDocs);
  }

  /** The inner loop of the index: document `i` is appended to the list of each of its words. */
  method IndexDocument(x: seq<Sample<string>>, i: nat, index: map<string, seq<nat>>)
    returns (wordDocs: map<string, seq<nat>>)
    requires i < |x|
    requires forall w :: w in index <==> DocsWith(x, w, i) != []
    requires forall w :: w in index ==> index[w] == DocsWith(x, w, i)
    ensures forall w :: w in wordDocs <==> DocsWith(x, w, i + 1) != []
    ensures forall w :: w in wordDocs ==> wordDocs[w] == DocsWith(x, w, i + 1)
  {
    wordDocs := index;
    var words := KeysOf(x[i]);
    var j := 0;
    while j < |words|
      invariant j <= |words|
      invariant forall w :: w in wordDocs <==> DocsWith(x, w, i) != [] || w in words[..j]
      invariant forall w :: w in wordDocs ==>
        wordDocs[w] == DocsWith(x, w, i) + (if w in words[..j] then [i] else [])
    {
      var w := words[j];
      assert w !in words[..j];
      assert words[..j + 1] == words[..j] + [w];
      wordDocs := wordDocs[w := Get(wordDocs, w, []) + [i]];
      j := j + 1;
    }
    assert words[..j] == words;
  }

  /** The words with a non-empty index entry are the words of the training set. */
  lemma {:induction false} IndexKeys(x: seq<Sample<string>>, wordDocs: map<string, seq<nat>>)
    requires forall w :: w in wordDocs <==> DocsWith(x, w, |x|) != []
    ensures wordDocs.Keys == Vocabulary(x)
  {
    forall w | w in Vocabulary(x)
      ensures w in wordDocs
    {
      var k :| 0 <= k < |x| && w in x[k];
      DocsWithMembers(x, w, |x|);
      assert k in DocsWith(x, w, |x|);
    }
    forall w | w in wordDocs
      ensures w in Vocabulary(x)
    {
      DocsWithMembers(x, w, |x|);
      var k := DocsWith(x, w, |x|)[0];
      assert w in x[k];
    }
  }

  /** How many of the positions `ids` are labelled `target`. */
  function TargetHits<C(==)>(ids: seq<nat>, y: seq<C>, target: C): (n: nat)
    requires forall j :: 0 <= j < |ids| ==> ids[j] < |y|
    ensures n <= |ids|
  {
    if ids == [] then 0
    else TargetHits(ids[..|ids| - 1], y, target) + (if y[ids[|ids| - 1]] == target then 1 else 0)
  }

  /** Counting labels over `word_docs[w]` gives the two "with the word" cells. */
  lemma {:induction false} TargetHitsOfDocs<C>(x: seq<Sample<string>>, y: seq<C>, target: C, w: string, k: nat)
    requires k <= |x| == |y|
    ensures TargetHits(DocsWith(x, w, k), y, target) == Cell(x, y, target, w, true, true, k)
    ensures |DocsWith(x, w, k)| - TargetHits(DocsWith(x, w, k), y, target) == Cell(x, y, target, w, true, false, k)
  {
    if k > 0 {
      TargetHitsOfDocs(x, y, target, w, k - 1);
      var ids := DocsWith(x, w, k - 1);
      var hit := if y[k - 1] == target then 1 else 0;
      if w in x[k - 1] {
        var d := ids + [k - 1];
        assert DocsWith(x, w, k) == d;
        assert d[..|d| - 1] == ids;
        assert TargetHits(d, y, target) == TargetHits(ids, y, target) + hit;
        assert Cell(x, y, target, w, true, true, k) == Cell(x, y, target, w, true, true, k - 1) + hit;
        assert Cell(x, y, target, w, true, false, k) == Cell(x, y, target, w, true, false, k - 1) + (1 - hit);
      } else {
        assert DocsWith(x, w, k) == ids;
        assert Cell(x, y, target, w, true, true, k) == Cell(x, y, target, w, true, true, k - 1);
        assert Cell(x, y, target, w, true, false, k) == Cell(x, y, target, w, true, false, k - 1);
      }
    }
  }

  /** Fills the table of one word from its `word_docs` entry: the "with the
      word" row by counting labels, the other row from the column totals.
      The two subtractions never wrap around. */
  method CountTable<C(==)>(x: seq<Sample<string>>, y: seq<C>, target: C, w: string,
                           ids: seq<nat>, nTarget: nat) returns (t: Table)
    requires |x| == |y|
    requires ids == DocsWith(x, w, |x|)
    requires nTarget == multiset(y)[target]
    ensures t == Contingency(x, y, target, w)
  {
    var n11, n10 := 0, 0;
    var j := 0;
    while j < |ids|
      invariant j <= |ids|
      invariant n11 == TargetHits(ids[..j], y, target)
      invariant n10 == j - n11
    {
      assert ids[..j + 1][..j] == ids[..j];
      if y[ids[j]] == target {
        n11 := n11 + 1;
      } else {
        n10 := n10 + 1;
      }
      j := j + 1;
    }
    assert ids[..j] == ids;
    TargetHitsOfDocs(x, y, target, w, |x|);
    CellColumns(x, y, target, w, |x|);
    assert y[..|x|] == y;
    t := Table(0, 0, n10, n11);
    t := t.(n01 := nTarget - n11);
    t := t.(n00 := (|x| - nTarget) - n10);
  }

  // ---------------------------------------------------------------------
  // Mutual information of a table
  // ---------------------------------------------------------------------

  /** `count[i][j]`. */
  function At(t: Table, i: nat, j: nat): nat
    requires i < 2 && j < 2
  {
    if i == 0 then (if j == 0 then t.n00 else t.n01)
    else (if j == 0 then t.n10 else t.n11)
  }

  function TableTotal(t: Table): nat
  {
    t.n00 + t.n01 + t.n10 + t.n11
  }

  /** What cell `(i, j)` adds to the sum: nothing when it is empty, otherwise
      `(c·log2(total·c) − c·log2(row·col)) / total`. */
  function Term(t: Table, i: nat, j: nat, log2: real -> real): (r: real)
    requires i < 2 && j < 2
    ensures At(t, i, j) == 0 ==> r == 0.0
  {
    var c := At(t, i, j);
    if c == 0 then 0.0
    else
      var total := TableTotal(t);
      var rowSum := At(t, i, 0) + At(t, i, 1);
      var colSum := At(t, 0, j) + At(t, 1, j);
      ((c as real) * log2((total * c) as real) - (c as real) * log2((rowSum * colSum) as real)) / total as real
  }

  /** The sum over the first `k` cells in row-major order. */
  function TermsUpTo(t: Table, k: nat, log2: real -> real): real
    requires k <= CELLS
  {
    if k == 0 then 0.0 else TermsUpTo(t, k - 1, log2) + Term(t, (k - 1) / 2, (k - 1) % 2, log2)
  }

  /** The number of cells of a table. */
  const CELLS: nat := 4

  function MutualInformation(t: Table, log2: real -> real): real
  {
    TermsUpTo(t, CELLS, log2)
  }

  /** The double loop over the four cells. */
  method TableInformation(t: Table, log2: real -> real) returns (mi: real)
    ensures mi == MutualInformation(t, log2)
  {
    mi := 0.0;
    var i := 0;
    while i < 2
      invariant i <= 2
      invariant mi == TermsUpTo(t, 2 * i, log2)
    {
      var j := 0;
      while j < 2
        invariant j <= 2
        invariant mi == TermsUpTo(t, 2 * i + j, log2)
      {
        if At(t, i, j) != 0 {
          mi := mi + Term(t, i, j, log2);
        }
        j := j + 1;
      }
      i := i + 1;
    }
  }

  /** The mutual information of word `w` and class `target`. */
  function WordInformation<C(==)>(x: seq<Sample<string>>, y: seq<C>, target: C, w: string,
                                  log2: real -> real): real
    requires |x| == |y|
  {
    MutualInformation(Contingency(x, y, target, w), log2)
  }

  /** The result of `mutual_info`: every word of the training set, with its mutual information. */
  function InformationMap<C(==)>(x: seq<Sample<string>>, y: seq<C>, target: C,
                                 log2: real -> real): (m: map<string, real>)
    requires |x| == |y|
    ensures m.Keys == Vocabulary(x)
  {
    map w | w in Vocabulary(x) :: WordInformation(x, y, target, w, log2)
  }

  /** A word found in every document says nothing about the class: its
      mutual information is zero whatever the logarithm. */
  lemma {:induction false} UbiquitousWordCarriesNothing<C>(x: seq<Sample<string>>, y: seq<C>, target: C,
                                                          w: string, log2: real -> real)
    requires |x| == |y|
    requires forall i :: 0 <= i < |x| ==> w in x[i]
    ensures WordInformation(x, y, target, w, log2) == 0.0
  {
    CellOfAbsentEmpty(x, y, target, w, true, |x|);
    CellOfAbsentEmpty(x, y, target, w, false, |x|);
    FullRowInformation(Contingency(x, y, target, w), log2);
  }

  /** A table whose "without the word" row is empty has zero mutual information. */
  lemma {:induction false} FullRowInformation(t: Table, log2: real -> real)
    requires t.n00 == 0 && t.n01 == 0
    ensures MutualInformation(t, log2) == 0.0
  {
    assert TableTotal(t) == t.n10 + t.n11;
    assert Term(t, 0, 0, log2) == 0.0 && Term(t, 0, 1, log2) == 0.0;
    assert (TableTotal(t) * t.n10) as real == ((At(t, 1, 0) + At(t, 1, 1)) * (At(t, 0, 0) + At(t, 1, 0))) as real;
    assert Term(t, 1, 0, log2) == 0.0;
    assert (TableTotal(t) * t.n11) as real == ((At(t, 1, 0) + At(t, 1, 1)) * (At(t, 0, 1) + At(t, 1, 1))) as real;
    assert Term(t, 1, 1, log2) == 0.0;
    assert TermsUpTo(t, 1, log2) == 0.0;
    assert TermsUpTo(t, 2, log2) == 0.0;
    assert TermsUpTo(t, 3, log2) == 0.0;
    assert TermsUpTo(t, 4, log2) == 0.0;
  }

  /** The body of the loop over the words: fill the table, then sum its cells. */
  method WordScore<C(==)>(x: seq<Sample<string>>, y: seq<C>, target: C, w: string,
                          ids: seq<nat>, nTarget: nat, log2: real -> real) returns (info: real)
    requires |x| == |y|
    requires ids == DocsWith(x, w, |x|)
    requires nTarget == multiset(y)[target]
    ensures info == WordInformation(x, y, target, w, log2)
  {
    var t := CountTable(x, y, target, w, ids, nTarget);
    info := TableInformation(t, log2);
  }

  /** `mutual_info`: the word set, the word-to-documents index, the number of
      target documents, then one table and one sum per word. */
  method MutualInfo<C(==)>(x: seq<Sample<string>>, y: seq<C>, target: C, log2: real -> real)
    returns (mi: map<string, real>)
    requires |x| == |y|
    ensures mi.Keys == Vocabulary(x)
    ensures forall w :: w in mi ==> mi[w] == WordInformation(x, y, target, w, log2)
  {
    var dict := CollectVocabulary(x);
    var wordDocs := IndexDocs(x);
    var nTarget := multiset(y)[target];
    mi := map[];
    var todo := dict;
    while todo != {}
      invariant todo <= dict
      invariant mi.Keys == dict - todo
      invariant forall w :: w in mi ==> mi[w] == WordInformation(x, y, target, w, log2)
      decreases |todo|
    {
      var w :| w in todo;
      var info := WordScore(x, y, target, w, wordDocs[w], nTarget, log2);
      mi := mi[w := info];
      todo := todo - {w};
    }
  }

  /** Any map holding every word of the training set with its mutual
      information is the one `mutual_info` describes. */
  lemma InformationMapUnique<C>(mi: map<string, real>, x: seq<Sample<string>>, y: seq<C>, target: C,
                                log2: real -> real)
    requires |x| == |y|
    requires mi.Keys == Vocabulary(x)
    requires forall w :: w in mi ==> mi[w] == WordInformation(x, y, target, w, log2)
    ensures mi == InformationMap(x, y, target, log2)
  {
  }

  // ---------------------------------------------------------------------
  // The k best words of each class
  // ---------------------------------------------------------------------

  /** `words` are `k` distinct words of `scores` in ascending order, and no
      word left out scores higher than a chosen one. */
  ghost predicate IsTopK(words: seq<string>, scores: map<string, real>, k: nat)
  {
    && |words| == k
    && StrictlyAscending(words)
    && (forall w :: w in words ==> w in scores)
    && (forall w, v :: w in words && v in scores && v !in words ==> scores[v] <= scores[w])
  }

  /** `w` is a key of greatest value. */
  predicate IsMaxKey(m: map<string, real>, w: string)
  {
    w in m && forall v :: v in m ==> m[v] <= m[w]
  }

  /** A non-empty map has a key of greatest value: what `front()` of a max-heap shows. */
  lemma {:induction false} MaxScoreExists(m: map<string, real>)
    requires m != map[]
    ensures exists w :: IsMaxKey(m, w)
    decreases |m|
  {
    var k :| k in m;
    var rest := m - {k};
    if m.Keys == {k} {
      assert IsMaxKey(m, k);
    } else {
      assert rest != map[] by {
        var v :| v in m.Keys && v != k;
        assert v in rest;
      }
      MaxScoreExists(rest);
      var b :| IsMaxKey(rest, b);
      var best := if m[k] <= m[b] then b else k;
      forall v | v in m ensures m[v] <= m[best] {
        if v != k { assert v in rest; }
      }
      assert IsMaxKey(m, best);
    }
  }

  /** The heap loop of `get_top_words_per_class`: `make_heap` over the pairs
      of the map, then `top_k` times `front()` and `pop_heap`. The heap is
      modelled by the pairs it still holds and `pop_heap` by taking out a
      pair of greatest score (among tied scores, whichever the heap holds
      first). Reading `front()` of an empty heap is undefined behaviour,
      modelled as `None`. */
  method PopTopK(scores: map<string, real>, k: nat) returns (r: Option<seq<string>>)
    ensures r.Some? <==> k <= |scores|
    ensures r.Some? ==> |r.value| == k && Distinct(r.value)
    ensures r.Some? ==> forall w :: w in r.value ==> w in scores
    ensures r.Some? ==> forall w, v :: w in r.value && v in scores && v !in r.value ==> scores[v] <= scores[w]
  {
    var heap := scores;
    var top: seq<string> := [];
    var i := 0;
    while i < k
      invariant i <= k
      invariant |top| == i && Distinct(top)
      invariant forall w :: w in heap <==> w in scores && w !in top
      invariant forall w :: w in heap ==> heap[w] == scores[w]
      invariant forall w :: w in top ==> w in scores
      invariant forall w, v :: w in top && v in heap ==> scores[v] <= scores[w]
      invariant |heap| + i == |scores|
    {
      if heap == map[] {
        assert |scores| == i < k;
        return None;
      }
      MaxScoreExists(heap);
      var w :| IsMaxKey(heap, w);
      assert (heap - {w}).Keys == heap.Keys - {w};
      top := top + [w];
      heap := heap - {w};
      i := i + 1;
    }
    assert forall v :: v in scores && v !in top ==> v in heap;
    r := Some(top);
  }

  /** Inserting a word into an ascending list of words. */
  function Insert(w: string, s: seq<string>): seq<string>
  {
    if s == [] then [w]
    else if LexLess(w, s[0]) then [w] + s
    else [s[0]] + Insert(w, s[1..])
  }

  /** A strictly ascending list stays so when a new word is inserted. */
  lemma {:induction false} InsertSorted(w: string, s: seq<string>)
    requires StrictlyAscending(s) && w !in s
    ensures StrictlyAscending(Insert(w, s))
    ensures |Insert(w, s)| == |s| + 1
    ensures forall v :: v in Insert(w, s) <==> v == w || v in s
  {
    if s == [] {
    } else if LexLess(w, s[0]) {
      forall j | 0 < j < |s| ensures LexLess(w, s[j]) {
        LexLessTransitive(w, s[0], s[j]);
      }
    } else {
      LexLessTotal(w, s[0]);
      InsertSorted(w, s[1..]);
      var t := Insert(w, s[1..]);
      assert forall v :: v in t ==> LexLess(s[0], v) by {
        forall v | v in t ensures LexLess(s[0], v) {
          if v != w {
            var j :| 0 <= j < |s[1..]| && s[1..][j] == v;
            assert s[j + 1] == v;
          }
        }
      }
      forall i, j | 0 <= i < j < |[s[0]] + t| ensures LexLess(([s[0]] + t)[i], ([s[0]] + t)[j]) {
        if i == 0 { assert t[j - 1] in t; }
      }
      assert forall v :: v in s <==> v == s[0] || v in s[1..];
    }
  }

  /** `std::sort` of the chosen words. How the library sorts is not
      modelled, only its result, which is unique for distinct words. */
  method SortWords(ws: seq<string>) returns (sorted: seq<string>)
    requires Distinct(ws)
    ensures StrictlyAscending(sorted) && |sorted| == |ws|
    ensures forall w :: w in sorted <==> w in ws
  {
    sorted := [];
    var i := 0;
    while i < |ws|
      invariant i <= |ws|
      invariant StrictlyAscending(sorted) && |sorted| == i
      invariant forall w :: w in sorted <==> w in ws[..i]
    {
      assert ws[i] !in ws[..i];
      InsertSorted(ws[i], sorted);
      assert ws[..i + 1] == ws[..i] + [ws[i]];
      sorted := Insert(ws[i], sorted);
      i := i + 1;
    }
    assert ws[..i] == ws;
  }

  /** One round of the loop over the classes: the mutual information of
      every word with class `c`, the `topK` best words popped off the heap,
      then sorted. When `topK` exceeds the number of distinct words the
      heap runs empty and the source reads past it: `None`. */
  method TopWordsOfClass<C(==,!new)>(xTrain: seq<Sample<string>>, yTrain: seq<C>, c: C,
                                     topK: nat, log2: real -> real)
    returns (r: Option<seq<string>>)
    requires |xTrain| == |yTrain|
    ensures r.Some? <==> topK <= |Vocabulary(xTrain)|
    ensures r.Some? ==> TopWordsOf(r.value, xTrain, yTrain, c, topK, log2)
  {
    var mi := MutualInfo(xTrain, yTrain, c, log2);
    InformationMapUnique(mi, xTrain, yTrain, c, log2);
    assert |mi| == |Vocabulary(xTrain)| by { assert |mi| == |mi.Keys|; }
    var popped := PopTopK(mi, topK);
    if popped.None? {
      return None;
    }
    var words := SortWords(popped.value);
    r := Some(words);
  }

  /** `words` are the `topK` words of greatest mutual information with `c`. */
  ghost predicate TopWordsOf<C>(words: seq<string>, x: seq<Sample<string>>, y: seq<C>, c: C, topK: nat,
                                log2: real -> real)
    requires |x| == |y|
  {
    IsTopK(words, InformationMap(x, y, c, log2), topK)
  }

  /** `get_top_words_per_class`: for every class of `classDict`, the `topK`
      words of greatest mutual information with it, in ascending order;
      `None` when the heap of some class runs empty. */
  method GetTopWordsPerClass<C(==,!new)>(xTrain: seq<Sample<string>>, yTrain: seq<C>, classDict: set<C>,
                                         topK: nat, log2: real -> real)
    returns (r: Option<map<C, seq<string>>>)
    requires |xTrain| == |yTrain|
    ensures r.Some? <==> classDict == {} || topK <= |Vocabulary(xTrain)|
    ensures r.Some? ==> r.value.Keys == classDict
    ensures r.Some? ==> forall c :: c in r.value ==> TopWordsOf(r.value[c], xTrain, yTrain, c, topK, log2)
  {
    ghost var nWords := |Vocabulary(xTrain)|;
    var topWords: map<C, seq<string>> := map[];
    var todo := classDict;
    while todo != {}
      invariant todo <= classDict
      invariant topWords.Keys == classDict - todo
      invariant todo != classDict ==> topK <= nWords
      invariant forall c :: c in topWords ==> TopWordsOf(topWords[c], xTrain, yTrain, c, topK, log2)
      decreases |todo|
    {
      var c :| c in todo;
      var words := TopWordsOfClass(xTrain, yTrain, c, topK, log2);
      if words.None? {
        return None;
      }
      topWords := topWords[c := words.value];
      todo := todo - {c};
    }
    r := Some(topWords);
  }

  // ---------------------------------------------------------------------
  // Pruning the training documents
  // ---------------------------------------------------------------------

  /** `a <= b` and `b < c` give `a < c`. */
  lemma LexLeqTransitive(a: string, b: string, c: string)
    requires a == b || LexLess(a, b)
    requires LexLess(b, c)
    ensures LexLess(a, c)
  {
    if a != b { LexLessTransitive(a, b, c); }
  }

  /** `std::binary_search`: the first position whose word is not below `w`
      (`lower_bound`), then whether that word is `w`. */
  method BinarySearch(s: seq<string>, w: string) returns (found: bool)
    requires Ascending(s)
    ensures found <==> w in s
  {
    var lo, hi := 0, |s|;
    while lo < hi
      invariant 0 <= lo <= hi <= |s|
      invariant forall j :: 0 <= j < lo ==> LexLess(s[j], w)
      invariant forall j :: hi <= j < |s| ==> !LexLess(s[j], w)
      decreases hi - lo
    {
      var mid := (lo + hi) / 2;
      if LexLess(s[mid], w) {
        forall j | 0 <= j < mid ensures LexLess(s[j], w) {
          LexLessTotal(s[j], s[mid]);
          LexLeqTransitive(s[j], s[mid], w);
        }
        lo := mid + 1;
      } else {
        forall j | mid < j < |s| ensures !LexLess(s[j], w) {
          LexLessTotal(s[mid], s[j]);
          if LexLess(s[j], w) { LexLeqTransitive(s[mid], s[j], w); }
        }
        hi := mid;
      }
    }
    found := lo < |s| && !LexLess(w, s[lo]);
    if found {
      LexLessTotal(w, s[lo]);
    }
    if w in s {
      LexLessIrreflexive(w);
    }
  }

  /** A document with only the words of `keep` left, each with its count. */
  function KeepOnly(doc: Sample<string>, keep: seq<string>): Sample<string>
  {
    map w | w in doc && w in keep :: doc[w]
  }

  /** The inner loops of `remove_unimportant_words` for one document: its
      words are listed, then each one missing from `topWords` is erased. */
  method PruneDocument(doc: Sample<string>, topWords: seq<string>) returns (pruned: Sample<string>)
    requires Ascending(topWords)
    ensures pruned == KeepOnly(doc, topWords)
  {
    var words := KeysOf(doc);
    pruned := doc;
    var j := 0;
    while j < |words|
      invariant j <= |words|
      invariant pruned == map w | w in doc && (w !in words[..j] || w in topWords) :: doc[w]
    {
      var found := BinarySearch(topWords, words[j]);
      assert words[..j + 1] == words[..j] + [words[j]];
      if !found {
        pruned := pruned - {words[j]};
      }
      j := j + 1;
    }
    assert words[..j] == words;
  }

  /** The training documents after `remove_unimportant_words`: a document
      whose label has a list keeps only the words of that list. */
  function Pruned<C(==)>(x: seq<Sample<string>>, y: seq<C>, top: map<C, seq<string>>): (r: seq<Sample<string>>)
    requires |y| <= |x|
    ensures |r| == |x|
  {
    seq(|x|, i requires 0 <= i < |x| => if i < |y| && y[i] in top then KeepOnly(x[i], top[y[i]]) else x[i])
  }

  /** `remove_unimportant_words`: for each class with a list, every training
      document of that class loses the words outside the list, in place.
      The labels are read for positions below `|yTrain|` only. */
  method RemoveUnimportantWords<C(==,!new)>(xTrain: array<Sample<string>>, yTrain: seq<C>,
                                            top: map<C, seq<string>>)
    requires |yTrain| <= xTrain.Length
    requires forall c :: c in top ==> Ascending(top[c])
    modifies xTrain
    ensures xTrain[..] == Pruned(old(xTrain[..]), yTrain, top)
  {
    ghost var x0 := xTrain[..];
    var todo := top.Keys;
    while todo != {}
      invariant todo <= top.Keys
      invariant forall k :: 0 <= k < xTrain.Length ==>
        xTrain[k] == if k < |yTrain| && yTrain[k] in top && yTrain[k] !in todo
                     then KeepOnly(x0[k], top[yTrain[k]]) else x0[k]
      decreases |todo|
    {
      var cls :| cls in todo;
      var topWords := top[cls];
      var i := 0;
      while i < |yTrain|
        invariant i <= |yTrain|
        invariant forall k :: 0 <= k < xTrain.Length ==>
          xTrain[k] == if k < |yTrain| && yTrain[k] in top && (yTrain[k] !in todo || (yTrain[k] == cls && k < i))
                       then KeepOnly(x0[k], top[yTrain[k]]) else x0[k]
      {
        if yTrain[i] == cls {
          xTrain[i] := PruneDocument(xTrain[i], topWords);
        }
        i := i + 1;
      }
      todo := todo - {cls};
    }
    assert xTrain[..] == Pruned(x0, yTrain, top);
  }

  /** Pruning keeps, in a document whose label has a list, exactly the words
      of the document that are on the list, with their counts; other
      documents are left alone. */
  lemma {:induction false} PrunedWords<C>(x: seq<Sample<string>>, y: seq<C>, top: map<C, seq<string>>, i: nat, w: string)
    requires |y| <= |x| && i < |x|
    ensures i < |y| && y[i] in top ==>
      (w in Pruned(x, y, top)[i] <==> w in x[i] && w in top[y[i]])
    ensures w in Pruned(x, y, top)[i] ==> w in x[i] && Pruned(x, y, top)[i][w] == x[i][w]
    ensures !(i < |y| && y[i] in top) ==> Pruned(x, y, top)[i] == x[i]
  {
  }

  /** Pruning twice removes nothing more. */
  lemma {:induction false} PrunedIdempotent<C>(x: seq<Sample<string>>, y: seq<C>, top: map<C, seq<string>>)
    requires |y| <= |x|
    ensures Pruned(Pruned(x, y, top), y, top) == Pruned(x, y, top)
  {
    var p := Pruned(x, y, top);
    forall i | 0 <= i < |x| ensures Pruned(p, y, top)[i] == p[i] {
      if i < |y| && y[i] in top {
        assert KeepOnly(p[i], top[y[i]]) == p[i];
      }
    }
  }

  /** Pruning only removes words: the vocabulary can only shrink. */
  lemma {:induction false} PrunedVocabulary<C>(x: seq<Sample<string>>, y: seq<C>, top: map<C, seq<string>>)
    requires |y| <= |x|
    ensures Vocabulary(Pruned(x, y, top)) <= Vocabulary(x)
  {
    var p := Pruned(x, y, top);
    forall w | w in Vocabulary(p) ensures w in Vocabulary(x) {
      var i :| 0 <= i < |p| && w in p[i];
      assert w in x[i];
    }
  }
}
