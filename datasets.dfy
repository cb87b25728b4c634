/**
 * The routing step of dataset construction: every parsed document whose
 * topic list names exactly one target class (a class other than `Other`)
 * goes, with that class, to the training or the test set as its split says.
 * The parsing itself reads files and is not part of this module: its result
 * for each file is given as three maps keyed by document id.
 */
module ConstructDatasets {
  import opened Collections
  import opened Defs

  /** What the parser yields for one file: each document's text, split and topic classes. */
  datatype Parsed = Parsed(docs: map<nat, string>, types: map<nat, DocType>, classes: map<nat, seq<DocClass>>)

  /** The four indexes `docs_from_files` returns. */
  datatype Corpus = Corpus(trainDocs: map<nat, string>, trainClasses: map<nat, DocClass>,
                           testDocs: map<nat, string>, testClasses: map<nat, DocClass>)

  const EMPTY: Corpus := Corpus(map[], map[], map[], map[])

  /** A class the classifier learns: anything but `Other`. */
  predicate IsTarget(c: DocClass)
  {
    c != DocClass.Other
  }

  /** The class a document is kept with: its topic list with `Other` erased
      must hold exactly one class. */
  function SingleClass(classes: seq<DocClass>): Option<DocClass>
  {
    var targets := Filter(classes, IsTarget);
    if |targets| == 1 then Some(targets[0]) else None
  }

  /** How often `x` survives a filter. */
  lemma {:induction false} FilterCount<T>(s: seq<T>, keep: T -> bool, x: T)
    ensures multiset(Filter(s, keep))[x] == if keep(x) then multiset(s)[x] else 0
    decreases |s|
  {
    if s != [] {
      FilterCount(s[1..], keep, x);
      assert s == [s[0]] + s[1..];
    }
  }

  /** A sequence holding nothing but `c` holds it once per element. */
  lemma {:induction false} CountOfConstant<T>(s: seq<T>, c: T)
    requires forall x :: x in s ==> x == c
    ensures multiset(s)[c] == |s|
    decreases |s|
  {
    if s != [] {
      assert forall x :: x in s[1..] ==> x in s;
      CountOfConstant(s[1..], c);
      assert s[0] in s;
      assert s == [s[0]] + s[1..];
      assert multiset(s) == multiset{s[0]} + multiset(s[1..]);
    }
  }

  /** A document is kept with class `c` exactly when `c` is a target class
      listed once and every other listed class is `Other`. */
  lemma {:induction false} SingleClassIff(classes: seq<DocClass>, c: DocClass)
    ensures SingleClass(classes) == Some(c) <==>
      IsTarget(c) && multiset(classes)[c] == 1 && forall d :: d in classes ==> d == c || !IsTarget(d)
  {
    var targets := Filter(classes, IsTarget);
    FilterMembership(classes, IsTarget);
    FilterCount(classes, IsTarget, c);
    if SingleClass(classes) == Some(c) {
      assert targets == [c];
      assert c in targets;
    }
    if IsTarget(c) && multiset(classes)[c] == 1 && forall d :: d in classes ==> d == c || !IsTarget(d) {
      CountOfConstant(targets, c);
      assert c in targets;
    }
  }

  /** Erasing `Other` first: `[]` and `[Earn, Earn]` are dropped, `[Earn, Other]` is kept as `Earn`. */
  lemma SingleClassExamples()
    ensures SingleClass([]) == None
    ensures SingleClass([Earn, Earn]) == None
    ensures SingleClass([Earn, DocClass.Other]) == Some(Earn)
    ensures SingleClass([DocClass.Other, DocClass.Other]) == None
  {
    assert Filter([Earn, Earn], IsTarget) == [Earn, Earn];
    assert Filter([Earn, DocClass.Other], IsTarget) == [Earn];
    assert Filter([DocClass.Other, DocClass.Other], IsTarget) == [];
  }

  /** The documents among `ids` whose split is `t` and that are kept, with their text
      (`docs[id]` is the empty text for an id the parser gave no text). */
  function SplitDocs(f: Parsed, t: DocType, ids: set<nat>): map<nat, string>
  {
    map id | id in ids && id in f.types && f.types[id] == t && SingleClass(Get(f.classes, id, [])).Some?
      :: Get(f.docs, id, "")
  }

  /** The same documents with their single class. */
  function SplitClasses(f: Parsed, t: DocType, ids: set<nat>): map<nat, DocClass>
  {
    map id | id in ids && id in f.types && f.types[id] == t && SingleClass(Get(f.classes, id, [])).Some?
      :: SingleClass(Get(f.classes, id, [])).value
  }

  /** The indexes after the documents `ids` of file `f` were routed, later entries replacing earlier ones. */
  function AddDocs(acc: Corpus, f: Parsed, ids: set<nat>): Corpus
  {
    Corpus(acc.trainDocs + SplitDocs(f, Train, ids), acc.trainClasses + SplitClasses(f, Train, ids),
           acc.testDocs + SplitDocs(f, Test, ids), acc.testClasses + SplitClasses(f, Test, ids))
  }

  /** The indexes after every file was routed, one file after the other. */
  function RouteAll(files: seq<Parsed>): Corpus
  {
    if files == [] then EMPTY
    else
      var last := files[|files| - 1];
      AddDocs(RouteAll(files[..|files| - 1]), last, last.types.Keys)
  }

  /** Routing one more document of split `t`: its text is added when it is kept. */
  lemma SplitDocsStep(f: Parsed, t: DocType, done: set<nat>, id: nat)
    requires id in f.types && id !in done
    ensures SplitDocs(f, t, done + {id}) ==
      if f.types[id] == t && SingleClass(Get(f.classes, id, [])).Some?
      then SplitDocs(f, t, done)[id := Get(f.docs, id, "")]
      else SplitDocs(f, t, done)
  {
    var a := SplitDocs(f, t, done + {id});
    var b := if f.types[id] == t && SingleClass(Get(f.classes, id, [])).Some?
             then SplitDocs(f, t, done)[id := Get(f.docs, id, "")] else SplitDocs(f, t, done);
    assert a.Keys == b.Keys;
  }

  /** Routing one more document of split `t`: its class is added when it is kept. */
  lemma SplitClassesStep(f: Parsed, t: DocType, done: set<nat>, id: nat)
    requires id in f.types && id !in done
    ensures SplitClasses(f, t, done + {id}) ==
      if f.types[id] == t && SingleClass(Get(f.classes, id, [])).Some?
      then SplitClasses(f, t, done)[id := SingleClass(Get(f.classes, id, [])).value]
      else SplitClasses(f, t, done)
  {
    var a := SplitClasses(f, t, done + {id});
    var b := if f.types[id] == t && SingleClass(Get(f.classes, id, [])).Some?
             then SplitClasses(f, t, done)[id := SingleClass(Get(f.classes, id, [])).value]
             else SplitClasses(f, t, done);
    assert a.Keys == b.Keys;
  }

  /** Storing into an index that was already merged with older entries. */
  lemma UnionUpdate<V>(a: map<nat, V>, b: map<nat, V>, k: nat, v: V)
    ensures (a + b)[k := v] == a + b[k := v]
  {
  }

  /** The body of the loop over `doc_types`: erase `Other` from the
      document's classes, skip it unless one class remains, then store its
      text and class in the train or test indexes. */
  method RouteDocument(r0: Corpus, ghost acc: Corpus, f: Parsed, ghost done: set<nat>, id: nat) returns (r: Corpus)
    requires id in f.types && id !in done
    requires r0 == AddDocs(acc, f, done)
    ensures r == AddDocs(acc, f, done + {id})
  {
    SplitDocsStep(f, Train, done, id);
    SplitClassesStep(f, Train, done, id);
    SplitDocsStep(f, Test, done, id);
    SplitClassesStep(f, Test, done, id);
    r := r0;
    var doc := Get(f.docs, id, "");
    var classes := EraseIf(Get(f.classes, id, []), IsTarget);
    assert SingleClass(Get(f.classes, id, [])) == if |classes| == 1 then Some(classes[0]) else None;
    if |classes| == 1 {
      match f.types[id]
      case Train =>
        UnionUpdate(acc.trainDocs, SplitDocs(f, Train, done), id, doc);
        UnionUpdate(acc.trainClasses, SplitClasses(f, Train, done), id, classes[0]);
        r := r.(trainDocs := r.trainDocs[id := doc], trainClasses := r.trainClasses[id := classes[0]]);
      case Test =>
        UnionUpdate(acc.testDocs, SplitDocs(f, Test, done), id, doc);
        UnionUpdate(acc.testClasses, SplitClasses(f, Test, done), id, classes[0]);
        r := r.(testDocs := r.testDocs[id := doc], testClasses := r.testClasses[id := classes[0]]);
      case Other =>
    }
  }

  /** Nothing is routed before the loop starts. */
  lemma AddNoDocs(acc: Corpus, f: Parsed)
    ensures AddDocs(acc, f, {}) == acc
  {
    assert SplitDocs(f, Train, {}) == map[] && SplitDocs(f, Test, {}) == map[];
    assert SplitClasses(f, Train, {}) == map[] && SplitClasses(f, Test, {}) == map[];
    assert acc.trainDocs + map[] == acc.trainDocs && acc.testDocs + map[] == acc.testDocs;
    assert acc.trainClasses + map[] == acc.trainClasses && acc.testClasses + map[] == acc.testClasses;
  }

  /** The loop over `doc_types` of one file, in the map's order. */
  method RouteFile(acc: Corpus, f: Parsed) returns (r: Corpus)
    ensures r == AddDocs(acc, f, f.types.Keys)
  {
    r := acc;
    var todo := f.types.Keys;
    ghost var done: set<nat> := {};
    AddNoDocs(acc, f);
    while todo != {}
      invariant todo <= f.types.Keys && done == f.types.Keys - todo
      invariant r == AddDocs(acc, f, done)
      decreases |todo|
    {
      var id :| id in todo;
      r := RouteDocument(r, acc, f, done, id);
      todo := todo - {id};
      done := done + {id};
    }
    assert done == f.types.Keys;
  }

  /** `docs_from_files` over the parse results of the files, in order. */
  method DocsFromParsed(files: seq<Parsed>) returns (r: Corpus)
    ensures r == RouteAll(files)
    ensures r.trainDocs.Keys == r.trainClasses.Keys && r.testDocs.Keys == r.testClasses.Keys
  {
    r := EMPTY;
    var i := 0;
    while i < |files|
      invariant i <= |files|
      invariant r == RouteAll(files[..i])
    {
      assert files[..i + 1][..i] == files[..i];
      r := RouteFile(r, files[i]);
      i := i + 1;
    }
    assert files[..i] == files;
    RouteAllConsistent(files);
  }

  /** Whatever the files, the text and class indexes of each split have the
      same documents, and no stored class is `Other`. */
  lemma {:induction false} RouteAllConsistent(files: seq<Parsed>)
    ensures RouteAll(files).trainDocs.Keys == RouteAll(files).trainClasses.Keys
    ensures RouteAll(files).testDocs.Keys == RouteAll(files).testClasses.Keys
    ensures forall id :: id in RouteAll(files).trainClasses ==> IsTarget(RouteAll(files).trainClasses[id])
    ensures forall id :: id in RouteAll(files).testClasses ==> IsTarget(RouteAll(files).testClasses[id])
  {
    if files != [] {
      var prefix := files[..|files| - 1];
      RouteAllConsistent(prefix);
      var last := files[|files| - 1];
      forall id | SingleClass(Get(last.classes, id, [])).Some?
        ensures IsTarget(SingleClass(Get(last.classes, id, [])).value)
      {
        SingleClassIff(Get(last.classes, id, []), SingleClass(Get(last.classes, id, [])).value);
      }
    }
  }

  /** Routing one file into empty indexes: a document reaches the training
      (test) indexes exactly when its split is Train (Test) and one target
      class remains; its text is stored unchanged with that class. */
  lemma {:induction false} RouteOneFile(f: Parsed, id: nat)
    ensures id in RouteAll([f]).trainDocs <==>
      id in f.types && f.types[id] == Train && SingleClass(Get(f.classes, id, [])).Some?
    ensures id in RouteAll([f]).testDocs <==>
      id in f.types && f.types[id] == Test && SingleClass(Get(f.classes, id, [])).Some?
    ensures id in RouteAll([f]).trainDocs ==>
      RouteAll([f]).trainDocs[id] == Get(f.docs, id, "")
      && RouteAll([f]).trainClasses[id] == SingleClass(Get(f.classes, id, [])).value
    ensures id in RouteAll([f]).testDocs ==>
      RouteAll([f]).testDocs[id] == Get(f.docs, id, "")
      && RouteAll([f]).testClasses[id] == SingleClass(Get(f.classes, id, [])).value
  {
    assert [f][..0] == [];
  }
}
