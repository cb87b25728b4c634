/**
 * The pure extraction helpers of the Reuters parser: the quoted fields of a
 * document's header line (its id and its train/test split), the text
 * between two tags, and the topic classes listed on a `<TOPICS>` line.
 *
 * Positions are `size_t` values: `npos` for a missing string, and the sums
 * and differences of positions wrap around modulo 2^64 as in the C++ code.
 * `substr` throwing `out_of_range`, a failed `assert` and an `int` overflow
 * in `atoi` are the None results.
 */
module Parser {
  import opened Collections
  import opened Text
  import opened Defs

  const ID_FIELD: string := "NEWID=\""
  const TRAIN_TEST_FIELD: string := "LEWISSPLIT=\""
  const TRAIN_KEY: string := "TRAIN"
  const TEST_KEY: string := "TEST"
  const CLASS_BEG_TAG: string := "<D>"
  const CLASS_END_TAG: string := "</D>"
  const TOPIC_HEADER_END: string := "</TOPICS>"
  const EARN_CLASS_KEY: string := "earn"
  const ACQ_CLASS_KEY: string := "acq"
  const MONEY_FX_CLASS_KEY: string := "money-fx"
  const GRAIN_CLASS_KEY: string := "grain"
  const CRUDE_CLASS_KEY: string := "crude"

  // ---------------------------------------------------------------------------
  // Header fields

  /**
   * The value of a quoted field of a header line: from just after the first
   * occurrence of `field` (which ends in a quote) up to the next quote, or to
   * the end of the line when no quote follows. When the field is missing its
   * position is `npos` and the start wraps around to |field| - 1. None when
   * the start lies beyond the line (`substr` throws).
   */
  function QuotedField(line: string, field: string): (r: Option<string>)
    requires |line| < SIZE_T_RANGE && 0 < |field| < SIZE_T_RANGE
    ensures var beg := if Find(line, field, 0).Some? then Find(line, field, 0).value + |field| else |field| - 1;
      (r.None? <==> beg > |line|) &&
      (r.Some? ==> match Find(line, "\"", beg)
                   case Some(q) => r.value == line[beg..q]
                   case None => r.value == line[beg..])
  {
    var beg := AddSize(Pos(Find(line, field, 0)), |field|);
    var end := Pos(Find(line, "\"", beg));
    Substr(line, beg, SubSize(end, beg))
  }

  /** The decimal value of a string of digits. */
  function DigitsValue(ds: string): nat
  {
    if ds == [] then 0
    else 10 * DigitsValue(ds[..|ds| - 1]) + (ds[|ds| - 1] as int - '0' as int) % 10
  }

  /** The longest prefix made of digits. */
  function LeadingDigits(s: string): (ds: string)
    ensures ds <= s
    ensures forall i :: 0 <= i < |ds| ==> IsDigit(ds[i])
    ensures |ds| < |s| ==> !IsDigit(s[|ds|])
  {
    if s == [] || !IsDigit(s[0]) then []
    else [s[0]] + LeadingDigits(s[1..])
  }

  predicate IsSpace(c: char)
  {
    c == ' ' || c == '\t' || c == '\n' || c == '\r' || c == '\U{000B}' || c == '\U{000C}'
  }

  const INT_MIN: int := -0x8000_0000
  const INT_MAX: int := 0x7FFF_FFFF

  /**
   * `std::atoi`: leading white space is skipped, an optional sign is read,
   * then the longest run of digits; no digits gives 0. None when the value
   * does not fit an `int` (undefined behaviour).
   */
  function Atoi(s: string): (r: Option<int>)
    ensures r.Some? ==> INT_MIN <= r.value <= INT_MAX
  {
    if s != [] && IsSpace(s[0]) then Atoi(s[1..])
    else
      var negative := s != [] && s[0] == '-';
      var digits := LeadingDigits(if s != [] && (s[0] == '-' || s[0] == '+') then s[1..] else s);
      var magnitude: int := DigitsValue(digits);
      var v := if negative then -magnitude else magnitude;
      if INT_MIN <= v <= INT_MAX then Some(v) else None
  }

  /** A string of digits reads as its decimal value when that fits an `int`,
      and as an overflow otherwise. */
  lemma {:induction false} AtoiOfDigits(s: string)
    requires forall i :: 0 <= i < |s| ==> IsDigit(s[i])
    ensures Atoi(s) == if DigitsValue(s) <= INT_MAX then Some(DigitsValue(s)) else None
  {
    if s != [] {
      assert !IsSpace(s[0]) && s[0] != '-' && s[0] != '+';
    }
    assert LeadingDigits(s) == s;
  }

  /** The decimal representation of `n`, without leading zeros. */
  function Decimal(n: nat): (s: string)
    ensures s != []
    ensures forall i :: 0 <= i < |s| ==> IsDigit(s[i])
  {
    if n < 10 then [('0' as int + n) as char]
    else Decimal(n / 10) + [('0' as int + n % 10) as char]
  }

  /** Reading a printed number gives the number back. */
  lemma {:induction false} DecimalRoundTrip(n: nat)
    ensures DigitsValue(Decimal(n)) == n
    decreases n
  {
    if n >= 10 {
      DecimalRoundTrip(n / 10);
      var s := Decimal(n);
      assert s[..|s| - 1] == Decimal(n / 10);
    }
  }

  /** `get_doc_id`: the digits of the `NEWID` field read by `atoi`. */
  function GetDocId(headerLine: string): (r: Option<int>)
    requires |headerLine| < SIZE_T_RANGE
    ensures QuotedField(headerLine, ID_FIELD).None? ==> r.None?
    ensures r.Some? ==> INT_MIN <= r.value <= INT_MAX
  {
    match QuotedField(headerLine, ID_FIELD)
    case None => None
    case Some(numStr) => Atoi(numStr)
  }

  /**
   * A header line whose first id field is followed by a printed number and
   * a quote gives that number back: `head` ends with the first occurrence
   * of the field.
   */
  lemma {:induction false} GetDocIdRoundTrip(head: string, n: nat, after: string)
    requires n <= INT_MAX
    requires |head| >= |ID_FIELD| && Find(head, ID_FIELD, 0) == Some(|head| - |ID_FIELD|)
    requires |head + (Decimal(n) + ("\"" + after))| < SIZE_T_RANGE
    ensures GetDocId(head + (Decimal(n) + ("\"" + after))) == Some(n)
  {
    var d := Decimal(n);
    var tail := d + ("\"" + after);
    var line := head + tail;
    var p := |head| - |ID_FIELD|;
    forall k | 0 <= k <= p ensures OccursAt(line, ID_FIELD, k) <==> OccursAt(head, ID_FIELD, k) {
      OccursAtPrefix(head, tail, ID_FIELD, k);
    }
    FindIs(line, ID_FIELD, 0, p);
    forall k | |head| <= k < |head| + |d| ensures line[k] != '\"' {
      assert line[k] == d[k - |head|];
    }
    FindChar(line, '\"', |head|, |head| + |d|);
    assert line[|head|..|head| + |d|] == d;
    assert QuotedField(line, ID_FIELD) == Some(d);
    DecimalRoundTrip(n);
    AtoiOfDigits(d);
  }

  /**
   * Without an id field `find` gives `npos` and the start `npos + 7` wraps
   * to 6: the id is then read by `atoi` from the seventh character of the
   * line up to the next quote (or the end), and a line shorter than six
   * characters has none (`substr` throws).
   */
  lemma GetDocIdWithoutField(headerLine: string)
    requires |headerLine| < SIZE_T_RANGE
    requires Find(headerLine, ID_FIELD, 0).None?
    ensures |headerLine| < 6 ==> GetDocId(headerLine).None?
    ensures |headerLine| >= 6 ==>
              GetDocId(headerLine) == (match Find(headerLine, "\"", 6)
                                       case Some(q) => Atoi(headerLine[6..q])
                                       case None => Atoi(headerLine[6..]))
  {
  }

  /** `get_doc_type`: the `LEWISSPLIT` field; "TRAIN" and "TEST" name the two
      sets, anything else is Other. */
  function GetDocType(headerLine: string): (r: Option<DocType>)
    requires |headerLine| < SIZE_T_RANGE
    ensures r.None? <==> QuotedField(headerLine, TRAIN_TEST_FIELD).None?
    ensures r == Some(Train) <==> QuotedField(headerLine, TRAIN_TEST_FIELD) == Some(TRAIN_KEY)
    ensures r == Some(Test) <==> QuotedField(headerLine, TRAIN_TEST_FIELD) == Some(TEST_KEY)
  {
    match QuotedField(headerLine, TRAIN_TEST_FIELD)
    case None => None
    case Some(t) => if t == TRAIN_KEY then Some(Train) else if t == TEST_KEY then Some(Test) else Some(DocType.Other)
  }

  // ---------------------------------------------------------------------------
  // Text between tags

  /**
   * `text_between_tags`: the empty string when `begTag` is missing; otherwise
   * the text from the end of the first `begTag` to the first `endTag`. None
   * when `endTag` is missing (the `assert` fails). When the first `endTag`
   * comes before the end of `begTag`, the length wraps around and the rest
   * of the text is returned.
   */
  function TextBetweenTags(docText: string, begTag: string, endTag: string): (r: Option<string>)
    requires |docText| < SIZE_T_RANGE && |begTag| < SIZE_T_RANGE
    ensures Find(docText, begTag, 0).None? ==> r == Some([])
    ensures Find(docText, begTag, 0).Some? && Find(docText, endTag, 0).None? ==> r.None?
    ensures Find(docText, begTag, 0).Some? && Find(docText, endTag, 0).Some? ==>
      var b := Find(docText, begTag, 0).value + |begTag|;
      var e := Find(docText, endTag, 0).value;
      r == Some(if b <= e then docText[b..e] else docText[b..])
  {
    match Find(docText, begTag, 0)
    case None => Some([])
    case Some(tagBegPos) =>
      match Find(docText, endTag, 0)
      case None => None
      case Some(tagEndPos) =>
        var begIndex := AddSize(tagBegPos, |begTag|);
        var len := SubSize(tagEndPos, begIndex);
        Substr(docText, begIndex, len)
  }

  // ---------------------------------------------------------------------------
  // Topics

  /** The class a topic name stands for; names outside the five targets are Other. */
  function TopicClass(name: string): (c: DocClass)
    ensures c != DocClass.Other ==> ClassName(c) == name
  {
    if name == EARN_CLASS_KEY then Earn
    else if name == ACQ_CLASS_KEY then Acq
    else if name == MONEY_FX_CLASS_KEY then MoneyFx
    else if name == GRAIN_CLASS_KEY then Grain
    else if name == CRUDE_CLASS_KEY then Crude
    else DocClass.Other
  }

  /** Reading back a printed class gives the class. */
  lemma {:induction false} TopicClassOfClassName(c: DocClass)
    ensures TopicClass(ClassName(c)) == c
  {
    match c
    case Other =>
      var n := ClassName(c);
      assert n[0] == 'o';
      assert n != EARN_CLASS_KEY && n != ACQ_CLASS_KEY && n != GRAIN_CLASS_KEY && n != CRUDE_CLASS_KEY;
      assert n != MONEY_FX_CLASS_KEY by { assert |n| != |MONEY_FX_CLASS_KEY|; }
    case _ =>
  }

  /** An end tag cannot start inside the begin tag just found. */
  lemma {:induction false} EndTagAfterBeginTag(line: string, pos: nat)
    requires OccursAt(line, CLASS_BEG_TAG, pos)
    ensures forall k :: pos <= k < pos + |CLASS_BEG_TAG| ==> !OccursAt(line, CLASS_END_TAG, k)
  {
    OccursAtChars(line, CLASS_BEG_TAG, pos);
    assert line[pos] == '<' && line[pos + 1] == 'D' && line[pos + 2] == '>';
    forall k | pos <= k < pos + |CLASS_BEG_TAG| ensures !OccursAt(line, CLASS_END_TAG, k) {
      OccursAtChars(line, CLASS_END_TAG, k);
    }
  }

  /**
   * The names in the `<D>` tags from the one at `pos` on. A name runs from
   * the end of `<D>` to the next `</D>`, or to the end of the line when there
   * is none; the next tag is searched from that `</D>`. None when a name is
   * empty (the `assert` fails).
   */
  function TopicNamesAt(line: string, pos: nat): Option<seq<string>>
    requires OccursAt(line, CLASS_BEG_TAG, pos)
    decreases |line| - pos
  {
    EndTagAfterBeginTag(line, pos);
    var classBeg := pos + |CLASS_BEG_TAG|;
    var endPos := Find(line, CLASS_END_TAG, pos);
    var name := if endPos.Some? then line[classBeg..endPos.value] else line[classBeg..];
    if name == [] then None
    else
      var next := if endPos.Some? then Find(line, CLASS_BEG_TAG, endPos.value) else None;
      if next.None? then Some([name])
      else
        match TopicNamesAt(line, next.value)
        case None => None
        case Some(rest) => Some([name] + rest)
  }

  /** The names from the tag found at `found` on; none when no tag was found. */
  function TopicNamesFrom(line: string, found: Option<nat>): Option<seq<string>>
    requires found.Some? ==> OccursAt(line, CLASS_BEG_TAG, found.value)
  {
    if found.None? then Some([]) else TopicNamesAt(line, found.value)
  }

  /** The names in all `<D>` tags of a topic line. */
  function TopicNames(line: string): Option<seq<string>>
  {
    TopicNamesFrom(line, Find(line, CLASS_BEG_TAG, 0))
  }

  /** The classes of the topics of a topic line, one per `<D>` tag, in order. */
  function Topics(line: string): (r: Option<seq<DocClass>>)
    ensures r.Some? <==> TopicNames(line).Some?
    ensures r.Some? ==> r.value == Classes(TopicNames(line).value)
  {
    match TopicNames(line)
    case None => None
    case Some(names) => Some(Classes(names))
  }

  /** `p` put in front of a list, when there is one. */
  function Prepend<T>(p: seq<T>, o: Option<seq<T>>): (r: Option<seq<T>>)
    ensures r.Some? <==> o.Some?
    ensures r.Some? ==> r.value == p + o.value
  {
    match o
    case None => None
    case Some(s) => Some(p + s)
  }

  /** The tag at `pos` read, the rest from the next tag on. */
  lemma {:induction false} TopicNamesAtUnfold(line: string, pos: nat)
    requires OccursAt(line, CLASS_BEG_TAG, pos)
    ensures Find(line, CLASS_END_TAG, pos).Some? ==> Find(line, CLASS_END_TAG, pos).value >= pos + |CLASS_BEG_TAG|
    ensures var endPos := Find(line, CLASS_END_TAG, pos);
      var name := if endPos.Some? then line[pos + 3..endPos.value] else line[pos + 3..];
      var next := if endPos.Some? then Find(line, CLASS_BEG_TAG, endPos.value) else None;
      TopicNamesAt(line, pos) == if name == [] then None else Prepend([name], TopicNamesFrom(line, next))
  {
    EndTagAfterBeginTag(line, pos);
    var endPos := Find(line, CLASS_END_TAG, pos);
    var name := if endPos.Some? then line[pos + 3..endPos.value] else line[pos + 3..];
    var next := if endPos.Some? then Find(line, CLASS_BEG_TAG, endPos.value) else None;
    if name != [] && next.None? {
      assert [name] + [] == [name];
    }
  }

  /** The tag at `pos` whose end tag is found at `e`. */
  lemma {:induction false} TopicNamesAtEnd(line: string, pos: nat, e: nat)
    requires OccursAt(line, CLASS_BEG_TAG, pos)
    requires Find(line, CLASS_END_TAG, pos) == Some(e)
    ensures pos + 3 <= e
    ensures TopicNamesAt(line, pos) == if line[pos + 3..e] == [] then None
      else Prepend([line[pos + 3..e]], TopicNamesFrom(line, Find(line, CLASS_BEG_TAG, e)))
  {
    TopicNamesAtUnfold(line, pos);
  }

  /** One step of the topic loop, with the positions computed as `size_t` values. */
  lemma {:induction false} TopicNamesAtStep(line: string, pos: nat)
    requires |line| < SIZE_T_RANGE && OccursAt(line, CLASS_BEG_TAG, pos)
    ensures Find(line, CLASS_END_TAG, pos).Some? ==> Find(line, CLASS_END_TAG, pos).value > pos
    ensures var classBeg := AddSize(pos, |CLASS_BEG_TAG|);
      Substr(line, classBeg, SubSize(Pos(Find(line, CLASS_END_TAG, pos)), classBeg)).Some?
    ensures var classTagEndPos := Pos(Find(line, CLASS_END_TAG, pos));
      var classBeg := AddSize(pos, |CLASS_BEG_TAG|);
      var name := Substr(line, classBeg, SubSize(classTagEndPos, classBeg)).value;
      var next := if classTagEndPos == NPOS then None else Find(line, CLASS_BEG_TAG, classTagEndPos);
      TopicNamesAt(line, pos) == if name == [] then None else Prepend([name], TopicNamesFrom(line, next))
  {
    TopicNamesAtUnfold(line, pos);
    var classBeg := AddSize(pos, |CLASS_BEG_TAG|);
    assert classBeg == pos + 3;
    match Find(line, CLASS_END_TAG, pos)
    case Some(e) =>
      assert OccursAt(line, CLASS_END_TAG, e) && pos + 3 <= e;
      assert SubSize(e, classBeg) == e - classBeg;
      assert Substr(line, classBeg, e - classBeg) == Some(line[pos + 3..e]);
    case None =>
      assert SubSize(NPOS, classBeg) == NPOS - classBeg;
      assert line[pos + 3..|line|] == line[pos + 3..];
      assert Substr(line, classBeg, NPOS - classBeg) == Some(line[pos + 3..]);
  }

  lemma {:induction false} PrependAppend<T>(p: seq<T>, q: seq<T>, o: Option<seq<T>>)
    ensures Prepend(p, Prepend(q, o)) == Prepend(p + q, o)
  {
    if o.Some? {
      assert p + (q + o.value) == p + q + o.value;
    }
  }

  /** The classes of a list with one more name at its end. */
  lemma {:induction false} ClassesAppend(names: seq<string>, name: string)
    ensures Classes(names + [name]) == Classes(names) + [TopicClass(name)]
  {
    var r := Classes(names + [name]);
    assert forall i :: 0 <= i < |names| ==> (names + [name])[i] == names[i];
    assert r == Classes(names) + [TopicClass(name)];
  }

  /** The topic loop of `get_doc_topics`, run over the line that holds the topic header. */
  method TopicsOfLine(line: string) returns (r: Option<seq<DocClass>>)
    requires |line| < SIZE_T_RANGE
    ensures r == Topics(line)
  {
    var result: seq<DocClass> := [];
    ghost var names: seq<string> := [];
    var found := Find(line, CLASS_BEG_TAG, 0);
    assert Prepend(names, TopicNamesFrom(line, found)) == TopicNamesFrom(line, found) by {
      assert forall s: seq<string> :: [] + s == s;
    }
    while found.Some?
      invariant found.Some? ==> OccursAt(line, CLASS_BEG_TAG, found.value)
      invariant TopicNames(line) == Prepend(names, TopicNamesFrom(line, found))
      invariant result == Classes(names)
      decreases if found.Some? then |line| - found.value else 0
    {
      var classTagBegPos := found.value;
      TopicNamesAtStep(line, classTagBegPos);
      var classTagEndPos := Pos(Find(line, CLASS_END_TAG, classTagBegPos));
      var classBeg := AddSize(classTagBegPos, |CLASS_BEG_TAG|);
      var classLen := SubSize(classTagEndPos, classBeg);
      var docClass := Substr(line, classBeg, classLen).value;
      if docClass == [] {
        return None;
      }
      var next := if classTagEndPos == NPOS then None else Find(line, CLASS_BEG_TAG, classTagEndPos);
      PrependAppend(names, [docClass], TopicNamesFrom(line, next));
      ClassesAppend(names, docClass);
      result := result + [TopicClass(docClass)];
      names := names + [docClass];
      found := next;
    }
    assert names + [] == names;
    return Some(result);
  }

  /** The tags `<D>name</D>` of the names, one after another. */
  function Tags(names: seq<string>): string
  {
    if names == [] then [] else CLASS_BEG_TAG + (names[0] + (CLASS_END_TAG + Tags(names[1..])))
  }

  /** The classes of the names, in order. */
  function Classes(names: seq<string>): (r: seq<DocClass>)
    ensures |r| == |names|
    ensures forall i :: 0 <= i < |names| ==> r[i] == TopicClass(names[i])
  {
    if names == [] then [] else [TopicClass(names[0])] + Classes(names[1..])
  }

  /** A topic name as the data holds them: non-empty and without a `<`. */
  predicate IsTopicName(name: string)
  {
    name != [] && forall i :: 0 <= i < |name| ==> name[i] != '<'
  }

  /** A tag `<D>` at `pos`, a name of `n` characters without `<`, and `</D>`:
      the end tag found is the one after the name, and no begin tag starts
      just behind it. */
  lemma {:induction false} TagAt(line: string, pos: nat, n: nat)
    requires OccursAt(line, CLASS_BEG_TAG, pos)
    requires OccursAt(line, CLASS_END_TAG, pos + 3 + n)
    requires forall k :: pos + 3 <= k < pos + 3 + n ==> line[k] != '<'
    ensures Find(line, CLASS_END_TAG, pos) == Some(pos + 3 + n)
    ensures Find(line, CLASS_BEG_TAG, pos + 3 + n) == Find(line, CLASS_BEG_TAG, pos + 7 + n)
  {
    var e := pos + 3 + n;
    EndTagAfterBeginTag(line, pos);
    forall k | pos + 3 <= k < e ensures !OccursAt(line, CLASS_END_TAG, k) {
      OccursAtChars(line, CLASS_END_TAG, k);
      assert line[k] != '<';
    }
    FindIs(line, CLASS_END_TAG, pos, e);
    OccursAtChars(line, CLASS_END_TAG, e);
    assert line[e] == '<' && line[e + 1] == '/' && line[e + 2] == 'D' && line[e + 3] == '>';
    forall k | e <= k < e + 4 ensures !OccursAt(line, CLASS_BEG_TAG, k) {
      OccursAtChars(line, CLASS_BEG_TAG, k);
      assert k == e || k == e + 1 || k == e + 2 || k == e + 3;
    }
    FindSkip(line, CLASS_BEG_TAG, e, e + 4);
  }

  /** A pattern occurs at the start of itself followed by anything. */
  lemma {:induction false} OccursAtStart(pat: string, t: string)
    ensures OccursAt(pat + t, pat, 0)
  {
    assert (pat + t)[0..|pat|] == pat;
    OccursAtSlice(pat + t, pat, 0);
  }

  /** Where the parts of a tag `<D>n0</D>` written after `pre` lie. */
  lemma {:induction false} TagLayout(line: string, pre: string, n0: string, rest: string)
    requires line == pre + (CLASS_BEG_TAG + (n0 + (CLASS_END_TAG + rest)))
    ensures OccursAt(line, CLASS_BEG_TAG, |pre|)
    ensures OccursAt(line, CLASS_END_TAG, |pre| + 3 + |n0|)
    ensures OccursAt(line, n0, |pre| + 3)
  {
    var t3 := CLASS_END_TAG + rest;
    var t2 := n0 + t3;
    var t1 := CLASS_BEG_TAG + t2;
    OccursAtStart(CLASS_BEG_TAG, t2);
    OccursAtSuffix(pre, t1, CLASS_BEG_TAG, 0);
    OccursAtStart(CLASS_END_TAG, rest);
    OccursAtSuffix(n0, t3, CLASS_END_TAG, 0);
    OccursAtSuffix(CLASS_BEG_TAG, t2, CLASS_END_TAG, |n0|);
    OccursAtSuffix(pre, t1, CLASS_END_TAG, 3 + |n0|);
    OccursAtStart(n0, t3);
    OccursAtSuffix(CLASS_BEG_TAG, t2, n0, 0);
    OccursAtSuffix(pre, t1, n0, 3);
  }

  /** The characters of a topic name found at `pos` are no `<`. */
  lemma {:induction false} NameChars(line: string, pos: nat, n0: string)
    requires IsTopicName(n0)
    requires OccursAt(line, n0, pos)
    ensures forall k :: pos <= k < pos + |n0| ==> line[k] != '<'
  {
    OccursAtChars(line, n0, pos);
    forall k | pos <= k < pos + |n0| ensures line[k] != '<' {
      assert line[k] == n0[k - pos];
    }
  }

  /** A tag at `pos` whose end tag is found at `e`, with a non-empty name `n0`
      between them: its class, then the classes from behind the end tag on. */
  lemma {:induction false} TagStep(line: string, pos: nat, e: nat, n0: string)
    requires OccursAt(line, CLASS_BEG_TAG, pos)
    requires Find(line, CLASS_END_TAG, pos) == Some(e) && pos + 3 <= e
    requires line[pos + 3..e] == n0 && n0 != []
    requires Find(line, CLASS_BEG_TAG, e) == Find(line, CLASS_BEG_TAG, e + 4)
    ensures TopicNamesAt(line, pos) == Prepend([n0], TopicNamesFrom(line, Find(line, CLASS_BEG_TAG, e + 4)))
  {
    TopicNamesAtEnd(line, pos, e);
  }

  /** The tags of a non-empty list, the first one taken apart. */
  lemma {:induction false} TagsCons(names: seq<string>, suffix: string)
    requires names != []
    ensures Tags(names) + suffix ==
      CLASS_BEG_TAG + (names[0] + (CLASS_END_TAG + (Tags(names[1..]) + suffix)))
  {
  }

  lemma {:induction false} Regroup(pre: string, a: string, b: string, c: string, r: string)
    ensures pre + (a + (b + (c + r))) == (pre + (a + (b + c))) + r
  {
  }

  /** The tags of `names` lie in `line` from `pos` to `end`. */
  ghost predicate TagsAt(line: string, pos: nat, names: seq<string>, end: nat)
    decreases |names|
  {
    if names == [] then pos == end
    else
      var e := pos + 3 + |names[0]|;
      OccursAt(line, CLASS_BEG_TAG, pos) && OccursAt(line, names[0], pos + 3) &&
      OccursAt(line, CLASS_END_TAG, e) && TagsAt(line, e + 4, names[1..], end)
  }

  /** One more tag in front of a run of tags. */
  lemma {:induction false} TagsAtCons(line: string, pos: nat, names: seq<string>, end: nat)
    requires names != []
    requires OccursAt(line, CLASS_BEG_TAG, pos)
    requires OccursAt(line, CLASS_END_TAG, pos + 3 + |names[0]|)
    requires OccursAt(line, names[0], pos + 3)
    requires TagsAt(line, pos + 7 + |names[0]|, names[1..], end)
    ensures TagsAt(line, pos, names, end)
  {
  }

  /** Where the first of the tags written after `pre` lies, and what follows it. */
  lemma {:induction false} FirstTagLayout(line: string, pre: string, names: seq<string>, suffix: string)
    requires line == pre + (Tags(names) + suffix) && names != []
    ensures OccursAt(line, CLASS_BEG_TAG, |pre|)
    ensures OccursAt(line, CLASS_END_TAG, |pre| + 3 + |names[0]|)
    ensures OccursAt(line, names[0], |pre| + 3)
    ensures line == (pre + (CLASS_BEG_TAG + (names[0] + CLASS_END_TAG))) + (Tags(names[1..]) + suffix)
    ensures |Tags(names)| == 7 + |names[0]| + |Tags(names[1..])|
  {
    var rest := Tags(names[1..]) + suffix;
    TagsCons(names, suffix);
    TagLayout(line, pre, names[0], rest);
    Regroup(pre, CLASS_BEG_TAG, names[0], CLASS_END_TAG, rest);
  }

  /** The tags written after `pre` lie where they were written. */
  lemma {:induction false} TagsLayout(line: string, pre: string, names: seq<string>, suffix: string)
    requires line == pre + (Tags(names) + suffix)
    ensures TagsAt(line, |pre|, names, |pre| + |Tags(names)|)
    decreases |names|
  {
    if names != [] {
      FirstTagLayout(line, pre, names, suffix);
      TagsLayout(line, pre + (CLASS_BEG_TAG + (names[0] + CLASS_END_TAG)), names[1..], suffix);
      TagsAtCons(line, |pre|, names, |pre| + |Tags(names)|);
    }
  }

  /** The tags of `names` from `pos` to `end`, as the searches of the topic
      loop find them. */
  ghost predicate FoundTags(line: string, pos: nat, names: seq<string>, end: nat)
    decreases |names|
  {
    if names == [] then pos == end
    else
      var e := pos + 3 + |names[0]|;
      OccursAt(line, CLASS_BEG_TAG, pos) && Find(line, CLASS_END_TAG, pos) == Some(e) &&
      line[pos + 3..e] == names[0] && names[0] != [] &&
      Find(line, CLASS_BEG_TAG, e) == Find(line, CLASS_BEG_TAG, e + 4) &&
      FoundTags(line, e + 4, names[1..], end)
  }

  /** Tags whose names are topic names are found where they lie. */
  lemma {:induction false} FoundTagsOfTagsAt(line: string, pos: nat, names: seq<string>, end: nat)
    requires forall i :: 0 <= i < |names| ==> IsTopicName(names[i])
    requires TagsAt(line, pos, names, end)
    ensures FoundTags(line, pos, names, end)
    decreases |names|
  {
    if names != [] {
      var n0 := names[0];
      var e := pos + 3 + |n0|;
      assert Find(line, CLASS_END_TAG, pos) == Some(e) &&
        Find(line, CLASS_BEG_TAG, e) == Find(line, CLASS_BEG_TAG, e + 4) by {
        NameChars(line, pos + 3, n0);
        TagAt(line, pos, |n0|);
      }
      OccursAtSlice(line, n0, pos + 3);
      FoundTagsOfTagsAt(line, e + 4, names[1..], end);
    }
  }

  /** Topic extraction from the first of a run of found tags with no tag after it. */
  lemma {:induction false} TopicsAtOfFoundTags(line: string, pos: nat, names: seq<string>, end: nat)
    requires names != [] && FoundTags(line, pos, names, end)
    requires Find(line, CLASS_BEG_TAG, end).None?
    ensures OccursAt(line, CLASS_BEG_TAG, pos)
    ensures TopicNamesAt(line, pos) == Some(names)
    decreases |names|
  {
    var n0 := names[0];
    var next := pos + 7 + |n0|;
    TagStep(line, pos, pos + 3 + |n0|, n0);
    if |names| == 1 {
      assert next == end;
    } else {
      TopicsAtOfFoundTags(line, next, names[1..], end);
      FindIs(line, CLASS_BEG_TAG, next, next);
    }
    assert names == [n0] + names[1..];
  }

  /**
   * Topic extraction reads back the names written as tags: from the first
   * of the tags of `names`, followed by a text without `<D>`, one class per
   * name, in order.
   */
  lemma {:induction false} TopicsAtOfTags(line: string, pre: string, names: seq<string>, suffix: string)
    requires line == pre + (Tags(names) + suffix)
    requires names != [] && forall i :: 0 <= i < |names| ==> IsTopicName(names[i])
    requires Find(suffix, CLASS_BEG_TAG, 0).None?
    ensures OccursAt(line, CLASS_BEG_TAG, |pre|)
    ensures TopicNamesAt(line, |pre|) == Some(names)
  {
    var end := |pre| + |Tags(names)|;
    assert FoundTags(line, |pre|, names, end) && Find(line, CLASS_BEG_TAG, end).None? by {
      TagsLayout(line, pre, names, suffix);
      FoundTagsOfTagsAt(line, |pre|, names, end);
      assert line == (pre + Tags(names)) + suffix;
      FindAfter(pre + Tags(names), suffix, CLASS_BEG_TAG);
    }
    TopicsAtOfFoundTags(line, |pre|, names, end);
  }

  /** No `<D>` in the closing header. */
  lemma {:induction false} NoTagInTopicHeaderEnd()
    ensures Find(TOPIC_HEADER_END, CLASS_BEG_TAG, 0).None?
  {
    forall k | 0 <= k ensures !OccursAt(TOPIC_HEADER_END, CLASS_BEG_TAG, k) {
      OccursAtChars(TOPIC_HEADER_END, CLASS_BEG_TAG, k);
      if k + 3 <= |TOPIC_HEADER_END| {
        assert TOPIC_HEADER_END[k] != '<' || TOPIC_HEADER_END[k + 1] != 'D';
      }
    }
  }

  /** No `<D>` starts inside the opening header, whatever follows it. */
  lemma {:induction false} NoTagInTopicHeader(line: string, t: string)
    requires line == "<TOPICS>" + t
    ensures Find(line, CLASS_BEG_TAG, 0) == Find(line, CLASS_BEG_TAG, 8)
  {
    forall k | 0 <= k < 8 ensures !OccursAt(line, CLASS_BEG_TAG, k) {
      OccursAtChars(line, CLASS_BEG_TAG, k);
      assert line[k] == "<TOPICS>"[k];
      if k == 0 {
        assert line[1] == 'T';
      }
    }
    FindSkip(line, CLASS_BEG_TAG, 0, 8);
  }

  /** A topic line `<TOPICS><D>n1</D>...<D>nk</D></TOPICS>` yields the classes of n1 ... nk. */
  lemma {:induction false} TopicsOfTopicLine(names: seq<string>)
    requires forall i :: 0 <= i < |names| ==> IsTopicName(names[i])
    ensures TopicNames("<TOPICS>" + (Tags(names) + TOPIC_HEADER_END)) == Some(names)
    ensures Topics("<TOPICS>" + (Tags(names) + TOPIC_HEADER_END)) == Some(Classes(names))
  {
    var pre := "<TOPICS>";
    var line := pre + (Tags(names) + TOPIC_HEADER_END);
    NoTagInTopicHeader(line, Tags(names) + TOPIC_HEADER_END);
    NoTagInTopicHeaderEnd();
    if names == [] {
      assert line == pre + TOPIC_HEADER_END;
      FindAfter(pre, TOPIC_HEADER_END, CLASS_BEG_TAG);
    } else {
      TopicsAtOfTags(line, pre, names, TOPIC_HEADER_END);
      FindIs(line, CLASS_BEG_TAG, |pre|, |pre|);
    }
  }
}
