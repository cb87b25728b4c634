/**
 * Conversion of the HTML character references of a document into the
 * characters they stand for, in place: each occurrence of a reference of
 * length n becomes n - 1 spaces followed by the character, so the document
 * keeps its length and every character keeps its position.
 */
module DocPreprocessor {
  import opened Collections
  import opened Text

  /** The table of references and the characters that replace them. */
  const HTML_SPECIAL: map<string, char> := map[
    "&#1;" := ' ',
    "&#2;" := ' ',
    "&#3;" := ' ',
    "&#5;" := '\U{0005}',
    "&#22;" := ' ',
    "&#27;" := ' ',
    "&#30;" := '\U{001E}',
    "&#31;" := '\U{001F}',
    "&#127;" := ' ',
    "&amp;" := '&',
    "&lt;" := '<',
    "&gt;" := '>'
  ]

  /** A reference that the replacement loop can work through: at least two
      characters, neither the first nor the last a space. */
  predicate WellFormedSymbol(sym: string)
  {
    |sym| >= 2 && sym[0] != ' ' && sym[|sym| - 1] != ' '
  }

  /** A few of the table's references and the characters they stand for. */
  lemma {:induction false} TableEntries()
    ensures "&lt;" in HTML_SPECIAL && "&amp;" in HTML_SPECIAL && "&#5;" in HTML_SPECIAL
    ensures HTML_SPECIAL["&lt;"] == '<' && HTML_SPECIAL["&amp;"] == '&' && HTML_SPECIAL["&#5;"] == 5 as char
  {
  }

  /** Every reference of the table has the form `&...;`, so the replacement
      loop can work through it. */
  lemma {:induction false} TableSymbolsWellFormed()
    ensures forall s :: s in HTML_SPECIAL ==> 4 <= |s| && s[0] == '&' && s[|s| - 1] == ';'
    ensures forall s :: s in HTML_SPECIAL ==> WellFormedSymbol(s)
  {
  }

  /** `n` spaces. */
  function Spaces(n: nat): (r: string)
    ensures |r| == n
    ensures forall i :: 0 <= i < n ==> r[i] == ' '
  {
    seq(n, _ => ' ')
  }

  /** The occurrence of `sym` at `k` overwritten by |sym| - 1 spaces and `c`. */
  function ReplaceAt(d: string, k: nat, sym: string, c: char): (r: string)
    requires sym != [] && OccursAt(d, sym, k)
    ensures |r| == |d|
    ensures forall i :: 0 <= i < |d| && !(k <= i < k + |sym|) ==> r[i] == d[i]
    ensures forall i :: k <= i < k + |sym| - 1 ==> r[i] == ' '
    ensures r[k + |sym| - 1] == c
  {
    d[..k] + Spaces(|sym| - 1) + [c] + d[k + |sym|..]
  }

  /** The number of characters other than a space. */
  function NonSpaceCount(s: string): nat
  {
    if s == [] then 0 else (if s[0] != ' ' then 1 else 0) + NonSpaceCount(s[1..])
  }

  lemma {:induction false} NonSpaceCountAppend(a: string, b: string)
    ensures NonSpaceCount(a + b) == NonSpaceCount(a) + NonSpaceCount(b)
    decreases |a|
  {
    if a == [] {
      assert a + b == b;
    } else {
      assert (a + b)[1..] == a[1..] + b;
      NonSpaceCountAppend(a[1..], b);
    }
  }

  lemma {:induction false} NonSpaceCountOfSpaces(n: nat)
    ensures NonSpaceCount(Spaces(n)) == 0
    decreases n
  {
    if n > 0 {
      assert Spaces(n)[1..] == Spaces(n - 1);
      NonSpaceCountOfSpaces(n - 1);
    }
  }

  /** A well-formed reference has at least two non-space characters. */
  lemma {:induction false} NonSpaceCountOfSymbol(sym: string)
    requires WellFormedSymbol(sym)
    ensures NonSpaceCount(sym) >= 2
  {
    var n := |sym|;
    assert sym == [sym[0]] + sym[1..n - 1] + [sym[n - 1]];
    NonSpaceCountAppend([sym[0]] + sym[1..n - 1], [sym[n - 1]]);
    NonSpaceCountAppend([sym[0]], sym[1..n - 1]);
  }

  /** Each replacement removes at least one non-space character, which is why
      the replacement loop ends even when the result contains the reference
      again. */
  lemma {:induction false} ReplaceAtShrinks(d: string, k: nat, sym: string, c: char)
    requires WellFormedSymbol(sym) && OccursAt(d, sym, k)
    ensures NonSpaceCount(ReplaceAt(d, k, sym, c)) < NonSpaceCount(d)
  {
    var n := |sym|;
    OccursAtSlice(d, sym, k);
    assert d == d[..k] + sym + d[k + n..];
    NonSpaceCountAppend(d[..k] + sym, d[k + n..]);
    NonSpaceCountAppend(d[..k], sym);
    NonSpaceCountAppend(d[..k] + Spaces(n - 1) + [c], d[k + n..]);
    NonSpaceCountAppend(d[..k] + Spaces(n - 1), [c]);
    NonSpaceCountAppend(d[..k], Spaces(n - 1));
    NonSpaceCountOfSpaces(n - 1);
    NonSpaceCountOfSymbol(sym);
  }

  /** What the inner loop leaves: the first occurrence replaced, again and
      again, until the reference no longer occurs. */
  function ReplaceAllOf(d: string, sym: string, c: char): (r: string)
    requires WellFormedSymbol(sym)
    ensures |r| == |d|
    ensures Find(r, sym, 0).None?
    ensures forall i :: 0 <= i < |d| ==> r[i] == d[i] || r[i] == ' ' || r[i] == c
    decreases NonSpaceCount(d)
  {
    match Find(d, sym, 0)
    case None => d
    case Some(k) =>
      ReplaceAtShrinks(d, k, sym, c);
      ReplaceAllOf(ReplaceAt(d, k, sym, c), sym, c)
  }

  /** A document without the reference is left as it is. */
  lemma {:induction false} ReplaceAllOfAbsent(d: string, sym: string, c: char)
    requires WellFormedSymbol(sym)
    requires forall k :: !OccursAt(d, sym, k)
    ensures ReplaceAllOf(d, sym, c) == d
  {
  }

  /** A reference that regenerates itself is still worked off:
      `&amp;amp;` becomes eight spaces and an ampersand. */
  lemma {:induction false} AmpersandTwice()
    ensures ReplaceAllOf("&amp;amp;", "&amp;", '&') == "        &"
  {
    var d0 := "&amp;amp;";
    assert OccursAt(d0, "&amp;", 0);
    var d1 := ReplaceAt(d0, 0, "&amp;", '&');
    assert d1 == "    &amp;";
    assert !OccursAt(d1, "&amp;", 0) && !OccursAt(d1, "&amp;", 1) && !OccursAt(d1, "&amp;", 2);
    assert !OccursAt(d1, "&amp;", 3) && OccursAt(d1, "&amp;", 4);
    assert Find(d1, "&amp;", 0) == Some(4);
    var d2 := ReplaceAt(d1, 4, "&amp;", '&');
    assert d2 == "        &";
    assert Find(d2, "&amp;", 0).None?;
  }

  /** The references of `order`, each worked off in turn. */
  function ConvertAll(d: string, order: seq<string>): (r: string)
    requires forall s :: s in order ==> s in HTML_SPECIAL
    ensures |r| == |d|
    ensures forall i :: 0 <= i < |d| ==>
      r[i] == d[i] || r[i] == ' ' || r[i] in HTML_SPECIAL.Values
  {
    TableSymbolsWellFormed();
    if order == [] then d
    else
      var last := order[|order| - 1];
      ReplaceAllOf(ConvertAll(d, order[..|order| - 1]), last, HTML_SPECIAL[last])
  }

  lemma {:induction false} ConvertAllStep(d: string, order: seq<string>, i: nat)
    requires forall s :: s in order ==> s in HTML_SPECIAL
    requires i < |order|
    ensures WellFormedSymbol(order[i])
    ensures ConvertAll(d, order[..i + 1]) ==
      ReplaceAllOf(ConvertAll(d, order[..i]), order[i], HTML_SPECIAL[order[i]])
  {
    TableSymbolsWellFormed();
    assert order[..i + 1][..i] == order[..i];
  }

  /** The body of the inner loop: the occurrence at `index` overwritten. */
  method ReplaceOccurrence(doc: array<char>, index: nat, sym: string, c: char)
    requires sym != [] && OccursAt(doc[..], sym, index)
    modifies doc
    ensures doc[..] == ReplaceAt(old(doc[..]), index, sym, c)
  {
    for offset := 0 to |sym| - 1
      invariant forall k :: 0 <= k < doc.Length ==>
        doc[k] == if index <= k < index + offset then ' ' else old(doc[k])
    {
      doc[index + offset] := ' ';
    }
    doc[index + |sym| - 1] := c;
  }

  /** The inner loop: the first occurrence of `sym` replaced until there is none. */
  method ReplaceAllOccurrences(doc: array<char>, sym: string, c: char)
    requires WellFormedSymbol(sym)
    modifies doc
    ensures doc[..] == ReplaceAllOf(old(doc[..]), sym, c)
  {
    var found := Find(doc[..], sym, 0);
    while found.Some?
      invariant ReplaceAllOf(doc[..], sym, c) == ReplaceAllOf(old(doc[..]), sym, c)
      invariant found == Find(doc[..], sym, 0)
      decreases NonSpaceCount(doc[..])
    {
      ReplaceAtShrinks(doc[..], found.value, sym, c);
      ReplaceOccurrence(doc, found.value, sym, c);
      found := Find(doc[..], sym, 0);
    }
  }

  /**
   * `convert_html_special_chars`: for each reference of the table, in the
   * table's iteration order `order`, replaces the first occurrence until
   * there is none.
   */
  method ConvertHtmlSpecialChars(doc: array<char>, order: seq<string>)
    requires Distinct(order) && |order| == |HTML_SPECIAL|
    requires forall s :: s in order ==> s in HTML_SPECIAL
    modifies doc
    ensures doc[..] == ConvertAll(old(doc[..]), order)
  {
    TableSymbolsWellFormed();
    for idx := 0 to |order|
      invariant doc[..] == ConvertAll(old(doc[..]), order[..idx])
    {
      ConvertAllStep(old(doc[..]), order, idx);
      ReplaceAllOccurrences(doc, order[idx], HTML_SPECIAL[order[idx]]);
    }
    assert order[..|order|] == order;
  }

  /** After the conversion, the reference that came last in the order no
      longer occurs. */
  lemma {:induction false} LastSymbolGone(d: string, order: seq<string>)
    requires forall s :: s in order ==> s in HTML_SPECIAL
    requires order != []
    ensures Find(ConvertAll(d, order), order[|order| - 1], 0).None?
  {
    var last := order[|order| - 1];
    var r := ConvertAll(d, order);
    assert Find(r, last, 0).None?;
  }
}
