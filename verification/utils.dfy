/**
  The helpers of somajo/utils.py: grouping the lines of a text file into
  paragraphs, cleaning the abbreviation list, walking an XML element tree for
  its texts and tails, and turning SAX events into tokens.  The file handles,
  the XML parsers and `saxutils.escape` are outside the model: lines come in
  as a sequence, the element tree as a value, the events as method calls and
  the escaping as a function parameter.
*/
module Utils {
  import opened Wrappers
  import opened Seqs
  import opened Chars
  import opened Tokens
  import opened LinkedList

  // ---------------------------------------------------------------------------
  // `get_paragraphs`

  /** A line the source treats as a paragraph separator: nothing but white space. */
  predicate Blank(line: string) {
    Strip(line) == []
  }

  /** The maximal runs of consecutive non-blank lines, in order. */
  function Runs(lines: seq<string>): (rs: seq<seq<string>>)
    ensures forall k | 0 <= k < |rs| :: rs[k] != [] && forall j | 0 <= j < |rs[k]| :: !Blank(rs[k][j])
    ensures lines != [] && !Blank(lines[0]) ==> rs != [] && rs[0] != [] && rs[0][0] == lines[0]
  {
    if lines == [] then []
    else
      var rest := Runs(lines[1..]);
      if Blank(lines[0]) then rest
      else if |lines| > 1 && !Blank(lines[1]) then [[lines[0]] + rest[0]] + rest[1..]
      else [[lines[0]]] + rest
  }

  /** The paragraphs of the lines: each run of non-blank lines joined into one string. */
  function Paragraphs(lines: seq<string>): (ps: seq<string>)
    ensures |ps| == |Runs(lines)|
    ensures forall k | 0 <= k < |ps| :: ps[k] == Flatten(Runs(lines)[k])
  {
    var rs := Runs(lines);
    seq(|rs|, k requires 0 <= k < |rs| => Flatten(rs[k]))
  }

  /** The non-blank lines, in order. */
  function NonBlank(lines: seq<string>): (r: seq<string>)
    ensures forall l | l in r :: !Blank(l)
  {
    if lines == [] then [] else (if Blank(lines[0]) then [] else [lines[0]]) + NonBlank(lines[1..])
  }

  /**
    The number of lines that open a paragraph: non-blank lines at the start of
    the input or right after a blank line; `afterBlank` says whether the line
    before `lines` was blank (or absent).
  */
  function Openers(lines: seq<string>, afterBlank: bool): nat {
    if lines == [] then 0
    else (if afterBlank && !Blank(lines[0]) then 1 else 0) + Openers(lines[1..], Blank(lines[0]))
  }

  /** The runs, with the paragraph `cur` being built in front of them; `joins` when it continues into the first run. */
  function Pending(cur: seq<string>, rs: seq<seq<string>>, joins: bool): seq<seq<string>>
    requires joins ==> rs != []
  {
    if cur == [] then rs else if joins then [cur + rs[0]] + rs[1..] else [cur] + rs
  }

  /** The line at `i` continues a paragraph that is being built. */
  predicate Continues(lines: seq<string>, i: nat) {
    i < |lines| && !Blank(lines[i])
  }

  /** One line of the loop of `get_paragraphs`, as it changes the runs still to come. */
  lemma PendingNext(lines: seq<string>, i: nat, cur: seq<string>)
    requires i < |lines|
    ensures Continues(lines, i) ==> Runs(lines[i..]) != []
    ensures Continues(lines, i + 1) ==> Runs(lines[i + 1..]) != []
    ensures Blank(lines[i]) ==>
      Pending(cur, Runs(lines[i..]), Continues(lines, i))
        == (if cur == [] then [] else [cur]) + Runs(lines[i + 1..])
    ensures !Blank(lines[i]) ==>
      Pending(cur, Runs(lines[i..]), Continues(lines, i))
        == Pending(cur + [lines[i]], Runs(lines[i + 1..]), Continues(lines, i + 1))
  {
    assert lines[i..][1..] == lines[i + 1..];
    if Continues(lines, i + 1) {
      assert lines[i + 1..][0] == lines[i + 1];
    }
    var rest := Runs(lines[i + 1..]);
    if !Blank(lines[i]) && Continues(lines, i + 1) {
      assert Runs(lines[i..]) == [[lines[i]] + rest[0]] + rest[1..];
      assert cur + ([lines[i]] + rest[0]) == cur + [lines[i]] + rest[0];
      assert [] + [lines[i]] + rest[0] == [lines[i]] + rest[0];
    } else if !Blank(lines[i]) {
      assert Runs(lines[i..]) == [[lines[i]]] + rest;
      assert [] + [lines[i]] == [lines[i]];
    }
  }

  /** The paragraphs the lines of each group join into. */
  function Joined(gs: seq<seq<string>>): (ps: seq<string>)
    ensures |ps| == |gs| && forall k | 0 <= k < |gs| :: ps[k] == Flatten(gs[k])
  {
    seq(|gs|, k requires 0 <= k < |gs| => Flatten(gs[k]))
  }

  lemma JoinedSnoc(gs: seq<seq<string>>, g: seq<string>)
    ensures Joined(gs + [g]) == Joined(gs) + [Flatten(g)]
  {
  }

  /** One line of the loop of `get_paragraphs`, as the next loop invariant. */
  lemma ParagraphStep(lines: seq<string>, i: nat, done: seq<seq<string>>, cur: seq<string>)
    requires i < |lines| && (Continues(lines, i) ==> Runs(lines[i..]) != [])
    requires Runs(lines) == done + Pending(cur, Runs(lines[i..]), Continues(lines, i))
    ensures Continues(lines, i + 1) ==> Runs(lines[i + 1..]) != []
    ensures Blank(lines[i]) && cur != [] ==>
      Runs(lines) == (done + [cur]) + Pending([], Runs(lines[i + 1..]), Continues(lines, i + 1))
    ensures Blank(lines[i]) && cur == [] ==>
      Runs(lines) == done + Pending(cur, Runs(lines[i + 1..]), Continues(lines, i + 1))
    ensures !Blank(lines[i]) ==>
      Runs(lines) == done + Pending(cur + [lines[i]], Runs(lines[i + 1..]), Continues(lines, i + 1))
  {
    var rest := Runs(lines[i + 1..]);
    PendingNext(lines, i, cur);
    if Blank(lines[i]) {
      if cur != [] {
        AppendAssoc(done, [cur], rest);
      } else {
        assert [] + rest == rest;
      }
    }
  }

  /** `get_paragraphs`: the text of each maximal run of non-blank lines, in order. */
  method GetParagraphs(lines: seq<string>) returns (ps: seq<string>)
    ensures ps == Paragraphs(lines)
  {
    ps := [];
    var paragraph: seq<string> := [];
    ghost var done: seq<seq<string>> := [];
    var i := 0;
    assert lines[0..] == lines;
    while i < |lines|
      invariant 0 <= i <= |lines| && ps == Joined(done)
      invariant Continues(lines, i) ==> Runs(lines[i..]) != []
      invariant Runs(lines) == done + Pending(paragraph, Runs(lines[i..]), Continues(lines, i))
    {
      var line := lines[i];
      ParagraphStep(lines, i, done, paragraph);
      if Strip(line) == "" {
        if |paragraph| > 0 {
          JoinedSnoc(done, paragraph);
          ps := ps + [Flatten(paragraph)];
          done := done + [paragraph];
          paragraph := [];
        }
      } else {
        paragraph := paragraph + [line];
      }
      i := i + 1;
    }
    assert lines[|lines|..] == [];
    if |paragraph| > 0 {
      JoinedSnoc(done, paragraph);
      ps := ps + [Flatten(paragraph)];
      done := done + [paragraph];
    } else {
      assert done + [] == done;
    }
  }

  /** No paragraph is empty: each holds at least one non-blank line. */
  lemma ParagraphsNonEmpty(lines: seq<string>)
    ensures forall p | p in Paragraphs(lines) :: p != []
  {
    var rs := Runs(lines);
    forall p | p in Paragraphs(lines)
      ensures p != []
    {
      var k :| 0 <= k < |rs| && p == Flatten(rs[k]);
      assert rs[k] in rs;
      assert rs[k][0] != [] by {
        assert rs[k][0] in rs[k];
      }
      assert rs[k] == [rs[k][0]] + rs[k][1..];
    }
  }

  /** The runs hold exactly the non-blank lines, in order. */
  lemma {:induction false} RunsKeepLines(lines: seq<string>)
    ensures Flatten(Runs(lines)) == NonBlank(lines)
  {
    if lines != [] {
      RunsKeepLines(lines[1..]);
      var rest := Runs(lines[1..]);
      if !Blank(lines[0]) {
        if |lines| > 1 && !Blank(lines[1]) {
          assert lines[1..][0] == lines[1];
          assert ([[lines[0]] + rest[0]] + rest[1..])[1..] == rest[1..];
          assert rest == [rest[0]] + rest[1..];
          assert Flatten(rest) == rest[0] + Flatten(rest[1..]);
        } else {
          assert ([[lines[0]]] + rest)[1..] == rest;
        }
      }
    }
  }

  /** Joining the paragraphs gives back the input with its blank lines left out. */
  lemma ParagraphsKeepText(lines: seq<string>)
    ensures Flatten(Paragraphs(lines)) == Flatten(NonBlank(lines))
  {
    RunsKeepLines(lines);
    FlattenRuns(Runs(lines));
  }

  lemma {:induction false} FlattenRuns(rs: seq<seq<string>>)
    ensures Flatten(seq(|rs|, k requires 0 <= k < |rs| => Flatten(rs[k]))) == Flatten(Flatten(rs))
  {
    var js := seq(|rs|, k requires 0 <= k < |rs| => Flatten(rs[k]));
    if rs != [] {
      FlattenRuns(rs[1..]);
      assert js[1..] == seq(|rs[1..]|, k requires 0 <= k < |rs[1..]| => Flatten(rs[1..][k]));
      FlattenAppend(rs[0], Flatten(rs[1..]));
    }
  }

  /** There is one paragraph per line that opens one. */
  lemma {:induction false} RunsCount(lines: seq<string>, afterBlank: bool)
    ensures Openers(lines, afterBlank)
      == |Runs(lines)| - (if !afterBlank && lines != [] && !Blank(lines[0]) then 1 else 0)
  {
    if lines != [] {
      RunsCount(lines[1..], Blank(lines[0]));
      if |lines| > 1 {
        assert lines[1..][0] == lines[1];
      }
    }
  }

  /** `get_paragraphs` yields as many paragraphs as there are lines opening one. */
  lemma ParagraphsCount(lines: seq<string>)
    ensures |Paragraphs(lines)| == Openers(lines, true)
  {
    RunsCount(lines, true);
  }

  // ---------------------------------------------------------------------------
  // `read_abbreviation_file`

  /** A stripped line the source keeps: not empty and not a comment. */
  predicate Kept(s: string) {
    s != [] && !StartsWith(s, "#")
  }

  /** The set of abbreviations the loop collects from the lines. */
  function Abbreviations(lines: seq<string>): set<string> {
    if lines == [] then {}
    else
      var s := Strip(lines[|lines| - 1]);
      Abbreviations(lines[..|lines| - 1]) + (if Kept(s) then {s} else {})
  }

  /** The abbreviations are exactly the kept stripped lines. */
  lemma {:induction false} AbbreviationsAre(lines: seq<string>, a: string)
    ensures a in Abbreviations(lines) <==> exists k | 0 <= k < |lines| :: a == Strip(lines[k]) && Kept(a)
  {
    if lines != [] {
      var n := |lines| - 1;
      AbbreviationsAre(lines[..n], a);
      if a in Abbreviations(lines[..n]) {
        var k :| 0 <= k < n && a == Strip(lines[..n][k]) && Kept(a);
        assert lines[k] == lines[..n][k];
      }
      if exists k | 0 <= k < |lines| :: a == Strip(lines[k]) && Kept(a) {
        var k :| 0 <= k < |lines| && a == Strip(lines[k]) && Kept(a);
        if k < n {
          assert lines[..n][k] == lines[k];
        }
      }
    }
  }

  /** A kept stripped line is non-empty, no comment, and has no white space at either end. */
  lemma {:induction false} KeptClean(line: string)
    requires Kept(Strip(line))
    ensures var a := Strip(line);
      a != [] && a[0] != '#' && !IsSpace(a[0]) && !IsSpace(a[|a| - 1])
  {
    var a := Strip(line);
    StripSpec(line);
    assert a[..1] == [a[0]];
  }

  /** Every abbreviation is non-empty, no comment, and has no white space at either end. */
  lemma {:induction false} AbbreviationsClean(lines: seq<string>)
    ensures forall a | a in Abbreviations(lines) ::
      && a != [] && a[0] != '#'
      && !IsSpace(a[0]) && !IsSpace(a[|a| - 1])
  {
    forall a | a in Abbreviations(lines)
      ensures a != [] && a[0] != '#' && !IsSpace(a[0]) && !IsSpace(a[|a| - 1])
    {
      AbbreviationsAre(lines, a);
      var k :| 0 <= k < |lines| && a == Strip(lines[k]) && Kept(a);
      KeptClean(lines[k]);
    }
  }

  /** The set loop of `read_abbreviation_file`. */
  method CollectAbbreviations(lines: seq<string>) returns (s: set<string>)
    ensures s == Abbreviations(lines)
  {
    s := {};
    var i := 0;
    while i < |lines|
      invariant 0 <= i <= |lines| && s == Abbreviations(lines[..i])
    {
      var line := Strip(lines[i]);
      assert lines[..i + 1][..i] == lines[..i];
      if StartsWith(line, "#") {
      } else if line == "" {
      } else {
        s := s + {line};
      }
      i := i + 1;
    }
    assert lines[..|lines|] == lines;
  }

  /** A finite non-empty set of strings has a longest member. */
  lemma {:induction false} LongestExists(s: set<string>)
    requires s != {}
    ensures exists x | x in s :: forall y | y in s :: |y| <= |x|
    decreases |s|
  {
    var z :| z in s;
    if s - {z} != {} {
      LongestExists(s - {z});
      var x :| x in s - {z} && forall y | y in s - {z} :: |y| <= |x|;
      if |z| > |x| {
        assert forall y | y in s :: |y| <= |z|;
      } else {
        assert forall y | y in s :: |y| <= |x|;
      }
    } else {
      forall y | y in s
        ensures y == z
      {
        assert y !in s - {z};
      }
    }
  }

  predicate Distinct(xs: seq<string>) {
    forall p, q | 0 <= p < q < |xs| :: xs[p] != xs[q]
  }

  /** Longer strings come first. */
  predicate LongestFirst(xs: seq<string>) {
    forall p, q | 0 <= p < q < |xs| :: |xs[p]| >= |xs[q]|
  }

  /** `sorted(s, key=len, reverse=True)`: the members of `s`, each once, longest first. */
  method SortByLength(s: set<string>) returns (xs: seq<string>)
    ensures forall a :: a in xs <==> a in s
    ensures Distinct(xs) && LongestFirst(xs)
  {
    xs := [];
    var rest := s;
    while rest != {}
      invariant forall a :: a in s <==> a in xs || a in rest
      invariant forall a | a in xs :: a !in rest
      invariant Distinct(xs) && LongestFirst(xs)
      invariant forall p, b | 0 <= p < |xs| && b in rest :: |xs[p]| >= |b|
      decreases |rest|
    {
      LongestExists(rest);
      var x :| x in rest && forall y | y in rest :: |y| <= |x|;
      xs := xs + [x];
      rest := rest - {x};
    }
  }

  /** `read_abbreviation_file` on the lines of the file. */
  method ReadAbbreviations(lines: seq<string>) returns (abbrevs: seq<string>)
    ensures forall a :: a in abbrevs <==> a in Abbreviations(lines)
    ensures Distinct(abbrevs) && LongestFirst(abbrevs)
  {
    var s := CollectAbbreviations(lines);
    abbrevs := SortByLength(s);
  }

  // ---------------------------------------------------------------------------
  // `parse_xml.text_getter`

  /** An element of an ElementTree: its tag, its optional text and tail, and its children. */
  datatype Element = Element(tag: string, text: Option<string>, tail: Option<string>, children: seq<Element>)

  datatype Part = TextPart | TailPart

  /** An entry `Element(element, type, text)` of `parse_xml`'s result. */
  datatype Entry = Entry(element: Element, part: Part, text: string)

  /** The number of elements in the tree. */
  function Size(e: Element): nat
    decreases e, 1
  {
    1 + SizeAll(e.children)
  }

  function SizeAll(es: seq<Element>): nat
    decreases es, 0
  {
    if es == [] then 0 else Size(es[0]) + SizeAll(es[1..])
  }

  /** The text of an entry: the element's text or tail, `""` for `None`. */
  function PartText(e: Element, p: Part): string {
    match p
    case TextPart => e.text.GetOr("")
    case TailPart => e.tail.GetOr("")
  }

  /** `text_getter(e)`: the element's text, then the entries of its children, then its tail. */
  function TextGetter(e: Element): (r: seq<Entry>)
    ensures |r| == 2 * Size(e)
    ensures r[0] == Entry(e, TextPart, e.text.GetOr(""))
    ensures r[|r| - 1] == Entry(e, TailPart, e.tail.GetOr(""))
    decreases e, 1
  {
    [Entry(e, TextPart, e.text.GetOr(""))] + TextGetterAll(e.children) + [Entry(e, TailPart, e.tail.GetOr(""))]
  }

  function TextGetterAll(es: seq<Element>): (r: seq<Entry>)
    ensures |r| == 2 * SizeAll(es)
    decreases es, 0
  {
    if es == [] then [] else TextGetter(es[0]) + TextGetterAll(es[1..])
  }

  /** How many entries of `r` are texts, and how many are tails. */
  function Texts(r: seq<Entry>): nat {
    if r == [] then 0 else (if r[0].part == TextPart then 1 else 0) + Texts(r[1..])
  }

  function Tails(r: seq<Entry>): nat {
    if r == [] then 0 else (if r[0].part == TailPart then 1 else 0) + Tails(r[1..])
  }

  lemma {:induction false} CountsAppend(a: seq<Entry>, b: seq<Entry>)
    ensures Texts(a + b) == Texts(a) + Texts(b) && Tails(a + b) == Tails(a) + Tails(b)
  {
    if a == [] {
      assert a + b == b;
    } else {
      assert (a + b)[1..] == a[1..] + b;
      CountsAppend(a[1..], b);
    }
  }

  /**
    The entries nest like brackets: a text entry opens an element and its tail
    entry closes it, so every prefix has at least as many texts as tails.
  */
  predicate Nested(r: seq<Entry>) {
    && Texts(r) == Tails(r)
    && forall k | 0 <= k <= |r| :: Tails(r[..k]) <= Texts(r[..k])
  }

  /** In the entries of one element, only the whole has as many tails as texts. */
  predicate Enclosed(r: seq<Entry>) {
    && Texts(r) == Tails(r)
    && forall k | 0 < k < |r| :: Tails(r[..k]) < Texts(r[..k])
  }

  lemma NestedAppend(a: seq<Entry>, b: seq<Entry>)
    requires Nested(a) && Nested(b)
    ensures Nested(a + b)
  {
    CountsAppend(a, b);
    forall k | 0 <= k <= |a + b|
      ensures Tails((a + b)[..k]) <= Texts((a + b)[..k])
    {
      if k <= |a| {
        assert (a + b)[..k] == a[..k];
      } else {
        assert (a + b)[..k] == a + b[..k - |a|];
        CountsAppend(a, b[..k - |a|]);
      }
    }
  }

  lemma EnclosedNested(r: seq<Entry>)
    requires Enclosed(r)
    ensures Nested(r)
  {
    assert r[..|r|] == r;
    assert Texts(r[..0]) == 0;
  }

  /**
    `text_getter` gives each element exactly two entries, its text entry before
    the entries of all its descendants and its tail entry after them.
  */
  lemma {:induction false} TextGetterEncloses(e: Element)
    ensures Enclosed(TextGetter(e)) && Texts(TextGetter(e)) == Size(e)
    decreases e, 1
  {
    var r := TextGetter(e);
    var open := [Entry(e, TextPart, e.text.GetOr(""))];
    var mid := TextGetterAll(e.children);
    var close := [Entry(e, TailPart, e.tail.GetOr(""))];
    TextGetterAllNested(e.children);
    CountsAppend(open, mid);
    CountsAppend(open + mid, close);
    forall k | 0 < k < |r|
      ensures Tails(r[..k]) < Texts(r[..k])
    {
      assert r[..k] == open + mid[..k - 1];
      CountsAppend(open, mid[..k - 1]);
    }
  }

  lemma {:induction false} TextGetterAllNested(es: seq<Element>)
    ensures Nested(TextGetterAll(es)) && Texts(TextGetterAll(es)) == SizeAll(es)
    decreases es, 0
  {
    if es == [] {
      var r: seq<Entry> := [];
      assert r[..0] == r;
    } else {
      TextGetterEncloses(es[0]);
      EnclosedNested(TextGetter(es[0]));
      TextGetterAllNested(es[1..]);
      NestedAppend(TextGetter(es[0]), TextGetterAll(es[1..]));
      CountsAppend(TextGetter(es[0]), TextGetterAll(es[1..]));
    }
  }

  /** Every entry holds its element's own text or tail, with `None` read as `""`. */
  lemma {:induction false} TextGetterTexts(e: Element)
    ensures forall x | x in TextGetter(e) :: x.text == PartText(x.element, x.part)
    decreases e, 1
  {
    TextGetterAllTexts(e.children);
  }

  lemma {:induction false} TextGetterAllTexts(es: seq<Element>)
    ensures forall x | x in TextGetterAll(es) :: x.text == PartText(x.element, x.part)
    decreases es, 0
  {
    if es != [] {
      TextGetterTexts(es[0]);
      TextGetterAllTexts(es[1..]);
    }
  }

  // ---------------------------------------------------------------------------
  // `SaxTokenHandler`

  /** `sep.join(xs)`. */
  function JoinWith(sep: string, xs: seq<string>): string {
    if xs == [] then [] else if |xs| == 1 then xs[0] else xs[0] + sep + JoinWith(sep, xs[1..])
  }

  /** One attribute as the handler writes it: `k="v"` with the value escaped. */
  function AttrText(kv: (string, string), escape: string -> string): string {
    kv.0 + "=\"" + escape(kv.1) + "\""
  }

  function AttrTexts(attrs: seq<(string, string)>, escape: string -> string): (r: seq<string>)
    ensures |r| == |attrs| && forall k | 0 <= k < |attrs| :: r[k] == AttrText(attrs[k], escape)
  {
    seq(|attrs|, k requires 0 <= k < |attrs| => AttrText(attrs[k], escape))
  }

  /** The text of the start-tag token for element `name` with attributes `attrs`. */
  function StartTag(name: string, attrs: seq<(string, string)>, escape: string -> string): (r: string)
    ensures |r| >= |name| + 2 && r[..|name| + 1] == "<" + name && r[|r| - 1] == '>'
    ensures attrs == [] <==> |r| == |name| + 2
  {
    if |attrs| > 0 then "<" + name + " " + JoinWith(" ", AttrTexts(attrs, escape)) + ">"
    else "<" + name + ">"
  }

  /** The text of the end-tag token for element `name`. */
  function EndTag(name: string): string {
    "</" + name + ">"
  }

  /** Joining with spaces after a leading space is putting a space before each part. */
  lemma {:induction false} SpaceJoin(xs: seq<string>)
    requires xs != []
    ensures " " + JoinWith(" ", xs) == Flatten(seq(|xs|, k requires 0 <= k < |xs| => " " + xs[k]))
  {
    var ys := seq(|xs|, k requires 0 <= k < |xs| => " " + xs[k]);
    if |xs| == 1 {
      assert Flatten(ys) == ys[0] + Flatten([]);
    } else {
      SpaceJoin(xs[1..]);
      assert ys[1..] == seq(|xs[1..]|, k requires 0 <= k < |xs[1..]| => " " + xs[1..][k]);
      assert " " + JoinWith(" ", xs) == " " + xs[0] + (" " + JoinWith(" ", xs[1..]));
    }
  }

  /** A start tag with attributes lists each of them, in order, after a single space. */
  lemma {:induction false} StartTagAttrs(name: string, attrs: seq<(string, string)>, escape: string -> string)
    requires attrs != []
    ensures StartTag(name, attrs, escape)
      == "<" + name + Flatten(seq(|attrs|, k requires 0 <= k < |attrs| => " " + AttrText(attrs[k], escape))) + ">"
  {
    var xs := AttrTexts(attrs, escape);
    SpaceJoin(xs);
    assert StartTag(name, attrs, escape) == "<" + name + (" " + JoinWith(" ", xs)) + ">";
    assert seq(|xs|, k requires 0 <= k < |xs| => " " + xs[k])
        == seq(|attrs|, k requires 0 <= k < |attrs| => " " + AttrText(attrs[k], escape));
  }

  /** The SAX content handler: every event appends one token to its list. */
  class SaxTokenHandler {
    const tokenDll: DLL<Token>

    ghost predicate Valid()
      reads this, tokenDll, tokenDll.Repr
    {
      tokenDll.Valid()
    }

    constructor ()
      ensures Valid() && fresh(tokenDll) && fresh(tokenDll.Repr) && tokenDll.Contents == []
    {
      tokenDll := new DLL([]);
    }

    /** `characters(data)`: a plain token holding exactly the character data. */
    method Characters(data: string)
      requires Valid()
      modifies tokenDll.Repr
      ensures Valid() && fresh(tokenDll.Repr - old(tokenDll.Repr))
      ensures tokenDll.Contents == old(tokenDll.Contents) + [Plain(data)]
    {
      var token := Plain(data);
      tokenDll.Append(token);
    }

    /** `startElement(name, attrs)`: a locked markup token for the start tag. */
    method StartElement(name: string, attrs: seq<(string, string)>, escape: string -> string)
      requires Valid()
      modifies tokenDll.Repr
      ensures Valid() && fresh(tokenDll.Repr - old(tokenDll.Repr))
      ensures tokenDll.Contents == old(tokenDll.Contents) + [NewToken(StartTag(name, attrs, escape), true, true, None, true, false, false)]
    {
      var text := StartTag(name, attrs, escape);
      var token := NewToken(text, true, true, None, true, false, false);
      tokenDll.Append(token);
    }

    /** `endElement(name)`: a locked markup token for the end tag. */
    method EndElement(name: string)
      requires Valid()
      modifies tokenDll.Repr
      ensures Valid() && fresh(tokenDll.Repr - old(tokenDll.Repr))
      ensures tokenDll.Contents == old(tokenDll.Contents) + [NewToken(EndTag(name), true, true, None, true, false, false)]
    {
      var token := NewToken(EndTag(name), true, true, None, true, false, false);
      tokenDll.Append(token);
    }
  }

  /** A SAX event, as the parser reports it to the handler. */
  datatype SaxEvent =
    | CharactersEvent(data: string)
    | StartEvent(name: string, attrs: seq<(string, string)>)
    | EndEvent(name: string)

  /** The token the handler appends for one event. */
  function EventToken(e: SaxEvent, escape: string -> string): (t: Token)
    ensures t.markup == t.locked == !e.CharactersEvent?
    ensures e.CharactersEvent? ==> t == Plain(e.data)
    ensures !e.CharactersEvent? ==> t.tokenClass.None? && t.spaceAfter && !t.firstInSentence && !t.lastInSentence
  {
    match e
    case CharactersEvent(data) => Plain(data)
    case StartEvent(name, attrs) => NewToken(StartTag(name, attrs, escape), true, true, None, true, false, false)
    case EndEvent(name) => NewToken(EndTag(name), true, true, None, true, false, false)
  }

  function EventTokens(es: seq<SaxEvent>, escape: string -> string): (ts: seq<Token>)
    ensures |ts| == |es| && forall k | 0 <= k < |es| :: ts[k] == EventToken(es[k], escape)
  {
    seq(|es|, k requires 0 <= k < |es| => EventToken(es[k], escape))
  }

  /**
    `parse_xml_to_token_dll`: the parser's events, in document order, are fed
    to a fresh handler, whose list then holds one token per event.
  */
  method ParseToTokenDll(events: seq<SaxEvent>, escape: string -> string) returns (dll: DLL<Token>)
    ensures dll.Valid() && fresh(dll.Repr)
    ensures dll.Contents == EventTokens(events, escape)
  {
    var handler := new SaxTokenHandler();
    var i := 0;
    while i < |events|
      invariant 0 <= i <= |events|
      invariant handler.Valid() && fresh(handler.tokenDll.Repr)
      invariant handler.tokenDll.Contents == EventTokens(events[..i], escape)
    {
      assert EventTokens(events[..i + 1], escape) == EventTokens(events[..i], escape) + [EventToken(events[i], escape)];
      match events[i] {
        case CharactersEvent(data) => handler.Characters(data);
        case StartEvent(name, attrs) => handler.StartElement(name, attrs, escape);
        case EndEvent(name) => handler.EndElement(name);
      }
      i := i + 1;
    }
    assert events[..|events|] == events;
    dll := handler.tokenDll;
  }
}
