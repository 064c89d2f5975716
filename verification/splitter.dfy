/**
  `Tokenizer._split_on_boundaries` of somajo/tokenizer.py: one list node is
  replaced by the fragments that a list of character spans cuts out of its
  text.  `Fragments` is the value-level specification of what is inserted;
  `SplitOnBoundaries` is the in-place operation on the token list.
*/
module Splitter {
  import opened Wrappers
  import opened Chars
  import opened Tokens
  import opened LinkedList
  import opened Seqs

  /** A span `(start, end, replacement)` found by a pass. */
  datatype Boundary = Boundary(start: int, end: int, replacement: Option<string>)

  /** The unstripped pieces of one span: text before it, the match, text after it. */
  datatype Pieces = Pieces(left: string, matched: string, original: Option<string>, right: string)

  /**
    The pieces of span `b` when the previous span ended at `prevEnd`; a
    replacement that differs from the matched text takes its place and the
    matched text becomes the original spelling.
  */
  function RawPieces(text: string, b: Boundary, prevEnd: int): (p: Pieces)
    ensures b.replacement.None? ==> p.matched == Slice(text, b.start, b.end) && p.original.None?
    ensures p.original.Some? <==> b.replacement.Some? && b.replacement.value != Slice(text, b.start, b.end)
    ensures p.original.Some? ==> p.original.value == Slice(text, b.start, b.end) && p.matched == b.replacement.value
  {
    var m := Slice(text, b.start, b.end);
    var left := Slice(text, prevEnd, b.start);
    var right := Slice(text, b.end, |text|);
    if b.replacement.Some? && m != b.replacement.value then
      Pieces(left, b.replacement.value, Some(m), right)
    else
      Pieces(left, m, None, right)
  }

  /** `space_after` of a left fragment. */
  predicate LeftSpaceAfter(left: string, matched: string) {
    EndsWithSpace(left) || StartsWithSpace(matched)
  }

  /** `space_after` of a match fragment; `inherited` is the split node's own flag. */
  predicate MatchSpaceAfter(matched: string, right: string, inherited: bool) {
    if EndsWithSpace(matched) || StartsWithSpace(right) then true
    else if right == "" then inherited
    else false
  }

  /**
    What one span emits: a left fragment when the stripped text before the
    span is non-empty, always the match fragment, and for the last span a
    right fragment when the stripped rest of the text is non-empty.
  */
  datatype SpanOut = SpanOut(left: Option<Token>, mt: Token, right: Option<Token>)

  function OptSeq(o: Option<Token>): (s: seq<Token>)
    ensures |s| == (if o.Some? then 1 else 0)
  {
    if o.Some? then [o.value] else []
  }

  /** The fragments of one span, in list order. */
  function Flat(o: SpanOut): (s: seq<Token>)
    ensures 1 <= |s| <= 3
  {
    OptSeq(o.left) + [o.mt] + OptSeq(o.right)
  }

  /** The left and right fragments: non-empty, unlocked, classless, not markup. */
  predicate Filler(tok: Token) {
    tok.text != "" && !tok.markup && !tok.locked && tok.tokenClass.None? && tok.originalSpelling.None?
  }

  /** A match fragment of a pass of class `cls`. */
  predicate MatchFragment(tok: Token, cls: string, lockMatch: bool) {
    !tok.markup && tok.locked == lockMatch && tok.tokenClass == Some(cls)
  }

  /** Only the head of `f` may be first in its sentence, and it is exactly when `first`. */
  predicate FirstFlags(f: seq<Token>, first: bool) {
    && f != []
    && f[0].firstInSentence == first
    && (forall j :: 0 < j < |f| ==> !f[j].firstInSentence)
  }

  /** Only the tail of `f` may be last in its sentence, and it is exactly when `last`. */
  predicate LastFlags(f: seq<Token>, last: bool) {
    && f != []
    && f[|f| - 1].lastInSentence == last
    && (forall j :: 0 <= j < |f| - 1 ==> !f[j].lastInSentence)
  }

  lemma FirstFlagsAppend(a: seq<Token>, b: seq<Token>, first: bool)
    requires FirstFlags(a, first) && FirstFlags(b, false)
    ensures FirstFlags(a + b, first)
  {
    forall j | 0 < j < |a + b|
      ensures !(a + b)[j].firstInSentence
    {
      if j >= |a| {
        assert (a + b)[j] == b[j - |a|];
      }
    }
  }

  lemma LastFlagsAppend(a: seq<Token>, b: seq<Token>, last: bool)
    requires LastFlags(a, false) && LastFlags(b, last)
    ensures LastFlags(a + b, last)
  {
    forall j | 0 <= j < |a + b| - 1
      ensures !(a + b)[j].lastInSentence
    {
      if j >= |a| {
        assert (a + b)[j] == b[j - |a|];
      }
    }
  }

  /** Sentence flags of one span output: the head may carry `first`, the tail `last`. */
  predicate FlagsAt(o: SpanOut, first: bool, last: bool) {
    FirstFlags(Flat(o), first) && LastFlags(Flat(o), last)
  }

  /** The pieces of one span with surrounding white space stripped. */
  function StripPieces(p: Pieces): (q: Pieces)
    ensures q.original == p.original
  {
    Pieces(Strip(p.left), Strip(p.matched), p.original, Strip(p.right))
  }

  /**
    The output of span `i` of `n`, from the unstripped pieces `raw` and the
    stripped pieces `st`, for a node holding `t`.
  */
  function Assemble(t: Token, i: nat, n: nat, raw: Pieces, st: Pieces, cls: string, lockMatch: bool): (o: SpanOut)
    requires i < n
    ensures o.left.Some? ==> Filler(o.left.value) && !o.left.value.lastInSentence
    ensures o.left.Some? <==> st.left != ""
    ensures o.right.Some? ==> Filler(o.right.value) && !o.right.value.firstInSentence
    ensures o.right.Some? <==> i == n - 1 && st.right != ""
    ensures MatchFragment(o.mt, cls, lockMatch) && o.mt.originalSpelling == raw.original
    ensures FlagsAt(o, i == 0 && t.firstInSentence, i == n - 1 && t.lastInSentence)
  {
    var first := i == 0 && t.firstInSentence;
    var matchLast := i == n - 1 && t.lastInSentence && st.right == "";
    var rightLast := i == n - 1 && t.lastInSentence;
    SpanOut(
      if st.left != "" then Some(Token(st.left, false, false, None, LeftSpaceAfter(raw.left, raw.matched), first, false, None)) else None,
      Token(st.matched, false, lockMatch, Some(cls), MatchSpaceAfter(raw.matched, raw.right, t.spaceAfter),
            first && st.left == "", matchLast, raw.original),
      if i == n - 1 && st.right != "" then Some(Token(st.right, false, false, None, t.spaceAfter, false, rightLast, None)) else None)
  }

  /** Where the text before span `i` starts: the end of the previous span, or 0. */
  function PrevEnd(bs: seq<Boundary>, i: nat): int
    requires i <= |bs|
  {
    if i == 0 then 0 else bs[i - 1].end
  }

  /** The output of span `i` of `bs` cut from the token `t`. */
  function SpanOf(t: Token, bs: seq<Boundary>, i: nat, cls: string, lockMatch: bool): (o: SpanOut)
    requires i < |bs|
  {
    var raw := RawPieces(t.text, bs[i], PrevEnd(bs, i));
    Assemble(t, i, |bs|, raw, StripPieces(raw), cls, lockMatch)
  }

  /** The outputs of all spans of `bs`, in order. */
  function Spans(t: Token, bs: seq<Boundary>, cls: string, lockMatch: bool): (os: seq<SpanOut>)
  {
    seq(|bs|, k requires 0 <= k < |bs| => SpanOf(t, bs, k, cls, lockMatch))
  }

  function FlatAll(os: seq<SpanOut>): (s: seq<Token>)
    ensures |s| >= |os|
  {
    if os == [] then [] else Flat(os[0]) + FlatAll(os[1..])
  }

  lemma {:induction false} FlatAllAppend(a: seq<SpanOut>, b: seq<SpanOut>)
    ensures FlatAll(a + b) == FlatAll(a) + FlatAll(b)
  {
    if a == [] {
      assert a + b == b;
    } else {
      assert (a + b)[1..] == a[1..] + b;
      FlatAllAppend(a[1..], b);
    }
  }

  /** Everything `_split_on_boundaries` inserts in place of a node holding `t`. */
  function Fragments(t: Token, bs: seq<Boundary>, cls: string, lockMatch: bool): (fs: seq<Token>)
    ensures |fs| >= |bs|
  {
    FlatAll(Spans(t, bs, cls, lockMatch))
  }

  /** Spans in order, not overlapping, inside a text of length `n`. */
  predicate WellFormed(bs: seq<Boundary>, n: int) {
    && (forall i :: 0 <= i < |bs| ==> 0 <= bs[i].start <= bs[i].end <= n)
    && (forall i :: 0 <= i < |bs| - 1 ==> bs[i].end <= bs[i + 1].start)
  }

  predicate NoReplacements(bs: seq<Boundary>) {
    forall i :: 0 <= i < |bs| ==> bs[i].replacement.None?
  }

  /** The texts of a token sequence, concatenated. */
  function Texts(ts: seq<Token>): (s: string)
    ensures ts == [] ==> s == ""
  {
    if ts == [] then "" else ts[0].text + Texts(ts[1..])
  }

  lemma {:induction false} TextsAppend(a: seq<Token>, b: seq<Token>)
    ensures Texts(a + b) == Texts(a) + Texts(b)
  {
    if a == [] {
      assert a + b == b;
    } else {
      assert (a + b)[1..] == a[1..] + b;
      TextsAppend(a[1..], b);
    }
  }

  /** How many tokens of `ts` are locked. */
  function CountLocked(ts: seq<Token>): (k: nat)
    ensures k <= |ts|
  {
    if ts == [] then 0 else (if ts[0].locked then 1 else 0) + CountLocked(ts[1..])
  }

  lemma {:induction false} CountLockedAppend(a: seq<Token>, b: seq<Token>)
    ensures CountLocked(a + b) == CountLocked(a) + CountLocked(b)
  {
    if a == [] {
      assert a + b == b;
    } else {
      assert (a + b)[1..] == a[1..] + b;
      CountLockedAppend(a[1..], b);
    }
  }

  /** One span's output: exactly its match fragment is locked (when locking). */
  predicate WellShaped(o: SpanOut, cls: string) {
    && (o.left.Some? ==> Filler(o.left.value))
    && (o.right.Some? ==> Filler(o.right.value))
    && MatchFragment(o.mt, cls, true)
  }

  lemma FlatShape(o: SpanOut, cls: string)
    requires WellShaped(o, cls)
    ensures CountLocked(Flat(o)) == 1
    ensures forall j :: 0 <= j < |Flat(o)| ==> MatchFragment(Flat(o)[j], cls, true) || Filler(Flat(o)[j])
  {
    CountLockedAppend(OptSeq(o.left) + [o.mt], OptSeq(o.right));
    CountLockedAppend(OptSeq(o.left), [o.mt]);
    assert CountLocked([o.mt]) == 1 by { assert [o.mt][1..] == []; }
    if o.left.Some? {
      assert [o.left.value][1..] == [];
    }
    if o.right.Some? {
      assert [o.right.value][1..] == [];
    }
  }

  /**
    Every span yields exactly one locked match fragment carrying the pass's
    class; every other fragment is a non-empty, unlocked, classless left or
    right piece.
  */
  lemma {:induction false} FlatAllShape(os: seq<SpanOut>, cls: string)
    requires forall k :: 0 <= k < |os| ==> WellShaped(os[k], cls)
    ensures CountLocked(FlatAll(os)) == |os|
    ensures forall j :: 0 <= j < |FlatAll(os)| ==> MatchFragment(FlatAll(os)[j], cls, true) || Filler(FlatAll(os)[j])
  {
    if os != [] {
      FlatAllShape(os[1..], cls);
      FlatShape(os[0], cls);
      CountLockedAppend(Flat(os[0]), FlatAll(os[1..]));
      var f := FlatAll(os);
      forall j | 0 <= j < |f|
        ensures MatchFragment(f[j], cls, true) || Filler(f[j])
      {
        if j >= |Flat(os[0])| {
          assert f[j] == FlatAll(os[1..])[j - |Flat(os[0])|];
        }
      }
    }
  }

  /**
    With locking on, a split emits exactly one locked fragment per span, of
    the pass's class, and only non-empty unlocked classless fragments besides.
  */
  lemma FragmentsShape(t: Token, bs: seq<Boundary>, cls: string)
    ensures var fs := Fragments(t, bs, cls, true);
      CountLocked(fs) == |bs|
      && forall j :: 0 <= j < |fs| ==> MatchFragment(fs[j], cls, true) || Filler(fs[j])
  {
    FlatAllShape(Spans(t, bs, cls, true), cls);
  }

  /** Without replacements no fragment records an original spelling. */
  lemma {:induction false} FlatAllNoOriginal(os: seq<SpanOut>)
    requires forall k :: 0 <= k < |os| ==> forall j :: 0 <= j < |Flat(os[k])| ==> Flat(os[k])[j].originalSpelling.None?
    ensures forall j :: 0 <= j < |FlatAll(os)| ==> FlatAll(os)[j].originalSpelling.None?
  {
    if os != [] {
      FlatAllNoOriginal(os[1..]);
      var f := FlatAll(os);
      forall j | 0 <= j < |f|
        ensures f[j].originalSpelling.None?
      {
        if j >= |Flat(os[0])| {
          assert f[j] == FlatAll(os[1..])[j - |Flat(os[0])|];
        } else {
          assert f[j] == Flat(os[0])[j];
        }
      }
    }
  }

  /** A split records an original spelling only where a replacement differs from the matched text. */
  lemma FragmentsNoOriginal(t: Token, bs: seq<Boundary>, cls: string, lockMatch: bool)
    requires NoReplacements(bs)
    ensures forall j :: 0 <= j < |Fragments(t, bs, cls, lockMatch)| ==>
      Fragments(t, bs, cls, lockMatch)[j].originalSpelling.None?
  {
    var os := Spans(t, bs, cls, lockMatch);
    forall k | 0 <= k < |os|
      ensures forall j :: 0 <= j < |Flat(os[k])| ==> Flat(os[k])[j].originalSpelling.None?
    {
      assert os[k].mt.originalSpelling.None?;
    }
    FlatAllNoOriginal(os);
  }

  lemma {:induction false} FlatAllFlags(os: seq<SpanOut>, first: bool, last: bool)
    requires os != []
    requires FlagsAt(os[0], first, |os| == 1 && last)
    requires forall k :: 0 < k < |os| ==> FlagsAt(os[k], false, k == |os| - 1 && last)
    ensures FirstFlags(FlatAll(os), first) && LastFlags(FlatAll(os), last)
  {
    if |os| == 1 {
      assert os[1..] == [];
      assert FlatAll(os[1..]) == [];
      assert FlatAll(os) == Flat(os[0]) + FlatAll(os[1..]);
    } else {
      var rest := os[1..];
      forall k | 0 < k < |rest|
        ensures FlagsAt(rest[k], false, k == |rest| - 1 && last)
      {
        assert rest[k] == os[k + 1];
      }
      FlatAllFlags(rest, false, last);
      FirstFlagsAppend(Flat(os[0]), FlatAll(rest), first);
      LastFlagsAppend(Flat(os[0]), FlatAll(rest), last);
    }
  }

  /**
    `first_in_sentence` goes to the first fragment only and carries the
    node's flag; `last_in_sentence` goes to the last fragment only and
    carries the node's flag.
  */
  lemma FragmentsSentenceFlags(t: Token, bs: seq<Boundary>, cls: string, lockMatch: bool)
    requires bs != []
    ensures FirstFlags(Fragments(t, bs, cls, lockMatch), t.firstInSentence)
    ensures LastFlags(Fragments(t, bs, cls, lockMatch), t.lastInSentence)
  {
    var os := Spans(t, bs, cls, lockMatch);
    forall k | 0 <= k < |os|
      ensures FlagsAt(os[k], k == 0 && t.firstInSentence, k == |os| - 1 && t.lastInSentence)
    {
    }
    FlatAllFlags(os, t.firstInSentence, t.lastInSentence);
  }

  lemma TextsSingle(x: Token)
    ensures Texts([x]) == x.text
  {
    assert [x][1..] == [];
  }

  /** The unstripped pieces of span `k`: left and match, and the rest of the text after the last span. */
  function SpanRaw(text: string, bs: seq<Boundary>, k: nat): string
    requires k < |bs|
  {
    var p := RawPieces(text, bs[k], PrevEnd(bs, k));
    p.left + p.matched + (if k == |bs| - 1 then p.right else "")
  }

  /** The unstripped pieces of every span, in order. */
  function Raws(text: string, bs: seq<Boundary>): (rs: seq<string>)
  {
    seq(|bs|, k requires 0 <= k < |bs| => SpanRaw(text, bs, k))
  }

  lemma FlattenSingle(x: string)
    ensures Flatten([x]) == x
  {
    assert [x][1..] == [];
  }

  lemma FlattenPrefix(rs: seq<string>, n: nat)
    requires 0 < n <= |rs|
    ensures Flatten(rs[..n]) == Flatten(rs[..n - 1]) + rs[n - 1]
  {
    PrefixSnoc(rs, n);
    FlattenAppend(rs[..n - 1], [rs[n - 1]]);
    FlattenSingle(rs[n - 1]);
  }

  /**
    For in-range, ordered, non-overlapping spans without replacements, the
    unstripped left, match and right pieces put together give the node's text.
  */
  lemma {:induction false} PiecesCoverText(text: string, bs: seq<Boundary>)
    requires bs != []
    requires WellFormed(bs, |text|) && NoReplacements(bs)
    ensures Flatten(Raws(text, bs)) == text
  {
    var rs := Raws(text, bs);
    var k := |bs| - 1;
    UnstrippedPrefix(text, bs, k);
    var e := PrevEnd(bs, k);
    var b := bs[k];
    assert e <= b.start by {
      if k > 0 {
        assert bs[k - 1].end <= bs[k].start;
      }
    }
    var p := RawPieces(text, b, e);
    assert rs[k] == p.left + p.matched + p.right;
    calc {
      Flatten(rs);
      { assert rs[..|bs|] == rs; }
      Flatten(rs[..|bs|]);
      { FlattenPrefix(rs, |bs|); }
      Flatten(rs[..k]) + rs[k];
      text[..e] + (text[e..b.start] + text[b.start..b.end] + text[b.end..|text|]);
      { SliceJoin(text, e, b.start, b.end); SliceJoin(text, e, b.end, |text|); }
      text[..e] + text[e..|text|];
      { SliceJoin(text, 0, e, |text|); }
      text[0..|text|];
    }
  }

  lemma {:induction false} UnstrippedPrefix(text: string, bs: seq<Boundary>, n: nat)
    requires n < |bs|
    requires WellFormed(bs, |text|) && NoReplacements(bs)
    ensures 0 <= PrevEnd(bs, n) <= |text|
    ensures Flatten(Raws(text, bs)[..n]) == text[..PrevEnd(bs, n)]
  {
    var rs := Raws(text, bs);
    if n == 0 {
      assert rs[..0] == [];
    } else {
      UnstrippedPrefix(text, bs, n - 1);
      FlattenPrefix(rs, n);
      var e := PrevEnd(bs, n - 1);
      var b := bs[n - 1];
      assert e <= b.start by {
        if n > 1 {
          assert bs[n - 2].end <= bs[n - 1].start;
        }
      }
      var p := RawPieces(text, b, e);
      assert rs[n - 1] == text[e..b.start] + text[b.start..b.end];
      calc {
        Flatten(rs[..n]);
        { FlattenPrefix(rs, n); }
        Flatten(rs[..n - 1]) + rs[n - 1];
        text[..e] + (text[e..b.start] + text[b.start..b.end]);
        { SliceJoin(text, e, b.start, b.end); }
        text[..e] + text[e..b.end];
        { SliceJoin(text, 0, e, b.end); }
        text[0..b.end];
      }
    }
  }

  /** The texts of one span's fragments are its stripped pieces; a missing fragment is an empty piece. */
  lemma SpanTexts(t: Token, bs: seq<Boundary>, k: nat, cls: string, lockMatch: bool)
    requires k < |bs|
    ensures var p := RawPieces(t.text, bs[k], PrevEnd(bs, k));
      Texts(Flat(SpanOf(t, bs, k, cls, lockMatch)))
        == Strip(p.left) + Strip(p.matched) + (if k == |bs| - 1 then Strip(p.right) else "")
  {
    var o := SpanOf(t, bs, k, cls, lockMatch);
    TextsAppend(OptSeq(o.left) + [o.mt], OptSeq(o.right));
    TextsAppend(OptSeq(o.left), [o.mt]);
    TextsSingle(o.mt);
    if o.left.Some? {
      TextsSingle(o.left.value);
    }
    if o.right.Some? {
      TextsSingle(o.right.value);
    }
  }

  lemma SpanNonSpace(t: Token, bs: seq<Boundary>, k: nat, cls: string, lockMatch: bool)
    requires k < |bs|
    ensures NonSpace(Texts(Flat(SpanOf(t, bs, k, cls, lockMatch)))) == NonSpace(SpanRaw(t.text, bs, k))
  {
    var p := RawPieces(t.text, bs[k], PrevEnd(bs, k));
    var r := if k == |bs| - 1 then p.right else "";
    SpanTexts(t, bs, k, cls, lockMatch);
    StripKeepsNonSpace(p.left);
    StripKeepsNonSpace(p.matched);
    StripKeepsNonSpace(r);
    NonSpaceAppend(Strip(p.left) + Strip(p.matched), Strip(r));
    NonSpaceAppend(Strip(p.left), Strip(p.matched));
    NonSpaceAppend(p.left + p.matched, r);
    NonSpaceAppend(p.left, p.matched);
    assert Strip(r) == (if k == |bs| - 1 then Strip(p.right) else "") by {
      if k != |bs| - 1 {
        assert LStrip(r) == "";
      }
    }
  }

  lemma {:induction false} PrefixNonSpace(os: seq<SpanOut>, rs: seq<string>, n: nat)
    requires n <= |rs| == |os|
    requires forall k :: 0 <= k < |os| ==> NonSpace(Texts(Flat(os[k]))) == NonSpace(rs[k])
    ensures NonSpace(Texts(FlatAll(os[..n]))) == NonSpace(Flatten(rs[..n]))
  {
    if n == 0 {
      assert os[..0] == [];
      assert rs[..0] == [];
    } else {
      PrefixNonSpace(os, rs, n - 1);
      var o := os[n - 1];
      PrefixSnoc(os, n);
      FlatAllAppend(os[..n - 1], [o]);
      assert FlatAll([o]) == Flat(o) by {
        assert [o][1..] == [];
      }
      TextsAppend(FlatAll(os[..n - 1]), Flat(o));
      NonSpaceAppend(Texts(FlatAll(os[..n - 1])), Texts(Flat(o)));
      FlattenPrefix(rs, n);
      NonSpaceAppend(Flatten(rs[..n - 1]), rs[n - 1]);
    }
  }

  /**
    Splitting drops only white space: the fragments' texts, put together,
    hold the same non-space characters as the unstripped pieces.
  */
  lemma FragmentsKeepNonSpace(t: Token, bs: seq<Boundary>, cls: string, lockMatch: bool)
    ensures NonSpace(Texts(Fragments(t, bs, cls, lockMatch))) == NonSpace(Flatten(Raws(t.text, bs)))
  {
    var os := Spans(t, bs, cls, lockMatch);
    var rs := Raws(t.text, bs);
    forall k | 0 <= k < |os|
      ensures NonSpace(Texts(Flat(os[k]))) == NonSpace(rs[k])
    {
      SpanNonSpace(t, bs, k, cls, lockMatch);
    }
    assert os[..|bs|] == os;
    assert rs[..|bs|] == rs;
    PrefixNonSpace(os, rs, |bs|);
  }

  /**
    For in-range, ordered, non-overlapping spans without replacements, the
    fragments hold exactly the non-space characters of the node's text.
  */
  lemma FragmentsKeepText(t: Token, bs: seq<Boundary>, cls: string, lockMatch: bool)
    requires bs != []
    requires WellFormed(bs, |t.text|) && NoReplacements(bs)
    ensures NonSpace(Texts(Fragments(t, bs, cls, lockMatch))) == NonSpace(t.text)
  {
    FragmentsKeepNonSpace(t, bs, cls, lockMatch);
    PiecesCoverText(t.text, bs);
  }

  lemma {:induction false} FlatAllLast(os: seq<SpanOut>)
    requires os != []
    ensures var f := FlatAll(os); var g := Flat(os[|os| - 1]);
      f[|f| - 1] == g[|g| - 1]
  {
    if |os| > 1 {
      FlatAllLast(os[1..]);
      assert os[1..][|os| - 2] == os[|os| - 1];
    } else {
      assert os[1..] == [];
      assert FlatAll(os[1..]) == [];
    }
  }

  lemma AssembleLastSpaceAfter(t: Token, n: nat, raw: Pieces, cls: string, lockMatch: bool)
    requires 0 < n
    requires !EndsWithSpace(raw.matched)
    requires forall i :: 0 <= i < |raw.right| ==> !IsSpace(raw.right[i])
    ensures var g := Flat(Assemble(t, n - 1, n, raw, StripPieces(raw), cls, lockMatch));
      g[|g| - 1].spaceAfter == t.spaceAfter
  {
    StripNoSpace(raw.right);
  }

  /** The pieces of a text without white space hold none either. */
  lemma RawPiecesNoSpace(text: string, b: Boundary, prevEnd: int)
    requires 0 <= b.start <= b.end <= |text| && b.replacement.None?
    requires forall i :: 0 <= i < |text| ==> !IsSpace(text[i])
    ensures var p := RawPieces(text, b, prevEnd);
      !EndsWithSpace(p.matched) && forall i :: 0 <= i < |p.right| ==> !IsSpace(p.right[i])
  {
    var p := RawPieces(text, b, prevEnd);
    assert p.matched == text[b.start..b.end];
    assert p.right == text[b.end..];
    if p.matched != "" {
      assert p.matched[|p.matched| - 1] == text[b.end - 1];
    }
  }

  lemma LastSpanSpaceAfter(t: Token, bs: seq<Boundary>, cls: string, lockMatch: bool)
    requires bs != []
    requires WellFormed(bs, |t.text|) && NoReplacements(bs)
    requires NonSpace(t.text) == t.text
    ensures var g := Flat(SpanOf(t, bs, |bs| - 1, cls, lockMatch));
      g[|g| - 1].spaceAfter == t.spaceAfter
  {
    var k := |bs| - 1;
    var p := RawPieces(t.text, bs[k], PrevEnd(bs, k));
    assert 0 <= bs[k].start <= bs[k].end <= |t.text| && bs[k].replacement.None?;
    NonSpaceFixed(t.text);
    RawPiecesNoSpace(t.text, bs[k], PrevEnd(bs, k));
    AssembleLastSpaceAfter(t, |bs|, p, cls, lockMatch);
  }

  lemma SpansLast(t: Token, bs: seq<Boundary>, cls: string, lockMatch: bool)
    requires bs != []
    ensures var os := Spans(t, bs, cls, lockMatch); |os| == |bs| && os[|bs| - 1] == SpanOf(t, bs, |bs| - 1, cls, lockMatch)
  {
    SpansAt(t, bs, cls, lockMatch, |bs| - 1);
  }

  /** The output of span `k` is the `k`-th of all outputs. */
  lemma SpansAt(t: Token, bs: seq<Boundary>, cls: string, lockMatch: bool, k: nat)
    requires k < |bs|
    ensures var os := Spans(t, bs, cls, lockMatch); |os| == |bs| && os[k] == SpanOf(t, bs, k, cls, lockMatch)
  {
  }

  /** The `space_after` of a split's last fragment is that of its last span's last fragment. */
  lemma FragmentsLastSpaceAfter(t: Token, bs: seq<Boundary>, cls: string, lockMatch: bool, x: bool)
    requires bs != []
    requires var g := Flat(SpanOf(t, bs, |bs| - 1, cls, lockMatch)); g[|g| - 1].spaceAfter == x
    ensures var fs := FlatAll(Spans(t, bs, cls, lockMatch)); fs[|fs| - 1].spaceAfter == x
  {
    SpansLast(t, bs, cls, lockMatch);
    LastOfFlatAll(Spans(t, bs, cls, lockMatch), SpanOf(t, bs, |bs| - 1, cls, lockMatch), x);
  }

  /** The last fragment of a sequence of span outputs is the last fragment of its last output. */
  lemma LastOfFlatAll(os: seq<SpanOut>, o: SpanOut, x: bool)
    requires os != [] && os[|os| - 1] == o
    requires var g := Flat(o); g[|g| - 1].spaceAfter == x
    ensures var fs := FlatAll(os); fs[|fs| - 1].spaceAfter == x
  {
    FlatAllLast(os);
  }

  /**
    When the node's text holds no white space (as after the whitespace
    split), the last fragment inherits the node's `space_after`.
  */
  lemma LastSpaceAfter(t: Token, bs: seq<Boundary>, cls: string, lockMatch: bool)
    requires bs != []
    requires WellFormed(bs, |t.text|) && NoReplacements(bs)
    requires NonSpace(t.text) == t.text
    ensures var fs := Fragments(t, bs, cls, lockMatch);
      fs[|fs| - 1].spaceAfter == t.spaceAfter
  {
    LastSpanSpaceAfter(t, bs, cls, lockMatch);
    FragmentsLastSpaceAfter(t, bs, cls, lockMatch, t.spaceAfter);
  }

  /** One more span's fragments extend the fragments of the spans before it. */
  lemma FragmentsStep(t: Token, bs: seq<Boundary>, i: nat, cls: string, lockMatch: bool)
    requires i < |bs|
    ensures FlatAll(Spans(t, bs, cls, lockMatch)[..i + 1])
      == FlatAll(Spans(t, bs, cls, lockMatch)[..i]) + Flat(SpanOf(t, bs, i, cls, lockMatch))
  {
    var os := Spans(t, bs, cls, lockMatch);
    PrefixSnoc(os, i + 1);
    FlatAllAppend(os[..i], [os[i]]);
    assert [os[i]][1..] == [];
  }

  lemma FragmentsDone(t: Token, bs: seq<Boundary>, cls: string, lockMatch: bool)
    ensures FlatAll(Spans(t, bs, cls, lockMatch)[..|bs|]) == Fragments(t, bs, cls, lockMatch)
  {
    assert Spans(t, bs, cls, lockMatch)[..|bs|] == Spans(t, bs, cls, lockMatch);
  }

  /**
    `insert_left(x, node)` while `node` sits after the fragments `ins`
    already inserted in place of the list's original node.
  */
  method InsertFragment(dll: DLL<Token>, node: Node<Token>, x: Token,
                        ghost pre: seq<Node<Token>>, ghost ins: seq<Node<Token>>, ghost post: seq<Node<Token>>,
                        ghost cpre: seq<Token>, ghost fs: seq<Token>, ghost cpost: seq<Token>)
    returns (ghost n: Node<Token>)
    requires dll.Valid() && post != [] && post[0] == node
    requires dll.Nodes == pre + ins + post && dll.Contents == cpre + fs + cpost
    requires |cpre| == |pre| && |fs| == |ins|
    modifies dll.Repr
    ensures dll.Valid() && fresh(dll.Repr - old(dll.Repr)) && fresh(n)
    ensures dll.Nodes == pre + (ins + [n]) + post && dll.Contents == cpre + (fs + [x]) + cpost
    ensures node.next == old(node.next) && node.value == old(node.value)
  {
    ghost var ns, cs := dll.Nodes, dll.Contents;
    assert ns[|pre| + |ins|] == node;
    n := dll.InsertLeft(x, node, |pre| + |ins|);
    SpliceSnoc(dll.Nodes, ns, pre, ins, post, n);
    SpliceSnoc(dll.Contents, cs, cpre, fs, cpost, x);
  }

  /** The insertions of one span: its left fragment, its match, its right fragment, each left of `node`. */
  method InsertSpan(dll: DLL<Token>, node: Node<Token>, o: SpanOut,
                    ghost pre: seq<Node<Token>>, ghost ins: seq<Node<Token>>, ghost post: seq<Node<Token>>,
                    ghost cpre: seq<Token>, ghost fs: seq<Token>, ghost cpost: seq<Token>)
    returns (ghost ins': seq<Node<Token>>)
    requires dll.Valid() && post != [] && post[0] == node
    requires dll.Nodes == pre + ins + post && dll.Contents == cpre + fs + cpost
    requires |cpre| == |pre| && |fs| == |ins|
    modifies dll.Repr
    ensures dll.Valid() && fresh(dll.Repr - old(dll.Repr))
    ensures dll.Nodes == pre + ins' + post && dll.Contents == cpre + (fs + Flat(o)) + cpost
    ensures |ins'| == |fs + Flat(o)|
    ensures forall j :: 0 <= j < |ins| ==> ins'[j] == ins[j]
    ensures forall j :: |ins| <= j < |ins'| ==> fresh(ins'[j])
    ensures node.next == old(node.next) && node.value == old(node.value)
  {
    ins' := ins;
    ghost var fs' := fs;
    ghost var c;
    if o.left.Some? {
      c := InsertFragment(dll, node, o.left.value, pre, ins', post, cpre, fs', cpost);
      ins', fs' := ins' + [c], fs' + [o.left.value];
    }
    c := InsertFragment(dll, node, o.mt, pre, ins', post, cpre, fs', cpost);
    ins', fs' := ins' + [c], fs' + [o.mt];
    if o.right.Some? {
      c := InsertFragment(dll, node, o.right.value, pre, ins', post, cpre, fs', cpost);
      ins', fs' := ins' + [c], fs' + [o.right.value];
    }
    assert fs' == fs + Flat(o);
  }

  /** One round of the loop of `_split_on_boundaries`: the pieces of span `i`, cut after `prevEnd`. */
  method CutSpan(t: Token, bs: seq<Boundary>, i: nat, prevEnd: int, cls: string, lockMatch: bool) returns (o: SpanOut)
    requires i < |bs| && prevEnd == PrevEnd(bs, i)
    ensures o == SpanOf(t, bs, i, cls, lockMatch)
  {
    var raw := RawPieces(t.text, bs[i], prevEnd);
    o := Assemble(t, i, |bs|, raw, StripPieces(raw), cls, lockMatch);
  }

  /** The loop of `_split_on_boundaries`: the fragments of every span, inserted left of `node`, in order. */
  method InsertSpans(dll: DLL<Token>, node: Node<Token>, bs: seq<Boundary>, cls: string, lockMatch: bool,
                     ghost pre: seq<Node<Token>>, ghost post: seq<Node<Token>>,
                     ghost cpre: seq<Token>, ghost cpost: seq<Token>)
      returns (ghost inserted: seq<Node<Token>>)
    requires dll.Valid() && post != [] && post[0] == node
    requires dll.Nodes == pre + post && dll.Contents == cpre + cpost && |cpre| == |pre|
    modifies dll.Repr
    ensures dll.Valid() && fresh(dll.Repr - old(dll.Repr))
    ensures dll.Nodes == pre + inserted + post
    ensures dll.Contents == cpre + Fragments(old(node.value), bs, cls, lockMatch) + cpost
    ensures |inserted| == |Fragments(old(node.value), bs, cls, lockMatch)|
    ensures forall j :: 0 <= j < |inserted| ==> fresh(inserted[j])
    ensures node.next == old(node.next) && node.value == old(node.value)
  {
    var n := |bs|;
    var t := node.value;
    inserted := [];
    ghost var fs: seq<Token> := [];
    assert dll.Nodes == pre + [] + post;
    assert dll.Contents == cpre + [] + cpost;
    var prevEnd := 0;
    var i := 0;
    while i < n
      invariant 0 <= i <= n && prevEnd == PrevEnd(bs, i)
      invariant dll.Valid() && fresh(dll.Repr - old(dll.Repr))
      invariant dll.Nodes == pre + inserted + post && dll.Contents == cpre + fs + cpost
      invariant |fs| == |inserted|
      invariant fs == FlatAll(Spans(t, bs, cls, lockMatch)[..i])
      invariant forall j :: 0 <= j < |inserted| ==> fresh(inserted[j])
      invariant node.next == old(node.next) && node.value == t
    {
      var o := CutSpan(t, bs, i, prevEnd, cls, lockMatch);
      FragmentsStep(t, bs, i, cls, lockMatch);
      inserted := InsertSpan(dll, node, o, pre, inserted, post, cpre, fs, cpost);
      fs := fs + Flat(o);
      prevEnd := bs[i].end;
      i := i + 1;
    }
    FragmentsDone(t, bs, cls, lockMatch);
  }

  /**
    `_split_on_boundaries`: with no spans the list is untouched; otherwise
    the node, which stands between `pre` and `post`, is replaced in place by
    the fragments of its spans, and the removed node keeps its successor so
    that an iteration over the list goes on with the node that followed it.
  */
  method SplitOnBoundaries(node: Node<Token>, bs: seq<Boundary>, cls: string, lockMatch: bool,
                           ghost pre: seq<Node<Token>>, ghost post: seq<Node<Token>>,
                           ghost cpre: seq<Token>, ghost cpost: seq<Token>)
      returns (ghost inserted: seq<Node<Token>>)
    requires node.list != null && node.list.Valid()
    requires node.list.Nodes == pre + ([node] + post) && node.list.Contents == cpre + ([node.value] + cpost)
    requires |cpre| == |pre|
    modifies node.list.Repr
    ensures node.list.Valid() && fresh(node.list.Repr - old(node.list.Repr))
    ensures bs == [] ==> node.list.Nodes == old(node.list.Nodes) && node.list.Contents == old(node.list.Contents) && inserted == []
    ensures bs != [] ==> node.list.Nodes == pre + inserted + post && |inserted| == |Fragments(old(node.value), bs, cls, lockMatch)|
    ensures bs != [] ==> node.list.Contents == cpre + Fragments(old(node.value), bs, cls, lockMatch) + cpost
    ensures forall i :: 0 <= i < |inserted| ==> fresh(inserted[i])
    ensures node.next == old(node.next)
  {
    inserted := [];
    if |bs| == 0 {
      return;
    }
    var dll := node.list;
    ghost var fs := Fragments(node.value, bs, cls, lockMatch);
    inserted := InsertSpans(dll, node, bs, cls, lockMatch, pre, [node] + post, cpre, [node.value] + cpost);
    dll.RemoveMid(node, pre, inserted, post, cpre, fs, cpost);
  }
}
