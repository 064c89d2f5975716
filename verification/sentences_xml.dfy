/**
  `SentenceSplitter.split_xml` of somajo/sentence_splitter.py: sentence
  splitting of a tokenized XML document.  Tokens that are tags become markup;
  a tag whose name is an end-of-sentence tag ends the sentence before it and
  starts one after it; then `_split` runs, and the document is cut after each
  token flagged last and after the end tags that directly follow it.

  The two tag expressions are parameters that return the captured tag name.
  The source reads `markup_class` of the token after a sentence end, an
  attribute only tags receive; `XmlBoundariesAsWritten` models that read
  (failing on a plain token), `XmlBoundaries` the evident intent.
*/
module SentencesXml {
  import opened Wrappers
  import opened Seqs
  import opened Tokens
  import opened Sentences

  /** What `split_xml` records of a token: `markup_class` "start" or "end" and the tag name, or no tag. */
  datatype Tag = NoTag | Start(name: string) | End(name: string)

  /** The opening and closing tag expressions: the tag name they capture in a token, if they match. */
  datatype TagPatterns = TagPatterns(opening: string -> Option<string>, closing: string -> Option<string>)

  /** The tag of a token; when both expressions match, the closing one, checked second, wins. */
  function TagOf(tp: TagPatterns, s: string): Tag {
    if tp.closing(s).Some? then End(tp.closing(s).value)
    else if tp.opening(s).Some? then Start(tp.opening(s).value)
    else NoTag
  }

  function TagsOf(tp: TagPatterns, ts: seq<Token>): (tg: seq<Tag>)
    ensures |tg| == |ts| && forall k | 0 <= k < |ts| :: tg[k] == TagOf(tp, ts[k].text)
  {
    seq(|ts|, k requires 0 <= k < |ts| => TagOf(tp, ts[k].text))
  }

  predicate EosTag(eosTags: set<string>, t: Tag) {
    !t.NoTag? && t.name in eosTags
  }

  // ---------------------------------------------------------------------------
  // The tagging loop

  /**
    The first loop of `split_xml` from token `i` on; `pending` is
    `first_token_in_sentence`.  A tag becomes markup; an end-of-sentence tag
    marks the last token before it that is not markup and makes the next
    token that is not a tag start a sentence.  The tokens are the fresh ones
    `split_xml` builds, so a token is markup exactly when it is a tag.
  */
  function MarkTags(eosTags: set<string>, tg: seq<Tag>, ts: seq<Token>, i: nat, pending: bool): (r: seq<Token>)
    requires |tg| == |ts| && i <= |ts|
    ensures |r| == |ts|
    decreases |ts| - i
  {
    if i == |ts| then ts
    else if tg[i].NoTag? then
      if pending then MarkTags(eosTags, tg, SetFirst(ts, i), i + 1, false)
      else MarkTags(eosTags, tg, ts, i + 1, false)
    else
      var tagged := ts[i := ts[i].(markup := true)];
      if EosTag(eosTags, tg[i]) then MarkTags(eosTags, tg, MarkLast(ts[..i]) + tagged[i..], i + 1, true)
      else MarkTags(eosTags, tg, tagged, i + 1, pending)
  }

  /** Between positions `lo` and `hi` (both excluded) there are tags only. */
  ghost predicate TagsBetween(tg: seq<Tag>, lo: int, hi: int) {
    forall p | lo < p < hi && 0 <= p < |tg| :: !tg[p].NoTag?
  }

  /** Before position `hi`, token `k` is followed, over tags only, by an end-of-sentence tag. */
  ghost predicate ClosedAfter(eosTags: set<string>, tg: seq<Tag>, k: nat, hi: nat) {
    exists e | k < e < hi && e < |tg| :: EosTag(eosTags, tg[e]) && TagsBetween(tg, k, e)
  }

  /** Token `k` is preceded, over tags only, by an end-of-sentence tag or by the start of the document. */
  ghost predicate OpenedBefore(eosTags: set<string>, tg: seq<Tag>, k: nat) {
    TagsBetween(tg, -1, k) || exists e | 0 <= e < k && e < |tg| :: EosTag(eosTags, tg[e]) && TagsBetween(tg, e, k)
  }

  /** Token `t` at position `k` once the tagging loop has passed position `hi`. */
  ghost function TaggedToken(eosTags: set<string>, tg: seq<Tag>, t: Token, k: nat, hi: nat): Token
    requires k < |tg|
  {
    t.(markup := !tg[k].NoTag?,
       firstInSentence := t.firstInSentence || (tg[k].NoTag? && OpenedBefore(eosTags, tg, k)),
       lastInSentence := t.lastInSentence || (tg[k].NoTag? && ClosedAfter(eosTags, tg, k, hi)))
  }

  /** The tokens once the tagging loop has handled the first `i` of them. */
  ghost function Tagged(eosTags: set<string>, tg: seq<Tag>, ts: seq<Token>, i: nat): (r: seq<Token>)
    requires |tg| == |ts| && i <= |ts|
    ensures |r| == |ts|
  {
    seq(|ts|, k requires 0 <= k < |ts| => if k < i then TaggedToken(eosTags, tg, ts[k], k, i) else ts[k])
  }

  predicate Fresh(ts: seq<Token>) {
    forall k | 0 <= k < |ts| :: !ts[k].markup
  }

  /** At a token that is not a tag, the loop sets `first` exactly when a sentence is pending. */
  lemma TaggedText(eosTags: set<string>, tg: seq<Tag>, ts: seq<Token>, i: nat)
    requires |tg| == |ts| && i < |ts| && Fresh(ts) && tg[i].NoTag?
    ensures var t := Tagged(eosTags, tg, ts, i);
      (if OpenedBefore(eosTags, tg, i) then SetFirst(t, i) else t) == Tagged(eosTags, tg, ts, i + 1)
    ensures !OpenedBefore(eosTags, tg, i + 1)
  {
    var t, u := Tagged(eosTags, tg, ts, i), Tagged(eosTags, tg, ts, i + 1);
    forall k | 0 <= k < i
      ensures ClosedAfter(eosTags, tg, k, i + 1) == ClosedAfter(eosTags, tg, k, i)
    {
      if ClosedAfter(eosTags, tg, k, i + 1) {
        var e :| k < e < i + 1 && e < |tg| && EosTag(eosTags, tg[e]) && TagsBetween(tg, k, e);
        assert e != i;
      }
    }
    assert !ClosedAfter(eosTags, tg, i, i + 1);
    assert (if OpenedBefore(eosTags, tg, i) then SetFirst(t, i) else t) == u;
    assert !TagsBetween(tg, -1, i + 1);
    forall e | 0 <= e < i + 1 && EosTag(eosTags, tg[e])
      ensures !TagsBetween(tg, e, i + 1)
    {
      assert e != i;
    }
  }

  /** At a tag that does not end sentences, the loop only makes it markup. */
  lemma TaggedTag(eosTags: set<string>, tg: seq<Tag>, ts: seq<Token>, i: nat)
    requires |tg| == |ts| && i < |ts| && Fresh(ts) && !tg[i].NoTag? && !EosTag(eosTags, tg[i])
    ensures var t := Tagged(eosTags, tg, ts, i);
      t[i := t[i].(markup := true)] == Tagged(eosTags, tg, ts, i + 1)
    ensures OpenedBefore(eosTags, tg, i + 1) == OpenedBefore(eosTags, tg, i)
  {
    var t, u := Tagged(eosTags, tg, ts, i), Tagged(eosTags, tg, ts, i + 1);
    forall k | 0 <= k < i
      ensures ClosedAfter(eosTags, tg, k, i + 1) == ClosedAfter(eosTags, tg, k, i)
    {
      if ClosedAfter(eosTags, tg, k, i + 1) {
        var e :| k < e < i + 1 && e < |tg| && EosTag(eosTags, tg[e]) && TagsBetween(tg, k, e);
        assert e != i;
      }
    }
    assert !ClosedAfter(eosTags, tg, i, i + 1);
    assert t[i := t[i].(markup := true)] == u;
    assert TagsBetween(tg, -1, i + 1) == TagsBetween(tg, -1, i);
    forall e | 0 <= e < i
      ensures TagsBetween(tg, e, i + 1) == TagsBetween(tg, e, i)
    {
    }
  }

  /**
    At an end-of-sentence tag, the loop makes it markup and marks the last
    token before it that is not a tag; the next one will start a sentence.
  */
  lemma TaggedEos(eosTags: set<string>, tg: seq<Tag>, ts: seq<Token>, i: nat)
    requires |tg| == |ts| && i < |ts| && Fresh(ts) && EosTag(eosTags, tg[i])
    ensures var t := Tagged(eosTags, tg, ts, i);
      MarkLast(t[..i]) + t[i := t[i].(markup := true)][i..] == Tagged(eosTags, tg, ts, i + 1)
    ensures OpenedBefore(eosTags, tg, i + 1)
  {
    var t, u := Tagged(eosTags, tg, ts, i), Tagged(eosTags, tg, ts, i + 1);
    var before := t[..i];
    assert forall k | 0 <= k < i :: before[k].markup == !tg[k].NoTag?;
    assert !ClosedAfter(eosTags, tg, i, i + 1);
    match LastNonMarkup(before)
    case None =>
      assert MarkLast(before) + t[i := t[i].(markup := true)][i..] == u;
    case Some(k0) =>
      assert TagsBetween(tg, k0, i);
      assert ClosedAfter(eosTags, tg, k0, i + 1);
      forall k | 0 <= k < k0
        ensures ClosedAfter(eosTags, tg, k, i + 1) == ClosedAfter(eosTags, tg, k, i)
      {
        if ClosedAfter(eosTags, tg, k, i + 1) {
          var e :| k < e < i + 1 && e < |tg| && EosTag(eosTags, tg[e]) && TagsBetween(tg, k, e);
        }
      }
      assert MarkLast(before) + t[i := t[i].(markup := true)][i..] == u;
    assert TagsBetween(tg, i, i + 1);
  }

  /** From position `i` on, the tagging loop ends in the tokens `Tagged` describes. */
  lemma {:induction false} MarkTagsFrom(eosTags: set<string>, tg: seq<Tag>, ts: seq<Token>, i: nat)
    requires |tg| == |ts| && i <= |ts| && Fresh(ts)
    ensures MarkTags(eosTags, tg, Tagged(eosTags, tg, ts, i), i, OpenedBefore(eosTags, tg, i))
            == Tagged(eosTags, tg, ts, |ts|)
    decreases |ts| - i
  {
    if i < |ts| {
      if tg[i].NoTag? {
        TaggedText(eosTags, tg, ts, i);
      } else if EosTag(eosTags, tg[i]) {
        TaggedEos(eosTags, tg, ts, i);
      } else {
        TaggedTag(eosTags, tg, ts, i);
      }
      MarkTagsFrom(eosTags, tg, ts, i + 1);
    }
  }

  /**
    The tagging loop on the fresh tokens: tags become markup; a token that is
    not a tag starts a sentence exactly when it is preceded, over tags only,
    by an end-of-sentence tag or the start of the document, and ends one
    exactly when it is followed, over tags only, by an end-of-sentence tag;
    nothing else changes.
  */
  lemma MarkTagsResult(eosTags: set<string>, tg: seq<Tag>, ts: seq<Token>)
    requires |tg| == |ts| && Fresh(ts)
    ensures var r := MarkTags(eosTags, tg, ts, 0, true);
      forall k | 0 <= k < |ts| ::
        && r[k].markup == !tg[k].NoTag?
        && r[k].firstInSentence == (ts[k].firstInSentence || (tg[k].NoTag? && OpenedBefore(eosTags, tg, k)))
        && r[k].lastInSentence == (ts[k].lastInSentence || (tg[k].NoTag? && ClosedAfter(eosTags, tg, k, |ts|)))
        && r[k] == ts[k].(markup := r[k].markup, firstInSentence := r[k].firstInSentence,
                          lastInSentence := r[k].lastInSentence)
  {
    assert Tagged(eosTags, tg, ts, 0) == ts;
    assert TagsBetween(tg, -1, 0);
    MarkTagsFrom(eosTags, tg, ts, 0);
  }

  /**
    An end-of-sentence tag at `i` ends a sentence at the nearest token `k`
    before it that is not a tag and starts one at the nearest such token `j`
    after it.
  */
  lemma EosTagSplits(eosTags: set<string>, tg: seq<Tag>, ts: seq<Token>, i: nat, k: nat, j: nat)
    requires |tg| == |ts| && Fresh(ts) && k < i < j < |ts| && EosTag(eosTags, tg[i])
    requires tg[k].NoTag? && TagsBetween(tg, k, i) && tg[j].NoTag? && TagsBetween(tg, i, j)
    ensures var r := MarkTags(eosTags, tg, ts, 0, true);
      r[k].lastInSentence && r[j].firstInSentence
  {
    MarkTagsResult(eosTags, tg, ts);
    assert ClosedAfter(eosTags, tg, k, |ts|);
    assert OpenedBefore(eosTags, tg, j);
  }

  /** The first token that is not a tag starts a sentence. */
  lemma FirstTextStarts(eosTags: set<string>, tg: seq<Tag>, ts: seq<Token>, j: nat)
    requires |tg| == |ts| && Fresh(ts) && j < |ts| && tg[j].NoTag? && TagsBetween(tg, -1, j)
    ensures MarkTags(eosTags, tg, ts, 0, true)[j].firstInSentence
  {
    MarkTagsResult(eosTags, tg, ts);
  }

  /** One round of the tagging loop, at token `i`. */
  lemma MarkTagsNext(eosTags: set<string>, tg: seq<Tag>, ts: seq<Token>, i: nat, pending: bool)
    requires |tg| == |ts| && i < |ts|
    ensures var r, tagged := MarkTags(eosTags, tg, ts, i, pending), ts[i := ts[i].(markup := true)];
      && (tg[i].NoTag? && pending ==> r == MarkTags(eosTags, tg, SetFirst(ts, i), i + 1, false))
      && (tg[i].NoTag? && !pending ==> r == MarkTags(eosTags, tg, ts, i + 1, false))
      && (EosTag(eosTags, tg[i]) ==> r == MarkTags(eosTags, tg, MarkLast(ts[..i]) + tagged[i..], i + 1, true))
      && (!tg[i].NoTag? && !EosTag(eosTags, tg[i]) ==> r == MarkTags(eosTags, tg, tagged, i + 1, pending))
  {
  }

  /** One round of the tagging loop of `split_xml`: token `i` gets its tag and the flags it sets. */
  method TagToken(tp: TagPatterns, eosTags: set<string>, a: array<Token>, kinds: array<Tag>, i: nat,
                  pending: bool, ghost tg: seq<Tag>) returns (pending': bool)
    requires i < a.Length == kinds.Length == |tg| && tg[i] == TagOf(tp, a[i].text)
    modifies a, kinds
    ensures kinds[..] == old(kinds[..])[i := tg[i]] && a[i + 1..] == old(a[i + 1..])
    ensures MarkTags(eosTags, tg, old(a[..]), i, pending) == MarkTags(eosTags, tg, a[..], i + 1, pending')
  {
    MarkTagsNext(eosTags, tg, a[..], i, pending);
    var t := a[i];
    var tag := TagOf(tp, t.text);
    kinds[i] := tag;
    pending' := pending;
    if !tag.NoTag? {
      a[i] := t.(markup := true);
      if tag.name in eosTags {
        ghost var tagged := a[..];
        MarkLastBefore(a, i);
        assert a[..] == MarkLast(old(a[..])[..i]) + tagged[i..];
        pending' := true;
      }
    } else if pending {
      a[i] := t.(firstInSentence := true);
      assert a[..] == SetFirst(old(a[..]), i);
      pending' := false;
    }
  }

  /** The tagging loop of `split_xml`, in place; returns the `markup_class` of each token. */
  method TagTokens(tp: TagPatterns, eosTags: set<string>, a: array<Token>) returns (kinds: array<Tag>)
    modifies a
    ensures fresh(kinds) && kinds[..] == TagsOf(tp, old(a[..]))
    ensures a[..] == MarkTags(eosTags, kinds[..], old(a[..]), 0, true)
  {
    ghost var ts0 := a[..];
    ghost var tg := TagsOf(tp, ts0);
    kinds := new Tag[a.Length](_ => NoTag);
    var pending := true;
    var i := 0;
    while i < a.Length
      invariant 0 <= i <= a.Length && kinds.Length == a.Length
      invariant kinds[..i] == tg[..i] && a[i..] == ts0[i..]
      invariant MarkTags(eosTags, tg, ts0, 0, true) == MarkTags(eosTags, tg, a[..], i, pending)
    {
      assert a[i] == ts0[i];
      pending := TagToken(tp, eosTags, a, kinds, i, pending, tg);
      assert kinds[..i + 1] == tg[..i + 1];
      i := i + 1;
    }
    assert kinds[..] == kinds[..a.Length];
  }

  // ---------------------------------------------------------------------------
  // The boundaries

  /** How many end tags follow position `j` directly: the inner loop of the boundary loop. */
  function EndRun(tg: seq<Tag>, j: nat): (c: nat)
    ensures j <= |tg| ==> j + c <= |tg|
    ensures forall p | j <= p < j + c :: p < |tg| && tg[p].End?
    ensures j + c < |tg| ==> !tg[j + c].End?
    decreases |tg| - j
  {
    if j < |tg| && tg[j].End? then 1 + EndRun(tg, j + 1) else 0
  }

  /**
    The inner loop as written: it reads `markup_class`, which only tags have,
    so it fails (`None`) on reaching a token that is not a tag.
  */
  function EndRunAsWritten(tg: seq<Tag>, j: nat): Option<nat>
    decreases |tg| - j
  {
    if j >= |tg| then Some(0)
    else match tg[j]
      case End(_) => (match EndRunAsWritten(tg, j + 1) case None => None case Some(c) => Some(c + 1))
      case Start(_) => Some(0)
      case NoTag => None
  }

  /** The run of end tags from `j` stops at a token that is not a tag. */
  predicate StopsAtText(tg: seq<Tag>, j: nat) {
    j + EndRun(tg, j) < |tg| && tg[j + EndRun(tg, j)].NoTag?
  }

  /** The inner loop as written fails exactly when the run stops at a plain token, and otherwise counts the run. */
  lemma {:induction false} EndRunAsWrittenFails(tg: seq<Tag>, j: nat)
    ensures EndRunAsWritten(tg, j) == if StopsAtText(tg, j) then None else Some(EndRun(tg, j))
    decreases |tg| - j
  {
    if j < |tg| && tg[j].End? {
      EndRunAsWrittenFails(tg, j + 1);
    }
  }

  /** One past each token flagged last and the end tags right after it: the boundary loop from `i` on. */
  function XmlBoundaries(tg: seq<Tag>, rs: seq<Token>, i: nat): seq<nat>
    requires |tg| == |rs| && i <= |rs|
    decreases |rs| - i
  {
    if i == |rs| then []
    else (if rs[i].lastInSentence then [i + EndRun(tg, i + 1) + 1] else []) + XmlBoundaries(tg, rs, i + 1)
  }

  /** The boundary loop as written, failing where its inner loop does. */
  function XmlBoundariesAsWritten(tg: seq<Tag>, rs: seq<Token>, i: nat): Option<seq<nat>>
    requires |tg| == |rs| && i <= |rs|
    decreases |rs| - i
  {
    if i == |rs| then Some([])
    else if rs[i].lastInSentence then
      match EndRunAsWritten(tg, i + 1)
      case None => None
      case Some(c) =>
        match XmlBoundariesAsWritten(tg, rs, i + 1)
        case None => None
        case Some(rest) => Some([i + c + 1] + rest)
    else XmlBoundariesAsWritten(tg, rs, i + 1)
  }

  /** Some token flagged last from position `i` on is followed by end tags only up to a plain token. */
  ghost predicate StopsAtTextFrom(tg: seq<Tag>, rs: seq<Token>, i: nat)
    requires |tg| == |rs|
  {
    exists k | i <= k < |rs| :: rs[k].lastInSentence && StopsAtText(tg, k + 1)
  }

  lemma StopsAtTextFromNext(tg: seq<Tag>, rs: seq<Token>, i: nat)
    requires |tg| == |rs| && i < |rs|
    ensures StopsAtTextFrom(tg, rs, i)
            == ((rs[i].lastInSentence && StopsAtText(tg, i + 1)) || StopsAtTextFrom(tg, rs, i + 1))
  {
    if StopsAtTextFrom(tg, rs, i) {
      var k :| i <= k < |rs| && rs[k].lastInSentence && StopsAtText(tg, k + 1);
      if k != i {
        assert StopsAtTextFrom(tg, rs, i + 1);
      }
    }
    if StopsAtTextFrom(tg, rs, i + 1) {
      var k :| i + 1 <= k < |rs| && rs[k].lastInSentence && StopsAtText(tg, k + 1);
      assert StopsAtTextFrom(tg, rs, i);
    }
  }

  /**
    The boundary loop as written fails exactly when some token flagged last is
    followed by end tags only up to a token that is not a tag; otherwise it
    agrees with the intended one.
  */
  lemma {:induction false} XmlBoundariesAsWrittenFails(tg: seq<Tag>, rs: seq<Token>, i: nat)
    requires |tg| == |rs| && i <= |rs|
    ensures XmlBoundariesAsWritten(tg, rs, i)
            == if StopsAtTextFrom(tg, rs, i) then None else Some(XmlBoundaries(tg, rs, i))
    decreases |rs| - i
  {
    if i < |rs| {
      XmlBoundariesAsWrittenFails(tg, rs, i + 1);
      StopsAtTextFromNext(tg, rs, i);
      if rs[i].lastInSentence {
        EndRunAsWrittenFails(tg, i + 1);
        if StopsAtText(tg, i + 1) {
          assert EndRunAsWritten(tg, i + 1).None?;
          assert XmlBoundariesAsWritten(tg, rs, i).None?;
          assert StopsAtTextFrom(tg, rs, i);
        } else if StopsAtTextFrom(tg, rs, i + 1) {
          assert XmlBoundariesAsWritten(tg, rs, i).None?;
        } else {
          assert XmlBoundariesAsWritten(tg, rs, i)
                 == Some([i + EndRun(tg, i + 1) + 1] + XmlBoundaries(tg, rs, i + 1));
        }
      } else {
        assert XmlBoundaries(tg, rs, i) == XmlBoundaries(tg, rs, i + 1);
      }
    }
  }

  /** Every token flagged last is plain text, not a tag. */
  predicate LastIsText(tg: seq<Tag>, rs: seq<Token>)
    requires |tg| == |rs|
  {
    forall k | 0 <= k < |rs| && rs[k].lastInSentence :: tg[k].NoTag?
  }

  /**
    Boundary `b` closes the sentence ended by token `k`: the tokens between
    them are end tags, and the token at `b`, if any, is not one.
  */
  ghost predicate CutAfter(tg: seq<Tag>, rs: seq<Token>, k: nat, b: nat)
    requires |tg| == |rs|
  {
    && k < b <= |rs| && rs[k].lastInSentence
    && (forall p | k < p < b :: tg[p].End?)
    && (b < |rs| ==> !tg[b].End?)
  }

  /** Boundary `b` closes the sentence of some token flagged last at or after position `i`. */
  ghost predicate ClosesFrom(tg: seq<Tag>, rs: seq<Token>, i: nat, b: nat)
    requires |tg| == |rs|
  {
    exists k | i <= k :: CutAfter(tg, rs, k, b)
  }

  /** Each boundary closes the sentence of a token flagged last together with the end tags right after it. */
  lemma {:induction false} XmlBoundariesClose(tg: seq<Tag>, rs: seq<Token>, i: nat)
    requires |tg| == |rs| && i <= |rs|
    ensures forall p | 0 <= p < |XmlBoundaries(tg, rs, i)| :: ClosesFrom(tg, rs, i, XmlBoundaries(tg, rs, i)[p])
    decreases |rs| - i
  {
    if i < |rs| {
      XmlBoundariesClose(tg, rs, i + 1);
      var rest := XmlBoundaries(tg, rs, i + 1);
      forall p | 0 <= p < |rest|
        ensures ClosesFrom(tg, rs, i, rest[p])
      {
        assert ClosesFrom(tg, rs, i + 1, rest[p]);
        var k :| i + 1 <= k && CutAfter(tg, rs, k, rest[p]);
      }
      if rs[i].lastInSentence {
        assert CutAfter(tg, rs, i, i + EndRun(tg, i + 1) + 1);
      }
    }
  }

  /** The boundaries after token `i` lie past the boundary of token `i`. */
  lemma RestAbove(tg: seq<Tag>, rs: seq<Token>, i: nat)
    requires |tg| == |rs| && i < |rs| && LastIsText(tg, rs)
    ensures var rest := XmlBoundaries(tg, rs, i + 1);
      forall p | 0 <= p < |rest| :: i + EndRun(tg, i + 1) + 1 < rest[p]
  {
    XmlBoundariesClose(tg, rs, i + 1);
    var rest := XmlBoundaries(tg, rs, i + 1);
    forall p | 0 <= p < |rest|
      ensures i + EndRun(tg, i + 1) + 1 < rest[p]
    {
      assert ClosesFrom(tg, rs, i + 1, rest[p]);
      var k :| i + 1 <= k && CutAfter(tg, rs, k, rest[p]);
      assert tg[k].NoTag?;
    }
  }

  /** The boundaries come in increasing order and stay within the paragraph. */
  lemma {:induction false} XmlBoundariesIncrease(tg: seq<Tag>, rs: seq<Token>, i: nat)
    requires |tg| == |rs| && i <= |rs| && LastIsText(tg, rs)
    ensures var bs := XmlBoundaries(tg, rs, i);
      Increasing(bs) && Within(bs, i, |rs|)
    decreases |rs| - i
  {
    if i < |rs| {
      XmlBoundariesIncrease(tg, rs, i + 1);
      var rest := XmlBoundaries(tg, rs, i + 1);
      if rs[i].lastInSentence {
        var h := i + EndRun(tg, i + 1) + 1;
        RestAbove(tg, rs, i);
        assert XmlBoundaries(tg, rs, i) == [h] + rest;
        IncreasingCons(h, rest, i, |rs|);
      } else {
        assert XmlBoundaries(tg, rs, i) == rest;
      }
    }
  }

  // ---------------------------------------------------------------------------
  // `split_xml`

  /** After the tagging loop and `_split`, only tokens that are not tags are flagged last. */
  lemma SplitLastIsText(sp: Splitter, eosTags: set<string>, tg: seq<Tag>, ts: seq<Token>)
    requires |tg| == |ts| && Fresh(ts) && forall k | 0 <= k < |ts| :: !ts[k].lastInSentence
    ensures var r := SplitFlags(sp, MarkTags(eosTags, tg, ts, 0, true));
      r.Some? ==> |r.value| == |ts| && LastIsText(tg, r.value)
  {
    MarkTagsResult(eosTags, tg, ts);
    SplitFlagsRaises(sp, MarkTags(eosTags, tg, ts, 0, true));
  }

  /**
    The sentence boundaries of `split_xml`, the last one moved to the end of
    the document; `None` where `_split` raises and where there is no boundary
    at all, since the source then indexes an empty list.
  */
  function XmlSentenceEnds<T>(sp: Splitter, tp: TagPatterns, eosTags: set<string>, items: seq<T>,
                              text: T -> string): (r: Option<seq<nat>>)
    ensures r.Some? ==> && Increasing(r.value) && Within(r.value, 0, |items|)
                        && r.value != [] && r.value[|r.value| - 1] == |items|
  {
    var ts := Paragraph(items, text);
    var tg := TagsOf(tp, ts);
    match SplitFlags(sp, MarkTags(eosTags, tg, ts, 0, true))
    case None => None
    case Some(rs) =>
      SplitLastIsText(sp, eosTags, tg, ts);
      XmlBoundariesIncrease(tg, rs, 0);
      var bs := XmlBoundaries(tg, rs, 0);
      if bs == [] then None
      else
        assert forall p | 0 <= p < |bs| - 1 :: bs[p] < bs[|bs| - 1];
        Some(bs[..|bs| - 1] + [|items|])
  }

  /** `split_xml` with the boundary loop as intended: the document cut at the boundaries. */
  function XmlSentences<T>(sp: Splitter, tp: TagPatterns, eosTags: set<string>, items: seq<T>,
                           text: T -> string): Option<seq<seq<T>>> {
    match XmlSentenceEnds(sp, tp, eosTags, items, text)
    case None => None
    case Some(bs) => Some(Slices(items, 0, bs))
  }

  /** `split_xml` as written, failing where its boundary loop reads a plain token's `markup_class`. */
  function XmlSentencesAsWritten<T>(sp: Splitter, tp: TagPatterns, eosTags: set<string>, items: seq<T>,
                                    text: T -> string): Option<seq<seq<T>>> {
    var ts := Paragraph(items, text);
    var tg := TagsOf(tp, ts);
    match SplitFlags(sp, MarkTags(eosTags, tg, ts, 0, true))
    case None => None
    case Some(rs) =>
      match XmlBoundariesAsWritten(tg, rs, 0)
      case None => None
      case Some(bs) =>
        XmlBoundariesAsWrittenFails(tg, rs, 0);
        SplitLastIsText(sp, eosTags, tg, ts);
        XmlBoundariesIncrease(tg, rs, 0);
        if bs == [] then None
        else
          assert forall p | 0 <= p < |bs| - 1 :: bs[p] < bs[|bs| - 1];
          Some(Slices(items, 0, bs[..|bs| - 1] + [|items|]))
  }

  /**
    The source's `split_xml` agrees with the intended one except where a token
    flagged last is followed by end tags only up to a plain token, and there
    it fails.
  */
  lemma XmlSentencesAsWrittenAgrees<T>(sp: Splitter, tp: TagPatterns, eosTags: set<string>, items: seq<T>,
                                      text: T -> string)
    ensures var ts := Paragraph(items, text);
      var tg := TagsOf(tp, ts);
      var rs := SplitFlags(sp, MarkTags(eosTags, tg, ts, 0, true));
      XmlSentencesAsWritten(sp, tp, eosTags, items, text)
      == if rs.Some? && StopsAtTextFrom(tg, rs.value, 0) then None else XmlSentences(sp, tp, eosTags, items, text)
  {
    var ts := Paragraph(items, text);
    var tg := TagsOf(tp, ts);
    var rs := SplitFlags(sp, MarkTags(eosTags, tg, ts, 0, true));
    if rs.Some? {
      XmlBoundariesAsWrittenFails(tg, rs.value, 0);
    }
  }

  /** `split_xml` partitions the document: its sentences are non-empty and concatenate back to it. */
  lemma XmlSentencesPartition<T>(sp: Splitter, tp: TagPatterns, eosTags: set<string>, items: seq<T>,
                                 text: T -> string)
    ensures var r := XmlSentences(sp, tp, eosTags, items, text);
      r.Some? ==> Flatten(r.value) == items && forall s | s in r.value :: s != []
  {
    var e := XmlSentenceEnds(sp, tp, eosTags, items, text);
    if e.Some? {
      SlicesCover(items, 0, e.value);
      assert items[0..|items|] == items;
    }
  }

  /** `split_xml` fails on a document made of tags only, the empty one included. */
  lemma XmlSentencesAllTags<T>(sp: Splitter, tp: TagPatterns, eosTags: set<string>, items: seq<T>,
                               text: T -> string)
    requires forall k | 0 <= k < |items| :: !TagOf(tp, text(items[k])).NoTag?
    ensures XmlSentences(sp, tp, eosTags, items, text).None?
  {
    var ts := Paragraph(items, text);
    var tg := TagsOf(tp, ts);
    var mt := MarkTags(eosTags, tg, ts, 0, true);
    SplitLastIsText(sp, eosTags, tg, ts);
    if SplitFlags(sp, mt).Some? {
      NoBoundaryWithoutText(tg, SplitFlags(sp, mt).value, 0);
    }
  }

  /** `split_xml` succeeds on a document with some plain token, when every token has text. */
  lemma XmlSentencesTotal<T>(sp: Splitter, tp: TagPatterns, eosTags: set<string>, items: seq<T>,
                             text: T -> string)
    requires forall k | 0 <= k < |items| :: text(items[k]) != []
    requires exists k | 0 <= k < |items| :: TagOf(tp, text(items[k])).NoTag?
    ensures XmlSentences(sp, tp, eosTags, items, text).Some?
  {
    var ts := Paragraph(items, text);
    var tg := TagsOf(tp, ts);
    var mt := MarkTags(eosTags, tg, ts, 0, true);
    MarkTagsResult(eosTags, tg, ts);
    SplitFlagsCrash(sp, mt);
    var rs := SplitFlags(sp, mt).value;
    SplitFlagsRaises(sp, mt);
    var k :| 0 <= k < |items| && TagOf(tp, text(items[k])).NoTag?;
    assert !mt[k].markup;
    XmlBoundaryAt(tg, rs, 0, LastNonMarkup(mt).value);
  }

  /** Without a token flagged last there is no boundary. */
  lemma {:induction false} NoBoundaryWithoutText(tg: seq<Tag>, rs: seq<Token>, i: nat)
    requires |tg| == |rs| && i <= |rs| && LastIsText(tg, rs) && forall k | 0 <= k < |tg| :: !tg[k].NoTag?
    ensures XmlBoundaries(tg, rs, i) == []
    decreases |rs| - i
  {
    if i < |rs| {
      NoBoundaryWithoutText(tg, rs, i + 1);
    }
  }

  /** A token flagged last at or after `i` gives a boundary. */
  lemma {:induction false} XmlBoundaryAt(tg: seq<Tag>, rs: seq<Token>, i: nat, k: nat)
    requires |tg| == |rs| && i <= k < |rs| && rs[k].lastInSentence
    ensures XmlBoundaries(tg, rs, i) != []
    decreases |rs| - i
  {
    if i < k {
      XmlBoundaryAt(tg, rs, i + 1, k);
    }
  }

  /**
    A sentence of `split_xml` never starts with an end tag: the end tags right
    after a sentence's last token stay in that sentence, which ends at a plain
    token followed by end tags only.
  */
  lemma XmlEndTagsStay<T>(sp: Splitter, tp: TagPatterns, eosTags: set<string>, items: seq<T>,
                          text: T -> string)
    ensures var r := XmlSentenceEnds(sp, tp, eosTags, items, text);
      var tg := TagsOf(tp, Paragraph(items, text));
      r.Some? ==> forall p | 0 <= p < |r.value| - 1 ::
        && r.value[p] < |tg| && !tg[r.value[p]].End?
        && exists k | 0 <= k < r.value[p] :: tg[k].NoTag? && forall q | k < q < r.value[p] :: tg[q].End?
  {
    var ts := Paragraph(items, text);
    var tg := TagsOf(tp, ts);
    var mt := MarkTags(eosTags, tg, ts, 0, true);
    if SplitFlags(sp, mt).Some? {
      var rs := SplitFlags(sp, mt).value;
      SplitLastIsText(sp, eosTags, tg, ts);
      XmlBoundariesClose(tg, rs, 0);
      XmlBoundariesIncrease(tg, rs, 0);
      var bs := XmlBoundaries(tg, rs, 0);
      forall p | 0 <= p < |bs| - 1
        ensures && bs[p] < |tg| && !tg[bs[p]].End?
                && exists k | 0 <= k < bs[p] :: tg[k].NoTag? && forall q | k < q < bs[p] :: tg[q].End?
      {
        assert bs[p] < bs[|bs| - 1];
        assert ClosesFrom(tg, rs, 0, bs[p]);
        var k :| 0 <= k && CutAfter(tg, rs, k, bs[p]);
      }
    }
  }

  /** The tag expressions of the example below: `<p>` opens and `</p>` closes a `p` element. */
  function POpening(s: string): Option<string> {
    if s == "<p>" then Some("p") else None
  }

  function PClosing(s: string): Option<string> {
    if s == "</p>" then Some("p") else None
  }

  /** Items that are their own text. */
  function Itself(s: string): string {
    s
  }

  /** The flags of `<p> hallo </p> du` after the tagging loop and `_split`. */
  lemma PExampleFlags(sp: Splitter)
    ensures var ts := Paragraph(["<p>", "hallo", "</p>", "du"], Itself);
      var tg := TagsOf(TagPatterns(POpening, PClosing), ts);
      var rs := SplitFlags(sp, MarkTags({"p"}, tg, ts, 0, true));
      && tg == [Start("p"), NoTag, End("p"), NoTag]
      && rs.Some? && |rs.value| == 4
      && !rs.value[0].lastInSentence && rs.value[1].lastInSentence
      && !rs.value[2].lastInSentence && rs.value[3].lastInSentence
  {
    var ts := Paragraph(["<p>", "hallo", "</p>", "du"], Itself);
    var tg := TagsOf(TagPatterns(POpening, PClosing), ts);
    assert tg == [Start("p"), NoTag, End("p"), NoTag];
    var mt := MarkTags({"p"}, tg, ts, 0, true);
    MarkTagsResult({"p"}, tg, ts);
    assert EosTag({"p"}, tg[2]) && TagsBetween(tg, 1, 2);
    assert ClosedAfter({"p"}, tg, 1, 4);
    assert mt[0].markup && mt[2].markup && !mt[3].markup;
    SplitFlagsCrash(sp, mt);
    SplitFlagsRaises(sp, mt);
    assert LastNonMarkup(mt) == Some(3);
  }

  /**
    The source's boundary loop fails on a plain token after a sentence's end
    tags: `<p> hallo </p> du` with `p` ending sentences, where the intended
    loop cuts after `</p>`.
  */
  lemma EndTagThenText(sp: Splitter)
    ensures var tp, items := TagPatterns(POpening, PClosing), ["<p>", "hallo", "</p>", "du"];
      && XmlSentencesAsWritten(sp, tp, {"p"}, items, Itself).None?
      && XmlSentences(sp, tp, {"p"}, items, Itself) == Some([["<p>", "hallo", "</p>"], ["du"]])
  {
    var tp, items := TagPatterns(POpening, PClosing), ["<p>", "hallo", "</p>", "du"];
    var ts := Paragraph(items, Itself);
    var tg := TagsOf(tp, ts);
    PExampleFlags(sp);
    var rs := SplitFlags(sp, MarkTags({"p"}, tg, ts, 0, true)).value;
    assert StopsAtText(tg, 2);
    assert StopsAtTextFrom(tg, rs, 0);
    XmlSentencesAsWrittenAgrees(sp, tp, {"p"}, items, Itself);
    PExampleBoundaries(tg, rs);
    CutThreeOne(items);
    assert items[..3] == ["<p>", "hallo", "</p>"] && items[3..] == ["du"];
  }

  /** Four items cut at 3 and 4. */
  lemma CutThreeOne<T>(items: seq<T>)
    requires |items| == 4
    ensures Slices(items, 0, [3, 4]) == [items[..3], items[3..]]
  {
    assert [3, 4][1..] == [4] && [4][1..] == [];
    assert Slices(items, 4, []) == [];
    assert items[3..4] == items[3..];
    assert Slices(items, 3, [4]) == [items[3..]];
  }

  /** The intended boundaries of the example: after `</p>` and at the end. */
  lemma PExampleBoundaries(tg: seq<Tag>, rs: seq<Token>)
    requires tg == [Start("p"), NoTag, End("p"), NoTag] && |rs| == 4
    requires !rs[0].lastInSentence && rs[1].lastInSentence && !rs[2].lastInSentence && rs[3].lastInSentence
    ensures XmlBoundaries(tg, rs, 0) == [3, 4]
  {
    assert EndRun(tg, 4) == 0;
    assert EndRun(tg, 3) == 0;
    assert EndRun(tg, 2) == 1;
    assert XmlBoundaries(tg, rs, 3) == [4];
    assert XmlBoundaries(tg, rs, 2) == [4];
    assert XmlBoundaries(tg, rs, 1) == [3, 4];
  }

  /** The boundary loop of `split_xml`, with the inner loop stopping at any token that is not an end tag. */
  method CollectBoundaries(kinds: array<Tag>, a: array<Token>) returns (bs: seq<nat>)
    requires kinds.Length == a.Length
    ensures bs == XmlBoundaries(kinds[..], a[..], 0)
  {
    bs := [];
    var i := 0;
    while i < a.Length
      invariant 0 <= i <= a.Length
      invariant XmlBoundaries(kinds[..], a[..], 0) == bs + XmlBoundaries(kinds[..], a[..], i)
    {
      if a[i].lastInSentence {
        var boundary := i;
        var j := i + 1;
        while j < a.Length && kinds[j].End?
          invariant i + 1 <= j <= a.Length && boundary == j - 1
          invariant EndRun(kinds[..], i + 1) == (j - i - 1) + EndRun(kinds[..], j)
        {
          boundary := boundary + 1;
          j := j + 1;
        }
        bs := bs + [boundary + 1];
      }
      i := i + 1;
    }
  }

  /** `split_xml` on the items, with the tagging loop and `_split` run in place on the tokens it builds. */
  method SplitXml<T>(sp: Splitter, tp: TagPatterns, eosTags: set<string>, items: seq<T>, text: T -> string)
    returns (r: Option<seq<seq<T>>>)
    ensures r == XmlSentences(sp, tp, eosTags, items, text)
  {
    var a := new Token[|items|](k requires 0 <= k < |items| => Plain(text(items[k])));
    ghost var ts := a[..];
    assert ts == Paragraph(items, text);
    var kinds := TagTokens(tp, eosTags, a);
    ghost var mt := a[..];
    var ok := SplitTokens(sp, a);
    if !ok {
      return None;
    }
    var bs := CollectBoundaries(kinds, a);
    if bs == [] {
      return None;
    }
    if bs[|bs| - 1] != a.Length {
      bs := bs[|bs| - 1 := a.Length];
    }
    assert bs == XmlBoundaries(kinds[..], a[..], 0)[..|bs| - 1] + [|items|];
    assert XmlSentenceEnds(sp, tp, eosTags, items, text) == Some(bs);
    r := Some(Slices(items, 0, bs));
  }
}
