/**
  The span lists that the passes of somajo/tokenizer.py hand to
  `_split_on_boundaries`: `_split_matches`, `_split_emojis`, `_split_set` and
  the abbreviation loop of `_split_abbreviations`.  Regular expressions are
  not modelled: a pass receives the matches that `finditer` would report, each
  with its named groups in group-number order.
*/
module SpanBuilders {
  import opened Wrappers
  import opened Seqs
  import opened Chars
  import opened Splitter

  /** A span of a named group, `(m.start(g), m.end(g))`. */
  datatype Group = Group(start: int, end: int)

  /** One match of `finditer`: its span and the spans of its named groups. */
  datatype RegexMatch = RegexMatch(start: int, end: int, groups: seq<Group>)

  /** The whole-match span `(m.start(), m.end(), None)`. */
  function Whole(m: RegexMatch): (b: Boundary)
    ensures b.start == m.start && b.end == m.end && b.replacement.None?
  {
    Boundary(m.start, m.end, None)
  }

  function GroupSpans(gs: seq<Group>): (bs: seq<Boundary>)
    ensures |bs| == |gs|
    ensures forall i :: 0 <= i < |gs| ==> bs[i] == Boundary(gs[i].start, gs[i].end, None)
  {
    seq(|gs|, i requires 0 <= i < |gs| => Boundary(gs[i].start, gs[i].end, None))
  }

  /** The spans `_split_matches` emits for one match. */
  function SpansOfMatch(m: RegexMatch, splitGroups: bool, repl: Option<RegexMatch -> string>): (bs: seq<Boundary>)
  {
    if splitGroups then GroupSpans(m.groups)
    else if repl.None? then [Whole(m)]
    else [Boundary(m.start, m.end, Some(repl.value(m)))]
  }

  /**
    `_split_matches`: with `splitGroups` (the flag `split_named_subgroups`
    and a pattern that has named groups) one span per named group of every
    match, otherwise one span per match, carrying the expansion of `repl`
    as its replacement when a template is given.
  */
  function MatchSpans(ms: seq<RegexMatch>, splitGroups: bool, repl: Option<RegexMatch -> string>): (bs: seq<Boundary>)
    ensures !splitGroups ==> |bs| == |ms|
    ensures !splitGroups ==> forall i :: 0 <= i < |ms| ==>
      bs[i].start == ms[i].start && bs[i].end == ms[i].end && (bs[i].replacement.Some? <==> repl.Some?)
    ensures !splitGroups && repl.Some? ==> forall i :: 0 <= i < |ms| ==> bs[i].replacement == Some(repl.value(ms[i]))
  {
    if ms == [] then [] else SpansOfMatch(ms[0], splitGroups, repl) + MatchSpans(ms[1..], splitGroups, repl)
  }

  /** The number of named-group spans of a match list. */
  function GroupCount(ms: seq<RegexMatch>): nat {
    if ms == [] then 0 else |ms[0].groups| + GroupCount(ms[1..])
  }

  /** Splitting on named groups yields exactly one span per group of every match. */
  lemma {:induction false} MatchSpansGroupCount(ms: seq<RegexMatch>, repl: Option<RegexMatch -> string>)
    ensures |MatchSpans(ms, true, repl)| == GroupCount(ms)
  {
    if ms != [] {
      MatchSpansGroupCount(ms[1..], repl);
    }
  }

  /** What `finditer` guarantees: matches in order, not overlapping, inside a text of length `n`. */
  predicate MatchesInOrder(ms: seq<RegexMatch>, n: int) {
    && (forall i :: 0 <= i < |ms| ==> 0 <= ms[i].start <= ms[i].end <= n)
    && (forall i :: 0 <= i < |ms| - 1 ==> ms[i].end <= ms[i + 1].start)
  }

  /** The named groups of a match lie inside it, in order and without overlap. */
  predicate GroupsInOrder(m: RegexMatch) {
    && (forall i :: 0 <= i < |m.groups| ==> m.start <= m.groups[i].start <= m.groups[i].end <= m.end)
    && (forall i :: 0 <= i < |m.groups| - 1 ==> m.groups[i].end <= m.groups[i + 1].start)
  }

  /** Every span of `bs` lies inside `[lo, hi]`. */
  predicate Within(bs: seq<Boundary>, lo: int, hi: int) {
    forall i :: 0 <= i < |bs| ==> lo <= bs[i].start && bs[i].end <= hi
  }

  lemma WellFormedAppend(a: seq<Boundary>, b: seq<Boundary>, n: int, mid: int)
    requires WellFormed(a, n) && WellFormed(b, n)
    requires Within(a, 0, mid) && Within(b, mid, n)
    ensures WellFormed(a + b, n)
  {
    var c := a + b;
    forall i | 0 <= i < |c| - 1
      ensures c[i].end <= c[i + 1].start
    {
      if i < |a| - 1 {
        assert c[i] == a[i] && c[i + 1] == a[i + 1];
      } else if i == |a| - 1 {
        assert c[i] == a[i] && c[i + 1] == b[0];
      } else {
        assert c[i] == b[i - |a|] && c[i + 1] == b[i - |a| + 1];
      }
    }
  }

  lemma SpansOfMatchWellFormed(m: RegexMatch, splitGroups: bool, repl: Option<RegexMatch -> string>, n: int)
    requires 0 <= m.start <= m.end <= n && GroupsInOrder(m)
    ensures WellFormed(SpansOfMatch(m, splitGroups, repl), n)
    ensures Within(SpansOfMatch(m, splitGroups, repl), m.start, m.end)
  {
  }

  /**
    Spans built from `finditer` matches whose named groups lie in order
    inside them are sorted, disjoint and in range: the precondition under
    which the boundary splitter reassembles the text.
  */
  lemma {:induction false} MatchSpansWellFormed(ms: seq<RegexMatch>, splitGroups: bool,
                                                repl: Option<RegexMatch -> string>, n: int)
    requires MatchesInOrder(ms, n)
    requires forall i :: 0 <= i < |ms| ==> GroupsInOrder(ms[i])
    ensures WellFormed(MatchSpans(ms, splitGroups, repl), n)
    ensures ms != [] ==> Within(MatchSpans(ms, splitGroups, repl), ms[0].start, n)
  {
    if ms != [] {
      var head := SpansOfMatch(ms[0], splitGroups, repl);
      SpansOfMatchWellFormed(ms[0], splitGroups, repl, n);
      MatchSpansWellFormed(ms[1..], splitGroups, repl, n);
      var mid := if |ms| > 1 then ms[1].start else n;
      assert Within(head, 0, mid);
      WellFormedAppend(head, MatchSpans(ms[1..], splitGroups, repl), n, mid);
    }
  }

  /** The whole-match spans of the matches that `keep` accepts, in order. */
  function KeptSpans(ms: seq<RegexMatch>, keep: RegexMatch -> bool): (bs: seq<Boundary>)
    ensures |bs| <= |ms|
  {
    if ms == [] then []
    else (if keep(ms[0]) then [Whole(ms[0])] else []) + KeptSpans(ms[1..], keep)
  }

  /** A kept span is the span of an accepted match, and every accepted match has its span kept. */
  lemma {:induction false} KeptSpansMembers(ms: seq<RegexMatch>, keep: RegexMatch -> bool)
    ensures forall b :: b in KeptSpans(ms, keep) ==> exists m :: m in ms && keep(m) && b == Whole(m)
    ensures forall m :: m in ms && keep(m) ==> Whole(m) in KeptSpans(ms, keep)
  {
    if ms != [] {
      KeptSpansMembers(ms[1..], keep);
      forall m | m in ms && keep(m)
        ensures Whole(m) in KeptSpans(ms, keep)
      {
        if m != ms[0] {
          assert m in ms[1..];
        }
      }
    }
  }

  /** Filtering keeps the order of `finditer`: kept spans are sorted and disjoint. */
  lemma {:induction false} KeptSpansWellFormed(ms: seq<RegexMatch>, keep: RegexMatch -> bool, n: int)
    requires MatchesInOrder(ms, n)
    ensures WellFormed(KeptSpans(ms, keep), n)
    ensures ms != [] ==> Within(KeptSpans(ms, keep), ms[0].start, n)
  {
    if ms != [] {
      var head: seq<Boundary> := if keep(ms[0]) then [Whole(ms[0])] else [];
      KeptSpansWellFormed(ms[1..], keep, n);
      var mid := if |ms| > 1 then ms[1].start else n;
      WellFormedAppend(head, KeptSpans(ms[1..], keep), n, mid);
    }
  }

  /** `m.group()` of a match over `text`. */
  function MatchText(text: string, m: RegexMatch): (s: string)
    ensures 0 <= m.start <= m.end <= |text| ==> s == text[m.start..m.end]
  {
    Slice(text, m.start, m.end)
  }

  /** `re.search` of a character class: some character of `s` is in the class. */
  predicate HasChar(s: string, inClass: char -> bool) {
    exists i :: 0 <= i < |s| && inClass(s[i])
  }

  /**
    The test of `_split_emojis` on one grapheme cluster: a cluster of more
    than one character qualifies by an emoji character or U+FE0F, a single
    character only by being an emoji character.
  */
  predicate EmojiCluster(text: string, m: RegexMatch, isEmoji: char -> bool) {
    var g := MatchText(text, m);
    if m.end - m.start > 1 then HasChar(g, c => isEmoji(c) || c == '\U{FE0F}')
    else HasChar(g, isEmoji)
  }

  /**
    `_split_emojis`: the spans of the grapheme clusters (`\X` matches) that
    hold an emoji.  `isEmoji` stands for the Extended_Pictographic and
    Emoji_Presentation properties.
  */
  function EmojiSpans(text: string, clusters: seq<RegexMatch>, isEmoji: char -> bool): (bs: seq<Boundary>)
    ensures |bs| <= |clusters|
  {
    KeptSpans(clusters, m => EmojiCluster(text, m, isEmoji))
  }

  /** A lone variation selector is not an emoji cluster; a cluster of it and an emoji is. */
  lemma EmojiSelector(isEmoji: char -> bool, e: char)
    requires !isEmoji('\U{FE0F}') && isEmoji(e)
    ensures !EmojiCluster("\U{FE0F}", RegexMatch(0, 1, []), isEmoji)
    ensures EmojiCluster("x\U{FE0F}", RegexMatch(0, 2, []), isEmoji)
    ensures EmojiCluster([e], RegexMatch(0, 1, []), isEmoji)
  {
    assert MatchText("x\U{FE0F}", RegexMatch(0, 2, []))[1] == '\U{FE0F}';
    assert MatchText([e], RegexMatch(0, 1, []))[0] == e;
  }

  /** The test of `_split_set`: the matched text, lower-cased when `ignoreCase`, is one of `items`. */
  predicate InSet(text: string, m: RegexMatch, items: set<string>, lower: string -> string, ignoreCase: bool) {
    (if ignoreCase then lower(MatchText(text, m)) else MatchText(text, m)) in items
  }

  /** `_split_set`: the spans of the candidate matches whose text is in `items`. */
  function SetSpans(text: string, ms: seq<RegexMatch>, items: set<string>, lower: string -> string,
                    ignoreCase: bool): (bs: seq<Boundary>)
    ensures |bs| <= |ms|
  {
    KeptSpans(ms, m => InSet(text, m, items, lower, ignoreCase))
  }

  /** `_split_set` keeps exactly the candidates whose text is in `items`. */
  lemma SetSpansMembers(text: string, ms: seq<RegexMatch>, items: set<string>, lower: string -> string, ignoreCase: bool)
    ensures forall b :: b in SetSpans(text, ms, items, lower, ignoreCase) ==>
      exists m :: m in ms && InSet(text, m, items, lower, ignoreCase) && b == Whole(m)
    ensures forall m :: m in ms && InSet(text, m, items, lower, ignoreCase) ==>
      Whole(m) in SetSpans(text, ms, items, lower, ignoreCase)
  {
    KeptSpansMembers(ms, m => InSet(text, m, items, lower, ignoreCase));
  }

  /** The 1-based position of the last `.` among the first `k` characters, or 0. */
  function LastCut(inst: string, k: nat): (p: nat)
    requires k <= |inst|
    ensures p <= k
    ensures p > 0 ==> inst[p - 1] == '.'
    ensures forall j :: p <= j < k ==> inst[j] != '.'
  {
    if k == 0 then 0 else if inst[k - 1] == '.' then k else LastCut(inst, k - 1)
  }

  /**
    The spans of the multipart loop of `_split_abbreviations` after its
    first `k` characters: one span per `.`, from the end of the previous
    one, offset by the match start `start`.
  */
  function DotSpans(inst: string, start: int, k: nat): (bs: seq<Boundary>)
    requires k <= |inst|
  {
    if k == 0 then []
    else DotSpans(inst, start, k - 1)
         + (if inst[k - 1] == '.' then [Boundary(start + LastCut(inst, k - 1), start + k, None)] else [])
  }

  /** The number of `.` among the first `k` characters. */
  function Dots(inst: string, k: nat): nat
    requires k <= |inst|
  {
    if k == 0 then 0 else Dots(inst, k - 1) + (if inst[k - 1] == '.' then 1 else 0)
  }

  /** One segment per dot; none before the first dot. */
  lemma {:induction false} DotSpansCount(inst: string, start: int, k: nat)
    requires k <= |inst|
    ensures |DotSpans(inst, start, k)| == Dots(inst, k)
    ensures DotSpans(inst, start, k) == [] <==> LastCut(inst, k) == 0
  {
    if k > 0 {
      DotSpansCount(inst, start, k - 1);
    }
  }

  /** The segments are contiguous, from the match start to just after the last dot. */
  lemma {:induction false} DotSpansChain(inst: string, start: int, k: nat)
    requires k <= |inst|
    ensures var bs := DotSpans(inst, start, k);
      && (bs != [] ==> bs[0].start == start && bs[|bs| - 1].end == start + LastCut(inst, k))
      && (forall i :: 0 <= i < |bs| - 1 ==> bs[i].end == bs[i + 1].start)
  {
    if k > 0 {
      DotSpansChain(inst, start, k - 1);
      DotSpansCount(inst, start, k - 1);
      var prev := DotSpans(inst, start, k - 1);
      if inst[k - 1] == '.' {
        var bs := prev + [Boundary(start + LastCut(inst, k - 1), start + k, None)];
        assert DotSpans(inst, start, k) == bs;
        assert forall i :: 0 <= i < |prev| ==> bs[i] == prev[i];
      }
    }
  }

  /** Each segment ends on a dot and holds no other dot. */
  lemma {:induction false} DotSpansDots(inst: string, start: int, k: nat)
    requires k <= |inst|
    ensures forall b :: b in DotSpans(inst, start, k) ==> start <= b.start < b.end <= start + k
    ensures forall b :: b in DotSpans(inst, start, k) ==> inst[b.end - start - 1] == '.'
    ensures forall b, j :: b in DotSpans(inst, start, k) && b.start - start <= j < b.end - start - 1 ==> inst[j] != '.'
  {
    if k > 0 {
      DotSpansDots(inst, start, k - 1);
      var prev := DotSpans(inst, start, k - 1);
      if inst[k - 1] == '.' {
        var p := LastCut(inst, k - 1);
        var last := Boundary(start + p, start + k, None);
        assert DotSpans(inst, start, k) == prev + [last];
        forall b | b in prev + [last]
          ensures b in prev || b == last
        {
        }
      } else {
        assert DotSpans(inst, start, k) == prev;
      }
    }
  }

  /** A multipart abbreviation ending in a dot is covered exactly by its segments. */
  lemma DotSpansCover(inst: string, start: int)
    requires inst != [] && inst[|inst| - 1] == '.'
    ensures var bs := DotSpans(inst, start, |inst|);
      bs != [] && bs[0].start == start && bs[|bs| - 1].end == start + |inst|
  {
    DotSpansCount(inst, start, |inst|);
    DotSpansChain(inst, start, |inst|);
  }

  /** The loop over `enumerate(instance, start=1)` that cuts a multipart abbreviation after every dot. */
  method MultipartSpans(inst: string, start: int) returns (bs: seq<Boundary>)
    ensures bs == DotSpans(inst, start, |inst|)
  {
    bs := [];
    var s := start;
    var i := 1;
    while i <= |inst|
      invariant 1 <= i <= |inst| + 1
      invariant bs == DotSpans(inst, start, i - 1)
      invariant s == start + LastCut(inst, i - 1)
    {
      if inst[i - 1] == '.' {
        bs := bs + [Boundary(s, start + i, None)];
        s := start + i;
      }
      i := i + 1;
    }
  }

  /** The spans of one `abbreviation` match. */
  function AbbreviationSpansOf(text: string, m: RegexMatch, multipart: string -> bool, splitMultipart: bool): (bs: seq<Boundary>)
  {
    var inst := MatchText(text, m);
    if splitMultipart && multipart(inst) then DotSpans(inst, m.start, |inst|) else [Whole(m)]
  }

  /**
    The span list of the abbreviation loop of `_split_abbreviations`: a
    multipart abbreviation (when splitting them is on) becomes one span per
    dot-terminated segment, every other match one whole-match span.
  */
  function AbbreviationSpans(text: string, ms: seq<RegexMatch>, multipart: string -> bool, splitMultipart: bool): (bs: seq<Boundary>)
    ensures !splitMultipart ==> bs == MatchSpans(ms, false, None)
  {
    if ms == [] then []
    else AbbreviationSpansOf(text, ms[0], multipart, splitMultipart) + AbbreviationSpans(text, ms[1..], multipart, splitMultipart)
  }

  /**
    The spans of `_split_all_matches` as its call is written: the flag is
    passed in the `repl` position, so `split_named_subgroups` keeps its
    default and named groups are always split, and for a pattern without
    named groups `m.expand` receives a bool and fails at the first match
    (None here).
  */
  function RunnerSpansAsWritten(ms: seq<RegexMatch>, hasGroups: bool, flag: bool): (r: Option<seq<Boundary>>)
    ensures hasGroups ==> r == Some(MatchSpans(ms, true, None))
    ensures !hasGroups ==> (r.None? <==> ms != [])
  {
    if hasGroups then Some(MatchSpans(ms, true, None))
    else if ms == [] then Some([])
    else None
  }

  /** The spans `_split_all_matches` evidently means: the flag decides whether named groups are split. */
  function RunnerSpans(ms: seq<RegexMatch>, hasGroups: bool, flag: bool): (bs: seq<Boundary>)
    ensures !(hasGroups && flag) ==> |bs| == |ms| && forall i :: 0 <= i < |ms| ==> bs[i] == Whole(ms[i])
  {
    MatchSpans(ms, hasGroups && flag, None)
  }

  /** With the flag off (dates in English), the written call still splits a match on its named groups. */
  lemma RunnerFlagIgnored()
    ensures var m := RegexMatch(0, 10, [Group(0, 4), Group(4, 10)]);
      && RunnerSpansAsWritten([m], true, false) == Some([Boundary(0, 4, None), Boundary(4, 10, None)])
      && RunnerSpans([m], true, false) == [Boundary(0, 10, None)]
  {
    var m := RegexMatch(0, 10, [Group(0, 4), Group(4, 10)]);
    assert [m][1..] == [];
    assert MatchSpans([m], true, None) == GroupSpans(m.groups);
    assert GroupSpans(m.groups) == [Boundary(0, 4, None), Boundary(4, 10, None)];
    assert MatchSpans([m], false, None) == [Whole(m)];
  }

  /** For a pattern without named groups the written call fails on any match; the intended one splits it whole. */
  lemma RunnerNoGroupsFails(m: RegexMatch, flag: bool)
    ensures RunnerSpansAsWritten([m], false, flag).None?
    ensures RunnerSpans([m], false, flag) == [Whole(m)]
  {
  }

  /** The span finder of one `_split_all_matches` call: the (corrected) spans of the matches `find` reports. */
  function MatchFinder(find: string -> seq<RegexMatch>, hasGroups: bool, splitNamed: bool): string -> seq<Boundary> {
    text => RunnerSpans(find(text), hasGroups, splitNamed)
  }

  /** The span finder of `_split_all_emojis`. */
  function EmojiFinder(clusters: string -> seq<RegexMatch>, isEmoji: char -> bool): string -> seq<Boundary> {
    text => EmojiSpans(text, clusters(text), isEmoji)
  }

  /** The span finder of one `_split_all_set` call. */
  function SetFinder(find: string -> seq<RegexMatch>, items: set<string>, lower: string -> string,
                     ignoreCase: bool): string -> seq<Boundary> {
    text => SetSpans(text, find(text), items, lower, ignoreCase)
  }

  /** The span finder of the abbreviation loop of `_split_abbreviations`. */
  function AbbreviationFinder(find: string -> seq<RegexMatch>, multipart: string -> bool,
                              splitMultipart: bool): string -> seq<Boundary> {
    text => AbbreviationSpans(text, find(text), multipart, splitMultipart)
  }
}
