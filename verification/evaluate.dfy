/**
  The evaluation script utils/evaluate.py: reading a tokenized file into a
  sequence of characters flagged with token and sentence boundaries, the
  marked-up rendering of a character for the error report, and the counts of
  true positives, false positives and false negatives.  Files come in as their
  sequences of lines; printing, argument parsing and the floating-point
  precision, recall and F1 are outside the model.
*/
module Evaluate {
  import opened Wrappers
  import opened Seqs
  import opened Chars

  /** `Character(char, token_boundary, sentence_boundary)`. */
  datatype Character = Character(ch: char, tokenBoundary: bool, sentenceBoundary: bool)

  // ---------------------------------------------------------------------------
  // `read_characters`

  /** A line that `--ignore-xml` skips: it starts with `<` and ends with `>`. */
  predicate IsTagLine(line: string) {
    |line| > 0 && line[0] == '<' && line[|line| - 1] == '>'
  }

  /** The characters of a line, none of them a boundary. */
  function Unmarked(line: string): (cs: seq<Character>)
    ensures |cs| == |line| && forall k | 0 <= k < |line| :: cs[k] == Character(line[k], false, false)
  {
    seq(|line|, k requires 0 <= k < |line| => Character(line[k], false, false))
  }

  /**
    One line of `read_characters` on the characters read so far: `None` where
    the source's `characters[-1]` finds the list empty.
  */
  function ReadLine(acc: seq<Character>, line: string, ignoreXml: bool, sentences: bool): Option<seq<Character>> {
    var l := RStrip(line);
    if sentences && l == [] then
      if acc == [] then None else Some(acc[|acc| - 1 := Character(acc[|acc| - 1].ch, true, true)])
    else if ignoreXml && IsTagLine(l) then Some(acc)
    else
      var cs := acc + Unmarked(l);
      if cs == [] then None else Some(cs[|cs| - 1 := Character(cs[|cs| - 1].ch, true, false)])
  }

  /** `read_characters` on the lines of a file: one `ReadLine` per line, in order. */
  function ReadLines(lines: seq<string>, ignoreXml: bool, sentences: bool): Option<seq<Character>> {
    if lines == [] then Some([])
    else match ReadLines(lines[..|lines| - 1], ignoreXml, sentences)
      case None => None
      case Some(acc) => ReadLine(acc, lines[|lines| - 1], ignoreXml, sentences)
  }

  lemma {:induction false} ReadLinesFailed(lines: seq<string>, i: nat, ignoreXml: bool, sentences: bool)
    requires i <= |lines| && ReadLines(lines[..i], ignoreXml, sentences).None?
    ensures ReadLines(lines, ignoreXml, sentences).None?
    decreases |lines| - i
  {
    if i < |lines| {
      assert lines[..i + 1][..i] == lines[..i];
      ReadLinesFailed(lines, i + 1, ignoreXml, sentences);
    } else {
      assert lines[..i] == lines;
    }
  }

  /** The body of the loop of `read_characters` for one line. */
  method ReadOne(characters: seq<Character>, line: string, ignoreXml: bool, sentences: bool) returns (r: Option<seq<Character>>)
    ensures r == ReadLine(characters, line, ignoreXml, sentences)
  {
    var line := RStrip(line);
    if sentences && line == "" {
      if characters == [] {
        return None;
      }
      return Some(characters[|characters| - 1 := Character(characters[|characters| - 1].ch, true, true)]);
    }
    if ignoreXml && |line| > 0 && line[0] == '<' && line[|line| - 1] == '>' {
      return Some(characters);
    }
    var cs := characters;
    var j := 0;
    while j < |line|
      invariant 0 <= j <= |line| && cs == characters + Unmarked(line[..j])
    {
      assert Unmarked(line[..j + 1]) == Unmarked(line[..j]) + [Character(line[j], false, false)];
      cs := cs + [Character(line[j], false, false)];
      j := j + 1;
    }
    assert line[..|line|] == line;
    if cs == [] {
      return None;
    }
    return Some(cs[|cs| - 1 := Character(cs[|cs| - 1].ch, true, false)]);
  }

  /** `read_characters`; `None` where the source raises `IndexError`. */
  method ReadCharacters(lines: seq<string>, ignoreXml: bool, sentences: bool) returns (r: Option<seq<Character>>)
    ensures r == ReadLines(lines, ignoreXml, sentences)
  {
    var characters: seq<Character> := [];
    var i := 0;
    while i < |lines|
      invariant 0 <= i <= |lines| && ReadLines(lines[..i], ignoreXml, sentences) == Some(characters)
    {
      assert lines[..i + 1][..i] == lines[..i];
      var next := ReadOne(characters, lines[i], ignoreXml, sentences);
      if next.None? {
        ReadLinesFailed(lines, i + 1, ignoreXml, sentences);
        return None;
      }
      characters := next.value;
      i := i + 1;
    }
    assert lines[..|lines|] == lines;
    return Some(characters);
  }

  /** The right-stripped lines that contribute characters: all but the skipped XML lines. */
  function KeptLines(lines: seq<string>, ignoreXml: bool): seq<string> {
    if lines == [] then []
    else
      var l := RStrip(lines[|lines| - 1]);
      KeptLines(lines[..|lines| - 1], ignoreXml) + (if ignoreXml && IsTagLine(l) then [] else [l])
  }

  /** Where each non-empty line of `ks` ends, counted in characters from the start of the file. */
  function LineEnds(ks: seq<string>): set<nat> {
    if ks == [] then {}
    else LineEnds(ks[..|ks| - 1]) + (if ks[|ks| - 1] != [] then {|Flatten(ks)|} else {})
  }

  /** Where an empty line follows at least one character, counted likewise. */
  function Breaks(ks: seq<string>): set<nat> {
    if ks == [] then {}
    else
      var n := |Flatten(ks[..|ks| - 1])|;
      Breaks(ks[..|ks| - 1]) + (if ks[|ks| - 1] == [] && n > 0 then {n} else {})
  }

  function CharsOf(cs: seq<Character>): (s: string)
    ensures |s| == |cs| && forall k | 0 <= k < |cs| :: s[k] == cs[k].ch
  {
    seq(|cs|, k requires 0 <= k < |cs| => cs[k].ch)
  }

  lemma {:induction false} FlattenSnoc(ks: seq<string>, l: string)
    ensures Flatten(ks + [l]) == Flatten(ks) + l
  {
    FlattenAppend(ks, [l]);
    assert Flatten([l]) == l + Flatten([]);
  }

  lemma {:induction false} LineEndsBounded(ks: seq<string>)
    ensures forall e | e in LineEnds(ks) :: 0 < e <= |Flatten(ks)|
    ensures Flatten(ks) != [] ==> |Flatten(ks)| in LineEnds(ks)
    ensures forall e | e in Breaks(ks) :: 0 < e <= |Flatten(ks)|
  {
    if ks != [] {
      var n := |ks| - 1;
      LineEndsBounded(ks[..n]);
      assert ks[..n] + [ks[n]] == ks;
      FlattenSnoc(ks[..n], ks[n]);
    }
  }

  /** What the characters read so far say about the kept lines `ks`. */
  predicate Reads(acc: seq<Character>, ks: seq<string>, sentences: bool) {
    && CharsOf(acc) == Flatten(ks)
    && (forall p | 0 <= p < |acc| :: acc[p].tokenBoundary <==> p + 1 in LineEnds(ks))
    && (forall p | 0 <= p < |acc| :: acc[p].sentenceBoundary <==> sentences && p + 1 in Breaks(ks))
  }

  /** An empty line in sentence mode marks the last character read as both boundaries. */
  lemma {:induction false} ReadsBreak(acc: seq<Character>, ks: seq<string>, sentences: bool)
    requires Reads(acc, ks, sentences) && sentences && acc != []
    ensures Reads(acc[|acc| - 1 := Character(acc[|acc| - 1].ch, true, true)], ks + [[]], sentences)
  {
    var ks' := ks + [[]];
    assert ks'[..|ks'| - 1] == ks;
    FlattenSnoc(ks, []);
    assert Flatten(ks) + [] == Flatten(ks);
    LineEndsBounded(ks);
    assert LineEnds(ks') == LineEnds(ks);
    assert Breaks(ks') == Breaks(ks) + {|acc|};
  }

  /** An empty line outside sentence mode marks the last character read as a token boundary again. */
  lemma {:induction false} ReadsEmpty(acc: seq<Character>, ks: seq<string>)
    requires Reads(acc, ks, false) && acc != []
    ensures Reads(acc[|acc| - 1 := Character(acc[|acc| - 1].ch, true, false)], ks + [[]], false)
  {
    var ks' := ks + [[]];
    assert ks'[..|ks'| - 1] == ks;
    FlattenSnoc(ks, []);
    assert Flatten(ks) + [] == Flatten(ks);
    LineEndsBounded(ks);
    assert LineEnds(ks') == LineEnds(ks);
  }

  /** Appending a non-empty line adds where it ends to `LineEnds`; an empty one adds nothing. */
  lemma {:induction false} LineEndsSnoc(ks: seq<string>, l: string)
    ensures LineEnds(ks + [l]) == LineEnds(ks) + (if l != [] then {|Flatten(ks)| + |l|} else {})
  {
    var ks' := ks + [l];
    assert ks'[..|ks'| - 1] == ks && ks'[|ks'| - 1] == l;
    FlattenSnoc(ks, l);
    assert |Flatten(ks')| == |Flatten(ks)| + |l|;
  }

  /** Appending an empty line after some text adds where the text ends to `Breaks`. */
  lemma {:induction false} BreaksSnoc(ks: seq<string>, l: string)
    ensures Breaks(ks + [l]) == Breaks(ks) + (if l == [] && |Flatten(ks)| > 0 then {|Flatten(ks)|} else {})
  {
    var ks' := ks + [l];
    assert ks'[..|ks'| - 1] == ks && ks'[|ks'| - 1] == l;
  }

  /** The characters of a line added and the last one marked read as the text so far followed by the line. */
  lemma {:induction false} CharsOfAppend(acc: seq<Character>, l: string)
    requires l != []
    ensures var cs := acc + Unmarked(l);
      CharsOf(cs[|cs| - 1 := Character(cs[|cs| - 1].ch, true, false)]) == CharsOf(acc) + l
  {
  }

  /** A non-empty line adds its characters and marks its last one as a token boundary. */
  lemma {:induction false} ReadsLine(acc: seq<Character>, ks: seq<string>, l: string, sentences: bool)
    requires Reads(acc, ks, sentences) && l != []
    ensures var cs := acc + Unmarked(l);
      Reads(cs[|cs| - 1 := Character(cs[|cs| - 1].ch, true, false)], ks + [l], sentences)
  {
    var cs := acc + Unmarked(l);
    var r := cs[|cs| - 1 := Character(cs[|cs| - 1].ch, true, false)];
    var ks' := ks + [l];
    FlattenSnoc(ks, l);
    CharsOfAppend(acc, l);
    LineEndsSnoc(ks, l);
    BreaksSnoc(ks, l);
    LineEndsBounded(ks);
    assert |Flatten(ks)| == |acc|;
    forall p | 0 <= p < |r|
      ensures r[p].tokenBoundary <==> p + 1 in LineEnds(ks')
      ensures r[p].sentenceBoundary <==> sentences && p + 1 in Breaks(ks')
    {
      if p < |acc| {
        assert r[p] == acc[p];
      }
    }
  }

  /** One line keeps `Reads`: the line's characters are added, and its boundary flags set. */
  lemma {:induction false} ReadLineReads(acc: seq<Character>, ks: seq<string>, line: string, ignoreXml: bool, sentences: bool)
    requires Reads(acc, ks, sentences)
    ensures var l := RStrip(line);
      var ks' := if ignoreXml && IsTagLine(l) then ks else ks + [l];
      && (ReadLine(acc, line, ignoreXml, sentences).None? <==> !(ignoreXml && IsTagLine(l)) && l == [] && acc == [])
      && (ReadLine(acc, line, ignoreXml, sentences).Some? ==> Reads(ReadLine(acc, line, ignoreXml, sentences).value, ks', sentences))
  {
    var l := RStrip(line);
    if sentences && l == [] {
      if acc != [] {
        ReadsBreak(acc, ks, sentences);
      }
    } else if !(ignoreXml && IsTagLine(l)) {
      if l != [] {
        ReadsLine(acc, ks, l, sentences);
      } else if acc != [] {
        assert acc + Unmarked(l) == acc;
        ReadsEmpty(acc, ks);
      }
    }
  }

  /**
    What `read_characters` reads: the characters of the kept lines, in order;
    a token boundary exactly at the end of each non-empty line; a sentence
    boundary, in sentence mode only, exactly where an empty line follows.
  */
  lemma {:induction false} ReadLinesSpec(lines: seq<string>, ignoreXml: bool, sentences: bool)
    ensures var r := ReadLines(lines, ignoreXml, sentences);
      r.Some? ==> Reads(r.value, KeptLines(lines, ignoreXml), sentences)
  {
    if lines != [] {
      var n := |lines| - 1;
      ReadLinesSpec(lines[..n], ignoreXml, sentences);
      var pre := ReadLines(lines[..n], ignoreXml, sentences);
      if pre.Some? {
        var l := RStrip(lines[n]);
        var ks := KeptLines(lines[..n], ignoreXml);
        assert ReadLines(lines, ignoreXml, sentences) == ReadLine(pre.value, lines[n], ignoreXml, sentences);
        assert KeptLines(lines, ignoreXml) == if ignoreXml && IsTagLine(l) then ks + [] else ks + [l];
        assert ks + [] == ks;
        ReadLineReads(pre.value, ks, lines[n], ignoreXml, sentences);
      }
    } else {
      assert Flatten<char>([]) == [];
    }
  }

  /** Every sentence boundary is a token boundary. */
  lemma SentenceBoundaryIsTokenBoundary(lines: seq<string>, ignoreXml: bool, sentences: bool)
    ensures var r := ReadLines(lines, ignoreXml, sentences);
      r.Some? ==> forall p | 0 <= p < |r.value| :: r.value[p].sentenceBoundary ==> r.value[p].tokenBoundary
  {
    ReadLinesSpec(lines, ignoreXml, sentences);
    BreaksAreLineEnds(KeptLines(lines, ignoreXml));
  }

  lemma {:induction false} BreaksAreLineEnds(ks: seq<string>)
    ensures Breaks(ks) <= LineEnds(ks)
  {
    if ks != [] {
      var n := |ks| - 1;
      BreaksAreLineEnds(ks[..n]);
      LineEndsBounded(ks[..n]);
    }
  }

  /** Line `k` is empty once right-stripped, and no character was read before it. */
  predicate FailsAt(lines: seq<string>, ignoreXml: bool, k: nat)
    requires k < |lines|
  {
    RStrip(lines[k]) == [] && Flatten(KeptLines(lines[..k], ignoreXml)) == []
  }

  /** Whether line `k` fails does not depend on the lines after it. */
  lemma FailsAtPrefix(lines: seq<string>, ignoreXml: bool, n: nat, k: nat)
    requires k < n <= |lines|
    ensures FailsAt(lines[..n], ignoreXml, k) == FailsAt(lines, ignoreXml, k)
  {
    assert lines[..n][k] == lines[k] && lines[..n][..k] == lines[..k];
  }

  /**
    `read_characters` raises exactly when it meets a line that is empty once
    right-stripped before it has read any character.
  */
  lemma {:induction false} ReadLinesFails(lines: seq<string>, ignoreXml: bool, sentences: bool)
    ensures ReadLines(lines, ignoreXml, sentences).None? <==> exists k | 0 <= k < |lines| :: FailsAt(lines, ignoreXml, k)
  {
    if lines != [] {
      var n := |lines| - 1;
      var pre := lines[..n];
      ReadLinesFails(pre, ignoreXml, sentences);
      if ReadLines(pre, ignoreXml, sentences).Some? {
        var acc := ReadLines(pre, ignoreXml, sentences).value;
        ReadLinesSpec(pre, ignoreXml, sentences);
        ReadLineReads(acc, KeptLines(pre, ignoreXml), lines[n], ignoreXml, sentences);
        assert acc == [] <==> Flatten(KeptLines(pre, ignoreXml)) == [] by {
          assert |CharsOf(acc)| == |acc|;
        }
        assert ReadLines(lines, ignoreXml, sentences) == ReadLine(acc, lines[n], ignoreXml, sentences);
        assert ReadLines(lines, ignoreXml, sentences).None? <==> FailsAt(lines, ignoreXml, n);
        forall k | 0 <= k < n
          ensures !FailsAt(lines, ignoreXml, k)
        {
          FailsAtPrefix(lines, ignoreXml, n, k);
        }
      } else {
        var k :| 0 <= k < n && FailsAt(pre, ignoreXml, k);
        FailsAtPrefix(lines, ignoreXml, n, k);
      }
    }
  }

  // ---------------------------------------------------------------------------
  // `char_to_str`

  /**
    `char_to_str(system, gold, focus)`: the system character followed by a
    marker; in focus mode the marker names the first disagreement in the order
    sentence false positive, sentence false negative, token false positive,
    token false negative.
  */
  function CharToStr(system: Character, gold: Character, focus: bool): (r: string)
    ensures |r| >= 1 && r[0] == system.ch
  {
    var s := [system.ch];
    if focus then
      if system.sentenceBoundary && !gold.sentenceBoundary then s + "■ "
      else if !system.sentenceBoundary && gold.sentenceBoundary then s + "□ "
      else if system.tokenBoundary && !gold.tokenBoundary then s + "● "
      else if !system.tokenBoundary && gold.tokenBoundary then s + "○ "
      else if (system.sentenceBoundary && gold.sentenceBoundary) || (system.tokenBoundary && gold.tokenBoundary) then s + " "
      else s
    else if system.sentenceBoundary || system.tokenBoundary then s + " "
    else s
  }

  /** Without focus, a single space follows the character exactly when the system has a boundary there. */
  lemma CharToStrPlain(system: Character, gold: Character)
    ensures var r := CharToStr(system, gold, false);
      && (system.sentenceBoundary || system.tokenBoundary <==> r == [system.ch, ' '])
      && (!(system.sentenceBoundary || system.tokenBoundary) <==> r == [system.ch])
  {
  }

  /**
    With focus, at most one marker is added; none exactly when neither side has
    a boundary, a plain space exactly when both sides agree on a boundary, and a
    token marker only when the sentence boundaries agree.
  */
  lemma CharToStrFocus(system: Character, gold: Character)
    ensures var m := CharToStr(system, gold, true)[1..];
      && m in {"■ ", "□ ", "● ", "○ ", " ", ""}
      && (m == "" <==> !system.sentenceBoundary && !gold.sentenceBoundary && !system.tokenBoundary && !gold.tokenBoundary)
      && (m == " " <==> system == gold.(ch := system.ch) && (system.sentenceBoundary || system.tokenBoundary))
      && (m == "■ " <==> system.sentenceBoundary && !gold.sentenceBoundary)
      && (m == "□ " <==> !system.sentenceBoundary && gold.sentenceBoundary)
      && (m in {"● ", "○ "} ==> system.sentenceBoundary == gold.sentenceBoundary && system.tokenBoundary != gold.tokenBoundary)
  {
    var r := CharToStr(system, gold, true);
    assert r == [system.ch] + r[1..];
  }

  // ---------------------------------------------------------------------------
  // The counts of `evaluate_file`

  datatype Kind = TokenKind | SentenceKind

  function Marked(c: Character, kind: Kind): bool {
    match kind
    case TokenKind => c.tokenBoundary
    case SentenceKind => c.sentenceBoundary
  }

  /** `zip(sys_chars, gold_chars)`: the pairs up to the shorter length. */
  function Zip(sys: seq<Character>, gold: seq<Character>): (ps: seq<(Character, Character)>)
    ensures |ps| == Min(|sys|, |gold|)
    ensures forall k | 0 <= k < |ps| :: ps[k] == (sys[k], gold[k])
  {
    seq(Min(|sys|, |gold|), k requires 0 <= k < Min(|sys|, |gold|) => (sys[k], gold[k]))
  }

  /** The number of pairs whose gold and system characters have a boundary as asked. */
  function CountPairs(ps: seq<(Character, Character)>, kind: Kind, inGold: bool, inSystem: bool): nat {
    if ps == [] then 0
    else
      var hit := Marked(ps[0].1, kind) == inGold && Marked(ps[0].0, kind) == inSystem;
      (if hit then 1 else 0) + CountPairs(ps[1..], kind, inGold, inSystem)
  }

  /** The number of characters with a boundary of the kind. */
  function CountMarked(cs: seq<Character>, kind: Kind): nat {
    if cs == [] then 0 else (if Marked(cs[0], kind) then 1 else 0) + CountMarked(cs[1..], kind)
  }

  /** The true positives, false positives and false negatives of one kind. */
  datatype Tally = Tally(tp: nat, fp: nat, fn: nat)

  function TallyOf(sys: seq<Character>, gold: seq<Character>, kind: Kind): Tally {
    var ps := Zip(sys, gold);
    Tally(CountPairs(ps, kind, true, true), CountPairs(ps, kind, false, true), CountPairs(ps, kind, true, false))
  }

  lemma {:induction false} PairsSplit(ps: seq<(Character, Character)>, kind: Kind)
    ensures CountPairs(ps, kind, true, true) + CountPairs(ps, kind, true, false) == CountMarked(Golds(ps), kind)
    ensures CountPairs(ps, kind, true, true) + CountPairs(ps, kind, false, true) == CountMarked(Systems(ps), kind)
  {
    if ps != [] {
      PairsSplit(ps[1..], kind);
      assert Golds(ps)[1..] == Golds(ps[1..]);
      assert Systems(ps)[1..] == Systems(ps[1..]);
    }
  }

  function Golds(ps: seq<(Character, Character)>): (cs: seq<Character>)
    ensures |cs| == |ps| && forall k | 0 <= k < |ps| :: cs[k] == ps[k].1
  {
    seq(|ps|, k requires 0 <= k < |ps| => ps[k].1)
  }

  function Systems(ps: seq<(Character, Character)>): (cs: seq<Character>)
    ensures |cs| == |ps| && forall k | 0 <= k < |ps| :: cs[k] == ps[k].0
  {
    seq(|ps|, k requires 0 <= k < |ps| => ps[k].0)
  }

  /**
    On paired files, `tp + fn` is the number of gold boundaries and `tp + fp`
    the number of system boundaries, for either kind.
  */
  lemma TallyAddsUp(sys: seq<Character>, gold: seq<Character>, kind: Kind)
    requires |sys| == |gold|
    ensures var t := TallyOf(sys, gold, kind);
      t.tp + t.fn == CountMarked(gold, kind) && t.tp + t.fp == CountMarked(sys, kind)
  {
    var ps := Zip(sys, gold);
    PairsSplit(ps, kind);
    assert Golds(ps) == gold;
    assert Systems(ps) == sys;
  }

  /** The counts `evaluate_file` returns; the sentence counts stay 0 unless sentences are evaluated. */
  datatype Counts = Counts(token: Tally, sentence: Tally)

  /**
    The counts of `evaluate_file` on the characters of both files; `None` where
    its assertions fail because the files differ in length or in a character.
  */
  function EvaluateCounts(sys: seq<Character>, gold: seq<Character>, sentences: bool): (r: Option<Counts>)
    ensures r.Some? <==> |sys| == |gold| && CharsOf(sys) == CharsOf(gold)
    ensures r.Some? && !sentences ==> r.value.sentence == Tally(0, 0, 0)
  {
    if |sys| != |gold| then None
    else if exists k | 0 <= k < |sys| :: sys[k].ch != gold[k].ch then None
    else
      assert CharsOf(sys) == CharsOf(gold);
      Some(Counts(TallyOf(sys, gold, TokenKind), if sentences then TallyOf(sys, gold, SentenceKind) else Tally(0, 0, 0)))
  }

  /** The counts add up to the boundaries of each file. */
  lemma EvaluateCountsAddUp(sys: seq<Character>, gold: seq<Character>, sentences: bool)
    ensures var r := EvaluateCounts(sys, gold, sentences);
      r.Some? ==>
        && r.value.token.tp + r.value.token.fn == CountMarked(gold, TokenKind)
        && r.value.token.tp + r.value.token.fp == CountMarked(sys, TokenKind)
        && (sentences ==> r.value.sentence.tp + r.value.sentence.fn == CountMarked(gold, SentenceKind))
        && (sentences ==> r.value.sentence.tp + r.value.sentence.fp == CountMarked(sys, SentenceKind))
  {
    if |sys| == |gold| {
      TallyAddsUp(sys, gold, TokenKind);
      TallyAddsUp(sys, gold, SentenceKind);
    }
  }

  /** The positions at which the gold and system characters have a boundary as asked. */
  function Hits(sys: seq<Character>, gold: seq<Character>, kind: Kind, inGold: bool, inSystem: bool): set<int> {
    set k | 0 <= k < |sys| && k < |gold| && Marked(gold[k], kind) == inGold && Marked(sys[k], kind) == inSystem
  }

  /** The positions of the pairs whose characters have a boundary as asked. */
  function PairHits(ps: seq<(Character, Character)>, kind: Kind, inGold: bool, inSystem: bool): set<int> {
    set k | 0 <= k < |ps| && Marked(ps[k].1, kind) == inGold && Marked(ps[k].0, kind) == inSystem
  }

  lemma {:induction false} CountPairsSnoc(ps: seq<(Character, Character)>, p: (Character, Character), kind: Kind, inGold: bool, inSystem: bool)
    ensures CountPairs(ps + [p], kind, inGold, inSystem)
      == CountPairs(ps, kind, inGold, inSystem) + (if Marked(p.1, kind) == inGold && Marked(p.0, kind) == inSystem then 1 else 0)
  {
    if ps == [] {
      assert ps + [p] == [p] && [p][1..] == [];
    } else {
      assert (ps + [p])[1..] == ps[1..] + [p];
      CountPairsSnoc(ps[1..], p, kind, inGold, inSystem);
    }
  }

  /** Counting the pairs is counting their positions. */
  lemma {:induction false} CountPairsHits(ps: seq<(Character, Character)>, kind: Kind, inGold: bool, inSystem: bool)
    ensures CountPairs(ps, kind, inGold, inSystem) == |PairHits(ps, kind, inGold, inSystem)|
    decreases |ps|
  {
    if ps != [] {
      var n := |ps| - 1;
      CountPairsHits(ps[..n], kind, inGold, inSystem);
      assert ps == ps[..n] + [ps[n]];
      CountPairsSnoc(ps[..n], ps[n], kind, inGold, inSystem);
      var a := PairHits(ps[..n], kind, inGold, inSystem);
      if Marked(ps[n].1, kind) == inGold && Marked(ps[n].0, kind) == inSystem {
        assert PairHits(ps, kind, inGold, inSystem) == a + {n};
      } else {
        assert PairHits(ps, kind, inGold, inSystem) == a;
      }
    }
  }

  /** Each count is the number of positions at which the boundaries of the two files fall as it says. */
  lemma TallyHits(sys: seq<Character>, gold: seq<Character>, kind: Kind)
    ensures TallyOf(sys, gold, kind)
      == Tally(|Hits(sys, gold, kind, true, true)|, |Hits(sys, gold, kind, false, true)|, |Hits(sys, gold, kind, true, false)|)
  {
    var ps := Zip(sys, gold);
    CountPairsHits(ps, kind, true, true);
    CountPairsHits(ps, kind, false, true);
    CountPairsHits(ps, kind, true, false);
    assert PairHits(ps, kind, true, true) == Hits(sys, gold, kind, true, true);
    assert PairHits(ps, kind, false, true) == Hits(sys, gold, kind, false, true);
    assert PairHits(ps, kind, true, false) == Hits(sys, gold, kind, true, false);
  }

  /**
    The token counts of `evaluate_file` are the numbers of positions where
    both files, only the system file and only the gold file have a token
    boundary; the same for sentence boundaries when sentences are evaluated.
  */
  lemma EvaluateCountsHits(sys: seq<Character>, gold: seq<Character>, sentences: bool)
    ensures var r := EvaluateCounts(sys, gold, sentences);
      r.Some? ==>
        && r.value.token == Tally(|Hits(sys, gold, TokenKind, true, true)|, |Hits(sys, gold, TokenKind, false, true)|,
                                  |Hits(sys, gold, TokenKind, true, false)|)
        && (sentences ==> r.value.sentence == Tally(|Hits(sys, gold, SentenceKind, true, true)|,
                                                   |Hits(sys, gold, SentenceKind, false, true)|,
                                                   |Hits(sys, gold, SentenceKind, true, false)|))
  {
    TallyHits(sys, gold, TokenKind);
    TallyHits(sys, gold, SentenceKind);
  }
}
