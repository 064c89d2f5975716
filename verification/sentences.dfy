/**
  The sentence splitter of somajo/sentence_splitter.py.

  `_split` works in place on a list of tokens: it marks the last token that is
  not markup as the end of a sentence, then looks ahead from every token that
  is sentence-final punctuation or an end-of-sentence abbreviation, over
  closing and opening punctuation, for a token that starts with an upper-case
  letter.  `split` turns the end-of-sentence flags into slices of its input.

  The regular expressions of the constructor become predicates over the
  Unicode tables they consult (`\p{Pi}`, `\p{Ps}`, `\p{Pf}`, `\p{Pe}`), and
  `str.isupper` and `str.lower` are parameters too.  Reading an empty token's
  first character raises `IndexError` in the source; that is the `Crash`
  outcome here.
*/
module Sentences {
  import opened Wrappers
  import opened Seqs
  import opened Tokens

  /** The Unicode properties the splitter relies on. */
  datatype Unicode = Unicode(
    initialQuote: char -> bool,   // \p{Pi}
    openBracket: char -> bool,    // \p{Ps}
    finalQuote: char -> bool,     // \p{Pf}
    closeBracket: char -> bool,   // \p{Pe}
    isUpper: char -> bool,        // str.isupper on one character
    lower: string -> string)      // str.lower

  /**
    A `SentenceSplitter`: German (`de`, `de_CMC`) adds U+201C (“) to the closing
    punctuation; the end-of-sentence abbreviations are the entries of its list.
  */
  datatype Splitter = Splitter(german: bool, eosAbbreviations: set<string>, uc: Unicode)

  function NewSplitter(language: string, eosAbbreviations: set<string>, uc: Unicode): (sp: Splitter)
    ensures sp.german <==> language in {"de", "de_CMC"}
    ensures sp.eosAbbreviations == eosAbbreviations && sp.uc == uc
  {
    Splitter(language == "de" || language == "de_CMC", eosAbbreviations, uc)
  }

  predicate AllAre(s: string, c: char) {
    forall k | 0 <= k < |s| :: s[k] == c
  }

  /** `…*\.*` */
  predicate EllipsesThenDots(s: string) {
    AllAre(s, '.') || (s != [] && s[0] == '…' && EllipsesThenDots(s[1..]))
  }

  /** `\.+|…+\.*|[!?]+` matching the whole text. */
  predicate EndingBody(s: string) {
    (s != [] && AllAre(s, '.'))
    || (s != [] && s[0] == '…' && EllipsesThenDots(s[1..]))
    || (s != [] && forall k | 0 <= k < |s| :: s[k] == '!' || s[k] == '?')
  }

  /** `['"¿¡\p{Pi}\p{Ps}–—]|-{2,}` matching the whole text. */
  predicate OpeningBody(uc: Unicode, s: string) {
    (|s| == 1 && (s[0] in "'\"¿¡–—" || uc.initialQuote(s[0]) || uc.openBracket(s[0])))
    || (|s| >= 2 && AllAre(s, '-'))
  }

  /** `['"\p{Pf}\p{Pe}]`, with „““ added for German, matching the whole text. */
  predicate ClosingBody(sp: Splitter, s: string) {
    |s| == 1 && (s[0] == '\'' || s[0] == '"' || (sp.german && s[0] == '“')
                 || sp.uc.finalQuote(s[0]) || sp.uc.closeBracket(s[0]))
  }

  /** A pattern anchored by `^…$`: `$` also matches right before a final newline. */
  predicate SentenceEndingPunct(s: string) {
    EndingBody(s) || (s != [] && s[|s| - 1] == '\n' && EndingBody(s[..|s| - 1]))
  }

  predicate OpeningPunct(sp: Splitter, s: string) {
    OpeningBody(sp.uc, s) || (s != [] && s[|s| - 1] == '\n' && OpeningBody(sp.uc, s[..|s| - 1]))
  }

  predicate ClosingPunct(sp: Splitter, s: string) {
    ClosingBody(sp, s) || (s != [] && s[|s| - 1] == '\n' && ClosingBody(sp, s[..|s| - 1]))
  }

  /** A token after which a sentence may end. */
  predicate IsEos(sp: Splitter, s: string) {
    SentenceEndingPunct(s) || sp.uc.lower(s) in sp.eosAbbreviations
  }

  /** The roles a non-markup token can play in the look-ahead, in the order the source tests them. */
  predicate Starts(sp: Splitter, s: string) {
    s != [] && sp.uc.isUpper(s[0])
  }

  predicate Opens(sp: Splitter, s: string) {
    s != [] && !sp.uc.isUpper(s[0]) && OpeningPunct(sp, s) && s != "“"
  }

  predicate Closes(sp: Splitter, s: string) {
    s != [] && !sp.uc.isUpper(s[0]) && !(OpeningPunct(sp, s) && s != "“") && ClosingPunct(sp, s)
  }

  // ---------------------------------------------------------------------------
  // The flags, as functions of the token list

  /** The position of the last token that is not markup. */
  function LastNonMarkup(ts: seq<Token>): (r: Option<nat>)
    ensures r.Some? ==> r.value < |ts| && !ts[r.value].markup
                        && forall m | r.value < m < |ts| :: ts[m].markup
    ensures r.None? ==> forall m | 0 <= m < |ts| :: ts[m].markup
  {
    if ts == [] then None
    else if !ts[|ts| - 1].markup then Some(|ts| - 1)
    else LastNonMarkup(ts[..|ts| - 1])
  }

  function SetLast(ts: seq<Token>, k: nat): seq<Token>
    requires k < |ts|
  {
    ts[k := ts[k].(lastInSentence := true)]
  }

  function SetFirst(ts: seq<Token>, k: nat): seq<Token>
    requires k < |ts|
  {
    ts[k := ts[k].(firstInSentence := true)]
  }

  /** The first loop of `_split`. */
  function MarkLast(ts: seq<Token>): seq<Token> {
    match LastNonMarkup(ts)
    case None => ts
    case Some(k) => SetLast(ts, k)
  }

  /** Which branch of the look-ahead's tests a token that is not markup takes. */
  datatype Role = Empty | Upper | Opening | Closing | Other

  /** The tests of the look-ahead, in the source's order. */
  function RoleOf(sp: Splitter, s: string): Role {
    if s == [] then Empty
    else if sp.uc.isUpper(s[0]) then Upper
    else if OpeningPunct(sp, s) && s != "“" then Opening
    else if ClosingPunct(sp, s) then Closing
    else Other
  }

  /** Each role is exactly the test that picks it. */
  lemma RoleOfMeans(sp: Splitter, s: string)
    ensures RoleOf(sp, s) == Empty <==> s == []
    ensures RoleOf(sp, s) == Upper <==> Starts(sp, s)
    ensures RoleOf(sp, s) == Opening <==> Opens(sp, s)
    ensures RoleOf(sp, s) == Closing <==> Closes(sp, s)
  {
  }

  /** What the look-ahead reads of a token. */
  datatype Cell = Cell(markup: bool, eos: bool, role: Role)

  function CellOf(sp: Splitter, t: Token): Cell {
    Cell(t.markup, IsEos(sp, t.text), RoleOf(sp, t.text))
  }

  function Cells(sp: Splitter, ts: seq<Token>): (cs: seq<Cell>)
    ensures |cs| == |ts|
  {
    seq(|ts|, k requires 0 <= k < |ts| => CellOf(sp, ts[k]))
  }

  /** What the look-ahead from a sentence-final token finds. */
  datatype Scan = Boundary(last: nat, first: nat) | NoBoundary | Crash

  /**
    The inner loop of `_split` from position `j`: `lastTok` is the token that
    would end the sentence, `first` the first non-markup token after it seen so
    far, `afterOpening` whether opening punctuation was the last thing seen.
  */
  function ScanFrom(cs: seq<Cell>, j: nat, lastTok: nat, first: Option<nat>, afterOpening: bool): (s: Scan)
    requires lastTok < j <= |cs| && !cs[lastTok].markup
    requires first.Some? ==> lastTok < first.value < j && !cs[first.value].markup
    ensures s.Boundary? ==> lastTok <= s.last < s.first < |cs| && !cs[s.last].markup && !cs[s.first].markup
    decreases |cs| - j
  {
    if j >= |cs| then NoBoundary
    else if cs[j].markup then ScanFrom(cs, j + 1, lastTok, first, afterOpening)
    else
      var f := first.GetOr(j);
      match cs[j].role
      case Empty => Crash
      case Upper => Boundary(lastTok, f)
      case Opening => ScanFrom(cs, j + 1, lastTok, Some(f), true)
      case Closing => if afterOpening then NoBoundary else ScanFrom(cs, j + 1, j, None, false)
      case Other => NoBoundary
  }

  /** The look-ahead crashes only on a token that is not markup and has no text. */
  lemma {:induction false} ScanFromCrash(cs: seq<Cell>, j: nat, lastTok: nat, first: Option<nat>, afterOpening: bool)
    requires lastTok < j <= |cs| && !cs[lastTok].markup
    requires first.Some? ==> lastTok < first.value < j && !cs[first.value].markup
    ensures ScanFrom(cs, j, lastTok, first, afterOpening).Crash? ==>
      exists k | j <= k < |cs| :: !cs[k].markup && cs[k].role == Empty
    decreases |cs| - j
  {
    if j < |cs| {
      var f := first.GetOr(j);
      if cs[j].markup {
        ScanFromCrash(cs, j + 1, lastTok, first, afterOpening);
      } else if cs[j].role == Opening {
        ScanFromCrash(cs, j + 1, lastTok, Some(f), true);
      } else if cs[j].role == Closing && !afterOpening {
        ScanFromCrash(cs, j + 1, j, None, false);
      }
    }
  }

  /** Token `b` is token `a` with perhaps more sentence flags set, and markup is never touched. */
  predicate Raised(a: Token, b: Token) {
    && b == a.(firstInSentence := b.firstInSentence, lastInSentence := b.lastInSentence)
    && (a.firstInSentence ==> b.firstInSentence)
    && (a.lastInSentence ==> b.lastInSentence)
    && (a.markup ==> b == a)
  }

  predicate MoreFlags(ts: seq<Token>, rs: seq<Token>) {
    |rs| == |ts| && forall k | 0 <= k < |ts| :: Raised(ts[k], rs[k])
  }

  /**
    The second loop of `_split` from token `i` on; `cs` is what the look-ahead
    reads of the tokens, which setting flags does not change.  `None` when the
    look-ahead crashes.
  */
  function MarkFrom(cs: seq<Cell>, ts: seq<Token>, i: nat): (r: Option<seq<Token>>)
    requires |cs| == |ts|
    ensures r.Some? ==> |r.value| == |ts|
    decreases |ts| - i
  {
    if i >= |ts| then Some(ts)
    else if cs[i].markup || ts[i].lastInSentence || !cs[i].eos then MarkFrom(cs, ts, i + 1)
    else
      match ScanFrom(cs, i + 1, i, None, false)
      case Crash => None
      case NoBoundary => MarkFrom(cs, ts, i + 1)
      case Boundary(l, f) => MarkFrom(cs, SetFirst(SetLast(ts, l), f), i + 1)
  }

  /** `_split`. */
  function SplitFlags(sp: Splitter, ts: seq<Token>): Option<seq<Token>> {
    MarkFrom(Cells(sp, ts), MarkLast(ts), 0)
  }

  // ---------------------------------------------------------------------------
  // Why a flag is set

  /** Setting flags does not change what the look-ahead reads. */
  lemma CellsKeep(sp: Splitter, ts: seq<Token>, rs: seq<Token>)
    requires MoreFlags(ts, rs)
    ensures Cells(sp, rs) == Cells(sp, ts)
  {
    assert forall k | 0 <= k < |ts| :: Cells(sp, rs)[k] == Cells(sp, ts)[k];
  }

  /**
    Token `k` can end a sentence: it is sentence-final token `i` itself, or
    closing punctuation reached from `i` over closing punctuation only.
  */
  ghost predicate EndsAt(cs: seq<Cell>, i: nat, k: nat) {
    && i <= k < |cs| && !cs[i].markup && !cs[k].markup && cs[i].eos
    && forall m | i < m <= k && !cs[m].markup :: cs[m].role == Closing
  }

  /** Token `m` starts with an upper-case letter and only opening punctuation lies between `k` and `m`. */
  ghost predicate UpperAfter(cs: seq<Cell>, k: nat, m: nat) {
    && k < m < |cs| && !cs[m].markup && cs[m].role == Upper
    && forall p | k < p < m && !cs[p].markup :: cs[p].role == Opening
  }

  /** Why the splitter may end a sentence at token `k`. */
  ghost predicate Justified(cs: seq<Cell>, k: nat) {
    (exists i :: EndsAt(cs, i, k)) && (exists m :: UpperAfter(cs, k, m))
  }

  /** Token `f` is the first non-markup token after token `l`. */
  ghost predicate FirstAfter(cs: seq<Cell>, l: nat, f: nat) {
    l < f < |cs| && !cs[f].markup && forall p | l < p < f :: cs[p].markup
  }

  /** What holds of the look-ahead from sentence-final token `i` each time it reaches token `j`. */
  ghost predicate ScanState(cs: seq<Cell>, i: nat, j: nat, lastTok: nat, afterOpening: bool) {
    && lastTok < j <= |cs| && EndsAt(cs, i, lastTok)
    && (forall p | lastTok < p < j && !cs[p].markup :: cs[p].role == Opening)
    && (!afterOpening ==> forall p | lastTok < p < j :: cs[p].markup)
  }

  /** What the look-ahead knows about the first token after `lastTok` when it reaches token `j`. */
  ghost predicate FirstState(cs: seq<Cell>, j: nat, lastTok: nat, first: Option<nat>) {
    && lastTok < j <= |cs| && !cs[lastTok].markup
    && (first.None? ==> forall p | lastTok < p < j :: cs[p].markup)
    && (first.Some? ==> FirstAfter(cs, lastTok, first.value) && first.value < j)
  }

  lemma FirstNext(cs: seq<Cell>, j: nat, lastTok: nat, first: Option<nat>)
    requires FirstState(cs, j, lastTok, first) && j < |cs| && !cs[j].markup
    ensures FirstState(cs, j + 1, lastTok, Some(first.GetOr(j)))
  {
  }

  /** A boundary found by the look-ahead from sentence-final token `i` is justified. */
  lemma {:induction false} ScanFromJustified(cs: seq<Cell>, i: nat, j: nat, lastTok: nat,
                                             first: Option<nat>, afterOpening: bool)
    requires ScanState(cs, i, j, lastTok, afterOpening) && FirstState(cs, j, lastTok, first)
    ensures var s := ScanFrom(cs, j, lastTok, first, afterOpening);
      s.Boundary? ==> EndsAt(cs, i, s.last) && Justified(cs, s.last)
    decreases |cs| - j
  {
    if j < |cs| && !cs[j].markup {
      if cs[j].role == Upper {
        assert UpperAfter(cs, lastTok, j);
      } else if cs[j].role == Opening {
        FirstNext(cs, j, lastTok, first);
        ScanFromJustified(cs, i, j + 1, lastTok, Some(first.GetOr(j)), true);
      } else if cs[j].role == Closing && !afterOpening {
        assert EndsAt(cs, i, j);
        ScanFromJustified(cs, i, j + 1, j, None, false);
      }
    } else if j < |cs| {
      ScanFromJustified(cs, i, j + 1, lastTok, first, afterOpening);
    }
  }

  /** The first token of the next sentence is the first non-markup token after the last one of this sentence. */
  lemma {:induction false} ScanFromFirst(cs: seq<Cell>, j: nat, lastTok: nat, first: Option<nat>, afterOpening: bool)
    requires FirstState(cs, j, lastTok, first)
    ensures var s := ScanFrom(cs, j, lastTok, first, afterOpening);
      s.Boundary? ==> FirstAfter(cs, s.last, s.first)
    decreases |cs| - j
  {
    if j < |cs| {
      if cs[j].markup {
        ScanFromFirst(cs, j + 1, lastTok, first, afterOpening);
      } else if cs[j].role == Upper {
        FirstNext(cs, j, lastTok, first);
      } else if cs[j].role == Opening {
        FirstNext(cs, j, lastTok, first);
        ScanFromFirst(cs, j + 1, lastTok, Some(first.GetOr(j)), true);
      } else if cs[j].role == Closing && !afterOpening {
        ScanFromFirst(cs, j + 1, j, None, false);
      }
    }
  }

  // ---------------------------------------------------------------------------
  // What `_split` changes

  /** Flagging the two tokens of a boundary that are not markup raises their flags only. */
  lemma RaiseBoundary(ts: seq<Token>, l: nat, f: nat)
    requires l < |ts| && f < |ts| && !ts[l].markup && !ts[f].markup
    ensures MoreFlags(ts, SetFirst(SetLast(ts, l), f))
  {
  }

  lemma MoreFlagsTrans(a: seq<Token>, b: seq<Token>, c: seq<Token>)
    requires MoreFlags(a, b) && MoreFlags(b, c)
    ensures MoreFlags(a, c)
  {
  }

  /** The cells `cs` say which of the tokens `ts` are markup and which are empty. */
  predicate Reads(cs: seq<Cell>, ts: seq<Token>) {
    |cs| == |ts| && forall k | 0 <= k < |ts| :: cs[k].markup == ts[k].markup && (cs[k].role == Empty <==> ts[k].text == [])
  }

  lemma ReadsKeep(cs: seq<Cell>, ts: seq<Token>, rs: seq<Token>)
    requires Reads(cs, ts) && MoreFlags(ts, rs)
    ensures Reads(cs, rs)
  {
  }

  /** The flag-setting loop only adds flags, never to markup, and leaves everything else alone. */
  lemma {:induction false} MarkFromRaises(cs: seq<Cell>, ts: seq<Token>, i: nat)
    requires Reads(cs, ts)
    ensures var r := MarkFrom(cs, ts, i); r.Some? ==> MoreFlags(ts, r.value)
    decreases |ts| - i
  {
    if i < |ts| && !cs[i].markup && !ts[i].lastInSentence && cs[i].eos {
      match ScanFrom(cs, i + 1, i, None, false)
      case Crash =>
      case NoBoundary => MarkFromRaises(cs, ts, i + 1);
      case Boundary(l, f) =>
        var ts' := SetFirst(SetLast(ts, l), f);
        RaiseBoundary(ts, l, f);
        ReadsKeep(cs, ts, ts');
        MarkFromRaises(cs, ts', i + 1);
        var r := MarkFrom(cs, ts', i + 1);
        if r.Some? {
          MoreFlagsTrans(ts, ts', r.value);
        }
    } else if i < |ts| {
      MarkFromRaises(cs, ts, i + 1);
    }
  }

  /**
    Every token of `rs` newly marked last (with respect to `ts`) is justified,
    and the first token that is not markup after it is marked first.
  */
  ghost predicate LastSound(cs: seq<Cell>, ts: seq<Token>, rs: seq<Token>)
    requires |cs| == |ts| == |rs|
  {
    forall k | 0 <= k < |ts| && rs[k].lastInSentence && !ts[k].lastInSentence ::
      Justified(cs, k) && exists f: nat :: FirstAfter(cs, k, f) && rs[f].firstInSentence
  }

  /** Every token of `rs` newly marked first follows, after markup only, a token marked last. */
  ghost predicate FirstSound(cs: seq<Cell>, ts: seq<Token>, rs: seq<Token>)
    requires |cs| == |ts| == |rs|
  {
    forall k | 0 <= k < |ts| && rs[k].firstInSentence && !ts[k].firstInSentence ::
      exists l: nat :: FirstAfter(cs, l, k) && rs[l].lastInSentence
  }

  lemma BoundarySound(cs: seq<Cell>, ts: seq<Token>, l: nat, f: nat, rs: seq<Token>)
    requires l < |ts| && f < |ts| && |cs| == |rs| == |ts| && Justified(cs, l) && FirstAfter(cs, l, f)
    requires MoreFlags(SetFirst(SetLast(ts, l), f), rs)
    requires LastSound(cs, SetFirst(SetLast(ts, l), f), rs) && FirstSound(cs, SetFirst(SetLast(ts, l), f), rs)
    ensures LastSound(cs, ts, rs) && FirstSound(cs, ts, rs)
  {
    var ts' := SetFirst(SetLast(ts, l), f);
    assert rs[f].firstInSentence && rs[l].lastInSentence;
    forall k | 0 <= k < |ts| && rs[k].lastInSentence && !ts[k].lastInSentence
      ensures Justified(cs, k) && exists f: nat :: FirstAfter(cs, k, f) && rs[f].firstInSentence
    {
      if k == l {
        assert FirstAfter(cs, k, f) && rs[f].firstInSentence;
      } else {
        assert !ts'[k].lastInSentence;
      }
    }
    forall k | 0 <= k < |ts| && rs[k].firstInSentence && !ts[k].firstInSentence
      ensures exists l: nat :: FirstAfter(cs, l, k) && rs[l].lastInSentence
    {
      if k == f {
        assert FirstAfter(cs, l, k) && rs[l].lastInSentence;
      } else {
        assert !ts'[k].firstInSentence;
      }
    }
  }

  /** The flags the loop adds are sound. */
  lemma {:induction false} MarkFromSound(cs: seq<Cell>, ts: seq<Token>, i: nat)
    requires Reads(cs, ts)
    ensures var r := MarkFrom(cs, ts, i);
      r.Some? ==> LastSound(cs, ts, r.value) && FirstSound(cs, ts, r.value)
    decreases |ts| - i
  {
    if i < |ts| && !cs[i].markup && !ts[i].lastInSentence && cs[i].eos {
      match ScanFrom(cs, i + 1, i, None, false)
      case Crash =>
      case NoBoundary => MarkFromSound(cs, ts, i + 1);
      case Boundary(l, f) =>
        var ts' := SetFirst(SetLast(ts, l), f);
        ScanFromJustified(cs, i, i + 1, i, None, false);
        ScanFromFirst(cs, i + 1, i, None, false);
        RaiseBoundary(ts, l, f);
        ReadsKeep(cs, ts, ts');
        MarkFromSound(cs, ts', i + 1);
        MarkFromRaises(cs, ts', i + 1);
        var r := MarkFrom(cs, ts', i + 1);
        if r.Some? {
          BoundarySound(cs, ts, l, f, r.value);
        }
    } else if i < |ts| {
      MarkFromSound(cs, ts, i + 1);
    }
  }

  /** The loop crashes only on a token that is not markup and has no text. */
  lemma {:induction false} MarkFromCrash(cs: seq<Cell>, ts: seq<Token>, i: nat)
    requires Reads(cs, ts)
    ensures MarkFrom(cs, ts, i).None? ==> exists k | i < k < |ts| :: !ts[k].markup && ts[k].text == []
    decreases |ts| - i
  {
    if i < |ts| && !cs[i].markup && !ts[i].lastInSentence && cs[i].eos {
      match ScanFrom(cs, i + 1, i, None, false)
      case Crash => ScanFromCrash(cs, i + 1, i, None, false);
      case NoBoundary => MarkFromCrash(cs, ts, i + 1);
      case Boundary(l, f) =>
        var ts' := SetFirst(SetLast(ts, l), f);
        RaiseBoundary(ts, l, f);
        ReadsKeep(cs, ts, ts');
        MarkFromCrash(cs, ts', i + 1);
    } else if i < |ts| {
      MarkFromCrash(cs, ts, i + 1);
    }
  }

  // ---------------------------------------------------------------------------
  // `_split` as a whole

  lemma CellsRead(sp: Splitter, ts: seq<Token>)
    ensures Reads(Cells(sp, ts), ts)
  {
  }

  /** The first loop marks the last token that is not markup, and nothing else. */
  lemma MarkLastRaises(ts: seq<Token>)
    ensures MoreFlags(ts, MarkLast(ts))
    ensures LastNonMarkup(ts).Some? ==> MarkLast(ts)[LastNonMarkup(ts).value].lastInSentence
    ensures forall k | 0 <= k < |ts| && Some(k) != LastNonMarkup(ts) :: MarkLast(ts)[k] == ts[k]
  {
  }

  /**
    `_split` only sets sentence flags, never on markup, and keeps the ones
    already set; the last token that is not markup always ends a sentence.
  */
  lemma SplitFlagsRaises(sp: Splitter, ts: seq<Token>)
    ensures var r := SplitFlags(sp, ts);
      r.Some? ==> MoreFlags(ts, r.value)
                  && (LastNonMarkup(ts).Some? ==> r.value[LastNonMarkup(ts).value].lastInSentence)
  {
    var m := MarkLast(ts);
    MarkLastRaises(ts);
    CellsRead(sp, ts);
    ReadsKeep(Cells(sp, ts), ts, m);
    MarkFromRaises(Cells(sp, ts), m, 0);
    var r := SplitFlags(sp, ts);
    if r.Some? {
      MoreFlagsTrans(ts, m, r.value);
    }
  }

  /**
    Apart from the last token that is not markup, `_split` ends a sentence only
    where it is justified, and then starts the next sentence at the first token
    that is not markup.
  */
  lemma SplitFlagsLast(sp: Splitter, ts: seq<Token>)
    ensures var r := SplitFlags(sp, ts);
      r.Some? ==> forall k | 0 <= k < |ts| && r.value[k].lastInSentence && !ts[k].lastInSentence
                               && Some(k) != LastNonMarkup(ts) ::
        Justified(Cells(sp, ts), k) && exists f: nat :: FirstAfter(Cells(sp, ts), k, f) && r.value[f].firstInSentence
  {
    var m := MarkLast(ts);
    MarkLastRaises(ts);
    CellsRead(sp, ts);
    ReadsKeep(Cells(sp, ts), ts, m);
    MarkFromSound(Cells(sp, ts), m, 0);
  }

  /** `_split` starts a sentence only right after (and markup) a token that ends one. */
  lemma SplitFlagsFirst(sp: Splitter, ts: seq<Token>)
    ensures var r := SplitFlags(sp, ts);
      r.Some? ==> FirstSound(Cells(sp, ts), ts, r.value)
  {
    var m := MarkLast(ts);
    MarkLastRaises(ts);
    CellsRead(sp, ts);
    ReadsKeep(Cells(sp, ts), ts, m);
    MarkFromSound(Cells(sp, ts), m, 0);
  }

  /** `_split` fails only on a token that is not markup and has no text. */
  lemma SplitFlagsCrash(sp: Splitter, ts: seq<Token>)
    ensures SplitFlags(sp, ts).None? ==> exists k | 0 <= k < |ts| :: !ts[k].markup && ts[k].text == []
  {
    var m := MarkLast(ts);
    MarkLastRaises(ts);
    CellsRead(sp, ts);
    ReadsKeep(Cells(sp, ts), ts, m);
    MarkFromCrash(Cells(sp, ts), m, 0);
  }

  // ---------------------------------------------------------------------------
  // `_split` on the token list, in place

  /**
    The backward loops of `_split` and `split_xml`: walk back from position
    `n` to the last token before it that is not markup and mark it.
  */
  method MarkLastBefore(a: array<Token>, n: nat)
    requires n <= a.Length
    modifies a
    ensures a[..] == MarkLast(old(a[..n])) + old(a[n..])
  {
    ghost var pre, post := a[..n], a[n..];
    assert a[..] == pre + post;
    var k := n;
    while k > 0
      invariant 0 <= k <= n && a[..] == old(a[..])
      invariant LastNonMarkup(pre) == LastNonMarkup(pre[..k])
    {
      k := k - 1;
      assert pre[..k + 1][..k] == pre[..k];
      if !a[k].markup {
        a[k] := a[k].(lastInSentence := true);
        assert a[..] == SetLast(pre, k) + post;
        return;
      }
    }
  }

  /** One step of the look-ahead at token `j`. */
  lemma ScanFromNext(cs: seq<Cell>, j: nat, lastTok: nat, first: Option<nat>, afterOpening: bool)
    requires lastTok < j < |cs| && !cs[lastTok].markup
    requires first.Some? ==> lastTok < first.value < j && !cs[first.value].markup
    ensures var s := ScanFrom(cs, j, lastTok, first, afterOpening);
      && (cs[j].markup ==> s == ScanFrom(cs, j + 1, lastTok, first, afterOpening))
      && (!cs[j].markup && cs[j].role == Empty ==> s == Crash)
      && (!cs[j].markup && cs[j].role == Upper ==> s == Boundary(lastTok, first.GetOr(j)))
      && (!cs[j].markup && cs[j].role == Opening ==> s == ScanFrom(cs, j + 1, lastTok, Some(first.GetOr(j)), true))
      && (!cs[j].markup && cs[j].role == Closing && !afterOpening ==> s == ScanFrom(cs, j + 1, j, None, false))
      && (!cs[j].markup && (cs[j].role == Other || (cs[j].role == Closing && afterOpening)) ==> s == NoBoundary)
  {
  }

  /**
    One token of the inner loop of `_split`: either the look-ahead ends here
    with `done`, or it goes on to token `j + 1` in the returned state.
  */
  method LookAt(sp: Splitter, a: array<Token>, ghost cs: seq<Cell>, j: nat, lastTok: nat, first: Option<nat>, afterOpening: bool)
    returns (done: Option<Scan>, lastTok': nat, first': Option<nat>, afterOpening': bool)
    requires |cs| == a.Length && j < a.Length && cs[j] == CellOf(sp, a[j])
    requires lastTok < j < a.Length && !cs[lastTok].markup
    requires first.Some? ==> lastTok < first.value < j && !cs[first.value].markup
    ensures done.Some? ==> done.value == ScanFrom(cs, j, lastTok, first, afterOpening)
    ensures done.None? ==>
      && lastTok' < j + 1 && !cs[lastTok'].markup
      && (first'.Some? ==> lastTok' < first'.value < j + 1 && !cs[first'.value].markup)
      && ScanFrom(cs, j, lastTok, first, afterOpening) == ScanFrom(cs, j + 1, lastTok', first', afterOpening')
  {
    var t := a[j];
    ScanFromNext(cs, j, lastTok, first, afterOpening);
    done, lastTok', first', afterOpening' := None, lastTok, first, afterOpening;
    if !t.markup {
      if first.None? {
        first' := Some(j);
      }
      match RoleOf(sp, t.text)
      case Empty =>
        done := Some(Crash);
      case Upper =>
        done := Some(Boundary(lastTok, first'.value));
      case Opening =>
        afterOpening' := true;
      case Closing =>
        if afterOpening {
          done := Some(NoBoundary);
        } else {
          lastTok', first', afterOpening' := j, None, false;
        }
      case Other =>
        done := Some(NoBoundary);
    }
  }

  /** The inner loop of `_split`: the look-ahead from sentence-final token `i`. */
  method ScanAhead(sp: Splitter, a: array<Token>, ghost cs: seq<Cell>, i: nat) returns (s: Scan)
    requires |cs| == a.Length && forall k {:trigger a[k]} | 0 <= k < a.Length :: cs[k] == CellOf(sp, a[k])
    requires i < a.Length && !cs[i].markup
    ensures s == ScanFrom(cs, i + 1, i, None, false)
  {
    ghost var goal := ScanFrom(cs, i + 1, i, None, false);
    var lastTok: nat, first: Option<nat>, afterOpening := i, None, false;
    var j: nat := i + 1;
    while j < a.Length
      invariant |cs| == a.Length && lastTok < j <= a.Length && !cs[lastTok].markup
      invariant first.Some? ==> lastTok < first.value < j && !cs[first.value].markup
      invariant goal == ScanFrom(cs, j, lastTok, first, afterOpening)
    {
      ghost var now := ScanFrom(cs, j, lastTok, first, afterOpening);
      var done;
      done, lastTok, first, afterOpening := LookAt(sp, a, cs, j, lastTok, first, afterOpening);
      if done.Some? {
        return done.value;
      }
      assert now == ScanFrom(cs, j + 1, lastTok, first, afterOpening);
      j := j + 1;
    }
    return NoBoundary;
  }

  /** One round of the second loop of `_split`, at token `i`. */
  lemma MarkFromNext(cs: seq<Cell>, ts: seq<Token>, i: nat)
    requires |cs| == |ts| && i < |ts|
    ensures cs[i].markup || ts[i].lastInSentence || !cs[i].eos ==> MarkFrom(cs, ts, i) == MarkFrom(cs, ts, i + 1)
    ensures !cs[i].markup && !ts[i].lastInSentence && cs[i].eos ==>
      var s := ScanFrom(cs, i + 1, i, None, false);
      && (s.Crash? ==> MarkFrom(cs, ts, i).None?)
      && (s.NoBoundary? ==> MarkFrom(cs, ts, i) == MarkFrom(cs, ts, i + 1))
      && (s.Boundary? ==> MarkFrom(cs, ts, i) == MarkFrom(cs, SetFirst(SetLast(ts, s.last), s.first), i + 1))
  {
  }

  /**
    One round of the second loop of `_split`: token `i` is looked at, and if it
    ends a sentence the look-ahead runs and the boundary it finds is flagged.
    `false` where the look-ahead raises.
  */
  method MarkAt(sp: Splitter, a: array<Token>, ghost cs: seq<Cell>, i: nat) returns (ok: bool)
    requires |cs| == a.Length && i < a.Length
    requires forall k {:trigger a[k]} | 0 <= k < a.Length :: cs[k] == CellOf(sp, a[k])
    modifies a
    ensures forall k {:trigger a[k]} | 0 <= k < a.Length :: cs[k] == CellOf(sp, a[k])
    ensures ok ==> MarkFrom(cs, old(a[..]), i) == MarkFrom(cs, a[..], i + 1)
    ensures !ok ==> MarkFrom(cs, old(a[..]), i).None?
  {
    var t := a[i];
    MarkFromNext(cs, a[..], i);
    ok := true;
    if !t.markup && !t.lastInSentence && IsEos(sp, t.text) {
      var s := ScanAhead(sp, a, cs, i);
      if s.Crash? {
        return false;
      }
      if s.Boundary? {
        ghost var before := a[..];
        a[s.last] := a[s.last].(lastInSentence := true);
        a[s.first] := a[s.first].(firstInSentence := true);
        assert a[..] == SetFirst(SetLast(before, s.last), s.first);
        forall k | 0 <= k < a.Length
          ensures cs[k] == CellOf(sp, a[k])
        {
          assert CellOf(sp, a[k]) == CellOf(sp, before[k]);
        }
      }
    }
  }

  /** `_split`: sets the sentence flags of the tokens in place; `false` where the source raises. */
  method SplitTokens(sp: Splitter, a: array<Token>) returns (ok: bool)
    modifies a
    ensures var r := SplitFlags(sp, old(a[..]));
      ok == r.Some? && (ok ==> a[..] == r.value)
  {
    ghost var a0 := a[..];
    ghost var cs := Cells(sp, a0);
    assert a[..a.Length] == a0 && a[a.Length..] == [];
    MarkLastBefore(a, a.Length);
    ghost var m := a[..];
    assert m == MarkLast(a0) + [];
    assert m == MarkLast(a0);
    MarkLastRaises(a0);
    CellsKeep(sp, a0, m);
    forall k | 0 <= k < a.Length
      ensures cs[k] == CellOf(sp, a[k])
    {
      assert a[k] == m[k];
    }
    var i := 0;
    while i < a.Length
      invariant 0 <= i <= a.Length && |cs| == a.Length
      invariant forall k {:trigger a[k]} | 0 <= k < a.Length :: cs[k] == CellOf(sp, a[k])
      invariant MarkFrom(cs, m, 0) == MarkFrom(cs, a[..], i)
    {
      ghost var now := MarkFrom(cs, a[..], i);
      ok := MarkAt(sp, a, cs, i);
      if !ok {
        return;
      }
      assert now == MarkFrom(cs, a[..], i + 1);
      i := i + 1;
    }
    return true;
  }

  // ---------------------------------------------------------------------------
  // `split`: the paragraph cut after each token flagged last

  predicate Increasing(bs: seq<nat>) {
    forall p, q | 0 <= p < q < |bs| :: bs[p] < bs[q]
  }

  /** Every boundary lies in `lo + 1 .. hi`. */
  predicate Within(bs: seq<nat>, lo: nat, hi: nat) {
    forall p | 0 <= p < |bs| :: lo < bs[p] <= hi
  }

  /** A boundary below all of an increasing list keeps it increasing. */
  lemma IncreasingCons(h: nat, bs: seq<nat>, lo: nat, hi: nat)
    requires Increasing(bs) && Within(bs, h, hi) && lo < h <= hi
    ensures Increasing([h] + bs) && Within([h] + bs, lo, hi)
  {
    var r := [h] + bs;
    forall p, q | 0 <= p < q < |r|
      ensures r[p] < r[q]
    {
      if p > 0 {
        assert r[p] == bs[p - 1] && r[q] == bs[q - 1];
      }
    }
  }

  /** The sentence boundaries of `split`: one past each token flagged last, in order. */
  function Ends(ts: seq<Token>): (bs: seq<nat>)
    ensures forall b :: b in bs <==> 1 <= b <= |ts| && ts[b - 1].lastInSentence
    ensures Increasing(bs) && Within(bs, 0, |ts|)
  {
    if ts == [] then []
    else
      var e := Ends(ts[..|ts| - 1]);
      e + (if ts[|ts| - 1].lastInSentence then [|ts|] else [])
  }

  /**
    The slices `items[i:j]` over consecutive boundaries `i, j` of `bs`, the
    first one starting at `from`: the comprehension over
    `zip([0] + bs[:-1], bs)` with `from == 0`.
  */
  function Slices<T>(items: seq<T>, from: nat, bs: seq<nat>): (r: seq<seq<T>>)
    requires from <= |items| && Increasing(bs) && Within(bs, from, |items|)
    ensures |r| == |bs|
    decreases |bs|
  {
    if bs == [] then [] else [items[from..bs[0]]] + Slices(items, bs[0], bs[1..])
  }

  /** The last boundary of `bs`, or `d` when there is none. */
  function LastOr(bs: seq<nat>, d: nat): nat {
    if bs == [] then d else bs[|bs| - 1]
  }

  /** The slices are non-empty and together are the items from `from` to the last boundary. */
  lemma {:induction false} SlicesCover<T>(items: seq<T>, from: nat, bs: seq<nat>)
    requires from <= |items| && Increasing(bs) && Within(bs, from, |items|)
    ensures Flatten(Slices(items, from, bs)) == items[from..LastOr(bs, from)]
    ensures forall s | s in Slices(items, from, bs) :: s != []
    decreases |bs|
  {
    if bs != [] {
      assert bs[1..] == [] || bs[1..][|bs[1..]| - 1] == bs[|bs| - 1];
      SlicesCover(items, bs[0], bs[1..]);
      var r := Slices(items, from, bs);
      assert r[1..] == Slices(items, bs[0], bs[1..]);
      assert bs[0] <= LastOr(bs, from) by {
        if |bs| > 1 {
          assert bs[0] < bs[|bs| - 1];
        }
      }
      SliceJoin(items, from, bs[0], LastOr(bs, from));
    }
  }

  /** When `n` is a boundary and none is beyond it, it is the last one. */
  lemma LastIsMax(bs: seq<nat>, n: nat, d: nat)
    requires Increasing(bs) && n in bs && Within(bs, 0, n)
    ensures LastOr(bs, d) == n
  {
  }

  /** The tokens `split` builds, one plain token per item, from the text `text` picks out of it. */
  function Paragraph<T>(items: seq<T>, text: T -> string): (ts: seq<Token>)
    ensures |ts| == |items| && forall k | 0 <= k < |items| :: ts[k] == Plain(text(items[k]))
  {
    seq(|items|, k requires 0 <= k < |items| => Plain(text(items[k])))
  }

  /** The sentence boundaries of `split`; `None` where `_split` raises. */
  function SentenceEnds<T>(sp: Splitter, items: seq<T>, text: T -> string): (r: Option<seq<nat>>)
    ensures r.Some? ==> Increasing(r.value) && Within(r.value, 0, |items|)
  {
    match SplitFlags(sp, Paragraph(items, text))
    case None => None
    case Some(rs) => Some(Ends(rs))
  }

  /**
    `split`: the items cut into sentences at the flags `_split` sets; `text`
    is the item itself, or its first component when the splitter was made with
    `is_tuple`.  `None` where `_split` raises.
  */
  function SplitSentences<T>(sp: Splitter, items: seq<T>, text: T -> string): Option<seq<seq<T>>> {
    match SentenceEnds(sp, items, text)
    case None => None
    case Some(bs) => Some(Slices(items, 0, bs))
  }

  /** Cutting after each flagged token partitions the items when the last token is flagged. */
  lemma EndsPartition<T>(items: seq<T>, rs: seq<Token>)
    requires |rs| == |items| && (rs != [] ==> rs[|rs| - 1].lastInSentence)
    ensures Flatten(Slices(items, 0, Ends(rs))) == items
    ensures forall s | s in Slices(items, 0, Ends(rs)) :: s != []
  {
    var bs := Ends(rs);
    SlicesCover(items, 0, bs);
    if items != [] {
      assert |items| in bs;
      LastIsMax(bs, |items|, 0);
    }
    assert items[0..LastOr(bs, 0)] == items;
  }

  /** `split` partitions the paragraph: its sentences are non-empty and concatenate back to it. */
  lemma SplitPartitions<T>(sp: Splitter, items: seq<T>, text: T -> string)
    ensures var r := SplitSentences(sp, items, text);
      r.Some? ==> Flatten(r.value) == items && forall s | s in r.value :: s != []
  {
    var ts := Paragraph(items, text);
    match SplitFlags(sp, ts)
    case None =>
    case Some(rs) =>
      if items != [] {
        assert LastNonMarkup(ts) == Some(|ts| - 1);
        SplitFlagsRaises(sp, ts);
      }
      EndsPartition(items, rs);
  }

  /** `split` fails only on an item whose text is empty. */
  lemma SplitTotal<T>(sp: Splitter, items: seq<T>, text: T -> string)
    requires forall k | 0 <= k < |items| :: text(items[k]) != []
    ensures SplitSentences(sp, items, text).Some?
  {
    SplitFlagsCrash(sp, Paragraph(items, text));
  }

  /**
    Every sentence of `split` but the last ends at a token the look-ahead
    justifies: sentence-final punctuation or an end-of-sentence abbreviation,
    perhaps followed by closing punctuation, and then an upper-case token
    after opening punctuation only.
  */
  lemma SplitEndsJustified<T>(sp: Splitter, items: seq<T>, text: T -> string)
    ensures var r := SentenceEnds(sp, items, text);
      r.Some? ==> forall b | b in r.value && b < |items| :: Justified(Cells(sp, Paragraph(items, text)), b - 1)
  {
    var ts := Paragraph(items, text);
    if SplitFlags(sp, ts).Some? {
      SplitFlagsLast(sp, ts);
      if items != [] {
        assert LastNonMarkup(ts) == Some(|ts| - 1);
      }
    }
  }

  /** `split` on the items, with `_split` run in place on the tokens it builds. */
  method Split<T>(sp: Splitter, items: seq<T>, text: T -> string) returns (r: Option<seq<seq<T>>>)
    ensures r == SplitSentences(sp, items, text)
  {
    var a := new Token[|items|](k requires 0 <= k < |items| => Plain(text(items[k])));
    assert a[..] == Paragraph(items, text);
    var ok := SplitTokens(sp, a);
    if !ok {
      return None;
    }
    var bs := Ends(a[..]);
    r := Some(Slices(items, 0, bs));
  }
}
