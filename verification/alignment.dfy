/**
  The alignment of the tokens with the raw text in somajo/tokenizer.py.
  `_check_spaces` normalises the paragraph (junk between white space and
  runs of white space become single blanks, the ends are stripped) and
  then walks the tokens, consuming the normalised text from the left: a
  token that is not a prefix of what is left is searched for character by
  character, and what was consumed for it is its original spelling; junk
  right after a token is added to its spelling; a token not followed by a
  blank gets `SpaceAfter=No`.

  The tokens are taken as their texts: this version of the source's `_check_spaces`
  reads an attribute `token` that somajo/token.py does not declare.
  Warnings become returned flags.
*/
module Alignment {
  import opened Wrappers
  import opened Seqs
  import opened Chars
  import opened Normalization

  // ---------------------------------------------------------------------
  // The normalisation of the raw text (somajo/tokenizer.py:458-460)

  /** A character of the class of `junk_between_spaces`: white space or junk. */
  predicate SpaceOrJunk(c: char) {
    IsSpace(c) || IsJunk(c)
  }

  /** The length of the leading run of white space and junk. */
  function ClassRun(s: string): (k: nat)
    ensures k <= |s|
    ensures forall i :: 0 <= i < k ==> SpaceOrJunk(s[i])
    ensures k < |s| ==> !SpaceOrJunk(s[k])
  {
    if s == [] || !SpaceOrJunk(s[0]) then 0 else 1 + ClassRun(s[1..])
  }

  /** The position of the first white-space character, or `|r|` if there is none. */
  function FirstSpace(r: string): (k: nat)
    ensures k <= |r|
    ensures forall i :: 0 <= i < k ==> !RegexSpace(r[i])
    ensures k < |r| ==> RegexSpace(r[k])
  {
    if r == [] || RegexSpace(r[0]) then 0 else 1 + FirstSpace(r[1..])
  }

  /** One past the position of the last white-space character, or 0 if there is none. */
  function LastSpaceEnd(r: string): (k: nat)
    ensures k <= |r|
    ensures forall i :: k <= i < |r| ==> !RegexSpace(r[i])
    ensures k > 0 ==> RegexSpace(r[k - 1])
  {
    if r == [] then 0 else if RegexSpace(r[|r| - 1]) then |r| else LastSpaceEnd(r[..|r| - 1])
  }

  /**
    What `junk_between_spaces.sub(" ", ...)` makes of one maximal run `r`
    of white space and junk.  The pattern
    `(?:^|\s+)[\s<junk>]+(?:\s+|$)` matches, in such a run, from its first
    white space (or from the start of the text) to its last white space (or
    to the end of the text), and only when that stretch is long enough for
    the three parts of the pattern: then the stretch becomes one blank, and
    the junk before it and after it stays.  A run that is the whole text
    becomes one blank.
  */
  function ReplaceRun(r: string, atStart: bool, atEnd: bool): (o: string)
  {
    var f, e := FirstSpace(r), LastSpaceEnd(r);
    if atStart && atEnd then " "
    else if atStart then (if e >= 2 then " " + r[e..] else r)
    else if atEnd then (if f + 2 <= |r| then r[..f] + " " else r)
    else if f + 3 <= e then r[..f] + " " + r[e..]
    else r
  }

  /** The length of the first piece `junk_between_spaces.sub` is applied to: a run of white space and junk, or one other character. */
  function PieceLength(s: string): (k: nat)
    requires s != []
    ensures 0 < k <= |s|
  {
    if SpaceOrJunk(s[0]) then ClassRun(s) else 1
  }

  /** What the substitution makes of the first piece. */
  function Piece(s: string, atStart: bool): (o: string)
    requires s != []
  {
    if SpaceOrJunk(s[0]) then ReplaceRun(s[..PieceLength(s)], atStart, PieceLength(s) == |s|) else [s[0]]
  }

  /** `junk_between_spaces.sub(" ", s)`, piece by piece; `atStart` says whether `s` starts the text. */
  function JunkSub(s: string, atStart: bool): (r: string)
    decreases |s|
  {
    if s == [] then [] else Piece(s, atStart) + JunkSub(s[PieceLength(s)..], false)
  }

  /** The normalised text `_check_spaces` and `_match_xml` align the tokens with. */
  function NormalizeRaw(s: string): (r: string)
  {
    Strip(CollapseSpaces(JunkSub(s, true)))
  }

  lemma {:induction false} RemoveAllInClass(s: string)
    requires forall i :: 0 <= i < |s| ==> SpaceOrJunk(s[i])
    ensures RemoveChars(s, SpaceOrJunk) == []
  {
    if s != [] {
      RemoveAllInClass(s[1..]);
    }
  }

  /** A run is replaced by white space and junk only. */
  lemma ReplaceRunInClass(r: string, atStart: bool, atEnd: bool)
    requires forall i :: 0 <= i < |r| ==> SpaceOrJunk(r[i])
    ensures forall i :: 0 <= i < |ReplaceRun(r, atStart, atEnd)| ==> SpaceOrJunk(ReplaceRun(r, atStart, atEnd)[i])
  {
  }

  lemma PieceKeeps(s: string, atStart: bool)
    requires s != []
    ensures RemoveChars(Piece(s, atStart), SpaceOrJunk) == RemoveChars(s[..PieceLength(s)], SpaceOrJunk)
  {
    var k := PieceLength(s);
    if SpaceOrJunk(s[0]) {
      ReplaceRunInClass(s[..k], atStart, k == |s|);
      RemoveAllInClass(Piece(s, atStart));
      RemoveAllInClass(s[..k]);
    } else {
      assert s[..k] == [s[0]];
    }
  }

  lemma RemoveCharsSplit(s: string, k: nat, inClass: char -> bool)
    requires k <= |s|
    ensures RemoveChars(s, inClass) == RemoveChars(s[..k], inClass) + RemoveChars(s[k..], inClass)
  {
    assert s == s[..k] + s[k..];
    RemoveCharsAppend(s[..k], s[k..], inClass);
  }

  lemma {:induction false} JunkSubKeeps(s: string, atStart: bool)
    ensures RemoveChars(JunkSub(s, atStart), SpaceOrJunk) == RemoveChars(s, SpaceOrJunk)
    decreases |s|
  {
    if s != [] {
      var k := PieceLength(s);
      JunkSubKeeps(s[k..], false);
      RemoveCharsAppend(Piece(s, atStart), JunkSub(s[k..], false), SpaceOrJunk);
      PieceKeeps(s, atStart);
      RemoveCharsSplit(s, k, SpaceOrJunk);
    }
  }

  lemma {:induction false} CollapseKeepsNonClass(s: string)
    ensures RemoveChars(CollapseSpaces(s), SpaceOrJunk) == RemoveChars(s, SpaceOrJunk)
    decreases |s|
  {
    if s != [] {
      if RegexSpace(s[0]) {
        var k := SpaceRun(s);
        CollapseKeepsNonClass(s[k..]);
        RemoveCharsAppend(" ", CollapseSpaces(s[k..]), SpaceOrJunk);
        RemoveAllInClass(" ");
        RemoveAllInClass(s[..k]);
        RemoveCharsAppend(s[..k], s[k..], SpaceOrJunk);
        assert s[..k] + s[k..] == s;
      } else {
        CollapseKeepsNonClass(s[1..]);
        RemoveCharsAppend([s[0]], CollapseSpaces(s[1..]), SpaceOrJunk);
        RemoveCharsAppend([s[0]], s[1..], SpaceOrJunk);
        assert [s[0]] + s[1..] == s;
      }
    }
  }

  /** `Strip(s)` is the slice of `s` between its leading and trailing white space. */
  lemma StripSlice(s: string) returns (a: nat, b: nat)
    ensures a <= b <= |s| && Strip(s) == s[a..b]
    ensures forall i :: 0 <= i < a ==> IsSpace(s[i])
    ensures forall i :: b <= i < |s| ==> IsSpace(s[i])
  {
    var l := LStrip(s);
    LStripSpec(s);
    RStripSpec(l);
    a := |s| - |l|;
    b := a + |RStrip(l)|;
    assert l == s[a..];
    assert RStrip(l) == l[..b - a];
    forall i | b <= i < |s|
      ensures IsSpace(s[i])
    {
      assert s[i] == l[i - a];
    }
  }

  lemma StripKeepsNonClass(s: string)
    ensures RemoveChars(Strip(s), SpaceOrJunk) == RemoveChars(s, SpaceOrJunk)
  {
    var a, b := StripSlice(s);
    assert s == s[..a] + s[a..b] + s[b..];
    RemoveCharsAppend(s[..a] + s[a..b], s[b..], SpaceOrJunk);
    RemoveCharsAppend(s[..a], s[a..b], SpaceOrJunk);
    RemoveAllInClass(s[..a]);
    RemoveAllInClass(s[b..]);
  }

  /** Normalisation drops or replaces white space and junk only: every other character is kept, in order. */
  lemma NormalizeRawKeeps(s: string)
    ensures RemoveChars(NormalizeRaw(s), SpaceOrJunk) == RemoveChars(s, SpaceOrJunk)
  {
    JunkSubKeeps(s, true);
    CollapseKeepsNonClass(JunkSub(s, true));
    StripKeepsNonClass(CollapseSpaces(JunkSub(s, true)));
  }

  /** The normalised text neither starts nor ends with white space, and its white space is single blanks. */
  lemma NormalizeRawShape(s: string)
    ensures var r := NormalizeRaw(s);
      && (r == [] || (!IsSpace(r[0]) && !IsSpace(r[|r| - 1])))
      && Collapsed(r)
  {
    var c := CollapseSpaces(JunkSub(s, true));
    StripSpec(c);
    CollapseSpacesCollapsed(JunkSub(s, true));
    var a, b := StripSlice(c);
    CollapsedSlice(c, a, b);
  }

  /** A slice of collapsed text is collapsed. */
  lemma CollapsedSlice(s: string, a: nat, b: nat)
    requires Collapsed(s) && a <= b <= |s|
    ensures Collapsed(s[a..b])
  {
    var t := s[a..b];
    forall i | 0 <= i < |t| && RegexSpace(t[i])
      ensures t[i] == ' ' && (i + 1 < |t| ==> !RegexSpace(t[i + 1]))
    {
      assert t[i] == s[a + i];
    }
  }

  /** No junk, single blanks, no white space at the end. */
  predicate Tidy(s: string) {
    && (forall i :: 0 <= i < |s| ==> !IsJunk(s[i]))
    && Collapsed(s)
    && (s == [] || !IsSpace(s[|s| - 1]))
  }

  /** Text the tokenizer could have produced unchanged: no junk, single blanks between non-blank characters. */
  predicate AlignedText(s: string) {
    Tidy(s) && (s == [] || !IsSpace(s[0]))
  }

  lemma TidySuffix(s: string, k: nat)
    requires Tidy(s) && k <= |s|
    ensures Tidy(s[k..])
  {
    var t := s[k..];
    forall i | 0 <= i < |t| && RegexSpace(t[i])
      ensures t[i] == ' ' && (i + 1 < |t| ==> !RegexSpace(t[i + 1]))
    {
      assert t[i] == s[k + i];
    }
  }

  /** In tidy text, the substitution leaves the first piece as it is. */
  lemma TidyPiece(s: string, atStart: bool)
    requires Tidy(s) && s != [] && (atStart ==> !IsSpace(s[0]))
    ensures Piece(s, atStart) == s[..PieceLength(s)]
  {
    if SpaceOrJunk(s[0]) {
      assert IsSpace(s[0]) && s[0] == ' ' && !IsSpace(s[1]) && !IsJunk(s[1]);
      assert PieceLength(s) == 1;
      assert FirstSpace(s[..1]) == 0;
      assert LastSpaceEnd(s[..1]) == 1;
    }
  }

  lemma {:induction false} JunkSubClean(s: string, atStart: bool)
    requires Tidy(s)
    requires atStart ==> s == [] || !IsSpace(s[0])
    ensures JunkSub(s, atStart) == s
    decreases |s|
  {
    if s != [] {
      var k := PieceLength(s);
      TidySuffix(s, k);
      JunkSubClean(s[k..], false);
      TidyPiece(s, atStart);
      assert s == s[..k] + s[k..];
    }
  }

  /** Clean text is its own normalisation. */
  lemma NormalizeRawClean(s: string)
    requires AlignedText(s)
    ensures NormalizeRaw(s) == s
  {
    JunkSubClean(s, true);
    CollapseSpacesFixed(s);
    if s != [] {
      assert LStrip(s) == s;
      assert RStrip(s) == s;
    }
  }

  // ---------------------------------------------------------------------
  // What is recorded for a token (somajo/tokenizer.py:486-494)

  /** The annotation of one token: whether a blank followed it, and its original spelling if it had one. */
  datatype Info = Info(spaceAfter: bool, originalSpelling: Option<string>)

  /** The extra-info string: `SpaceAfter=No` first, then `OriginalSpelling="..."`, separated by a comma. */
  function RenderInfo(i: Info): (s: string)
  {
    var spelling := if i.originalSpelling.Some? then "OriginalSpelling=\"" + i.originalSpelling.value + "\"" else "";
    if i.spaceAfter then spelling
    else if spelling == "" then "SpaceAfter=No"
    else "SpaceAfter=No" + (", " + spelling)
  }

  function ParseSpelling(s: string): (o: Option<string>)
  {
    if |s| >= 19 && s[..18] == "OriginalSpelling=\"" && s[|s| - 1] == '"' then Some(s[18..|s| - 1]) else None
  }

  /** Reading an extra-info string back. */
  function ParseInfo(s: string): (i: Info)
  {
    if |s| >= 13 && s[..13] == "SpaceAfter=No" then
      var t := s[13..];
      Info(false, if |t| >= 2 && t[..2] == ", " then ParseSpelling(t[2..]) else None)
    else Info(true, ParseSpelling(s))
  }

  /** The extra-info string determines the annotation: distinct annotations are rendered differently. */
  lemma RenderInfoParses(i: Info)
    ensures ParseInfo(RenderInfo(i)) == i
  {
    var q := "OriginalSpelling=\"";
    if i.originalSpelling.Some? {
      var o := i.originalSpelling.value;
      var sp := q + o + "\"";
      assert sp[..18] == q && sp[|sp| - 1] == '"' && sp[18..|sp| - 1] == o;
      if !i.spaceAfter {
        var s := "SpaceAfter=No" + (", " + sp);
        assert s[..13] == "SpaceAfter=No" && s[13..] == ", " + sp;
        assert (", " + sp)[..2] == ", " && (", " + sp)[2..] == sp;
      } else {
        assert sp[..13] != "SpaceAfter=No" by {
          assert sp[0] == 'O';
        }
      }
    } else if !i.spaceAfter {
      assert "SpaceAfter=No"[13..] == [];
    }
  }

  // ---------------------------------------------------------------------
  // The search for a token that is not a prefix (somajo/tokenizer.py:468-479)

  /** The first position at or after `j` that holds `c`, or `|s|` if there is none. */
  function FindFrom(s: string, j: nat, c: char): (k: nat)
    requires j <= |s|
    ensures j <= k <= |s|
    ensures forall p :: j <= p < k ==> s[p] != c
    ensures k < |s| ==> s[k] == c
    decreases |s| - j
  {
    if j == |s| || s[j] == c then j else FindFrom(s, j + 1, c)
  }

  /** How far the search got: the position in the text and the position in the token. */
  datatype Scan = Scan(consumed: nat, matched: nat)

  /**
    The search of `tok[i..]` in `norm[j..]`: for every character of the
    token in turn, the text is consumed up to and including that
    character's next occurrence; once the text runs out, the characters
    left fail.
  */
  function ScanFrom(norm: string, j: nat, tok: string, i: nat): (r: Scan)
    requires j <= |norm| && i <= |tok|
    ensures j <= r.consumed <= |norm| && i <= r.matched <= |tok|
    ensures r.matched < |tok| ==> r.consumed == |norm|
    decreases |tok| - i
  {
    if i == |tok| then Scan(j, i)
    else
      var k := FindFrom(norm, j, tok[i]);
      if k == |norm| then Scan(|norm|, i) else ScanFrom(norm, k + 1, tok, i + 1)
  }

  /** `a[i..n]` can be obtained from `b[j..c]` by deleting characters. */
  predicate Embeds(a: string, i: nat, n: nat, b: string, j: nat, c: nat)
    requires i <= n <= |a| && j <= c <= |b|
    decreases c - j
  {
    i == n || (j < c && ((a[i] == b[j] && Embeds(a, i + 1, n, b, j + 1, c)) || Embeds(a, i, n, b, j + 1, c)))
  }

  /** `a` is a subsequence of `b`. */
  predicate Subsequence(a: string, b: string) {
    Embeds(a, 0, |a|, b, 0, |b|)
  }

  lemma {:induction false} EmbedsSkip(a: string, i: nat, n: nat, b: string, j: nat, k: nat, c: nat)
    requires i <= n <= |a| && j <= k <= c <= |b| && Embeds(a, i, n, b, k, c)
    ensures Embeds(a, i, n, b, j, c)
    decreases k - j
  {
    if j < k {
      EmbedsSkip(a, i, n, b, j + 1, k, c);
    }
  }

  lemma {:induction false} EmbedsNotIn(a: string, i: nat, n: nat, b: string, j: nat, c: nat)
    requires i < n <= |a| && j <= c <= |b| && forall p :: j <= p < c ==> b[p] != a[i]
    ensures !Embeds(a, i, n, b, j, c)
    decreases c - j
  {
    if j < c {
      EmbedsNotIn(a, i, n, b, j + 1, c);
    }
  }

  /** Dropping the first character of what is looked for keeps it findable. */
  lemma {:induction false} EmbedsWeaken(a: string, i: nat, n: nat, b: string, j: nat, c: nat)
    requires i < n <= |a| && j <= c <= |b| && Embeds(a, i, n, b, j, c)
    ensures Embeds(a, i + 1, n, b, j, c)
    decreases c - j
  {
    if a[i] == b[j] && Embeds(a, i + 1, n, b, j + 1, c) {
      EmbedsSkip(a, i + 1, n, b, j, j + 1, c);
    } else {
      EmbedsWeaken(a, i, n, b, j + 1, c);
      EmbedsSkip(a, i + 1, n, b, j, j + 1, c);
    }
  }

  /** Taking the first occurrence of the next character loses no way of finding the rest. */
  lemma {:induction false} EmbedsGreedy(a: string, i: nat, n: nat, b: string, j: nat, k: nat, c: nat)
    requires i < n <= |a| && j <= k < c <= |b|
    requires b[k] == a[i] && forall p :: j <= p < k ==> b[p] != a[i]
    ensures Embeds(a, i, n, b, j, c) <==> Embeds(a, i + 1, n, b, k + 1, c)
    decreases k - j
  {
    if j < k {
      EmbedsGreedy(a, i, n, b, j + 1, k, c);
    } else if Embeds(a, i, n, b, j + 1, c) {
      EmbedsWeaken(a, i, n, b, j + 1, c);
    }
  }

  /** What can be found can be found with fewer characters looked for. */
  lemma {:induction false} EmbedsPrefix(a: string, i: nat, m: nat, n: nat, b: string, j: nat, c: nat)
    requires i <= m <= n <= |a| && j <= c <= |b| && Embeds(a, i, n, b, j, c)
    ensures Embeds(a, i, m, b, j, c)
    decreases c - j
  {
    if i < m {
      if a[i] == b[j] && Embeds(a, i + 1, n, b, j + 1, c) {
        EmbedsPrefix(a, i + 1, m, n, b, j + 1, c);
      } else {
        EmbedsPrefix(a, i, m, n, b, j + 1, c);
      }
    }
  }

  /** What can be found in a stretch of text can be found in a longer one. */
  lemma {:induction false} EmbedsExtend(a: string, i: nat, n: nat, b: string, j: nat, c: nat, d: nat)
    requires i <= n <= |a| && j <= c <= d <= |b| && Embeds(a, i, n, b, j, c)
    ensures Embeds(a, i, n, b, j, d)
    decreases c - j
  {
    if i < n {
      if a[i] == b[j] && Embeds(a, i + 1, n, b, j + 1, c) {
        EmbedsExtend(a, i + 1, n, b, j + 1, c, d);
      } else {
        EmbedsExtend(a, i, n, b, j + 1, c, d);
      }
    }
  }

  /** Finding in `b[j..c]` only looks at `b[..c]`. */
  lemma {:induction false} EmbedsTake(a: string, i: nat, n: nat, b: string, j: nat, c: nat)
    requires i <= n <= |a| && j <= c <= |b| && Embeds(a, i, n, b, j, c)
    ensures Embeds(a, i, n, b[..c], j, c)
    decreases c - j
  {
    if i < n {
      assert b[..c][j] == b[j];
      if a[i] == b[j] && Embeds(a, i + 1, n, b, j + 1, c) {
        EmbedsTake(a, i + 1, n, b, j + 1, c);
      } else {
        EmbedsTake(a, i, n, b, j + 1, c);
      }
    }
  }

  /**
    The search finds the longest part of the token that can be found in
    the text: the characters matched can be found in the text consumed, and
    when the search fails, one more character could not have been found in
    the whole text.
  */
  lemma {:induction false} ScanFromSpec(norm: string, j: nat, tok: string, i: nat)
    requires j <= |norm| && i <= |tok|
    ensures var r := ScanFrom(norm, j, tok, i);
      && Embeds(tok, i, r.matched, norm, j, r.consumed)
      && (r.matched < |tok| ==> !Embeds(tok, i, r.matched + 1, norm, j, |norm|))
    decreases |tok| - i
  {
    var r := ScanFrom(norm, j, tok, i);
    if i < |tok| {
      var k := FindFrom(norm, j, tok[i]);
      if k == |norm| {
        EmbedsNotIn(tok, i, i + 1, norm, j, |norm|);
      } else {
        ScanFromSpec(norm, k + 1, tok, i + 1);
        assert Embeds(tok, i, r.matched, norm, k, r.consumed);
        EmbedsSkip(tok, i, r.matched, norm, j, k, r.consumed);
        if r.matched < |tok| {
          EmbedsGreedy(tok, i, r.matched + 1, norm, j, k, |norm|);
        }
      }
    }
  }

  // ---------------------------------------------------------------------
  // One token of `_check_spaces` (somajo/tokenizer.py:462-494)

  /** The length of the leading run of junk (`starts_with_junk`), 0 when there is none. */
  function JunkRun(s: string): (k: nat)
    ensures k <= |s|
    ensures k == 0 <==> s == [] || !IsJunk(s[0])
    ensures k < |s| ==> !IsJunk(s[k])
  {
    if s == [] || !IsJunk(s[0]) then 0 else 1 + JunkRun(s[1..])
  }

  /** The outcome of aligning one token: its annotation, how much of the text it used up, whether its search failed. */
  datatype Step = Step(info: Info, used: nat, failed: bool)

  /**
    What follows a token: junk right after it is added to its original
    spelling (the token itself standing for a spelling not yet recorded);
    then one blank is consumed, or, when other text follows,
    `SpaceAfter=No` is recorded.
  */
  function Finish(rest: string, token: string, orig: Option<string>, failed: bool): (s: Step)
  {
    var j := JunkRun(rest);
    var spelling := if j > 0 then Some(orig.GetOr(token) + rest[..j]) else orig;
    if j == |rest| then Step(Info(true, spelling), j, failed)
    else if rest[j] == ' ' then Step(Info(true, spelling), j + 1, failed)
    else Step(Info(false, spelling), j, failed)
  }

  /**
    After a token: `SpaceAfter=No` means text other than a blank follows,
    and otherwise a blank was consumed or nothing is left.
  */
  lemma FinishSpec(rest: string, token: string, orig: Option<string>, failed: bool)
    ensures var s := Finish(rest, token, orig, failed);
      && s.used <= |rest|
      && (!s.info.spaceAfter ==> s.used < |rest| && rest[s.used] != ' ')
      && (s.info.spaceAfter ==> s.used == |rest| || (0 < s.used && rest[s.used - 1] == ' '))
      && s.failed == failed
  {
    var j := JunkRun(rest);
    if j < |rest| && rest[j] == ' ' {
      assert rest[j + 1 - 1] == ' ';
    }
  }

  /**
    Junk right after a token is appended to its spelling, and only junk
    gives a spelling to a token that was a prefix of the text.
  */
  lemma FinishSpelling(rest: string, token: string, orig: Option<string>, failed: bool)
    ensures var s := Finish(rest, token, orig, failed);
      && (orig.Some? ==> s.info.originalSpelling == Some(orig.value + rest[..JunkRun(rest)]))
      && (orig.None? ==> (s.info.originalSpelling.None? <==> rest == [] || !IsJunk(rest[0])))
  {
    if JunkRun(rest) == 0 && orig.Some? {
      assert orig.value + rest[..0] == orig.value;
    }
  }

  /** One token of `_check_spaces`: a prefix of the text is consumed as it is, any other token is searched for. */
  function CheckStep(norm: string, token: string): (s: Step)
  {
    if StartsWith(norm, token) then
      var f := Finish(norm[|token|..], token, None, false);
      Step(f.info, |token| + f.used, f.failed)
    else
      var sc := ScanFrom(norm, 0, token, 0);
      var f := Finish(norm[sc.consumed..], token, Some(norm[..sc.consumed]), sc.matched < |token|);
      Step(f.info, sc.consumed + f.used, f.failed)
  }

  /**
    One step consumes a prefix of the text.  `SpaceAfter=No` is recorded
    exactly when the token is followed by text other than a blank: without
    it, a blank was consumed or the text is used up.  A token that is a
    prefix is consumed as it is.
  */
  lemma CheckStepSpec(norm: string, token: string)
    ensures var s := CheckStep(norm, token);
      && s.used <= |norm|
      && (!s.info.spaceAfter ==> s.used < |norm| && norm[s.used] != ' ')
      && (s.info.spaceAfter ==> s.used == |norm| || (0 < s.used && norm[s.used - 1] == ' '))
      && (StartsWith(norm, token) ==> |token| <= s.used && !s.failed)
  {
    var k := if StartsWith(norm, token) then |token| else ScanFrom(norm, 0, token, 0).consumed;
    var rest := norm[k..];
    var orig := if StartsWith(norm, token) then None else Some(norm[..k]);
    var failed := !StartsWith(norm, token) && ScanFrom(norm, 0, token, 0).matched < |token|;
    FinishSpec(rest, token, orig, failed);
    var u := Finish(rest, token, orig, failed).used;
    if u < |rest| {
      assert rest[u] == norm[k + u];
    }
    if 0 < u {
      assert rest[u - 1] == norm[k + u - 1];
    }
  }

  /**
    A token that is not a prefix of the text gets an original spelling,
    in which the token can be found as a subsequence; the search fails,
    and this is reported, exactly when the token cannot be found in the
    text as a subsequence at all.
  */
  lemma CheckStepSearch(norm: string, token: string)
    requires !StartsWith(norm, token)
    ensures var s := CheckStep(norm, token);
      && s.info.originalSpelling.Some?
      && (s.failed <==> !Subsequence(token, norm))
      && (!s.failed ==> Subsequence(token, s.info.originalSpelling.value))
  {
    var sc := ScanFrom(norm, 0, token, 0);
    var c := sc.consumed;
    var rest := norm[c..];
    ScanFromSpec(norm, 0, token, 0);
    FinishSpec(rest, token, Some(norm[..c]), sc.matched < |token|);
    FinishSpelling(rest, token, Some(norm[..c]), sc.matched < |token|);
    var j := JunkRun(rest);
    if sc.matched == |token| {
      var d := c + j;
      assert d <= |norm|;
      EmbedsExtend(token, 0, |token|, norm, 0, c, |norm|);
      EmbedsExtend(token, 0, |token|, norm, 0, c, d);
      EmbedsTake(token, 0, |token|, norm, 0, d);
      assert norm[..c] + rest[..j] == norm[..d];
    } else if Subsequence(token, norm) {
      EmbedsPrefix(token, 0, sc.matched + 1, |token|, norm, 0, |norm|);
    }
  }

  // ---------------------------------------------------------------------
  // All tokens (somajo/tokenizer.py:457-499)

  /**
    The annotations of all tokens; for every token, the position in the
    normalised text after it was aligned; how much text was used up; and
    whether any search failed.
  */
  datatype Alignment = Alignment(infos: seq<Info>, ends: seq<nat>, used: nat, misaligned: bool)

  /** Every position of `ends` moved on by `u`. */
  function Shift(u: nat, ends: seq<nat>): (r: seq<nat>)
    ensures |r| == |ends| && forall i :: 0 <= i < |r| ==> r[i] == u + ends[i]
  {
    seq(|ends|, i requires 0 <= i < |ends| => u + ends[i])
  }

  function CheckFrom(norm: string, tokens: seq<string>): (a: Alignment)
    ensures |a.infos| == |tokens| && |a.ends| == |tokens| && a.used <= |norm|
  {
    if tokens == [] then Alignment([], [], 0, false)
    else
      var s := CheckStep(norm, tokens[0]);
      CheckStepSpec(norm, tokens[0]);
      var a := CheckFrom(norm[s.used..], tokens[1..]);
      Alignment([s.info] + a.infos, [s.used] + Shift(s.used, a.ends), s.used + a.used, s.failed || a.misaligned)
  }

  /**
    The annotation `spaceAfter` fits the text after position `e`:
    `SpaceAfter=No` means text other than a blank follows, and otherwise a
    blank was consumed or the text is used up.
  */
  predicate Marked(norm: string, spaceAfter: bool, e: nat) {
    && e <= |norm|
    && (!spaceAfter ==> e < |norm| && norm[e] != ' ')
    && (spaceAfter ==> e == |norm| || (0 < e && norm[e - 1] == ' '))
  }

  /**
    A left-to-right walk over the text: the positions after the tokens
    never decrease, the text used up ends after the last token (nothing is
    used up without tokens), and every
    annotation fits the text at the position after its token.
  */
  predicate Walk(norm: string, infos: seq<Info>, ends: seq<nat>, used: nat)
    requires |infos| == |ends|
  {
    && used <= |norm|
    && (forall i :: 0 <= i < |ends| ==> ends[i] <= used)
    && (forall i, j :: 0 <= i < j < |ends| ==> ends[i] <= ends[j])
    && used == (if ends == [] then 0 else ends[|ends| - 1])
    && (forall i :: 0 <= i < |ends| ==> Marked(norm, infos[i].spaceAfter, ends[i]))
  }

  lemma MarkedShift(norm: string, u: nat, spaceAfter: bool, e: nat)
    requires u <= |norm| && Marked(norm[u..], spaceAfter, e)
    ensures Marked(norm, spaceAfter, u + e)
  {
    if u + e < |norm| {
      assert norm[u..][e] == norm[u + e];
    }
    if 0 < e {
      assert norm[u..][e - 1] == norm[u + e - 1];
    }
  }

  /** A walk over the text after position `u`, behind a first token ending at `u`, is a walk over the whole text. */
  lemma WalkCons(norm: string, u: nat, info: Info, infos: seq<Info>, ends: seq<nat>, used: nat)
    requires |infos| == |ends| && u <= |norm|
    requires Marked(norm, info.spaceAfter, u) && Walk(norm[u..], infos, ends, used)
    ensures Walk(norm, [info] + infos, [u] + Shift(u, ends), u + used)
  {
    var xs, es := [info] + infos, [u] + Shift(u, ends);
    forall i | 1 <= i < |es|
      ensures xs[i] == infos[i - 1] && es[i] == u + ends[i - 1]
      ensures Marked(norm, xs[i].spaceAfter, es[i])
    {
      MarkedShift(norm, u, infos[i - 1].spaceAfter, ends[i - 1]);
    }
    forall i, j | 0 <= i < j < |es|
      ensures es[i] <= es[j]
    {
      if 0 < i {
        assert ends[i - 1] <= ends[j - 1];
      }
    }
  }

  /** The walk of `_check_spaces` goes from left to right, and its annotations fit the text. */
  lemma {:induction false} CheckFromSpec(norm: string, tokens: seq<string>)
    ensures var a := CheckFrom(norm, tokens); Walk(norm, a.infos, a.ends, a.used)
  {
    if tokens != [] {
      var s := CheckStep(norm, tokens[0]);
      CheckStepSpec(norm, tokens[0]);
      CheckFromSpec(norm[s.used..], tokens[1..]);
      var b := CheckFrom(norm[s.used..], tokens[1..]);
      WalkCons(norm, s.used, s.info, b.infos, b.ends, b.used);
    }
  }

  /** The paragraph the tokens came from, rebuilt: every token followed by a blank where `spaces` says so. */
  function Detokenize(tokens: seq<string>, spaces: seq<bool>): (s: string)
    requires |spaces| == |tokens|
  {
    if tokens == [] then []
    else if |tokens| == 1 then tokens[0]
    else tokens[0] + (if spaces[0] then " " else "") + Detokenize(tokens[1..], spaces[1..])
  }

  /** A token as the tokenizer emits it: not empty, no white space, no junk. */
  predicate PlainToken(t: string) {
    t != [] && forall i :: 0 <= i < |t| ==> !IsSpace(t[i]) && !IsJunk(t[i])
  }

  /** A token, an optional blank and aligned text starting with a token join into aligned text. */
  lemma AlignedJoin(t: string, space: bool, d: string)
    requires PlainToken(t) && AlignedText(d) && d != []
    ensures var s := t + (if space then " " else "") + d;
      AlignedText(s) && StartsWith(s, t)
  {
    var sep := if space then " " else "";
    var s := t + sep + d;
    assert s[..|t|] == t;
    forall i | 0 <= i < |s|
      ensures !IsJunk(s[i])
    {
      if i < |t| {
        assert s[i] == t[i];
      } else if i >= |t| + |sep| {
        assert s[i] == d[i - |t| - |sep|];
      }
    }
    forall i | |t| <= i < |s| && IsSpace(s[i])
      ensures s[i] == ' ' && (i + 1 < |s| ==> !IsSpace(s[i + 1]))
    {
      if i >= |t| + |sep| {
        assert s[i] == d[i - |t| - |sep|];
        if i + 1 < |s| {
          assert s[i + 1] == d[i + 1 - |t| - |sep|];
        }
      } else {
        assert s[i + 1] == d[0];
      }
    }
    assert forall i :: 0 <= i < |t| ==> s[i] == t[i];
    assert s[|s| - 1] == d[|d| - 1];
  }

  lemma {:induction false} DetokenizeShape(tokens: seq<string>, spaces: seq<bool>)
    requires |spaces| == |tokens| && tokens != []
    requires forall i :: 0 <= i < |tokens| ==> PlainToken(tokens[i])
    ensures var s := Detokenize(tokens, spaces);
      s != [] && AlignedText(s) && StartsWith(s, tokens[0])
  {
    assert PlainToken(tokens[0]);
    if |tokens| > 1 {
      DetokenizeShape(tokens[1..], spaces[1..]);
      AlignedJoin(tokens[0], spaces[0], Detokenize(tokens[1..], spaces[1..]));
    } else {
      var t := tokens[0];
      assert t[..|t|] == t;
    }
  }

  /**
    Aligning the tokens with the text they were rebuilt from gives back the
    blanks between them: `SpaceAfter=No` exactly after the tokens not
    followed by a blank (the last token is followed by nothing), no
    original spellings, all of the text used up and no failure.
  */
  lemma CheckRecoversSpaces(tokens: seq<string>, spaces: seq<bool>)
    requires |spaces| == |tokens|
    requires forall i :: 0 <= i < |tokens| ==> PlainToken(tokens[i])
    ensures var norm := NormalizeRaw(Detokenize(tokens, spaces));
      var a := CheckFrom(norm, tokens);
      && a.used == |norm| && !a.misaligned
      && (forall i :: 0 <= i < |tokens| ==> a.infos[i].originalSpelling.None?)
      && (forall i :: 0 <= i < |tokens| - 1 ==> a.infos[i].spaceAfter == spaces[i])
      && (tokens != [] ==> a.infos[|tokens| - 1].spaceAfter)
  {
    if tokens != [] {
      DetokenizeShape(tokens, spaces);
      NormalizeRawClean(Detokenize(tokens, spaces));
    }
    CheckDetokenized(tokens, spaces);
    assert Recovers(CheckFrom(NormalizeRaw(Detokenize(tokens, spaces)), tokens).infos, spaces);
  }

  /**
    The annotations `infos` record the blanks `spaces` between the tokens:
    no original spellings, `SpaceAfter=No` exactly where no blank follows,
    and none after the last token.
  */
  predicate Recovers(infos: seq<Info>, spaces: seq<bool>)
    requires |infos| == |spaces|
  {
    && (forall i :: 0 <= i < |infos| ==> infos[i].originalSpelling.None?)
    && (forall i :: 0 <= i < |infos| - 1 ==> infos[i].spaceAfter == spaces[i])
    && (infos != [] ==> infos[|infos| - 1].spaceAfter)
  }

  lemma RecoversCons(info: Info, infos: seq<Info>, space: bool, spaces: seq<bool>)
    requires |infos| == |spaces| && infos != [] && Recovers(infos, spaces)
    requires info == Info(space, None)
    ensures Recovers([info] + infos, [space] + spaces)
  {
    var xs, ys := [info] + infos, [space] + spaces;
    forall i | 1 <= i < |xs|
      ensures xs[i] == infos[i - 1] && (i < |xs| - 1 ==> ys[i] == spaces[i - 1])
    {
    }
  }

  lemma {:induction false} CheckDetokenized(tokens: seq<string>, spaces: seq<bool>)
    requires |spaces| == |tokens|
    requires forall i :: 0 <= i < |tokens| ==> PlainToken(tokens[i])
    ensures var s := Detokenize(tokens, spaces);
      var a := CheckFrom(s, tokens);
      a.used == |s| && !a.misaligned && Recovers(a.infos, spaces)
  {
    if tokens != [] {
      var s := Detokenize(tokens, spaces);
      var t := tokens[0];
      assert PlainToken(t);
      CheckFromCons(s, tokens);
      if |tokens| == 1 {
        assert s == t;
        CheckStepLast(t);
        assert tokens[1..] == [];
      } else {
        var d := Detokenize(tokens[1..], spaces[1..]);
        assert s == t + (if spaces[0] then " " else "") + d;
        DetokenizeShape(tokens[1..], spaces[1..]);
        assert PlainToken(tokens[1]);
        CheckStepBetween(t, spaces[0], d, tokens[1]);
        CheckDetokenized(tokens[1..], spaces[1..]);
        var b := CheckFrom(d, tokens[1..]);
        RecoversCons(Info(spaces[0], None), b.infos, spaces[0], spaces[1..]);
        HeadTail(spaces);
      }
    }
  }

  /** Nothing is left to align after the last token. */
  lemma CheckFromEnd(norm: string, tokens: seq<string>)
    ensures CheckFrom(norm, tokens[|tokens|..]) == Alignment([], [], 0, false)
  {
    assert tokens[|tokens|..] == [];
  }

  /** `CheckFromCons` at position `p` of the text and index `i` of the tokens. */
  lemma CheckFromNext(norm: string, p: nat, tokens: seq<string>, i: nat)
    requires p <= |norm| && i < |tokens|
    ensures var s := CheckStep(norm[p..], tokens[i]);
      var a, b := CheckFrom(norm[p..], tokens[i..]), CheckFrom(norm[p + s.used..], tokens[i + 1..]);
      && p + s.used <= |norm| && norm[p..][s.used..] == norm[p + s.used..]
      && a.infos == [s.info] + b.infos
      && a.used == s.used + b.used
      && a.misaligned == (s.failed || b.misaligned)
  {
    CheckFromCons(norm[p..], tokens[i..]);
    CheckStepSpec(norm[p..], tokens[i]);
    assert tokens[i..][1..] == tokens[i + 1..];
    assert tokens[i..][0] == tokens[i];
  }

  /** The alignment of a token sequence is the step of its first token followed by the alignment of the rest. */
  lemma CheckFromCons(norm: string, tokens: seq<string>)
    requires tokens != []
    ensures var s := CheckStep(norm, tokens[0]);
      var a, b := CheckFrom(norm, tokens), CheckFrom(norm[s.used..], tokens[1..]);
      && a.infos == [s.info] + b.infos
      && a.used == s.used + b.used
      && a.misaligned == (s.failed || b.misaligned)
  {
  }

  lemma CheckStepLast(t: string)
    ensures CheckStep(t, t) == Step(Info(true, None), |t|, false)
  {
    assert t[..|t|] == t && t[|t|..] == [];
  }

  lemma CheckStepBetween(t: string, space: bool, d: string, next: string)
    requires PlainToken(next) && StartsWith(d, next)
    ensures var s := t + (if space then " " else "") + d;
      && CheckStep(s, t) == Step(Info(space, None), |s| - |d|, false)
      && s[|s| - |d|..] == d
  {
    var sep := if space then " " else "";
    var s := t + sep + d;
    assert s[..|t|] == t;
    var r := s[|t|..];
    assert r == sep + d;
    assert d[0] == next[0];
    assert r[0] == ' ' || r[0] == next[0];
    assert JunkRun(r) == 0;
    assert s[|s| - |d|..] == d;
  }

  // ---------------------------------------------------------------------
  // The imperative walk

  /**
    The innermost loop: consume the text from position `j` up to and
    including the next `c`; `found` is false when the text ran out first.
  */
  method ConsumeThrough(norm: string, j: nat, c: char) returns (n: nat, found: bool)
    requires j <= |norm|
    ensures var k := FindFrom(norm, j, c);
      && (k == |norm| ==> !found && n == |norm|)
      && (k < |norm| ==> found && n == k + 1)
  {
    n := j;
    var first: Option<char> := None;
    found := true;
    while first != Some(c)
      invariant j <= n <= |norm|
      invariant first == (if n == j then None else Some(norm[n - 1]))
      invariant forall p :: j <= p < n - 1 ==> norm[p] != c
      invariant found
      decreases |norm| - n
    {
      if n == |norm| {
        found := false;
        break;
      }
      first := Some(norm[n]);
      n := n + 1;
    }
    if found {
      FindFromIs(norm, j, c, n - 1);
    } else {
      FindFromIs(norm, j, c, |norm|);
    }
  }

  /** `FindFrom` is the only position with its properties. */
  lemma FindFromIs(s: string, j: nat, c: char, k: nat)
    requires j <= k <= |s| && (forall p :: j <= p < k ==> s[p] != c) && (k < |s| ==> s[k] == c)
    ensures FindFrom(s, j, c) == k
  {
  }

  /** The character-by-character search, as the loops of the source run it. */
  method ScanToken(norm: string, tok: string) returns (orig: string, matched: nat, rest: string)
    ensures var r := ScanFrom(norm, 0, tok, 0);
      orig == norm[..r.consumed] && rest == norm[r.consumed..] && matched == r.matched
  {
    var p: nat := 0;
    matched := 0;
    for i := 0 to |tok|
      invariant p <= |norm| && matched <= i
      invariant matched == i ==> ScanFrom(norm, p, tok, i) == ScanFrom(norm, 0, tok, 0)
      invariant matched < i ==> p == |norm| && ScanFrom(norm, 0, tok, 0) == Scan(|norm|, matched)
    {
      var found;
      p, found := ConsumeThrough(norm, p, tok[i]);
      if found {
        matched := matched + 1;
      }
    }
    orig, rest := norm[..p], norm[p..];
  }

  /**
    The second half of the loop body of `_check_spaces`: junk after the
    token goes into its spelling, then a blank is consumed or
    `SpaceAfter=No` is recorded, and the annotation is rendered.
  */
  method FinishToken(rest: string, token: string, orig: Option<string>, failed: bool) returns (info: string, rest': string)
    ensures var f := Finish(rest, token, orig, failed); info == RenderInfo(f.info) && rest' == rest[f.used..]
  {
    var spelling := orig;
    rest' := rest;
    var j := JunkRun(rest);
    if j > 0 {
      spelling := Some(spelling.GetOr(token) + rest[..j]);
      rest' := rest[j..];
    }
    info := "";
    if spelling.Some? {
      info := "OriginalSpelling=\"" + spelling.value + "\"";
    }
    if |rest'| > 0 {
      if rest'[0] == ' ' {
        rest' := rest'[1..];
      } else {
        if |info| > 0 {
          info := ", " + info;
        }
        info := "SpaceAfter=No" + info;
      }
    }
  }

  /** The annotation of one token rendered, as the body of the loop of `_check_spaces` builds it. */
  method AlignToken(norm: string, token: string) returns (info: string, rest: string, failed: bool)
    ensures var s := CheckStep(norm, token); info == RenderInfo(s.info) && rest == norm[s.used..] && failed == s.failed
  {
    var orig: Option<string> := None;
    var after: string;
    failed := false;
    ghost var k: nat;
    if StartsWith(norm, token) {
      after := norm[|token|..];
      k := |token|;
    } else {
      var o, m;
      o, m, after := ScanToken(norm, token);
      orig := Some(o);
      failed := m < |token|;
      k := ScanFrom(norm, 0, token, 0).consumed;
    }
    ghost var f := Finish(after, token, orig, failed);
    FinishSpec(after, token, orig, failed);
    info, rest := FinishToken(after, token, orig, failed);
    DropDrop(norm, k, f.used);
  }

  /**
    The alignment of the first `n` tokens, built from left to right as the
    loop of `_check_spaces` builds it.
  */
  function Walked(norm: string, tokens: seq<string>, n: nat): (w: Alignment)
    requires n <= |tokens|
    ensures |w.infos| == n && w.used <= |norm|
  {
    if n == 0 then Alignment([], [], 0, false)
    else
      var w := Walked(norm, tokens, n - 1);
      var s := CheckStep(norm[w.used..], tokens[n - 1]);
      CheckStepSpec(norm[w.used..], tokens[n - 1]);
      Alignment(w.infos + [s.info], w.ends + [w.used + s.used], w.used + s.used, w.misaligned || s.failed)
  }

  /**
    The walk from left to right and the recursive definition agree: the
    first `n` tokens aligned from the left, followed by the rest aligned
    with the text they left, give the alignment of all tokens.
  */
  lemma {:induction false} WalkedSplit(norm: string, tokens: seq<string>, n: nat)
    requires n <= |tokens|
    ensures WalkedSplitAt(norm, tokens, n)
  {
    if n == 0 {
      WalkedSplitZero(norm, tokens);
    } else {
      WalkedSplit(norm, tokens, n - 1);
      WalkedSplitStep(norm, tokens, n - 1);
    }
  }

  /** Before any token is walked, the alignment of the rest is the alignment of all. */
  lemma WalkedSplitZero(norm: string, tokens: seq<string>)
    ensures WalkedSplitAt(norm, tokens, 0)
  {
    assert norm[0..] == norm && tokens[0..] == tokens;
    assert [] + CheckFrom(norm, tokens).infos == CheckFrom(norm, tokens).infos;
  }

  /** The walk of the first `n` tokens followed by the alignment of the others is the alignment of all tokens. */
  predicate WalkedSplitAt(norm: string, tokens: seq<string>, n: nat)
    requires n <= |tokens|
  {
    var w := Walked(norm, tokens, n);
    var c, a := CheckFrom(norm[w.used..], tokens[n..]), CheckFrom(norm, tokens);
    && a.infos == w.infos + c.infos
    && a.used == w.used + c.used
    && a.misaligned == (w.misaligned || c.misaligned)
  }

  /** Moving one token from the alignment of the rest to the walk. */
  lemma WalkedSplitStep(norm: string, tokens: seq<string>, n: nat)
    requires n < |tokens| && WalkedSplitAt(norm, tokens, n)
    ensures WalkedSplitAt(norm, tokens, n + 1)
  {
    var w0 := Walked(norm, tokens, n);
    WalkedNext(norm, tokens, n);
    CheckFromNext(norm, w0.used, tokens, n);
    var s := CheckStep(norm[w0.used..], tokens[n]);
    var c := CheckFrom(norm[w0.used + s.used..], tokens[n + 1..]);
    AppendAssoc(w0.infos, [s.info], c.infos);
  }

  lemma WalkedNext(norm: string, tokens: seq<string>, n: nat)
    requires n < |tokens|
    ensures var w := Walked(norm, tokens, n);
      var s := CheckStep(norm[w.used..], tokens[n]);
      && w.used + s.used <= |norm| && norm[w.used..][s.used..] == norm[w.used + s.used..]
      && var w' := Walked(norm, tokens, n + 1);
      && w'.infos == w.infos + [s.info]
      && w'.used == w.used + s.used
      && w'.misaligned == (w.misaligned || s.failed)
  {
    var w := Walked(norm, tokens, n);
    CheckStepSpec(norm[w.used..], tokens[n]);
  }

  /** Aligning all tokens from left to right gives `CheckFrom`. */
  lemma WalkedAll(norm: string, tokens: seq<string>)
    ensures var w, a := Walked(norm, tokens, |tokens|), CheckFrom(norm, tokens);
      w.infos == a.infos && w.used == a.used && w.misaligned == a.misaligned
  {
    WalkedSplit(norm, tokens, |tokens|);
    CheckFromEnd(norm[Walked(norm, tokens, |tokens|).used..], tokens);
    AppendNil(Walked(norm, tokens, |tokens|).infos);
  }

  /**
    The state of the loop of `_check_spaces` after `i` tokens: the text
    not yet used up, the rendered annotations of the first `i` tokens and
    whether a search has failed, as the walk from the left gives them.
  */
  predicate AlignedPrefix(norm: string, tokens: seq<string>, i: nat, rest: string, extraInfo: seq<string>, misaligned: bool)
    requires i <= |tokens|
  {
    var w := Walked(norm, tokens, i);
    && rest == norm[w.used..]
    && |extraInfo| == i
    && (forall k :: 0 <= k < i ==> extraInfo[k] == RenderInfo(w.infos[k]))
    && misaligned == w.misaligned
  }

  /** One round of the loop keeps its state in step with the walk. */
  lemma AlignedPrefixNext(norm: string, tokens: seq<string>, i: nat, rest: string, extraInfo: seq<string>, misaligned: bool,
                          info: string, rest': string, failed: bool)
    requires i < |tokens| && AlignedPrefix(norm, tokens, i, rest, extraInfo, misaligned)
    requires var s := CheckStep(rest, tokens[i]); info == RenderInfo(s.info) && rest' == rest[s.used..] && failed == s.failed
    ensures AlignedPrefix(norm, tokens, i + 1, rest', extraInfo + [info], misaligned || failed)
  {
    var w := Walked(norm, tokens, i);
    var s := CheckStep(rest, tokens[i]);
    WalkedNext(norm, tokens, i);
    assert rest' == norm[w.used + s.used..];
  }

  /** After the last token, the loop state is the alignment of all tokens. */
  lemma AlignedPrefixAll(norm: string, tokens: seq<string>, rest: string, extraInfo: seq<string>, misaligned: bool)
    requires AlignedPrefix(norm, tokens, |tokens|, rest, extraInfo, misaligned)
    ensures var a := CheckFrom(norm, tokens);
      && |extraInfo| == |tokens|
      && (forall i :: 0 <= i < |tokens| ==> extraInfo[i] == RenderInfo(a.infos[i]))
      && misaligned == a.misaligned
      && rest == norm[a.used..]
  {
    WalkedAll(norm, tokens);
  }

  /**
    The loop of `_check_spaces` over an already normalised text: one
    extra-info string per token, whether some token could not be found,
    and the text left after the last token.
  */
  method AlignAll(norm: string, tokens: seq<string>) returns (extraInfo: seq<string>, misaligned: bool, rest: string)
    ensures var a := CheckFrom(norm, tokens);
      && |extraInfo| == |tokens|
      && (forall i :: 0 <= i < |tokens| ==> extraInfo[i] == RenderInfo(a.infos[i]))
      && misaligned == a.misaligned
      && rest == norm[a.used..]
  {
    rest := norm;
    extraInfo, misaligned := [], false;
    for i := 0 to |tokens|
      invariant AlignedPrefix(norm, tokens, i, rest, extraInfo, misaligned)
    {
      var info, rest', failed := AlignToken(rest, tokens[i]);
      AlignedPrefixNext(norm, tokens, i, rest, extraInfo, misaligned, info, rest', failed);
      rest, extraInfo, misaligned := rest', extraInfo + [info], misaligned || failed;
    }
    AlignedPrefixAll(norm, tokens, rest, extraInfo, misaligned);
  }

  /**
    `_check_spaces`: one extra-info string per token, whether some token
    could not be found in the text, and whether text was left over.
  */
  method CheckSpaces(tokens: seq<string>, originalText: string) returns (extraInfo: seq<string>, misaligned: bool, leftover: bool)
    ensures var norm := NormalizeRaw(originalText);
      var a := CheckFrom(norm, tokens);
      && |extraInfo| == |tokens|
      && (forall i :: 0 <= i < |tokens| ==> extraInfo[i] == RenderInfo(a.infos[i]))
      && misaligned == a.misaligned
      && leftover == (a.used < |norm|)
  {
    var normalized := NormalizeRaw(originalText);
    extraInfo, misaligned, normalized := AlignAll(normalized, tokens);
    leftover := |normalized| > 0;
  }
}
