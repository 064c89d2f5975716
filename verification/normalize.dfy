/**
  The per-token text rewriting of `Tokenizer._tokenize` in
  somajo/tokenizer.py: the normalisation of every token's text before the
  first pass, and the clean-up and whitespace split that follow the emoji
  passes.  Unicode NFC normalisation is a parameter.
*/
module Normalization {
  import opened Wrappers
  import opened Seqs
  import opened Chars
  import opened Tokens
  import opened Splitter

  /** The length of the leading run of white space. */
  function SpaceRun(s: string): (k: nat)
    ensures k <= |s|
    ensures forall i :: 0 <= i < k ==> RegexSpace(s[i])
    ensures k < |s| ==> !RegexSpace(s[k])
  {
    if s == [] || !RegexSpace(s[0]) then 0 else 1 + SpaceRun(s[1..])
  }

  /** `spaces.sub(" ", s)` with `spaces` the pattern `\s+`: every run of white space becomes one blank. */
  function CollapseSpaces(s: string): (r: string)
    ensures |r| <= |s|
    decreases |s|
  {
    if s == [] then []
    else if RegexSpace(s[0]) then " " + CollapseSpaces(s[SpaceRun(s)..])
    else [s[0]] + CollapseSpaces(s[1..])
  }

  /** The `\s` white space of `s` is single blanks only. */
  predicate Collapsed(s: string) {
    forall i :: 0 <= i < |s| && RegexSpace(s[i]) ==> s[i] == ' ' && (i + 1 < |s| ==> !RegexSpace(s[i + 1]))
  }

  /** After collapsing, white space is single blanks. */
  lemma {:induction false} CollapseSpacesCollapsed(s: string)
    ensures Collapsed(CollapseSpaces(s))
    ensures CollapseSpaces(s) != [] && s != [] ==> (RegexSpace(CollapseSpaces(s)[0]) <==> RegexSpace(s[0]))
    decreases |s|
  {
    if s != [] {
      if RegexSpace(s[0]) {
        var k := SpaceRun(s);
        CollapseSpacesCollapsed(s[k..]);
        var rest := CollapseSpaces(s[k..]);
        var r := " " + rest;
        assert CollapseSpaces(s) == r;
        forall i | 0 <= i < |r| && RegexSpace(r[i])
          ensures r[i] == ' ' && (i + 1 < |r| ==> !RegexSpace(r[i + 1]))
        {
          if i > 0 {
            assert r[i] == rest[i - 1];
          } else if 1 < |r| {
            assert r[1] == rest[0] && s[k..][0] == s[k];
          }
        }
      } else {
        CollapseSpacesCollapsed(s[1..]);
        var rest := CollapseSpaces(s[1..]);
        var r := [s[0]] + rest;
        assert CollapseSpaces(s) == r;
        forall i | 0 <= i < |r| && RegexSpace(r[i])
          ensures r[i] == ' ' && (i + 1 < |r| ==> !RegexSpace(r[i + 1]))
        {
          assert r[i] == rest[i - 1];
        }
      }
    }
  }

  /** Collapsing changes white space only: the other characters are kept, in order. */
  lemma {:induction false} CollapseSpacesKeepsNonSpace(s: string)
    ensures NonSpace(CollapseSpaces(s)) == NonSpace(s)
    decreases |s|
  {
    if s != [] {
      if RegexSpace(s[0]) {
        var k := SpaceRun(s);
        CollapseSpacesKeepsNonSpace(s[k..]);
        assert s == s[..k] + s[k..];
        NonSpaceAppend(s[..k], s[k..]);
        NonSpaceAllSpace(s[..k]);
        NonSpaceAppend(" ", CollapseSpaces(s[k..]));
        assert NonSpace(" ") == [];
      } else {
        CollapseSpacesKeepsNonSpace(s[1..]);
        NonSpaceAppend([s[0]], CollapseSpaces(s[1..]));
        assert [s[0]] + s[1..] == s;
        NonSpaceAppend([s[0]], s[1..]);
      }
    }
  }

  /** Text that is already collapsed is left as it is, so collapsing twice is collapsing once. */
  lemma {:induction false} CollapseSpacesFixed(s: string)
    requires Collapsed(s)
    ensures CollapseSpaces(s) == s
    decreases |s|
  {
    if s != [] {
      assert Collapsed(s[1..]) by {
        forall i | 0 <= i < |s[1..]| && RegexSpace(s[1..][i])
          ensures s[1..][i] == ' ' && (i + 1 < |s[1..]| ==> !RegexSpace(s[1..][i + 1]))
        {
          assert s[1..][i] == s[i + 1];
        }
      }
      CollapseSpacesFixed(s[1..]);
      if RegexSpace(s[0]) {
        assert SpaceRun(s) == 1;
      }
    }
  }

  lemma CollapseSpacesIdempotent(s: string)
    ensures CollapseSpaces(CollapseSpaces(s)) == CollapseSpaces(s)
  {
    CollapseSpacesCollapsed(s);
    CollapseSpacesFixed(CollapseSpaces(s));
  }

  /** `pattern.sub("", s)` for a one-character class: the characters in the class are dropped. */
  function RemoveChars(s: string, inClass: char -> bool): (r: string)
    ensures |r| <= |s|
    ensures forall i :: 0 <= i < |r| ==> !inClass(r[i])
    ensures (forall i :: 0 <= i < |s| ==> !inClass(s[i])) ==> r == s
  {
    if s == [] then []
    else (if inClass(s[0]) then [] else [s[0]]) + RemoveChars(s[1..], inClass)
  }

  lemma {:induction false} RemoveCharsAppend(a: string, b: string, inClass: char -> bool)
    ensures RemoveChars(a + b, inClass) == RemoveChars(a, inClass) + RemoveChars(b, inClass)
  {
    if a == [] {
      assert a + b == b;
    } else {
      assert (a + b)[1..] == a[1..] + b;
      RemoveCharsAppend(a[1..], b, inClass);
    }
  }

  /** A blank or a variation selector. */
  predicate SpaceOrSelector(c: char) {
    c == ' ' || c == '\U{FE0F}'
  }

  /** `stranded_variation_selector.sub("", s)`: every blank followed by U+FE0F is dropped with it, scanning left to right. */
  function RemoveStrandedSelectors(s: string): (r: string)
    ensures |r| <= |s|
  {
    if |s| >= 2 && s[0] == ' ' && s[1] == '\U{FE0F}' then RemoveStrandedSelectors(s[2..])
    else if s == [] then []
    else [s[0]] + RemoveStrandedSelectors(s[1..])
  }

  /** Only blanks and variation selectors are removed. */
  lemma {:induction false} RemoveStrandedSelectorsKeeps(s: string)
    ensures RemoveChars(RemoveStrandedSelectors(s), SpaceOrSelector) == RemoveChars(s, SpaceOrSelector)
  {
    if |s| >= 2 && s[0] == ' ' && s[1] == '\U{FE0F}' {
      RemoveStrandedSelectorsKeeps(s[2..]);
      assert s == [s[0]] + s[1..] && s[1..] == [s[1]] + s[2..];
      RemoveCharsCons(s[0], s[1..], SpaceOrSelector);
      RemoveCharsCons(s[1], s[2..], SpaceOrSelector);
    } else if s != [] {
      RemoveStrandedSelectorsKeeps(s[1..]);
      RemoveCharsCons(s[0], RemoveStrandedSelectors(s[1..]), SpaceOrSelector);
    }
  }

  lemma RemoveCharsCons(x: char, t: string, inClass: char -> bool)
    ensures RemoveChars([x] + t, inClass) == (if inClass(x) then [] else [x]) + RemoveChars(t, inClass)
  {
    assert ([x] + t)[1..] == t;
  }

  /** Text without U+FE0F is left unchanged. */
  lemma {:induction false} RemoveStrandedSelectorsFixed(s: string)
    requires forall i :: 0 <= i < |s| ==> s[i] != '\U{FE0F}'
    ensures RemoveStrandedSelectors(s) == s
  {
    if s != [] {
      RemoveStrandedSelectorsFixed(s[1..]);
      assert [s[0]] + s[1..] == s;
    }
  }

  /** The number of leading blanks. */
  function Blanks(s: string): (k: nat)
    ensures k <= |s|
    ensures forall i :: 0 <= i < k ==> s[i] == ' '
    ensures k < |s| ==> s[k] != ' '
  {
    if s == [] || s[0] != ' ' then 0 else 1 + Blanks(s[1..])
  }

  /** `s` starts with a colon or semicolon, one or more blanks and a parenthesis. */
  predicate SpacedEmoticon(s: string) {
    && |s| >= 3 && (s[0] == ':' || s[0] == ';') && Blanks(s[1..]) > 0 && 1 + Blanks(s[1..]) < |s|
    && (s[1 + Blanks(s[1..])] == '(' || s[1 + Blanks(s[1..])] == ')')
  }

  /**
    `space_emoticon.sub(r'\1\2', s)` with the pattern `([:;])[ ]+([()])`:
    the blanks between a colon or semicolon and a parenthesis are dropped.
  */
  function JoinSpacedEmoticons(s: string): (r: string)
    ensures |r| <= |s|
    decreases |s|
  {
    if s == [] then []
    else if SpacedEmoticon(s) then
      var k := Blanks(s[1..]);
      [s[0], s[1 + k]] + JoinSpacedEmoticons(s[2 + k..])
    else [s[0]] + JoinSpacedEmoticons(s[1..])
  }

  predicate Blank(c: char) {
    c == ' '
  }

  lemma RemoveBlanksBetween(x: char, m: string, y: char, rest: string)
    requires x != ' ' && y != ' ' && forall i :: 0 <= i < |m| ==> m[i] == ' '
    ensures RemoveChars([x] + m + [y] + rest, Blank) == [x, y] + RemoveChars(rest, Blank)
  {
    RemoveCharsAppend([x] + m + [y], rest, Blank);
    RemoveCharsAppend([x] + m, [y], Blank);
    RemoveCharsAppend([x], m, Blank);
    RemoveCharsBlanks(m);
    assert RemoveChars([x], Blank) == [x];
    assert RemoveChars([y], Blank) == [y];
  }

  /** Dropping blanks from a spaced emoticon leaves its two marks. */
  lemma SpacedEmoticonBlanks(s: string)
    requires SpacedEmoticon(s)
    ensures var k := Blanks(s[1..]);
      RemoveChars(s, Blank) == [s[0], s[1 + k]] + RemoveChars(s[2 + k..], Blank)
  {
    var k := Blanks(s[1..]);
    assert s == [s[0]] + s[1..1 + k] + [s[1 + k]] + s[2 + k..];
    RemoveBlanksBetween(s[0], s[1..1 + k], s[1 + k], s[2 + k..]);
  }

  /** Joining emoticons removes blanks and nothing else. */
  lemma {:induction false} JoinSpacedEmoticonsKeeps(s: string)
    ensures RemoveChars(JoinSpacedEmoticons(s), Blank) == RemoveChars(s, Blank)
    decreases |s|
  {
    if s != [] {
      if SpacedEmoticon(s) {
        var k := Blanks(s[1..]);
        JoinSpacedEmoticonsKeeps(s[2 + k..]);
        SpacedEmoticonBlanks(s);
        RemoveCharsAppend([s[0], s[1 + k]], JoinSpacedEmoticons(s[2 + k..]), Blank);
        assert RemoveChars([s[0], s[1 + k]], Blank) == [s[0], s[1 + k]];
      } else {
        JoinSpacedEmoticonsKeeps(s[1..]);
        RemoveCharsAppend([s[0]], JoinSpacedEmoticons(s[1..]), Blank);
        RemoveCharsAppend([s[0]], s[1..], Blank);
        assert [s[0]] + s[1..] == s;
      }
    }
  }

  lemma {:induction false} RemoveCharsBlanks(s: string)
    requires forall i :: 0 <= i < |s| ==> s[i] == ' '
    ensures RemoveChars(s, Blank) == []
  {
    if s != [] {
      RemoveCharsBlanks(s[1..]);
    }
  }

  /** An eye, one or more blanks and a parenthesis become the eye and the parenthesis. */
  lemma JoinSpacedEmoticonsJoins(x: char, m: string, y: char, rest: string)
    requires (x == ':' || x == ';') && (y == '(' || y == ')')
    requires m != [] && forall i :: 0 <= i < |m| ==> m[i] == ' '
    ensures JoinSpacedEmoticons([x] + m + [y] + rest) == [x, y] + JoinSpacedEmoticons(rest)
  {
    var s := [x] + m + [y] + rest;
    var t := s[1..];
    assert t == m + [y] + rest;
    var k := Blanks(t);
    assert t[|m|] == y;
    assert k == |m|;
    assert s[1 + k] == y;
    assert s[2 + k..] == rest;
  }

  /** Text without a colon or semicolon is left as it is. */
  lemma {:induction false} JoinSpacedEmoticonsNoEyes(s: string)
    requires forall i :: 0 <= i < |s| ==> s[i] != ':' && s[i] != ';'
    ensures JoinSpacedEmoticons(s) == s
  {
    if s != [] {
      JoinSpacedEmoticonsNoEyes(s[1..]);
    }
  }

  /**
    The normalisation of one token's text (first loop of `_tokenize`): NFC,
    white space collapsed, control characters removed, blanks before a
    stranded U+FE0F removed, white space collapsed again.
  */
  function NormalizeText(nfc: string -> string, s: string): (r: string)
  {
    CollapseSpaces(RemoveStrandedSelectors(RemoveChars(CollapseSpaces(nfc(s)), IsControl)))
  }

  lemma {:induction false} RemoveStrandedSelectorsClean(s: string)
    requires forall i :: 0 <= i < |s| ==> !IsControl(s[i])
    ensures forall i :: 0 <= i < |RemoveStrandedSelectors(s)| ==> !IsControl(RemoveStrandedSelectors(s)[i])
  {
    if |s| >= 2 && s[0] == ' ' && s[1] == '\U{FE0F}' {
      RemoveStrandedSelectorsClean(s[2..]);
    } else if s != [] {
      RemoveStrandedSelectorsClean(s[1..]);
      var r := [s[0]] + RemoveStrandedSelectors(s[1..]);
      assert forall i :: 1 <= i < |r| ==> r[i] == RemoveStrandedSelectors(s[1..])[i - 1];
    }
  }

  lemma {:induction false} CollapseSpacesClean(s: string)
    requires forall i :: 0 <= i < |s| ==> !IsControl(s[i])
    ensures forall i :: 0 <= i < |CollapseSpaces(s)| ==> !IsControl(CollapseSpaces(s)[i])
    decreases |s|
  {
    if s != [] {
      var k := if RegexSpace(s[0]) then SpaceRun(s) else 1;
      CollapseSpacesClean(s[k..]);
      var r := CollapseSpaces(s);
      assert forall i :: 1 <= i < |r| ==> r[i] == CollapseSpaces(s[k..])[i - 1];
    }
  }

  /** Normalised text holds no control character, and its white space is single blanks. */
  lemma NormalizeTextClean(nfc: string -> string, s: string)
    ensures var r := NormalizeText(nfc, s);
      && (forall i :: 0 <= i < |r| ==> !IsControl(r[i]))
      && Collapsed(r)
  {
    var a := RemoveChars(CollapseSpaces(nfc(s)), IsControl);
    RemoveStrandedSelectorsClean(a);
    CollapseSpacesClean(RemoveStrandedSelectors(a));
    CollapseSpacesCollapsed(RemoveStrandedSelectors(a));
  }

  /** For text without control characters or variation selectors, normalisation changes white space only. */
  lemma NormalizeTextKeepsNonSpace(nfc: string -> string, s: string)
    requires forall i :: 0 <= i < |nfc(s)| ==> !IsControl(nfc(s)[i]) && nfc(s)[i] != '\U{FE0F}'
    ensures NonSpace(NormalizeText(nfc, s)) == NonSpace(nfc(s))
  {
    var c := CollapseSpaces(nfc(s));
    CollapseSpacesClean(nfc(s));
    assert RemoveChars(c, IsControl) == c;
    CollapseSpacesSelectorFree(nfc(s));
    RemoveStrandedSelectorsKeeps(c);
    RemoveStrandedSelectorsFixed(c);
    CollapseSpacesKeepsNonSpace(c);
    CollapseSpacesKeepsNonSpace(nfc(s));
  }

  lemma {:induction false} CollapseSpacesSelectorFree(s: string)
    requires forall i :: 0 <= i < |s| ==> s[i] != '\U{FE0F}'
    ensures forall i :: 0 <= i < |CollapseSpaces(s)| ==> CollapseSpaces(s)[i] != '\U{FE0F}'
    decreases |s|
  {
    if s != [] {
      var k := if RegexSpace(s[0]) then SpaceRun(s) else 1;
      CollapseSpacesSelectorFree(s[k..]);
      var r := CollapseSpaces(s);
      assert forall i :: 1 <= i < |r| ==> r[i] == CollapseSpaces(s[k..])[i - 1];
    }
  }

  /** Dropping characters keeps any property every character had. */
  lemma {:induction false} RemoveCharsKeeps(s: string, inClass: char -> bool, p: char -> bool)
    requires forall i :: 0 <= i < |s| ==> p(s[i])
    ensures forall i :: 0 <= i < |RemoveChars(s, inClass)| ==> p(RemoveChars(s, inClass)[i])
  {
    if s != [] {
      RemoveCharsKeeps(s[1..], inClass, p);
      var r := RemoveChars(s, inClass);
      assert forall i :: 0 <= i < |r| ==> r[i] == s[0] || r[i] in RemoveChars(s[1..], inClass);
    }
  }

  /**
    Text without `\s` white space or U+FE0F only loses its control
    characters: the separators U+001C to U+001F, which `str.isspace` counts
    as white space, are dropped and never become blanks.
  */
  lemma NormalizeTextNoSpace(nfc: string -> string, s: string)
    requires forall i :: 0 <= i < |nfc(s)| ==> !RegexSpace(nfc(s)[i]) && nfc(s)[i] != '\U{FE0F}'
    ensures NormalizeText(nfc, s) == RemoveChars(nfc(s), IsControl)
  {
    var x := nfc(s);
    CollapseSpacesFixed(x);
    var y := RemoveChars(x, IsControl);
    RemoveCharsKeeps(x, IsControl, c => !RegexSpace(c) && c != '\U{FE0F}');
    RemoveStrandedSelectorsFixed(y);
    CollapseSpacesFixed(y);
  }

  /** The clean-up before the whitespace split: junk removed, white space collapsed, spaced emoticons joined. */
  function CleanText(s: string): (r: string)
  {
    JoinSpacedEmoticons(CollapseSpaces(RemoveChars(s, IsOtherNasty)))
  }

  /** `Token(tok, space_after=...)` for the words of the split: all but the last are followed by a space. */
  function WordTokens(ws: seq<string>, spaceAfter: bool): (ts: seq<Token>)
    ensures |ts| == |ws|
  {
    seq(|ws|, i requires 0 <= i < |ws| =>
      NewToken(ws[i], false, false, None, if i == |ws| - 1 then spaceAfter else true, false, false))
  }

  /** The whitespace split of one token (second loop of `_tokenize`); markup and locked tokens stay. */
  function WhitespaceSplit(t: Token): (ts: seq<Token>)
    ensures t.Frozen() ==> ts == [t]
  {
    if t.Frozen() then [t] else WordTokens(Words(CleanText(t.text)), t.spaceAfter)
  }

  /**
    The tokens of a whitespace split are plain words: one per word of the
    cleaned text, non-empty and free of white space, together holding every
    non-space character of the cleaned text, all followed by a space except
    the last, which takes the split token's flag; no class, no sentence
    flags, no original spelling.  White space alone gives no tokens.
  */
  lemma WhitespaceSplitTokens(t: Token)
    requires !t.Frozen()
    ensures var ts := WhitespaceSplit(t);
      && Texts(ts) == NonSpace(CleanText(t.text))
      && (ts == [] <==> NonSpace(CleanText(t.text)) == [])
      && (forall i :: 0 <= i < |ts| ==> ts[i].text != [] && NonSpace(ts[i].text) == ts[i].text)
      && (forall i :: 0 <= i < |ts| ==> !ts[i].Frozen() && ts[i].tokenClass.None? && ts[i].originalSpelling.None?)
      && (forall i :: 0 <= i < |ts| ==> !ts[i].firstInSentence && !ts[i].lastInSentence)
      && (forall i :: 0 <= i < |ts| - 1 ==> ts[i].spaceAfter)
      && (ts != [] ==> ts[|ts| - 1].spaceAfter == t.spaceAfter)
  {
    WhitespaceSplitText(t);
    WordsAreWords(CleanText(t.text));
  }

  /** The texts of a whitespace split hold the non-space characters of the cleaned text. */
  lemma WhitespaceSplitText(t: Token)
    requires !t.Frozen()
    ensures var ts := WhitespaceSplit(t);
      && Texts(ts) == NonSpace(CleanText(t.text))
      && (ts == [] <==> NonSpace(CleanText(t.text)) == [])
  {
    var ws := Words(CleanText(t.text));
    WordsAreWords(CleanText(t.text));
    WordsKeepNonSpace(CleanText(t.text));
    TextsOfWords(ws, t.spaceAfter);
    if ws != [] {
      assert ws[0] != [] && NonSpace(ws[0]) == ws[0];
      FlattenAppend([ws[0]], ws[1..]);
      assert [ws[0]] + ws[1..] == ws;
      assert Flatten([ws[0]]) == ws[0] + Flatten([]);
    }
  }

  lemma {:induction false} TextsOfWords(ws: seq<string>, spaceAfter: bool)
    ensures Texts(WordTokens(ws, spaceAfter)) == Flatten(ws)
  {
    if ws != [] {
      var ts := WordTokens(ws, spaceAfter);
      TextsOfWords(ws[1..], spaceAfter);
      assert forall i :: 0 <= i < |ws| - 1 ==> ts[1..][i].text == WordTokens(ws[1..], spaceAfter)[i].text;
      TextsOfTexts(ts[1..], WordTokens(ws[1..], spaceAfter));
    }
  }

  lemma {:induction false} TextsOfTexts(a: seq<Token>, b: seq<Token>)
    requires |a| == |b| && forall i :: 0 <= i < |a| ==> a[i].text == b[i].text
    ensures Texts(a) == Texts(b)
  {
    if a != [] {
      TextsOfTexts(a[1..], b[1..]);
    }
  }

  /** The normalisation of one token; markup and locked tokens stay. */
  function NormalizeToken(nfc: string -> string, t: Token): (r: Token)
    ensures r.(text := t.text) == t
    ensures t.Frozen() ==> r == t
    ensures !t.Frozen() ==> (forall i :: 0 <= i < |r.text| ==> !IsControl(r.text[i])) && Collapsed(r.text)
  {
    if t.Frozen() then t
    else
      NormalizeTextClean(nfc, t.text);
      t.(text := NormalizeText(nfc, t.text))
  }
}
