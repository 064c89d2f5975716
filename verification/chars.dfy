/**
  Character classes and the Python string primitives the core relies on:
  `str.isspace` and the regex class `\s`, `strip`, `lstrip`,
  `rstrip`, `split()`, `startswith` and slicing with clamped indices.
*/
module Chars {
  import opened Seqs

  /** Python's `str.isspace`, which `strip`, `lstrip`, `rstrip` and `split()` use. */
  predicate IsSpace(c: char) {
    ('\U{9}' <= c <= '\U{D}') || ('\U{1C}' <= c <= ' ') || c == '\U{85}' || c == '\U{A0}'
    || c == '\U{1680}' || ('\U{2000}' <= c <= '\U{200A}') || c == '\U{2028}' || c == '\U{2029}'
    || c == '\U{202F}' || c == '\U{205F}' || c == '\U{3000}'
  }

  /**
    The class `\s` of the `regex` module the tokenizer compiles its patterns
    with: Unicode White_Space.  Unlike `str.isspace` it leaves out the
    information separators U+001C to U+001F, which are control characters.
  */
  predicate RegexSpace(c: char) {
    IsSpace(c) && !('\U{1C}' <= c <= '\U{1F}')
  }

  /** The class `[\u0000-\u001F\u007F-\u009F]` (the tokenizer's `controls`). */
  predicate IsControl(c: char) {
    c <= '\U{1F}' || ('\U{7F}' <= c <= '\U{9F}')
  }

  /** The class of `other_nasties`: soft hyphen, zero-width and bidi formatting characters. */
  predicate IsOtherNasty(c: char) {
    c == '\U{AD}' || c == '\U{61C}' || ('\U{200B}' <= c <= '\U{200F}') || ('\U{202A}' <= c <= '\U{202E}')
    || c == '\U{2060}' || ('\U{2066}' <= c <= '\U{2069}') || c == '\U{FEFF}'
  }

  /** The junk class shared by `starts_with_junk` and `junk_between_spaces`. */
  predicate IsJunk(c: char) {
    IsControl(c) || IsOtherNasty(c)
  }

  function Min(a: int, b: int): int { if a < b then a else b }
  function Max(a: int, b: int): int { if a < b then b else a }

  /** A Python slice index after negative indices are counted from the end and clamped. */
  function ClampIndex(i: int, n: nat): (k: nat)
    ensures k <= n
    ensures 0 <= i <= n ==> k == i
  {
    if i < 0 then Max(0, i + n) else Min(i, n)
  }

  /** `s[i:j]` with Python's slicing semantics. */
  function Slice(s: string, i: int, j: int): (r: string)
    ensures 0 <= i <= j <= |s| ==> r == s[i..j]
    ensures |r| <= |s|
  {
    var a := ClampIndex(i, |s|);
    var b := ClampIndex(j, |s|);
    if a < b then s[a..b] else ""
  }

  predicate StartsWith(s: string, prefix: string) {
    |prefix| <= |s| && s[..|prefix|] == prefix
  }

  predicate StartsWithSpace(s: string) {
    |s| > 0 && s[0] == ' '
  }

  predicate EndsWithSpace(s: string) {
    |s| > 0 && s[|s| - 1] == ' '
  }

  /** `s.lstrip()`. */
  function LStrip(s: string): (r: string)
    ensures |r| <= |s|
  {
    if s == [] then [] else if IsSpace(s[0]) then LStrip(s[1..]) else s
  }

  /** `lstrip` drops exactly the leading run of white space. */
  lemma {:induction false} LStripSpec(s: string)
    ensures var r := LStrip(s);
      && r == s[|s| - |r|..]
      && (r == [] || !IsSpace(r[0]))
      && (forall i :: 0 <= i < |s| - |r| ==> IsSpace(s[i]))
  {
    if s != [] && IsSpace(s[0]) {
      LStripSpec(s[1..]);
    }
  }

  /** `s.rstrip()`. */
  function RStrip(s: string): (r: string)
    ensures |r| <= |s|
  {
    if s == [] then [] else if IsSpace(s[|s| - 1]) then RStrip(s[..|s| - 1]) else s
  }

  /** `rstrip` drops exactly the trailing run of white space. */
  lemma {:induction false} RStripSpec(s: string)
    ensures var r := RStrip(s);
      && r == s[..|r|]
      && (r == [] || !IsSpace(r[|r| - 1]))
      && (forall i :: |r| <= i < |s| ==> IsSpace(s[i]))
  {
    if s != [] && IsSpace(s[|s| - 1]) {
      RStripSpec(s[..|s| - 1]);
    }
  }

  /** `s.strip()`. */
  function Strip(s: string): (r: string)
    ensures |r| <= |s|
  {
    RStrip(LStrip(s))
  }

  /** A stripped string neither starts nor ends with white space. */
  lemma StripSpec(s: string)
    ensures var r := Strip(s);
      r == [] || (!IsSpace(r[0]) && !IsSpace(r[|r| - 1]))
  {
    var l := LStrip(s);
    LStripSpec(s);
    RStripSpec(l);
    var r := RStrip(l);
    if r != [] {
      assert r[0] == l[0];
    }
  }

  /** A string without white space is its own stripped form. */
  lemma StripNoSpace(s: string)
    requires forall i :: 0 <= i < |s| ==> !IsSpace(s[i])
    ensures Strip(s) == s
  {
    assert LStrip(s) == s;
  }

  /** The characters of `s` that are not white space, in order. */
  function NonSpace(s: string): (r: string)
    ensures |r| <= |s|
  {
    if s == [] then [] else (if IsSpace(s[0]) then [] else [s[0]]) + NonSpace(s[1..])
  }

  /** A string that is its own non-space part holds no white space. */
  lemma {:induction false} NonSpaceFixed(s: string)
    requires NonSpace(s) == s
    ensures forall i :: 0 <= i < |s| ==> !IsSpace(s[i])
  {
    if s != [] {
      assert !IsSpace(s[0]);
      assert NonSpace(s[1..]) == s[1..];
      NonSpaceFixed(s[1..]);
      assert forall i :: 1 <= i < |s| ==> s[i] == s[1..][i - 1];
    }
  }

  lemma {:induction false} NonSpaceAppend(a: string, b: string)
    ensures NonSpace(a + b) == NonSpace(a) + NonSpace(b)
  {
    if a == [] {
      assert a + b == b;
    } else {
      var h: string := if IsSpace(a[0]) then [] else [a[0]];
      assert (a + b)[0] == a[0] && (a + b)[1..] == a[1..] + b;
      assert NonSpace(a + b) == h + NonSpace(a[1..] + b);
      NonSpaceAppend(a[1..], b);
      assert h + (NonSpace(a[1..]) + NonSpace(b)) == (h + NonSpace(a[1..])) + NonSpace(b);
    }
  }

  lemma {:induction false} NonSpaceAllSpace(s: string)
    requires forall i :: 0 <= i < |s| ==> IsSpace(s[i])
    ensures NonSpace(s) == []
  {
    if s != [] {
      NonSpaceAllSpace(s[1..]);
    }
  }

  /** `lstrip` drops white space only. */
  lemma LStripKeepsNonSpace(s: string)
    ensures NonSpace(LStrip(s)) == NonSpace(s)
  {
    LStripSpec(s);
    var l := LStrip(s);
    assert s == s[..|s| - |l|] + l;
    NonSpaceAppend(s[..|s| - |l|], l);
    NonSpaceAllSpace(s[..|s| - |l|]);
  }

  /** Stripping drops white space only: the other characters are kept, in order. */
  lemma StripKeepsNonSpace(s: string)
    ensures NonSpace(Strip(s)) == NonSpace(s)
  {
    LStripSpec(s);
    RStripSpec(LStrip(s));
    var l := LStrip(s);
    assert s == s[..|s| - |l|] + l;
    NonSpaceAppend(s[..|s| - |l|], l);
    NonSpaceAllSpace(s[..|s| - |l|]);
    var r := RStrip(l);
    assert l == r + l[|r|..];
    NonSpaceAppend(r, l[|r|..]);
    NonSpaceAllSpace(l[|r|..]);
  }

  /** The length of the leading run of non-space characters. */
  function WordLength(s: string): (k: nat)
    ensures k <= |s|
    ensures forall i :: 0 <= i < k ==> !IsSpace(s[i])
    ensures k < |s| ==> IsSpace(s[k])
  {
    if s == [] || IsSpace(s[0]) then 0 else 1 + WordLength(s[1..])
  }

  /** `s.split()`: the maximal runs of non-space characters, in order. */
  function Words(s: string): (ws: seq<string>)
    decreases |s|
  {
    var t := LStrip(s);
    LStripSpec(s);
    if t == [] then []
    else
      var k := WordLength(t);
      [t[..k]] + Words(t[k..])
  }

  /** Every word is non-empty and free of white space. */
  lemma {:induction false} WordsAreWords(s: string)
    ensures forall i :: 0 <= i < |Words(s)| ==> Words(s)[i] != [] && NonSpace(Words(s)[i]) == Words(s)[i]
    decreases |s|
  {
    var t := LStrip(s);
    LStripSpec(s);
    if t != [] {
      var k := WordLength(t);
      NonSpaceOfWord(t[..k]);
      WordsAreWords(t[k..]);
    }
  }

  lemma {:induction false} NonSpaceOfWord(w: string)
    requires forall i :: 0 <= i < |w| ==> !IsSpace(w[i])
    ensures NonSpace(w) == w
  {
    if w != [] {
      NonSpaceOfWord(w[1..]);
      assert w == [w[0]] + w[1..];
    }
  }

  /** Splitting on white space loses nothing but the white space itself. */
  lemma {:induction false} WordsKeepNonSpace(s: string)
    ensures Flatten(Words(s)) == NonSpace(s)
    decreases |s|
  {
    var t := LStrip(s);
    LStripSpec(s);
    assert s == s[..|s| - |t|] + t;
    NonSpaceAppend(s[..|s| - |t|], t);
    NonSpaceAllSpace(s[..|s| - |t|]);
    if t != [] {
      var k := WordLength(t);
      assert t == t[..k] + t[k..];
      NonSpaceAppend(t[..k], t[k..]);
      NonSpaceOfWord(t[..k]);
      WordsKeepNonSpace(t[k..]);
    } else {
      assert NonSpace(t) == [];
    }
  }
}
