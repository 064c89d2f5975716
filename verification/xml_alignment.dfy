/**
  `_match_xml` in somajo/tokenizer.py: the alignment of `_check_spaces`
  run over the text fragments of an XML document (the texts and tails of
  its elements, in document order).  The tokens wait on an agenda, a
  Python list used as a stack whose top is its last element; every
  fragment is normalised and consumed from the left, one popped token at
  a time.  A token that runs past the end of a fragment is cut: the part
  that was found is written into this fragment and the rest, with its
  leading white space stripped, is pushed back onto the agenda for the
  next fragment.

  Tokens are taken as (text, class) pairs.  The source reads an attribute
  `token` that somajo/token.py does not declare, and pushes a cut token's
  rest back as `Token(rest, t.token_class)`, which puts the class into the
  `markup` argument; here the rest keeps its class as its class.  NFC
  normalisation is a parameter.  Instead of writing into the elements,
  the model returns the text written for each fragment; popping from an
  empty agenda, which raises in the source, makes the whole result
  `None`; the warnings become returned flags.
*/
module XmlAlignment {
  import opened Wrappers
  import opened Seqs
  import opened Chars
  import opened Alignment

  /** A token as `_match_xml` handles it: its text and its class. */
  datatype XToken = XToken(text: string, cls: string)

  /**
    What one popped token gives: the text written for it, its class and
    annotation, how much of the fragment it used up, the part of it pushed
    back onto the agenda, and whether its search ran out of text.
  */
  datatype XStep = XStep(token: string, cls: string, info: Info, used: nat, pushback: Option<XToken>, failed: bool)

  // ---------------------------------------------------------------------
  // One token (somajo/tokenizer.py:510-552)

  /**
    How one popped token is cut out of the text, before what follows it
    is looked at: what is written for it, the original spelling found by
    a search, how much text it used up, what is pushed back, and whether
    the search ran out of text.
  */
  datatype Cut = Cut(token: string, orig: Option<string>, consumed: nat, pushback: Option<XToken>, failed: bool)

  /**
    The three branches of the inner loop.  A prefix of the text is
    consumed as it is.  A token of which the rest of the text is a prefix
    straddles the end of the fragment: the text is written for it and the
    remainder is pushed back.  Any other token is searched for character
    by character; the characters found are written for it and, if the
    text ran out, the others are pushed back.
  */
  function CutOf(norm: string, t: XToken): (c: Cut)
    ensures c.consumed <= |norm|
    ensures c.pushback.Some? ==> c.consumed == |norm| && c.pushback.value.cls == t.cls
  {
    if StartsWith(norm, t.text) then Cut(t.text, None, |t.text|, None, false)
    else if StartsWith(t.text, norm) then Cut(norm, None, |norm|, Some(XToken(LStrip(t.text[|norm|..]), t.cls)), false)
    else
      var sc := ScanFrom(norm, 0, t.text, 0);
      var m := sc.matched;
      Cut(t.text[..m], Some(norm[..sc.consumed]), sc.consumed,
          if m < |t.text| then Some(XToken(LStrip(t.text[m..]), t.cls)) else None, m < |t.text|)
  }

  /** One round of the inner loop: the cut, then what follows the token, as in `_check_spaces`. */
  function MatchStep(norm: string, t: XToken): (s: XStep)
    ensures s.used <= |norm| && s.cls == t.cls
    ensures s.pushback.Some? ==> s.used == |norm| && s.pushback.value.cls == t.cls
  {
    var c := CutOf(norm, t);
    var f := Finish(norm[c.consumed..], c.token, c.orig, c.failed);
    FinishSpec(norm[c.consumed..], c.token, c.orig, c.failed);
    XStep(c.token, t.cls, f.info, c.consumed + f.used, c.pushback, f.failed)
  }

  /** The line written for a token: text, class and extra information, separated by tabs. */
  function Line(s: XStep): string {
    s.token + "\t" + s.cls + "\t" + RenderInfo(s.info)
  }

  /** The agenda entries a step pushes back: none or one. */
  function PushedBack(s: XStep): seq<XToken> {
    if s.pushback.Some? then [s.pushback.value] else []
  }

  /** The text pushed back by a step, empty when nothing is. */
  function PushedText(s: XStep): string {
    if s.pushback.Some? then s.pushback.value.text else ""
  }

  /**
    What is written for a token is a prefix of it; the token is cut
    exactly when something is pushed back, and what is pushed back is the
    rest of the token without its leading white space.
  */
  lemma MatchStepCuts(norm: string, t: XToken)
    ensures var s := MatchStep(norm, t);
      && StartsWith(t.text, s.token)
      && (s.pushback.None? <==> s.token == t.text)
      && (s.pushback.Some? ==> s.pushback.value.text == LStrip(t.text[|s.token|..]))
  {
  }

  /**
    No character of a token other than white space is lost or doubled:
    what is written for it followed by what is pushed back holds the
    token's non-space characters, in order.
  */
  lemma MatchStepConserves(norm: string, t: XToken)
    ensures var s := MatchStep(norm, t);
      NonSpace(s.token) + NonSpace(PushedText(s)) == NonSpace(t.text)
  {
    var s := MatchStep(norm, t);
    MatchStepCuts(norm, t);
    var k := |s.token|;
    assert t.text == s.token + t.text[k..];
    NonSpaceAppend(s.token, t.text[k..]);
    if s.pushback.Some? {
      LStripKeepsNonSpace(t.text[k..]);
    } else {
      assert t.text[k..] == [];
    }
  }

  /**
    Unless the token straddles the end of the fragment, a step of
    `_match_xml` annotates the token, uses up the text and reports a
    failed search exactly as a step of `_check_spaces` does.  A
    straddling token uses up the whole text, gets no annotation, and the
    text is written for it.
  */
  lemma MatchStepAgrees(norm: string, t: XToken)
    ensures var s, c := MatchStep(norm, t), CheckStep(norm, t.text);
      if !StartsWith(norm, t.text) && StartsWith(t.text, norm) then
        s.token == norm && s.used == |norm| && s.info == Info(true, None) && !s.failed
      else
        s.info == c.info && s.used == c.used && s.failed == c.failed
  {
  }

  /**
    A token searched for is written as the part of it that was found,
    and that part can be found, in order, in the text it used up.
  */
  lemma MatchStepFound(norm: string, t: XToken)
    requires !StartsWith(norm, t.text) && !StartsWith(t.text, norm)
    ensures var s := MatchStep(norm, t);
      |s.token| <= |t.text| && Embeds(t.text, 0, |s.token|, norm, 0, s.used)
  {
    var sc := ScanFrom(norm, 0, t.text, 0);
    ScanFromSpec(norm, 0, t.text, 0);
    var s := MatchStep(norm, t);
    EmbedsExtend(t.text, 0, sc.matched, norm, 0, sc.consumed, s.used);
  }

  // ---------------------------------------------------------------------
  // One fragment (somajo/tokenizer.py:504-559)

  /** The steps taken in a fragment and the agenda left after it. */
  datatype Fragment = Fragment(steps: seq<XStep>, agenda: seq<XToken>)

  /** Steps taken before a fragment's remaining ones. */
  function Prepend(steps: seq<XStep>, r: Option<Fragment>): (p: Option<Fragment>)
    ensures p.Some? <==> r.Some?
  {
    if r.None? then None else Some(Fragment(steps + r.value.steps, r.value.agenda))
  }

  /**
    The inner loop of `_match_xml` over a normalised fragment: as long as
    text is left, the top of the agenda is popped and aligned; `None` when
    the agenda runs empty first.
  */
  function MatchFragment(norm: string, agenda: seq<XToken>): (r: Option<Fragment>)
    decreases |norm| + |agenda|
  {
    if norm == [] then Some(Fragment([], agenda))
    else if agenda == [] then None
    else
      var s := MatchStep(norm, agenda[|agenda| - 1]);
      Prepend([s], MatchFragment(norm[s.used..], agenda[..|agenda| - 1] + PushedBack(s)))
  }

  /** The texts written for the steps, concatenated. */
  function Written(steps: seq<XStep>): string {
    if steps == [] then "" else steps[0].token + Written(steps[1..])
  }

  /** The texts of an agenda's tokens, in the order they would be popped. */
  function Pending(agenda: seq<XToken>): string
    decreases |agenda|
  {
    if agenda == [] then "" else agenda[|agenda| - 1].text + Pending(agenda[..|agenda| - 1])
  }

  /** Pushing back puts the pushed text at the front of what is pending. */
  lemma PendingPush(agenda: seq<XToken>, s: XStep)
    ensures Pending(agenda + PushedBack(s)) == PushedText(s) + Pending(agenda)
  {
    if s.pushback.Some? {
      var a := agenda + [s.pushback.value];
      assert a[..|a| - 1] == agenda;
    } else {
      assert agenda + [] == agenda;
    }
  }

  /** Arithmetic of non-space parts: one step followed by the rest. */
  lemma ConserveStep(tok: string, pushed: string, text: string, w: string, p: string, p': string)
    requires NonSpace(tok) + NonSpace(pushed) == NonSpace(text)
    requires NonSpace(w) + NonSpace(p') == NonSpace(pushed + p)
    ensures NonSpace(tok + w) + NonSpace(p') == NonSpace(text + p)
  {
    NonSpaceAppend(tok, w);
    NonSpaceAppend(pushed, p);
    NonSpaceAppend(text, p);
    AppendAssoc(NonSpace(tok), NonSpace(w), NonSpace(p'));
    AppendAssoc(NonSpace(tok), NonSpace(pushed), NonSpace(p));
  }

  /**
    Within a fragment no token character other than white space is lost:
    the texts written, followed by what is still pending, hold the
    non-space characters of what was pending before.
  */
  lemma {:induction false} MatchFragmentConserves(norm: string, agenda: seq<XToken>)
    requires MatchFragment(norm, agenda).Some?
    ensures var f := MatchFragment(norm, agenda).value;
      NonSpace(Written(f.steps)) + NonSpace(Pending(f.agenda)) == NonSpace(Pending(agenda))
    decreases |norm| + |agenda|
  {
    if norm == [] {
      assert Written([]) == "";
    } else {
      var t := agenda[|agenda| - 1];
      var s := MatchStep(norm, t);
      var rest := agenda[..|agenda| - 1];
      var next := rest + PushedBack(s);
      MatchFragmentConserves(norm[s.used..], next);
      var g := MatchFragment(norm[s.used..], next).value;
      var f := MatchFragment(norm, agenda).value;
      assert f.steps == [s] + g.steps && f.agenda == g.agenda;
      assert Written(f.steps) == s.token + Written(g.steps) by {
        assert f.steps[0] == s && f.steps[1..] == g.steps;
      }
      MatchStepConserves(norm, t);
      PendingPush(rest, s);
      ConserveStep(s.token, PushedText(s), t.text, Written(g.steps), Pending(rest), Pending(g.agenda));
    }
  }

  /**
    Only the last token of a fragment can be cut: a step that pushes
    something back uses up the rest of the fragment, which ends the loop.
  */
  lemma {:induction false} MatchFragmentCutsLast(norm: string, agenda: seq<XToken>)
    requires MatchFragment(norm, agenda).Some?
    ensures var st := MatchFragment(norm, agenda).value.steps;
      forall k :: 0 <= k < |st| - 1 ==> st[k].pushback.None?
    decreases |norm| + |agenda|
  {
    if norm != [] {
      var s := MatchStep(norm, agenda[|agenda| - 1]);
      var next := agenda[..|agenda| - 1] + PushedBack(s);
      MatchFragmentCutsLast(norm[s.used..], next);
      var g := MatchFragment(norm[s.used..], next).value;
      var st := MatchFragment(norm, agenda).value.steps;
      assert st == [s] + g.steps;
      if s.pushback.Some? {
        assert norm[s.used..] == [];
        assert g.steps == [];
      }
      forall k | 0 <= k < |st| - 1
        ensures st[k].pushback.None?
      {
        if k > 0 {
          assert st[k] == g.steps[k - 1];
        }
      }
    }
  }

  // ---------------------------------------------------------------------
  // All fragments (somajo/tokenizer.py:501-568)

  /** The steps taken in every fragment so far, the agenda left, and whether a search failed. */
  datatype Matched = Matched(outputs: seq<seq<XStep>>, agenda: seq<XToken>, failed: bool)

  /** Some step of a fragment ran out of text. */
  predicate AnyFailed(steps: seq<XStep>) {
    exists k :: 0 <= k < |steps| && steps[k].failed
  }

  /**
    The outer loop of `_match_xml`: every fragment, NFC-normalised and
    then normalised as in `_check_spaces`, is aligned with the agenda the
    previous fragments left; `None` when some fragment pops from an empty
    agenda.
  */
  function MatchElements(agenda: seq<XToken>, texts: seq<string>, nfc: string -> string): (r: Option<Matched>)
    ensures r.Some? ==> |r.value.outputs| == |texts|
    decreases |texts|
  {
    if texts == [] then Some(Matched([], agenda, false))
    else
      var r := MatchElements(agenda, texts[..|texts| - 1], nfc);
      if r.None? then None
      else
        var f := MatchFragment(NormalizeRaw(nfc(texts[|texts| - 1])), r.value.agenda);
        if f.None? then None
        else Some(Matched(r.value.outputs + [f.value.steps], f.value.agenda, r.value.failed || AnyFailed(f.value.steps)))
  }

  /** A failure in some fragment is a failure of the whole document. */
  lemma {:induction false} MatchElementsStaysNone(agenda: seq<XToken>, texts: seq<string>, nfc: string -> string, i: nat)
    requires i <= |texts| && MatchElements(agenda, texts[..i], nfc).None?
    ensures MatchElements(agenda, texts, nfc).None?
    decreases |texts|
  {
    if i < |texts| {
      var init := texts[..|texts| - 1];
      assert init[..i] == texts[..i];
      MatchElementsStaysNone(agenda, init, nfc, i);
    } else {
      assert texts[..i] == texts;
    }
  }

  /** The texts written into all fragments, concatenated. */
  function AllWritten(outputs: seq<seq<XStep>>): string
    decreases |outputs|
  {
    if outputs == [] then "" else AllWritten(outputs[..|outputs| - 1]) + Written(outputs[|outputs| - 1])
  }

  /**
    Over the whole document no token character other than white space is
    lost: the texts written into the fragments, followed by the tokens
    left on the agenda, hold the non-space characters of the agenda the
    document started with.
  */
  lemma {:induction false} MatchElementsConserves(agenda: seq<XToken>, texts: seq<string>, nfc: string -> string)
    requires MatchElements(agenda, texts, nfc).Some?
    ensures var m := MatchElements(agenda, texts, nfc).value;
      NonSpace(AllWritten(m.outputs)) + NonSpace(Pending(m.agenda)) == NonSpace(Pending(agenda))
    decreases |texts|
  {
    if texts != [] {
      var init := texts[..|texts| - 1];
      MatchElementsConserves(agenda, init, nfc);
      var r := MatchElements(agenda, init, nfc).value;
      var norm := NormalizeRaw(nfc(texts[|texts| - 1]));
      MatchFragmentConserves(norm, r.agenda);
      var f := MatchFragment(norm, r.agenda).value;
      var m := MatchElements(agenda, texts, nfc).value;
      assert m.outputs == r.outputs + [f.steps] && m.agenda == f.agenda;
      assert m.outputs[..|m.outputs| - 1] == r.outputs;
      assert AllWritten(m.outputs) == AllWritten(r.outputs) + Written(f.steps);
      NonSpaceAppend(AllWritten(r.outputs), Written(f.steps));
      AppendAssoc(NonSpace(AllWritten(r.outputs)), NonSpace(Written(f.steps)), NonSpace(Pending(f.agenda)));
    }
  }

  /** The token texts, concatenated. */
  function Texts(ts: seq<XToken>): string {
    if ts == [] then "" else ts[0].text + Texts(ts[1..])
  }

  /** `list(reversed(tokens))` pops the tokens in their order. */
  lemma {:induction false} PendingReversed(ts: seq<XToken>)
    ensures Pending(Reversed(ts)) == Texts(ts)
  {
    if ts != [] {
      var r := Reversed(ts);
      assert r[|r| - 1] == ts[0] && r[..|r| - 1] == Reversed(ts[1..]);
      PendingReversed(ts[1..]);
    }
  }

  /**
    `_match_xml` loses no token character other than white space: the
    texts written into the document, followed by the tokens left over,
    hold the non-space characters of the input tokens, in order; when no
    token is left over, the texts written are the tokens up to white space.
  */
  lemma MatchXmlConserves(tokens: seq<XToken>, texts: seq<string>, nfc: string -> string)
    requires MatchElements(Reversed(tokens), texts, nfc).Some?
    ensures var m := MatchElements(Reversed(tokens), texts, nfc).value;
      && NonSpace(AllWritten(m.outputs)) + NonSpace(Pending(m.agenda)) == NonSpace(Texts(tokens))
      && (m.agenda == [] ==> NonSpace(AllWritten(m.outputs)) == NonSpace(Texts(tokens)))
  {
    MatchElementsConserves(Reversed(tokens), texts, nfc);
    PendingReversed(tokens);
    var m := MatchElements(Reversed(tokens), texts, nfc).value;
    if m.agenda == [] {
      assert NonSpace(Pending(m.agenda)) == [];
      AppendNil(NonSpace(AllWritten(m.outputs)));
    }
  }

  // ---------------------------------------------------------------------
  // The text written for a fragment (somajo/tokenizer.py:553-559)

  /** `"\n".join(lines)`. */
  function JoinLines(lines: seq<string>): string
    decreases |lines|
  {
    if lines == [] then "" else if |lines| == 1 then lines[0] else lines[0] + "\n" + JoinLines(lines[1..])
  }

  /** The lines written for a fragment's steps, one per popped token, in order. */
  function Lines(steps: seq<XStep>): (ls: seq<string>)
    ensures |ls| == |steps|
  {
    seq(|steps|, k requires 0 <= k < |steps| => Line(steps[k]))
  }

  /** The fragment's new text: its lines between newlines, or a single newline when there is none. */
  function RenderFragment(lines: seq<string>): string {
    if |lines| > 0 then "\n" + JoinLines(lines) + "\n" else "\n"
  }

  /** The number of times `c` occurs in `s`. */
  function Count(s: string, c: char): nat {
    if s == [] then 0 else (if s[0] == c then 1 else 0) + Count(s[1..], c)
  }

  lemma {:induction false} CountAppend(a: string, b: string, c: char)
    ensures Count(a + b, c) == Count(a, c) + Count(b, c)
  {
    if a == [] {
      assert a + b == b;
    } else {
      assert (a + b)[0] == a[0] && (a + b)[1..] == a[1..] + b;
      CountAppend(a[1..], b, c);
    }
  }

  lemma {:induction false} JoinLinesCount(lines: seq<string>)
    requires lines != [] && forall k :: 0 <= k < |lines| ==> Count(lines[k], '\n') == 0
    ensures Count(JoinLines(lines), '\n') == |lines| - 1
    decreases |lines|
  {
    if |lines| > 1 {
      JoinLinesCount(lines[1..]);
      CountAppend(lines[0] + "\n", JoinLines(lines[1..]), '\n');
      CountAppend(lines[0], "\n", '\n');
    }
  }

  /**
    The text written for a fragment consists of its lines, each closed
    by a newline, after a leading newline: when no line holds a newline
    itself, it holds one newline more than there are lines.
  */
  lemma RenderFragmentCount(lines: seq<string>)
    requires forall k :: 0 <= k < |lines| ==> Count(lines[k], '\n') == 0
    ensures Count(RenderFragment(lines), '\n') == |lines| + 1
    ensures RenderFragment(lines)[0] == '\n' && RenderFragment(lines)[|RenderFragment(lines)| - 1] == '\n'
  {
    if |lines| > 0 {
      JoinLinesCount(lines);
      CountAppend("\n" + JoinLines(lines), "\n", '\n');
      CountAppend("\n", JoinLines(lines), '\n');
    }
  }

  // ---------------------------------------------------------------------
  // The loops

  /** The branches of the body of the inner loop for the popped token `t`. */
  method CutToken(norm: string, t: XToken) returns (token: string, orig: Option<string>, after: string, push: Option<XToken>, failed: bool)
    ensures var c := CutOf(norm, t);
      && token == c.token && orig == c.orig && after == norm[c.consumed..] && push == c.pushback && failed == c.failed
  {
    token := t.text;
    orig, push, failed := None, None, false;
    if StartsWith(norm, token) {
      after := norm[|token|..];
    } else if StartsWith(token, norm) {
      push := Some(XToken(LStrip(token[|norm|..]), t.cls));
      token := norm;
      after := [];
    } else {
      var o, m;
      o, m, after := ScanToken(norm, token);
      if m != |token| {
        push := Some(XToken(LStrip(token[m..]), t.cls));
        token := token[..m];
        failed := true;
      }
      orig := Some(o);
    }
  }

  /** The body of the inner loop for the popped token `t`: its line, the text after it and what it pushes back. */
  method MatchToken(norm: string, t: XToken) returns (line: string, rest: string, push: Option<XToken>, failed: bool)
    ensures var s := MatchStep(norm, t);
      line == Line(s) && rest == norm[s.used..] && push == s.pushback && failed == s.failed
  {
    ghost var c := CutOf(norm, t);
    var token, orig, after;
    token, orig, after, push, failed := CutToken(norm, t);
    ghost var f := Finish(after, token, orig, failed);
    FinishSpec(after, token, orig, failed);
    var info;
    info, rest := FinishToken(after, token, orig, failed);
    DropDrop(norm, c.consumed, f.used);
    line := token + "\t" + t.cls + "\t" + info;
  }

  /** Popping the top of the agenda and aligning it, pushing back what the step leaves of it. */
  method PopAndMatch(norm: string, agenda: seq<XToken>) returns (line: string, rest: string, agenda': seq<XToken>, failed: bool)
    requires agenda != []
    ensures var s := MatchStep(norm, agenda[|agenda| - 1]);
      && line == Line(s) && rest == norm[s.used..] && failed == s.failed
      && agenda' == agenda[..|agenda| - 1] + PushedBack(s)
  {
    var t := agenda[|agenda| - 1];
    agenda' := agenda[..|agenda| - 1];
    var push;
    line, rest, push, failed := MatchToken(norm, t);
    if push.Some? {
      agenda' := agenda' + [push.value];
    } else {
      assert agenda' + [] == agenda';
    }
  }

  /**
    The state of the inner loop: the steps taken so far, followed by what
    the rest of the fragment gives with the current agenda, are what the
    whole fragment gives; the lines written so far are those of the steps.
  */
  ghost predicate FragmentSoFar(norm0: string, agenda0: seq<XToken>, norm: string, agenda: seq<XToken>,
                                steps: seq<XStep>, output: seq<string>, failed: bool)
  {
    && MatchFragment(norm0, agenda0) == Prepend(steps, MatchFragment(norm, agenda))
    && output == Lines(steps)
    && failed == AnyFailed(steps)
  }

  /** One round of the inner loop keeps its state in step with `MatchFragment`. */
  lemma FragmentSoFarNext(norm0: string, agenda0: seq<XToken>, norm: string, agenda: seq<XToken>,
                          steps: seq<XStep>, output: seq<string>, failed: bool)
    requires norm != [] && agenda != []
    requires FragmentSoFar(norm0, agenda0, norm, agenda, steps, output, failed)
    ensures var s := MatchStep(norm, agenda[|agenda| - 1]);
      FragmentSoFar(norm0, agenda0, norm[s.used..], agenda[..|agenda| - 1] + PushedBack(s),
                    steps + [s], output + [Line(s)], failed || s.failed)
  {
    var s := MatchStep(norm, agenda[|agenda| - 1]);
    var r := MatchFragment(norm[s.used..], agenda[..|agenda| - 1] + PushedBack(s));
    if r.Some? {
      AppendAssoc(steps, [s], r.value.steps);
    }
    var st := steps + [s];
    assert Lines(st) == Lines(steps) + [Line(s)];
    assert AnyFailed(st) == (AnyFailed(steps) || s.failed) by {
      if AnyFailed(steps) {
        var k :| 0 <= k < |steps| && steps[k].failed;
        assert st[k] == steps[k];
      }
      if s.failed {
        assert st[|steps|] == s;
      }
      if AnyFailed(st) {
        var k :| 0 <= k < |st| && st[k].failed;
        if k < |steps| {
          assert st[k] == steps[k];
        }
      }
    }
  }

  /**
    The inner loop of `_match_xml` over a normalised fragment: the lines
    it writes, the agenda it leaves and whether a search failed;
    `ok` is false when it pops from an empty agenda.
  */
  method MatchFragmentLoop(norm0: string, agenda0: seq<XToken>) returns (ok: bool, output: seq<string>, agenda: seq<XToken>, failed: bool)
    ensures var r := MatchFragment(norm0, agenda0);
      && ok == r.Some?
      && (ok ==> output == Lines(r.value.steps) && agenda == r.value.agenda && failed == AnyFailed(r.value.steps))
  {
    var normalized := norm0;
    agenda, output, failed := agenda0, [], false;
    ghost var steps: seq<XStep> := [];
    ghost var r0 := MatchFragment(norm0, agenda0);
    if r0.Some? {
      assert [] + r0.value.steps == r0.value.steps;
    }
    while |normalized| > 0
      invariant FragmentSoFar(norm0, agenda0, normalized, agenda, steps, output, failed)
      decreases |normalized| + |agenda|
    {
      if agenda == [] {
        return false, output, agenda, failed;
      }
      ghost var s := MatchStep(normalized, agenda[|agenda| - 1]);
      FragmentSoFarNext(norm0, agenda0, normalized, agenda, steps, output, failed);
      var line, rest, agenda', f := PopAndMatch(normalized, agenda);
      normalized, agenda, output, failed := rest, agenda', output + [line], failed || f;
      steps := steps + [s];
    }
    AppendNil(steps);
    ok := true;
  }

  /** The state of the outer loop after `i` fragments: what `MatchElements` gives for them. */
  ghost predicate ElementsSoFar(tokens: seq<XToken>, texts: seq<string>, nfc: string -> string, i: nat,
                                outputs: seq<string>, agenda: seq<XToken>, misaligned: bool)
    requires i <= |texts|
  {
    var r := MatchElements(Reversed(tokens), texts[..i], nfc);
    && r.Some?
    && |outputs| == i
    && (forall k :: 0 <= k < i ==> outputs[k] == RenderFragment(Lines(r.value.outputs[k])))
    && agenda == r.value.agenda
    && misaligned == r.value.failed
  }

  /** One fragment more. */
  lemma ElementsSoFarNext(tokens: seq<XToken>, texts: seq<string>, nfc: string -> string, i: nat,
                          outputs: seq<string>, agenda: seq<XToken>, misaligned: bool,
                          output: seq<string>, agenda': seq<XToken>, failed: bool)
    requires i < |texts| && ElementsSoFar(tokens, texts, nfc, i, outputs, agenda, misaligned)
    requires var f := MatchFragment(NormalizeRaw(nfc(texts[i])), agenda);
      f.Some? && output == Lines(f.value.steps) && agenda' == f.value.agenda && failed == AnyFailed(f.value.steps)
    ensures ElementsSoFar(tokens, texts, nfc, i + 1, outputs + [RenderFragment(output)], agenda', misaligned || failed)
  {
    var pre := texts[..i + 1];
    assert pre[..i] == texts[..i] && pre[i] == texts[i];
    var r := MatchElements(Reversed(tokens), texts[..i], nfc);
    var f := MatchFragment(NormalizeRaw(nfc(texts[i])), agenda);
    var r' := MatchElements(Reversed(tokens), pre, nfc);
    assert r'.value.outputs == r.value.outputs + [f.value.steps];
  }

  /** A fragment that pops from an empty agenda makes the whole document fail. */
  lemma ElementsSoFarFails(tokens: seq<XToken>, texts: seq<string>, nfc: string -> string, i: nat,
                           outputs: seq<string>, agenda: seq<XToken>, misaligned: bool)
    requires i < |texts| && ElementsSoFar(tokens, texts, nfc, i, outputs, agenda, misaligned)
    requires MatchFragment(NormalizeRaw(nfc(texts[i])), agenda).None?
    ensures MatchElements(Reversed(tokens), texts, nfc).None?
  {
    var pre := texts[..i + 1];
    assert pre[..i] == texts[..i] && pre[i] == texts[i];
    assert MatchElements(Reversed(tokens), pre, nfc).None?;
    MatchElementsStaysNone(Reversed(tokens), texts, nfc, i + 1);
  }

  /**
    `_match_xml`: the text written into each fragment, whether some
    search failed, and whether tokens were left over; `ok` is false when
    the tokens ran out before the text did.
  */
  method MatchXml(tokens: seq<XToken>, texts: seq<string>, nfc: string -> string)
    returns (ok: bool, outputs: seq<string>, misaligned: bool, leftover: bool)
    ensures var r := MatchElements(Reversed(tokens), texts, nfc);
      && ok == r.Some?
      && (ok ==>
          && |outputs| == |texts|
          && (forall k :: 0 <= k < |texts| ==> outputs[k] == RenderFragment(Lines(r.value.outputs[k])))
          && misaligned == r.value.failed
          && leftover == (r.value.agenda != []))
  {
    var agenda := Reversed(tokens);
    outputs, misaligned, leftover := [], false, false;
    assert texts[..0] == [];
    for i := 0 to |texts|
      invariant ElementsSoFar(tokens, texts, nfc, i, outputs, agenda, misaligned)
    {
      var normalized := NormalizeRaw(nfc(texts[i]));
      var fragmentOk, output, agenda', failed := MatchFragmentLoop(normalized, agenda);
      if !fragmentOk {
        ElementsSoFarFails(tokens, texts, nfc, i, outputs, agenda, misaligned);
        return false, outputs, misaligned, leftover;
      }
      ElementsSoFarNext(tokens, texts, nfc, i, outputs, agenda, misaligned, output, agenda', failed);
      outputs, agenda, misaligned := outputs + [RenderFragment(output)], agenda', misaligned || failed;
    }
    assert texts[..|texts|] == texts;
    leftover := |agenda| > 0;
    ok := true;
  }
}
