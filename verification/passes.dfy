/**
  The passes of `Tokenizer._tokenize` (somajo/tokenizer.py) as functions on
  token sequences.  Every pass walks the token list once and rewrites each
  token that is neither markup nor locked into zero or more tokens; a pass is
  therefore a flat map of a per-token step, and a run of passes is their
  composition.  The in-place runners over the linked list are proved
  against `Apply`.
*/
module Passes {
  import opened Wrappers
  import opened Tokens
  import opened Splitter
  import opened Normalization

  /** An abstract pass: what it does to one token. */
  datatype Pass =
    | Normalize(nfc: string -> string)
    | Split(spans: string -> seq<Boundary>, cls: string)
    | WhitespaceSplitPass

  /**
    One splitting pass on one token (`_split_all_*` with `_split_on_boundaries`):
    markup and locked tokens, and tokens the pass finds no span in, stay as
    they are; any other token is replaced by its fragments, the matches
    locked.
  */
  function SplitToken(spans: string -> seq<Boundary>, cls: string, t: Token): (r: seq<Token>)
    ensures t.Frozen() || spans(t.text) == [] ==> r == [t]
  {
    if t.Frozen() || spans(t.text) == [] then [t] else Fragments(t, spans(t.text), cls, true)
  }

  /** What pass `p` makes of token `t`. */
  function Step(p: Pass, t: Token): (r: seq<Token>)
  {
    match p
    case Normalize(nfc) => [NormalizeToken(nfc, t)]
    case Split(spans, cls) => SplitToken(spans, cls, t)
    case WhitespaceSplitPass => WhitespaceSplit(t)
  }

  /** Every pass leaves markup and locked tokens exactly as they are. */
  lemma StepKeepsFrozen(p: Pass, t: Token)
    requires t.Frozen()
    ensures Step(p, t) == [t]
  {
  }

  /** Pass `p` over a whole token sequence: the steps of the tokens, concatenated in order. */
  function Apply(p: Pass, ts: seq<Token>): (r: seq<Token>)
    ensures ts == [] ==> r == []
  {
    if ts == [] then [] else Step(p, ts[0]) + Apply(p, ts[1..])
  }

  lemma {:induction false} ApplyAppend(p: Pass, a: seq<Token>, b: seq<Token>)
    ensures Apply(p, a + b) == Apply(p, a) + Apply(p, b)
  {
    if a == [] {
      assert a + b == b;
    } else {
      assert (a + b)[1..] == a[1..] + b;
      ApplyAppend(p, a[1..], b);
    }
  }

  lemma ApplySingle(p: Pass, t: Token)
    ensures Apply(p, [t]) == Step(p, t)
  {
    assert [t][1..] == [];
  }

  /** One more token processed: the pass of a longer prefix extends the pass of the shorter one. */
  lemma ApplySnoc(p: Pass, ts: seq<Token>, i: nat)
    requires i < |ts|
    ensures Apply(p, ts[..i + 1]) == Apply(p, ts[..i]) + Step(p, ts[i])
  {
    assert ts[..i + 1] == ts[..i] + [ts[i]];
    ApplyAppend(p, ts[..i], [ts[i]]);
    ApplySingle(p, ts[i]);
  }

  /** Peeling the first token off the input of a pass, behind the output `done` produced so far. */
  lemma ApplyHead(p: Pass, done: seq<Token>, ts: seq<Token>)
    requires ts != []
    ensures (done + Step(p, ts[0])) + Apply(p, ts[1..]) == done + Apply(p, ts)
  {
  }

  /** A locked or markup token separates a pass into the passes on either side of it. */
  lemma ApplyAroundFrozen(p: Pass, a: seq<Token>, t: Token, b: seq<Token>)
    requires t.Frozen()
    ensures Apply(p, a + [t] + b) == Apply(p, a) + [t] + Apply(p, b)
  {
    ApplyAppend(p, a + [t], b);
    ApplyAppend(p, a, [t]);
    ApplySingle(p, t);
  }

  /** The passes `ps`, in order. */
  function Run(ps: seq<Pass>, ts: seq<Token>): (r: seq<Token>)
    ensures ps == [] ==> r == ts
  {
    if ps == [] then ts else Run(ps[1..], Apply(ps[0], ts))
  }

  /**
    Lock monotonicity: a markup or locked token passes through any sequence
    of passes unchanged, in its place, and the tokens on either side are
    processed as if it separated two inputs.
  */
  lemma {:induction false} RunAroundFrozen(ps: seq<Pass>, a: seq<Token>, t: Token, b: seq<Token>)
    requires t.Frozen()
    ensures Run(ps, a + [t] + b) == Run(ps, a) + [t] + Run(ps, b)
  {
    if ps != [] {
      ApplyAroundFrozen(ps[0], a, t, b);
      RunAroundFrozen(ps[1..], Apply(ps[0], a), t, Apply(ps[0], b));
    }
  }

  /** Running passes one after the other is running their concatenation. */
  lemma {:induction false} RunAppend(ps: seq<Pass>, qs: seq<Pass>, ts: seq<Token>)
    ensures Run(ps + qs, ts) == Run(qs, Run(ps, ts))
  {
    if ps == [] {
      assert ps + qs == qs;
    } else {
      assert (ps + qs)[1..] == ps[1..] + qs;
      RunAppend(ps[1..], qs, Apply(ps[0], ts));
    }
  }

  lemma {:induction false} RunEmpty(ps: seq<Pass>)
    ensures Run(ps, []) == []
  {
    if ps != [] {
      RunEmpty(ps[1..]);
    }
  }

  /** Every token of a sequence is markup or locked. */
  predicate AllFrozen(ts: seq<Token>) {
    forall i :: 0 <= i < |ts| ==> ts[i].Frozen()
  }

  /** A sequence of markup and locked tokens is a fixed point of every run of passes. */
  lemma {:induction false} RunAllFrozen(ps: seq<Pass>, ts: seq<Token>)
    requires AllFrozen(ts)
    ensures Run(ps, ts) == ts
  {
    RunEmpty(ps);
    if ts != [] {
      assert ts == [] + [ts[0]] + ts[1..];
      RunAroundFrozen(ps, [], ts[0], ts[1..]);
      RunAllFrozen(ps, ts[1..]);
    }
  }

  /** The matches a splitting pass emits are locked, so no later pass touches them. */
  lemma SplitLocksMatches(spans: string -> seq<Boundary>, cls: string, t: Token)
    requires !t.Frozen() && spans(t.text) != []
    ensures CountLocked(SplitToken(spans, cls, t)) == |spans(t.text)|
  {
    FragmentsShape(t, spans(t.text), cls);
  }
}
