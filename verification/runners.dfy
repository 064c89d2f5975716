/**
  The in-place passes of `Tokenizer._tokenize` (somajo/tokenizer.py) over
  the token list: `_split_all_matches`, `_split_all_emojis`,
  `_split_all_set`, the abbreviation loop of `_split_abbreviations`, the
  normalisation loop and the whitespace-split loop.  Each walks the list from
  `first` along `next` while it replaces the current node; each is proved to
  leave the list holding `Passes.Apply` of its old contents.
*/
module Runners {
  import opened Wrappers
  import opened Chars
  import opened Tokens
  import opened LinkedList
  import opened Seqs
  import opened Splitter
  import opened SpanBuilders
  import opened Normalization
  import opened Passes

  /** In a valid list the successor of the node after `done` is the head of `rest`, or null. */
  lemma NextInList(dll: DLL<Token>, done: seq<Node<Token>>, node: Node<Token>, rest: seq<Node<Token>>)
    requires dll.Valid() && dll.Nodes == done + ([node] + rest)
    ensures node.next == (if rest == [] then null else rest[0])
    ensures node.list == dll
  {
    assert dll.Nodes[|done|] == node;
    if rest != [] {
      assert dll.Nodes[|done| + 1] == rest[0];
    }
  }

  /** The value of the node after `done` is the value after `cdone`. */
  lemma ValueInList(dll: DLL<Token>, done: seq<Node<Token>>, node: Node<Token>, rest: seq<Node<Token>>,
                    cdone: seq<Token>, x: Token, crest: seq<Token>)
    requires dll.Valid() && dll.Nodes == done + ([node] + rest) && dll.Contents == cdone + ([x] + crest)
    requires |cdone| == |done|
    ensures node.value == x && |crest| == |rest|
  {
    assert dll.Nodes[|done|] == node && dll.Contents[|done|] == x;
  }

  /** One step of a splitting pass on `node`, which stands between `done` and `rest`. */
  method SplitNode(dll: DLL<Token>, node: Node<Token>, spans: string -> seq<Boundary>, cls: string,
                   ghost done: seq<Node<Token>>, ghost rest: seq<Node<Token>>,
                   ghost cdone: seq<Token>, ghost crest: seq<Token>)
      returns (ghost ins: seq<Node<Token>>, ghost out: seq<Token>)
    requires dll.Valid() && dll.Nodes == done + ([node] + rest) && dll.Contents == cdone + ([node.value] + crest)
    requires |cdone| == |done|
    modifies dll.Repr
    ensures dll.Valid() && fresh(dll.Repr - old(dll.Repr))
    ensures dll.Nodes == done + ins + rest && dll.Contents == cdone + out + crest
    ensures out == SplitToken(spans, cls, old(node.value))
    ensures node.next == old(node.next)
  {
    NextInList(dll, done, node, rest);
    out := SplitToken(spans, cls, node.value);
    if node.value.markup || node.value.locked {
      ins := [node];
      return;
    }
    var bs := spans(node.value.text);
    ins := SplitOnBoundaries(node, bs, cls, true, done, rest, cdone, crest);
    if bs == [] {
      ins := [node];
    }
  }

  /** `_split_all_matches`: the spans of `_split_matches` for every match the pattern `find` reports. */
  method SplitAllMatches(dll: DLL<Token>, find: string -> seq<RegexMatch>, hasGroups: bool, cls: string,
                         splitNamedSubgroups: bool)
    requires dll.Valid()
    modifies dll.Repr
    ensures dll.Valid() && fresh(dll.Repr - old(dll.Repr))
    ensures dll.Contents == Apply(Split(MatchFinder(find, hasGroups, splitNamedSubgroups), cls), old(dll.Contents))
  {
    ApplyPass(dll, Split(MatchFinder(find, hasGroups, splitNamedSubgroups), cls));
  }

  /** `_split_all_emojis`: the grapheme clusters that hold an emoji. */
  method SplitAllEmojis(dll: DLL<Token>, clusters: string -> seq<RegexMatch>, isEmoji: char -> bool, cls: string)
    requires dll.Valid()
    modifies dll.Repr
    ensures dll.Valid() && fresh(dll.Repr - old(dll.Repr))
    ensures dll.Contents == Apply(Split(EmojiFinder(clusters, isEmoji), cls), old(dll.Contents))
  {
    ApplyPass(dll, Split(EmojiFinder(clusters, isEmoji), cls));
  }

  /** `_split_all_set`: the candidate matches whose (possibly lower-cased) text is in `items`. */
  method SplitAllSet(dll: DLL<Token>, find: string -> seq<RegexMatch>, items: set<string>,
                     lower: string -> string, cls: string, ignoreCase: bool)
    requires dll.Valid()
    modifies dll.Repr
    ensures dll.Valid() && fresh(dll.Repr - old(dll.Repr))
    ensures dll.Contents == Apply(Split(SetFinder(find, items, lower, ignoreCase), cls), old(dll.Contents))
  {
    ApplyPass(dll, Split(SetFinder(find, items, lower, ignoreCase), cls));
  }

  /** The abbreviation loop of `_split_abbreviations`, with multipart abbreviations cut after every dot. */
  method SplitAllAbbreviations(dll: DLL<Token>, find: string -> seq<RegexMatch>, multipart: string -> bool,
                               splitMultipart: bool)
    requires dll.Valid()
    modifies dll.Repr
    ensures dll.Valid() && fresh(dll.Repr - old(dll.Repr))
    ensures dll.Contents
      == Apply(Split(AbbreviationFinder(find, multipart, splitMultipart), "abbreviation"), old(dll.Contents))
  {
    ApplyPass(dll, Split(AbbreviationFinder(find, multipart, splitMultipart), "abbreviation"));
  }

  /** One step of the normalisation loop on `node`. */
  method NormalizeNode(dll: DLL<Token>, node: Node<Token>, nfc: string -> string,
                       ghost done: seq<Node<Token>>, ghost rest: seq<Node<Token>>,
                       ghost cdone: seq<Token>, ghost crest: seq<Token>)
    requires dll.Valid() && dll.Nodes == done + ([node] + rest) && dll.Contents == cdone + ([node.value] + crest)
    requires |cdone| == |done|
    modifies dll.Repr
    ensures dll.Valid() && dll.Repr == old(dll.Repr) && dll.Nodes == old(dll.Nodes)
    ensures dll.Contents == cdone + [NormalizeToken(nfc, old(node.value))] + crest
    ensures node.next == old(node.next)
  {
    NextInList(dll, done, node, rest);
    if node.value.markup || node.value.locked {
      return;
    }
    assert dll.IndexOf(node) == |done| by {
      DistinctIndex(dll.Nodes, dll.IndexOf(node), |done|);
    }
    UpdateAround(cdone, node.value, crest, NormalizeToken(nfc, node.value));
    dll.SetValue(node, NormalizeToken(nfc, node.value));
  }

  /** The word tokens of one node, inserted left of it in order (the inner loop of the whitespace split). */
  method InsertWords(dll: DLL<Token>, node: Node<Token>, ws: seq<string>, spaceAfter: bool,
                     ghost done: seq<Node<Token>>, ghost post: seq<Node<Token>>,
                     ghost cdone: seq<Token>, ghost cpost: seq<Token>)
      returns (ghost ins: seq<Node<Token>>)
    requires dll.Valid() && post != [] && post[0] == node
    requires dll.Nodes == done + post && dll.Contents == cdone + cpost && |cdone| == |done|
    modifies dll.Repr
    ensures dll.Valid() && fresh(dll.Repr - old(dll.Repr))
    ensures dll.Nodes == done + ins + post && dll.Contents == cdone + WordTokens(ws, spaceAfter) + cpost
    ensures |ins| == |ws|
    ensures node.next == old(node.next) && node.value == old(node.value)
  {
    ghost var toks := WordTokens(ws, spaceAfter);
    ins := [];
    assert dll.Nodes == done + ins + post && dll.Contents == cdone + toks[..0] + cpost;
    var n := |ws|;
    var i := 0;
    while i < n
      invariant 0 <= i <= n && |ins| == i
      invariant dll.Valid() && fresh(dll.Repr - old(dll.Repr))
      invariant dll.Nodes == done + ins + post && dll.Contents == cdone + toks[..i] + cpost
      invariant node.next == old(node.next) && node.value == old(node.value)
    {
      var tok := NewToken(ws[i], false, false, None, if i == n - 1 then spaceAfter else true, false, false);
      assert tok == toks[i];
      ghost var c := InsertFragment(dll, node, tok, done, ins, post, cdone, toks[..i], cpost);
      PrefixSnoc(toks, i + 1);
      ins := ins + [c];
      i := i + 1;
    }
    assert toks[..n] == toks;
  }

  /** One step of the whitespace split on `node`. */
  method WhitespaceSplitNode(dll: DLL<Token>, node: Node<Token>,
                             ghost done: seq<Node<Token>>, ghost rest: seq<Node<Token>>,
                             ghost cdone: seq<Token>, ghost crest: seq<Token>)
      returns (ghost ins: seq<Node<Token>>, ghost out: seq<Token>)
    requires dll.Valid() && dll.Nodes == done + ([node] + rest) && dll.Contents == cdone + ([node.value] + crest)
    requires |cdone| == |done|
    modifies dll.Repr
    ensures dll.Valid() && fresh(dll.Repr - old(dll.Repr))
    ensures dll.Nodes == done + ins + rest && dll.Contents == cdone + out + crest
    ensures out == WhitespaceSplit(old(node.value))
    ensures node.next == old(node.next)
  {
    NextInList(dll, done, node, rest);
    out := WhitespaceSplit(node.value);
    if node.value.markup || node.value.locked {
      ins := [node];
      return;
    }
    var t := node.value;
    var ws := Words(CleanText(t.text));
    ins := InsertWords(dll, node, ws, t.spaceAfter, done, [node] + rest, cdone, [t] + crest);
    dll.RemoveMid(node, done, ins, rest, cdone, WordTokens(ws, t.spaceAfter), crest);
  }

  /** One step of pass `p` on `node`, which stands between `done` and `rest`. */
  method PassNode(dll: DLL<Token>, node: Node<Token>, p: Pass,
                  ghost done: seq<Node<Token>>, ghost rest: seq<Node<Token>>,
                  ghost cdone: seq<Token>, ghost crest: seq<Token>)
      returns (ghost ins: seq<Node<Token>>, ghost out: seq<Token>)
    requires dll.Valid() && dll.Nodes == done + ([node] + rest) && dll.Contents == cdone + ([node.value] + crest)
    requires |cdone| == |done|
    modifies dll.Repr
    ensures dll.Valid() && fresh(dll.Repr - old(dll.Repr))
    ensures dll.Nodes == done + ins + rest && dll.Contents == cdone + out + crest
    ensures out == Step(p, old(node.value))
    ensures node.next == old(node.next)
  {
    match p
    case Normalize(nfc) =>
      out := [NormalizeToken(nfc, node.value)];
      NormalizeNode(dll, node, nfc, done, rest, cdone, crest);
      ins := [node];
    case Split(spans, cls) =>
      ins, out := SplitNode(dll, node, spans, cls, done, rest, cdone, crest);
    case WhitespaceSplitPass =>
      ins, out := WhitespaceSplitNode(dll, node, done, rest, cdone, crest);
  }

  /**
    One turn of the loop of `ApplyPass`: the head of the unvisited nodes
    `rest` is processed and the walk moves on to its old successor; the
    tokens produced so far followed by the pass over the tokens still to be
    visited stay the same.
  */
  method PassStep(dll: DLL<Token>, node: Node<Token>, p: Pass,
                  ghost done: seq<Node<Token>>, ghost rest: seq<Node<Token>>,
                  ghost cdone: seq<Token>, ghost crest: seq<Token>)
      returns (next: Node?<Token>, ghost done': seq<Node<Token>>, ghost cdone': seq<Token>)
    requires rest != [] && node == rest[0] && |crest| == |rest|
    requires dll.Valid() && dll.Nodes == done + rest && dll.Contents == cdone + crest
    modifies dll.Repr
    ensures dll.Valid() && fresh(dll.Repr - old(dll.Repr))
    ensures dll.Nodes == done' + rest[1..] && dll.Contents == cdone' + crest[1..]
    ensures cdone' + Apply(p, crest[1..]) == cdone + Apply(p, crest)
    ensures next == (if |rest| == 1 then null else rest[1])
  {
    Unfold(rest, 0);
    Unfold(crest, 0);
    ValueInList(dll, done, node, rest[1..], cdone, crest[0], crest[1..]);
    NextInList(dll, done, node, rest[1..]);
    ghost var ins, out := PassNode(dll, node, p, done, rest[1..], cdone, crest[1..]);
    ApplyHead(p, cdone, crest);
    next := node.next;
    done', cdone' := done + ins, cdone + out;
  }

  /**
    The loop every pass of `_tokenize` runs: walk the list from `first`
    along `next`, rewriting each node that is neither markup nor locked, and
    go on from the old successor of a replaced node, so that the tokens a
    pass inserts are never visited by the same pass.
  */
  method ApplyPass(dll: DLL<Token>, p: Pass)
    requires dll.Valid()
    modifies dll.Repr
    ensures dll.Valid() && fresh(dll.Repr - old(dll.Repr))
    ensures dll.Contents == Apply(p, old(dll.Contents))
  {
    ghost var done: seq<Node<Token>>, cdone: seq<Token> := [], [];
    ghost var rest, crest := dll.Nodes, dll.Contents;
    var current := dll.first;
    while current != null
      invariant dll.Valid() && fresh(dll.Repr - old(dll.Repr))
      invariant dll.Nodes == done + rest && dll.Contents == cdone + crest && |crest| == |rest|
      invariant cdone + Apply(p, crest) == Apply(p, old(dll.Contents))
      invariant current == (if rest == [] then null else rest[0])
      decreases |rest|
    {
      current, done, cdone := PassStep(dll, current, p, done, rest, cdone, crest);
      rest, crest := rest[1..], crest[1..];
    }
  }

  /** The normalisation loop of `_tokenize`: the text of every token that is neither markup nor locked is normalised. */
  method NormalizeAll(dll: DLL<Token>, nfc: string -> string)
    requires dll.Valid()
    modifies dll.Repr
    ensures dll.Valid() && fresh(dll.Repr - old(dll.Repr))
    ensures dll.Contents == Apply(Normalize(nfc), old(dll.Contents))
  {
    ApplyPass(dll, Normalize(nfc));
  }

  /**
    The whitespace-split loop of `_tokenize`: every token that is neither
    markup nor locked is replaced by one plain token per word of its cleaned
    text, and removed outright when that text is only white space.
  */
  method WhitespaceSplitAll(dll: DLL<Token>)
    requires dll.Valid()
    modifies dll.Repr
    ensures dll.Valid() && fresh(dll.Repr - old(dll.Repr))
    ensures dll.Contents == Apply(WhitespaceSplitPass, old(dll.Contents))
  {
    ApplyPass(dll, WhitespaceSplitPass);
  }
}
