/**
  The per-token record of somajo/token.py.  The source's `Token` is a plain
  record whose constructor only stores its arguments; callers mutate its fields.
  Here it is a value: a mutation by a caller is a functional update of the value
  held by a list node.  `originalSpelling` is the optional extra field that the
  tokenizer passes as the keyword `original_spelling` (somajo/tokenizer.py:356).
  The constructor at somajo/token.py:5 does not accept that keyword, so the call
  as written raises TypeError; the record here follows the constructor that
  somajo/test/test_token.py:15 expects, which does accept it.
*/
module Tokens {
  import opened Wrappers

  datatype Token = Token(
    text: string,
    markup: bool,
    locked: bool,
    tokenClass: Option<string>,
    spaceAfter: bool,
    firstInSentence: bool,
    lastInSentence: bool,
    originalSpelling: Option<string>)
  {
    /** Markup and locked tokens are skipped by every pass. */
    predicate Frozen() {
      markup || locked
    }
  }

  /** `Token(text, markup, locked, token_class, space_after, first_in_sentence, last_in_sentence)`. */
  function NewToken(text: string, markup: bool, locked: bool, tokenClass: Option<string>,
                    spaceAfter: bool, firstInSentence: bool, lastInSentence: bool): (t: Token)
    ensures t.text == text && t.markup == markup && t.locked == locked
    ensures t.tokenClass == tokenClass && t.spaceAfter == spaceAfter
    ensures t.firstInSentence == firstInSentence && t.lastInSentence == lastInSentence
    ensures t.originalSpelling.None?
  {
    Token(text, markup, locked, tokenClass, spaceAfter, firstInSentence, lastInSentence, None)
  }

  /** `Token(text)` with every keyword argument left at its default. */
  function Plain(text: string): (t: Token)
    ensures t.text == text
    ensures !t.markup && !t.locked && !t.Frozen()
    ensures t.spaceAfter
    ensures !t.firstInSentence && !t.lastInSentence
    ensures t.tokenClass.None? && t.originalSpelling.None?
  {
    NewToken(text, false, false, None, true, false, false)
  }
}
