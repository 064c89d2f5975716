# SoMaJo tokenizer core in Dafny

This project models the core of SoMaJo, a rule-based tokenizer and sentence
splitter for German and English, and proves properties of that model.

Four parts of SoMaJo are covered.

- **The token list.** `somajo/doubly_linked_list.py` is a doubly-linked list whose nodes are updated in place. Here it is a heap class with a ghost chain of nodes and a `Repr` footprint. `somajo/token.py` holds the per-token record. It becomes the datatype `Tokens.Token`, with the source's fields plus an optional `originalSpelling`, which the tokenizer passes but the constructor of `somajo/token.py` does not accept (see "Left out"). `NewToken` stores each argument unchanged in the field of the same name. `Plain` applies the defaults: not markup, not locked, no class, a space after, no sentence flags. `str(t)` is the field `text` itself.
- **The tokenizer passes of `somajo/tokenizer.py`:**
  - the boundary splitter, which rewrites one node into left, match and right fragments;
  - the pass runners, which walk the list and splice fragments in while iterating;
  - the span builders;
  - the normalisation and whitespace-split loops;
  - the fixed catalogue of passes and the language fallback;
  - the entry points for a paragraph and for an XML document.
- **The alignment of tokens with the raw text.** This covers `_check_spaces` and its per-fragment variant `_match_xml`. The output is the `SpaceAfter=No` and `OriginalSpelling` annotations.
- **The sentence splitter of `somajo/sentence_splitter.py`.** It covers the boundary flags set by `_split`, the slicing by `split`, and the end-of-sentence tags and trailing end tags of `split_xml`.

It also covers these helpers:

- from `somajo/utils.py`: paragraph grouping, cleaning of the abbreviation list, the text/tail walk of an element tree, and the SAX handler that turns parser events into tokens;
- from `utils/evaluate.py`: reading a tokenized file into flagged characters, the marker rendering of `char_to_str`, and the true-positive, false-positive and false-negative counts.

Modules, one per source concern:

| module | file | what it holds |
|---|---|---|
| `Wrappers`, `Seqs`, `Chars` | wrappers.dfy, seqs.dfy, chars.dfy | `Option`, small sequence facts, the character classes, Python's `strip`/`split()`/slicing |
| `Tokens` | tokens.dfy | the `Token` record and its defaults |
| `LinkedList` | linked_list.dfy | `DLLNode`/`DLL` as classes: append, extend, insert-left, remove, `to_list`, matching-node search |
| `Splitter` | splitter.dfy | `_split_on_boundaries`: `Fragments` (value level) and `SplitOnBoundaries` (in place) |
| `SpanBuilders` | spans.dfy | `_split_matches`, `_split_emojis`, `_split_set`, the multipart-abbreviation spans |
| `Normalization` | normalize.dfy | the per-token text rewriting and whitespace split of `_tokenize` |
| `Passes` | passes.dfy | passes as functions on token sequences, and lock monotonicity over any pipeline |
| `Runners` | runners.dfy | the in-place `_split_all_*`, normalisation and whitespace-split loops |
| `Catalogue` | catalogue.dfy | the ordered stage list of `_tokenize`, the language fallback, `tokenize`, `tokenize_paragraph`, `tokenize_xml` |
| `Alignment`, `XmlAlignment` | alignment.dfy, xml_alignment.dfy | `_check_spaces` and `_match_xml` |
| `Sentences`, `SentencesXml` | sentences.dfy, sentences_xml.dfy | `_split`, `split`, `split_xml` |
| `Utils` | utils.dfy | the helpers of `somajo/utils.py` |
| `Evaluate` | evaluate.dfy | the helpers and counts of `utils/evaluate.py` |

Some parts of the source are replaced by parameters:

- **Regular expressions.** They are not modelled. A rule is a name, and an environment supplies the matches that `finditer` would report for it, as start and end offsets with their groups.
- **Unicode tables.** NFC normalisation, `\X` grapheme clusters, the emoji properties, `str.isupper` and `str.lower` are all function parameters.
- **Character classes.** The classes that the tokenizer spells out (controls, junk, `\s`) are concrete predicates. `\s` is the `regex` module's class, Unicode White_Space. Python's `isspace`, `strip` and `split()` use the wider `str.isspace` set, which also includes U+001C to U+001F.
- **Integer offsets.** Python slicing clamps its indices, and the model does the same.

## Model

| member | source | states |
|---|---|---|
| LinkedList.Node.constructor | somajo/doubly_linked_list.py:7-17 | a new node copies the value of a node given as value, takes the given neighbours and list, and links itself in as `next` of its predecessor and `prev` of its successor, touching nothing else |
| LinkedList.DLL.constructor | somajo/doubly_linked_list.py:21-28 | a list built from an iterable is valid and holds exactly its items, in order |
| LinkedList.DLL.Append | somajo/doubly_linked_list.py:56-61 | the contents gain the item at the end; the new node is the new `last`; `first` changes only when the list was empty; the old nodes keep their order |
| LinkedList.DLL.Extend | somajo/doubly_linked_list.py:63-65 | the contents gain all the items, in order, at the end |
| LinkedList.DLL.InsertLeft | somajo/doubly_linked_list.py:67-72 | the item is inserted immediately before the reference node; `first` moves to the new node exactly when the reference node was first; `last` stays |
| LinkedList.DLL.RemoveMid | somajo/doubly_linked_list.py:80-89 | removing a node from a known place in the chain leaves the chain and the contents without it and otherwise unchanged |
| LinkedList.DLL.Remove | somajo/doubly_linked_list.py:80-89 | the node's value leaves the contents at its position and nothing else changes; `first` and `last` move past the node exactly when it was first or last; the removed node keeps its own links |
| LinkedList.DLL.SetValue | somajo/tokenizer.py:580-589 | a node's token is replaced in place (the `t.value.text = …` rewrites of the normalisation loop): the contents change at that position only, the chain and its ends stay |
| LinkedList.DLL.Len | somajo/doubly_linked_list.py:36-37 | `len` is the number of values held |
| LinkedList.DLL.ToList | somajo/doubly_linked_list.py:91-92 | walking `next` from `first` collects exactly the contents, in order |
| LinkedList.DLL.RoundTrip | somajo/doubly_linked_list.py:21-92 | building a list from items and reading it back with `to_list` gives the items |
| LinkedList.DLL.FindMatchingNode | somajo/doubly_linked_list.py:42-54 | the search returns the first node after (or before) the start node whose attribute has the value, skipping nodes whose ignore attribute has the ignore value; it returns null exactly when no such node exists in that direction |
| LinkedList.DLL.NextMatching | somajo/doubly_linked_list.py:74-75 | the forward search is run and its result discarded: the call always yields nothing |
| LinkedList.DLL.PreviousMatching | somajo/doubly_linked_list.py:77-78 | the backward search is run and its result discarded: the call always yields nothing |
| LinkedList.DistinctInsert | somajo/doubly_linked_list.py:67-72 | inserting a fresh node keeps the chain free of repeated nodes |
| LinkedList.DistinctRemove | somajo/doubly_linked_list.py:80-89 | removing a node keeps the chain free of repeats, and the removed node is no longer in it |
| Splitter.RawPieces | somajo/tokenizer.py:325-331 | the left piece runs from the previous end to the span's start and the right piece is everything after the span; a replacement that differs from the matched text takes its place and the matched text is kept as original spelling, otherwise there is no original spelling |
| Splitter.StripPieces | somajo/tokenizer.py:339-341 | stripping the three pieces leaves the original spelling alone |
| Splitter.Assemble | somajo/tokenizer.py:333-361 | a left fragment exists exactly when the stripped left piece is non-empty, and a right fragment exactly for the last span with a non-empty stripped right piece; both are plain unlocked fragments; the match fragment carries the class, the lock and the original spelling; the first flag goes to the first fragment of span 0 and the last flag to the last fragment of the last span |
| Splitter.Fragments | somajo/tokenizer.py:322-361 | a token cut by n spans yields at least n fragments |
| Splitter.FragmentsShape | somajo/tokenizer.py:350-361 | with locking on, exactly one locked fragment per span, and every fragment is either that match fragment or a plain filler |
| Splitter.FragmentsNoOriginal | somajo/tokenizer.py:323-330 | without replacements no fragment records an original spelling |
| Splitter.FragmentsSentenceFlags | somajo/tokenizer.py:342-352 | the first fragment inherits the token's first-in-sentence flag and the last fragment its last-in-sentence flag; no other fragment carries either |
| Splitter.PiecesCoverText | somajo/tokenizer.py:322-332 | for ordered non-overlapping spans without replacements, the unstripped pieces put together give back the token's text |
| Splitter.UnstrippedPrefix | somajo/tokenizer.py:325-332 | the pieces of the first n spans together are the text up to the end of span n-1 |
| Splitter.SpanTexts | somajo/tokenizer.py:339-361 | the fragments of one span hold the stripped left piece, the stripped match and, for the last span only, the stripped right piece |
| Splitter.SpanNonSpace | somajo/tokenizer.py:339-341 | the fragments of one span lose nothing of its raw text but white space |
| Splitter.FragmentsKeepNonSpace | somajo/tokenizer.py:322-361 | the fragments lose nothing of the raw pieces but white space |
| Splitter.FragmentsKeepText | somajo/tokenizer.py:322-361 | for well-formed spans without replacements, the fragments hold the token's text up to white space |
| Splitter.AssembleLastSpaceAfter | somajo/tokenizer.py:335-361 | when the match does not end in white space and the rest holds none, the last fragment inherits the token's space-after flag |
| Splitter.RawPiecesNoSpace | somajo/tokenizer.py:325-331 | a text without white space gives a match and right piece without white space |
| Splitter.LastSpanSpaceAfter | somajo/tokenizer.py:335-361 | for a text without white space, the last fragment of the last span inherits the token's space-after flag |
| Splitter.LastSpaceAfter | somajo/tokenizer.py:335-361 | for a text without white space, the last of all fragments inherits the token's space-after flag |
| Splitter.FirstFlagsAppend | somajo/tokenizer.py:343-352 | the first-in-sentence flag stays on the first fragment when more fragments follow |
| Splitter.LastFlagsAppend | somajo/tokenizer.py:345-349 | the last-in-sentence flag stays on the last fragment when fragments precede it |
| Splitter.FlatAllShape | somajo/tokenizer.py:350-361 | one locked match fragment per span, all others fillers, across any number of spans |
| Splitter.FlatAllFlags | somajo/tokenizer.py:342-352 | the sentence flags of the first and last span end up on the first and last fragment of all spans |
| Splitter.CutSpan | somajo/tokenizer.py:322-361 | one iteration of the loop computes the fragments of span i from the end of span i-1 |
| Splitter.InsertFragment | somajo/tokenizer.py:351-361 | `insert_left` of one fragment puts it right before the node being split, after the fragments inserted so far |
| Splitter.InsertSpan | somajo/tokenizer.py:350-361 | the fragments of one span are inserted, in order, before the node being split |
| Splitter.InsertSpans | somajo/tokenizer.py:322-361 | the loop inserts all fragments, in order, before the node being split, leaving the rest of the list alone |
| Splitter.SplitOnBoundaries | somajo/tokenizer.py:315-362 | no spans: the list is unchanged; otherwise the node is replaced in the list by exactly its fragments, the rest of the list unchanged |
| Normalization.SpaceRun | somajo/tokenizer.py:36 | the length of the maximal run of `\s` white space (Unicode White_Space, which leaves out U+001C to U+001F) at the start of the text |
| Normalization.CollapseSpacesCollapsed | somajo/tokenizer.py:583 | after `spaces.sub(" ", …)` every white-space run is a single blank, and the text starts with white space exactly when it did before |
| Normalization.CollapseSpacesKeepsNonSpace | somajo/tokenizer.py:583 | collapsing white space loses no other character and keeps their order |
| Normalization.CollapseSpacesFixed | somajo/tokenizer.py:583-589 | collapsing a text whose white space is already single blanks changes nothing |
| Normalization.CollapseSpacesIdempotent | somajo/tokenizer.py:583-589 | collapsing twice is collapsing once |
| Normalization.RemoveChars | somajo/tokenizer.py:585 | deleting a character class leaves no character of the class and changes nothing when none occurs |
| Normalization.RemoveCharsAppend | somajo/tokenizer.py:585-608 | deleting characters works piece by piece |
| Normalization.RemoveStrandedSelectorsKeeps | somajo/tokenizer.py:587 | removing a blank before U+FE0F together with the selector loses nothing but blanks and selectors |
| Normalization.RemoveStrandedSelectorsFixed | somajo/tokenizer.py:587 | a text without U+FE0F is unchanged |
| Normalization.RemoveStrandedSelectorsClean | somajo/tokenizer.py:587 | the removal brings in no control character |
| Normalization.CollapseSpacesClean | somajo/tokenizer.py:589 | collapsing white space brings in no control character |
| Normalization.CollapseSpacesSelectorFree | somajo/tokenizer.py:589 | collapsing white space brings in no U+FE0F |
| Normalization.Blanks | somajo/tokenizer.py:129 | the length of the maximal run of blanks at the start of the text |
| Normalization.JoinSpacedEmoticonsKeeps | somajo/tokenizer.py:613 | `space_emoticon.sub(r'\1\2', …)` deletes only blanks |
| Normalization.SpacedEmoticonBlanks | somajo/tokenizer.py:129 | an eye, blanks and a mouth reduce to the eye and the mouth |
| Normalization.JoinSpacedEmoticonsJoins | somajo/tokenizer.py:613 | a colon or semicolon, one or more blanks and a parenthesis become the two marks alone, and the rest of the text is repaired the same way |
| Normalization.JoinSpacedEmoticonsNoEyes | somajo/tokenizer.py:613 | text without a colon or semicolon is left unchanged |
| Normalization.NormalizeTextClean | somajo/tokenizer.py:580-589 | the normalised text of a token holds no control character and its white space is single blanks |
| Normalization.NormalizeTextKeepsNonSpace | somajo/tokenizer.py:580-589 | for NFC text without control characters or U+FE0F, normalisation changes white space only |
| Normalization.NormalizeTextNoSpace | somajo/tokenizer.py:580-589 | text without `\s` white space or U+FE0F only loses its control characters: the information separators U+001C to U+001F are dropped, never turned into blanks |
| Normalization.NormalizeToken | somajo/tokenizer.py:577-589 | markup and locked tokens are left alone; any other token only has its text replaced, and the new text holds no control character and only single blanks |
| Normalization.WordTokens | somajo/tokenizer.py:617-621 | one token per word of the split |
| Normalization.WhitespaceSplit | somajo/tokenizer.py:604-606 | markup and locked tokens are left alone |
| Normalization.WhitespaceSplitTokens | somajo/tokenizer.py:604-622 | a token's cleaned text is split into plain, unlocked, unclassified tokens, one per non-empty white-space-free word, holding its characters other than white space in order; all but the last have a space after, the last inherits the token's flag; no sentence flags; nothing when only white space is left |
| Normalization.WhitespaceSplitText | somajo/tokenizer.py:604-622 | the split tokens together hold the cleaned text without white space, and there are none exactly when that is empty |
| Normalization.TextsOfWords | somajo/tokenizer.py:615-621 | the word tokens hold the words, in order |
| Passes.SplitToken | somajo/tokenizer.py:400-405 | markup and locked tokens, and tokens in which the pass finds no span, stay as they are |
| Passes.SplitLocksMatches | somajo/tokenizer.py:353-359 | when a splitting pass finds spans in a token, exactly one locked fragment per span comes out |
| Passes.StepKeepsFrozen | somajo/tokenizer.py:403-404 | every pass leaves a markup or locked token exactly as it is |
| Passes.ApplyAppend | somajo/tokenizer.py:402-405 | a pass treats each token on its own: on a concatenation it is the concatenation of its results (`Apply` is the flat map of a pass over a token sequence) |
| Passes.ApplyAroundFrozen | somajo/tokenizer.py:403-404 | one pass keeps a markup or locked token in place and processes the tokens on either side independently |
| Passes.RunAroundFrozen | somajo/tokenizer.py:577-770 | any sequence of passes keeps a markup or locked token unchanged and in place, and processes each side as if it were a separate input |
| Passes.RunAppend | somajo/tokenizer.py:577-770 | running two stage lists one after the other is running their concatenation (`Run` applies the passes of a stage list in order) |
| Passes.RunEmpty | somajo/tokenizer.py:577-770 | the passes make nothing out of an empty token list |
| Passes.RunAllFrozen | somajo/tokenizer.py:577-770 | a list of only markup and locked tokens comes out unchanged |
| Runners.SplitNode | somajo/tokenizer.py:402-405 | one node of a splitting pass is replaced in place by what `SplitToken` makes of its token, the rest of the list unchanged, and the walk goes on from the node's old successor |
| Runners.NormalizeNode | somajo/tokenizer.py:577-589 | one node's token is replaced in place by its normalisation, the chain of nodes unchanged |
| Runners.InsertWords | somajo/tokenizer.py:617-621 | one token per word is inserted, in order, before the node being split |
| Runners.WhitespaceSplitNode | somajo/tokenizer.py:604-622 | one node is replaced in place by the tokens of its white-space split |
| Runners.PassNode | somajo/tokenizer.py:577-622 | one node is replaced in place by what the pass makes of its token |
| Runners.PassStep | somajo/tokenizer.py:402-405 | one iteration of a pass loop: the part already walked grows by the result for the current node, and the pass of the walked part plus the pass of the rest stays the pass of the old contents |
| Runners.ApplyPass | somajo/tokenizer.py:402-405 | walking the list once leaves it holding exactly the pass applied to its old contents |
| Runners.SplitAllMatches | somajo/tokenizer.py:364-405 | `_split_all_matches` leaves the list holding the splitting pass of its old contents, the spans coming from the matches (named groups when asked for, whole matches otherwise) |
| Runners.SplitAllEmojis | somajo/tokenizer.py:379-412 | `_split_all_emojis` leaves the list holding the splitting pass of its old contents, the spans being the emoji clusters |
| Runners.SplitAllSet | somajo/tokenizer.py:390-420 | `_split_all_set` leaves the list holding the splitting pass of its old contents, the spans being the matches found in the set |
| Runners.SplitAllAbbreviations | somajo/tokenizer.py:433-448 | the abbreviation loop leaves the list holding the splitting pass of its old contents, multi-part abbreviations cut after each dot when asked for |
| Runners.NormalizeAll | somajo/tokenizer.py:577-589 | the first loop of `_tokenize` leaves the list holding each token's normalisation, markup and locked tokens untouched |
| Runners.WhitespaceSplitAll | somajo/tokenizer.py:604-622 | the clean-up loop leaves the list holding the white-space split of each token, markup and locked tokens untouched |
| SpanBuilders.MatchSpans | somajo/tokenizer.py:365-376 | without group splitting, one span per match over the whole match, carrying `m.expand(repl)` exactly when a replacement is given (`Whole` is the span of a whole match, `GroupSpans` the spans of its groups) |
| SpanBuilders.MatchSpansGroupCount | somajo/tokenizer.py:366-371 | with group splitting, there is one span per named group of every match |
| SpanBuilders.WellFormedAppend | somajo/tokenizer.py:368-376 | ordered spans of two consecutive regions join to ordered spans |
| SpanBuilders.SpansOfMatchWellFormed | somajo/tokenizer.py:369-376 | the spans of one match are ordered and lie within the match |
| SpanBuilders.MatchSpansWellFormed | somajo/tokenizer.py:364-377 | for matches reported in order, the span list is ordered, non-overlapping and inside the text |
| SpanBuilders.KeptSpans | somajo/tokenizer.py:380-397 | a filter keeps at most one span per match |
| SpanBuilders.KeptSpansMembers | somajo/tokenizer.py:380-397 | a span is kept exactly when its match passes the filter |
| SpanBuilders.KeptSpansWellFormed | somajo/tokenizer.py:380-398 | the kept spans of ordered matches are ordered and inside the text |
| SpanBuilders.EmojiSpans | somajo/tokenizer.py:379-388 | at most one span per grapheme cluster |
| SpanBuilders.EmojiSelector | somajo/tokenizer.py:382-387 | U+FE0F alone is no emoji cluster, but it makes a longer cluster one; a single emoji character is one |
| SpanBuilders.SetSpans | somajo/tokenizer.py:390-398 | at most one span per match |
| SpanBuilders.SetSpansMembers | somajo/tokenizer.py:392-397 | a match becomes a span exactly when its text, lower-cased if asked, is in the set (`MatchText` is the matched substring) |
| SpanBuilders.LastCut | somajo/tokenizer.py:440-445 | the position just after the last dot before k, or 0 when there is none |
| SpanBuilders.DotSpansCount | somajo/tokenizer.py:441-445 | there is one span per dot, and none exactly when no dot occurs |
| SpanBuilders.DotSpansChain | somajo/tokenizer.py:441-445 | the spans start at the match start, each begins where the previous one ends, and the last ends after the last dot |
| SpanBuilders.DotSpansDots | somajo/tokenizer.py:441-445 | every span is non-empty, lies in the match, ends with a dot and holds no other dot |
| SpanBuilders.DotSpansCover | somajo/tokenizer.py:439-445 | for a multi-part abbreviation ending in a dot, the spans cover it from start to end |
| SpanBuilders.MultipartSpans | somajo/tokenizer.py:440-445 | the loop over the characters of a multi-part abbreviation yields exactly its dot spans |
| SpanBuilders.AbbreviationSpans | somajo/tokenizer.py:436-448 | without multi-part splitting, one span per whole match |
| SpanBuilders.RunnerSpansAsWritten | somajo/tokenizer.py:405 | with the flag passed in the slot for `repl`, a regex with named groups always has them split, whatever the flag; a regex without groups fails on its first match |
| SpanBuilders.RunnerSpans | somajo/tokenizer.py:400-405 | unless groups are asked for and exist, one span per whole match |
| SpanBuilders.RunnerFlagIgnored | somajo/tokenizer.py:405 | a call asking for no group splitting still gets its groups split as written, but one whole-match span once corrected |
| SpanBuilders.RunnerNoGroupsFails | somajo/tokenizer.py:405 | as written, a regex without named groups fails on any match; corrected, it gives one whole-match span |
| Catalogue.LanguageFallback | somajo/tokenizer.py:15-30 | the language in use is the requested one exactly when that one is supported ("de" or "en"); any other request falls back to German |
| Catalogue.Contractions | somajo/tokenizer.py:675-678 | one stage per contraction pattern |
| Catalogue.ContractionsShape | somajo/tokenizer.py:675-678 | the contraction stages are exactly the plain group-splitting passes of the two-part (or three-part) patterns, one for each pattern |
| Catalogue.Realised | somajo/tokenizer.py:577-770 | one pass per stage |
| Catalogue.RealisedAppend | somajo/tokenizer.py:577-770 | the passes of consecutive stage lists are consecutive |
| Catalogue.TokenizeAroundFrozen | somajo/tokenizer.py:577-770 | the whole `_tokenize` pipeline keeps a markup or locked token unchanged and in place and tokenizes each side independently |
| Catalogue.TokenizeAllFrozen | somajo/tokenizer.py:577-770 | a token list of only markup and locked tokens comes out of `_tokenize` unchanged |
| Catalogue.ContractionsConform | somajo/tokenizer.py:668-678 | the contraction stages are all English-only group-splitting stages, which run only for English |
| Catalogue.UrlStagesConform | somajo/tokenizer.py:624-634 | the URL and entity stages are language-independent whole-match splits |
| Catalogue.SocialStagesConform | somajo/tokenizer.py:636-650 | the emoticon, mention, hashtag, action-word, underline and emoji-name stages split as the source asks |
| Catalogue.WebStagesConform | somajo/tokenizer.py:652-654 | the plus-and-ampersand stages, the set lookup lower-casing |
| Catalogue.CamelStagesConform | somajo/tokenizer.py:656-665 | camel-case stages run only when camel-case splitting is on; the gender star always runs |
| Catalogue.EnglishStagesConform | somajo/tokenizer.py:667-685 | the possessive, contraction and non-breaking stages run only for English |
| Catalogue.AbbreviationStagesConform | somajo/tokenizer.py:422-448 | the abbreviation stages, multi-part splitting on exactly when the language is not English |
| Catalogue.DateStagesConform | somajo/tokenizer.py:691-697 | the date stages split their named groups exactly when the language is not English |
| Catalogue.NumberStagesConform | somajo/tokenizer.py:698-725 | English-only time, phone, ZIP and identifier stages; the German or English ordinal rule according to the language; the number stages with their classes |
| Catalogue.PunctuationStagesConform | somajo/tokenizer.py:727-769 | the symbol stages, the English or German slash and punctuation rules according to the language |
| Catalogue.MainStagesConform | somajo/tokenizer.py:624-769 | every stage after the white-space split conforms to the language and camel-case settings |
| Catalogue.PipelineOrder | somajo/tokenizer.py:577-622 | normalisation comes first, the XML, e-mail and flag splits next, then the emoji pass and the white-space split; every later stage conforms to the settings |
| Catalogue.PipelineHas | somajo/tokenizer.py:657-711 | for English all 34 two-part and 4 three-part contraction patterns run; the language's ordinal rule runs; abbreviations run with multi-part splitting exactly when not English; the camel-case stages run when asked for |
| Catalogue.InPipeline | somajo/tokenizer.py:656-725 | every camel-case, English, abbreviation and number stage is part of the pipeline |
| Catalogue.EnglishHas | somajo/tokenizer.py:675-678 | the English stages hold all 34 two-part and all 4 three-part contraction patterns |
| Catalogue.RunStage | somajo/tokenizer.py:594-769 | running one stage in place leaves the list holding its pass applied to the old contents |
| Catalogue.RunStages | somajo/tokenizer.py:577-770 | running one more stage applies its pass to the result of the stages before it |
| Catalogue.RunPipeline | somajo/tokenizer.py:577-770 | running a stage list in place leaves the list holding the run of its passes on the old contents |
| Catalogue.TokenizeList | somajo/tokenizer.py:570-771 | `_tokenize` leaves the token list holding the pipeline applied to its old contents |
| Catalogue.ListTexts | somajo/tokenizer.py:798 | reading the list back with `to_list` gives the texts of its contents (`TokenTexts`) |
| Catalogue.TokenizeParagraph | somajo/tokenizer.py:773-798 | the result is the texts of `_tokenize` applied to the paragraph as one token that starts and ends a sentence |
| Catalogue.TokenizeXml | somajo/tokenizer.py:822-831 | the result is the texts of `_tokenize` applied to the tokens the SAX handler builds from the document's events |
| Catalogue.TokenizeXmlKeepsTags | somajo/tokenizer.py:822-831 | every tag token comes out of `tokenize_xml` unchanged and in its place, and the text on either side is tokenized separately |
| Alignment.ClassRun | somajo/tokenizer.py:51 | the length of the maximal run of white space or junk at the start of the text |
| Alignment.FirstSpace | somajo/tokenizer.py:51 | the length of the leading part free of white space |
| Alignment.LastSpaceEnd | somajo/tokenizer.py:51 | where the trailing part free of white space begins |
| Alignment.PieceLength | somajo/tokenizer.py:51 | each step of the substitution consumes at least one character |
| Alignment.ReplaceRunInClass | somajo/tokenizer.py:51 | a run of white space and junk is replaced by white space and junk only |
| Alignment.PieceKeeps | somajo/tokenizer.py:51 | one step of the substitution changes only white space and junk |
| Alignment.JunkSubKeeps | somajo/tokenizer.py:458 | `junk_between_spaces.sub(" ", …)` changes only white space and junk |
| Alignment.CollapseKeepsNonClass | somajo/tokenizer.py:459 | collapsing white space changes only white space and junk |
| Alignment.StripSlice | somajo/tokenizer.py:460 | `strip` removes white space from both ends and keeps the middle as a slice |
| Alignment.StripKeepsNonClass | somajo/tokenizer.py:460 | stripping changes only white space and junk |
| Alignment.NormalizeRawKeeps | somajo/tokenizer.py:458-460 | normalising the raw text keeps every character that is neither white space nor junk, in order |
| Alignment.NormalizeRawShape | somajo/tokenizer.py:458-460 | the normalised text neither starts nor ends with white space, and its white space is single blanks |
| Alignment.TidySuffix | somajo/tokenizer.py:458-460 | the rest of a tidy text is tidy |
| Alignment.TidyPiece | somajo/tokenizer.py:458 | one step of the substitution keeps a tidy text as it is |
| Alignment.JunkSubClean | somajo/tokenizer.py:458 | the substitution changes nothing in a tidy text |
| Alignment.NormalizeRawClean | somajo/tokenizer.py:458-460 | normalising a text that is already normal changes nothing |
| Alignment.RenderInfoParses | somajo/tokenizer.py:486-494 | the extra-info string records exactly whether a blank followed and the original spelling: it can be read back |
| Alignment.FindFrom | somajo/tokenizer.py:471-478 | the position of the first occurrence of a character from j on, or the end of the text |
| Alignment.ScanFrom | somajo/tokenizer.py:469-478 | the character-by-character search consumes text and matches token characters; when not all of the token is matched the text is used up |
| Alignment.EmbedsSkip | somajo/tokenizer.py:469-478 | a match found from a later position is a match from an earlier one |
| Alignment.EmbedsNotIn | somajo/tokenizer.py:469-478 | a token character that does not occur in the rest cannot be matched |
| Alignment.EmbedsWeaken | somajo/tokenizer.py:469-478 | matching more of the token implies matching less |
| Alignment.EmbedsGreedy | somajo/tokenizer.py:469-478 | taking the first occurrence of the next character loses no match |
| Alignment.EmbedsPrefix | somajo/tokenizer.py:469-478 | a match of a part of the token covers any shorter part |
| Alignment.EmbedsExtend | somajo/tokenizer.py:469-478 | a match in a shorter stretch of text is a match in a longer one |
| Alignment.EmbedsTake | somajo/tokenizer.py:469-478 | a match does not look beyond the stretch it was found in |
| Alignment.ScanFromSpec | somajo/tokenizer.py:469-478 | the search embeds the matched characters of the token in the consumed text, in order, and when it runs out no longer part of the token embeds in the whole text |
| Alignment.JunkRun | somajo/tokenizer.py:49 | `starts_with_junk` matches the maximal run of junk at the start, and matches nothing exactly when the text does not start with junk |
| Alignment.FinishSpec | somajo/tokenizer.py:480-494 | after a token `SpaceAfter=No` is recorded exactly when text other than a blank follows; otherwise a blank was consumed or nothing is left |
| Alignment.FinishSpelling | somajo/tokenizer.py:480-487 | junk right after a token is added to its original spelling, the token itself standing for a spelling not yet recorded; without junk the spelling stays |
| Alignment.CheckStepSpec | somajo/tokenizer.py:461-494 | one token consumes a prefix of the text; `SpaceAfter=No` exactly when text other than a blank follows; a token that is a prefix is consumed as it is, without failure |
| Alignment.CheckStepSearch | somajo/tokenizer.py:467-479 | a token that is no prefix always gets an original spelling; its search fails exactly when the token is not a subsequence of the text, and otherwise the spelling contains the token as a subsequence |
| Alignment.CheckFrom | somajo/tokenizer.py:461-494 | one annotation and one end per token, within the text |
| Alignment.MarkedShift | somajo/tokenizer.py:488-494 | a space-after mark stays right when the text before it is put back |
| Alignment.WalkCons | somajo/tokenizer.py:461-494 | the walk over one more token at the front is a walk |
| Alignment.CheckFromSpec | somajo/tokenizer.py:461-494 | the alignment walks the text: each token's end and space-after mark agree with the text (`Shift` moves the recorded ends along the text; `CheckFromEnd`, `CheckFromNext` and `CheckFromCons` unfold `CheckFrom` one token at a time) |
| Alignment.AlignedJoin | somajo/tokenizer.py:458-465 | a plain token, a blank or none, and aligned text form aligned text starting with the token |
| Alignment.DetokenizeShape | somajo/tokenizer.py:458-465 | joining plain tokens with or without blanks gives normal text that starts with the first token |
| Alignment.CheckRecoversSpaces | somajo/tokenizer.py:450-499 | for plain tokens joined with or without blanks, `_check_spaces` consumes all the text without misalignment, records no original spelling, and marks `SpaceAfter=No` exactly where no blank was put (the last token aside) |
| Alignment.RecoversCons | somajo/tokenizer.py:486-494 | the recorded marks agree with the blanks for one more token |
| Alignment.CheckDetokenized | somajo/tokenizer.py:461-494 | on plain tokens joined with or without blanks the walk consumes the whole text, never fails and recovers the blanks |
| Alignment.CheckStepLast | somajo/tokenizer.py:465-488 | a token that is all that is left is consumed, with no mark |
| Alignment.CheckStepBetween | somajo/tokenizer.py:465-494 | a token followed by another plain token is consumed with its blank if there is one, and marked `SpaceAfter=No` if not |
| Alignment.ConsumeThrough | somajo/tokenizer.py:471-478 | the inner loop consumes text through the next occurrence of the character, or all of it when there is none |
| Alignment.FindFromIs | somajo/tokenizer.py:471-478 | the first occurrence is unique |
| Alignment.ScanToken | somajo/tokenizer.py:468-479 | the search loop returns the consumed text as the original spelling, what is left, and how much of the token it matched |
| Alignment.FinishToken | somajo/tokenizer.py:480-494 | the handling after a token renders the annotation and returns the text that is left |
| Alignment.AlignToken | somajo/tokenizer.py:462-494 | one iteration of the loop of `_check_spaces` renders the token's annotation and consumes its step |
| Alignment.Walked | somajo/tokenizer.py:461-494 | the first n tokens have n annotations |
| Alignment.WalkedSplit | somajo/tokenizer.py:461-494 | the walk over the first n tokens followed by the rest is the whole alignment |
| Alignment.WalkedSplitStep | somajo/tokenizer.py:461-494 | the split holds one token further |
| Alignment.WalkedAll | somajo/tokenizer.py:461-494 | walking all tokens is the whole alignment |
| Alignment.AlignedPrefixNext | somajo/tokenizer.py:461-494 | the loop invariant of `_check_spaces` holds one token further (`WalkedSplitZero` and `WalkedNext` unfold `Walked`, the walk over the tokens done so far) |
| Alignment.AlignedPrefixAll | somajo/tokenizer.py:461-494 | at the end of the loop, the annotations, the misalignment flag and the rest are those of the alignment |
| Alignment.AlignAll | somajo/tokenizer.py:457-494 | the loop gives each token the annotation of the alignment and reports whether any search failed |
| Alignment.CheckSpaces | somajo/tokenizer.py:450-499 | `_check_spaces` returns one extra-info string per token, that of the alignment with the normalised text; a failed search and text left over are reported |
| XmlAlignment.CutOf | somajo/tokenizer.py:522-539 | the search for a token consumes part of the fragment; a token cut short uses up the fragment, and its rest keeps the token's class |
| XmlAlignment.MatchStep | somajo/tokenizer.py:511-555 | one popped token uses up part of the fragment and keeps its class; a token pushed back uses up all of it |
| XmlAlignment.MatchStepCuts | somajo/tokenizer.py:515-539 | the text written for a token is a prefix of it; nothing is pushed back exactly when the whole token was written; otherwise its rest, left-stripped, is pushed back |
| XmlAlignment.MatchStepConserves | somajo/tokenizer.py:515-539 | what is written plus what is pushed back holds all the token's characters other than white space |
| XmlAlignment.MatchStepAgrees | somajo/tokenizer.py:515-554 | a token of which the fragment is only the beginning is cut at the fragment's end, with no annotation; in every other case the step agrees with `_check_spaces` |
| XmlAlignment.MatchStepFound | somajo/tokenizer.py:522-539 | a searched token's written part is embedded, in order, in the consumed text |
| XmlAlignment.Prepend | somajo/tokenizer.py:510-555 | one more step keeps success or failure |
| XmlAlignment.PendingPush | somajo/tokenizer.py:518-537 | pushing back a rest puts its text at the front of what is still pending |
| XmlAlignment.MatchFragmentConserves | somajo/tokenizer.py:510-555 | one fragment's loop writes exactly the pending characters other than white space that it takes off the agenda |
| XmlAlignment.MatchFragmentCutsLast | somajo/tokenizer.py:510-555 | within one fragment only the last token can be cut |
| XmlAlignment.MatchElements | somajo/tokenizer.py:503-563 | when no pop fails there is one output per fragment |
| XmlAlignment.MatchElementsStaysNone | somajo/tokenizer.py:504-511 | once a pop from the empty agenda has failed, later fragments cannot undo it |
| XmlAlignment.MatchElementsConserves | somajo/tokenizer.py:503-563 | over all fragments, the written characters and the agenda left over together hold the pending characters other than white space |
| XmlAlignment.PendingReversed | somajo/tokenizer.py:503 | the reversed token list pops in token order |
| XmlAlignment.MatchXmlConserves | somajo/tokenizer.py:501-568 | `_match_xml` writes all the tokens' characters other than white space, in order, except those left on the agenda; with an empty agenda at the end, it writes exactly them |
| XmlAlignment.Lines | somajo/tokenizer.py:555 | one output line per token |
| XmlAlignment.JoinLinesCount | somajo/tokenizer.py:557 | joining lines without newlines puts one newline between neighbours |
| XmlAlignment.RenderFragmentCount | somajo/tokenizer.py:556-559 | the text written into a fragment starts and ends with a newline and has one line per token |
| XmlAlignment.CutToken | somajo/tokenizer.py:522-539 | the search loop over one token gives the written part, the spelling, what is left of the fragment, the pushed-back rest and whether it failed |
| XmlAlignment.MatchToken | somajo/tokenizer.py:512-555 | one popped token is handled as `MatchStep` says |
| XmlAlignment.PopAndMatch | somajo/tokenizer.py:511-555 | the top of the agenda is popped and handled, and its rest, if any, pushed back |
| XmlAlignment.FragmentSoFarNext | somajo/tokenizer.py:510-555 | the loop invariant of one fragment holds one token further |
| XmlAlignment.MatchFragmentLoop | somajo/tokenizer.py:509-555 | the loop over one fragment succeeds exactly when no pop fails, and then yields the lines, the agenda and the failure flag of `MatchFragment` |
| XmlAlignment.ElementsSoFarNext | somajo/tokenizer.py:504-563 | the loop invariant over the fragments holds one fragment further |
| XmlAlignment.ElementsSoFarFails | somajo/tokenizer.py:510-511 | a pop from the empty agenda makes the whole result a failure |
| XmlAlignment.MatchXml | somajo/tokenizer.py:501-568 | `_match_xml` succeeds exactly when no pop fails; it then writes the rendered lines of each fragment, reports a failed search and reports tokens left on the agenda |
| Sentences.NewSplitter | somajo/sentence_splitter.py:10-23 | German (`de`, `de_CMC`) and only German gets the extra closing quote; the end-of-sentence abbreviations and Unicode tables are the given ones |
| Sentences.LastNonMarkup | somajo/sentence_splitter.py:87-91 | the position found is a token that is not markup with only markup after it; none is found exactly when every token is markup |
| Sentences.RoleOfMeans | somajo/sentence_splitter.py:103-118 | the branch the look-ahead takes on a token is exactly the test that picks it, in the source's order: empty text, upper-case first character, opening punctuation other than “, closing punctuation |
| Sentences.ScanFromCrash | somajo/sentence_splitter.py:107 | the look-ahead raises only when it reaches a non-markup token with empty text |
| Sentences.ScanFromJustified | somajo/sentence_splitter.py:98-118 | a boundary the look-ahead finds ends at the sentence-final token or at closing punctuation reached from it over closing punctuation only, and an upper-case token follows after opening punctuation only |
| Sentences.ScanFromFirst | somajo/sentence_splitter.py:105-115 | the token flagged first in sentence is the first non-markup token after the token flagged last |
| Sentences.MarkFromRaises | somajo/sentence_splitter.py:92-118 | the flag-setting loop only adds sentence flags, never to markup, and changes nothing else of any token |
| Sentences.MarkFromSound | somajo/sentence_splitter.py:92-118 | every flag the loop adds is justified: a new last-in-sentence token has a justified boundary and its next non-markup token is flagged first; a new first-in-sentence token follows, over markup only, a token flagged last |
| Sentences.MarkFromCrash | somajo/sentence_splitter.py:92-118 | the loop fails only if some later token is not markup and has empty text |
| Sentences.MarkLastRaises | somajo/sentence_splitter.py:87-91 | the first loop flags the last non-markup token as last in sentence and leaves every other token as it was |
| Sentences.SplitFlagsRaises | somajo/sentence_splitter.py:84-119 | `_split` only adds sentence flags, never on markup, keeps flags already set, and the last non-markup token always ends a sentence |
| Sentences.SplitFlagsLast | somajo/sentence_splitter.py:84-119 | apart from the last non-markup token, every token `_split` flags last is justified by the look-ahead and the next non-markup token is flagged first |
| Sentences.SplitFlagsFirst | somajo/sentence_splitter.py:84-119 | every token `_split` flags first follows, over markup only, a token flagged last |
| Sentences.SplitFlagsCrash | somajo/sentence_splitter.py:84-119 | `_split` fails only on a non-markup token with empty text |
| Sentences.MarkLastBefore | somajo/sentence_splitter.py:87-91 | the backward loop over the array leaves it equal to the first loop of `_split` applied to its prefix, the rest untouched |
| Sentences.LookAt | somajo/sentence_splitter.py:102-118 | one token of the look-ahead either ends the scan with the scan's outcome or moves on to the next token with the same outcome still ahead |
| Sentences.ScanAhead | somajo/sentence_splitter.py:98-118 | the inner loop over the array returns exactly the look-ahead's outcome from the token after the sentence-final one |
| Sentences.MarkAt | somajo/sentence_splitter.py:93-118 | one round of the outer loop sets the flags the look-ahead finds, keeps what the look-ahead reads unchanged, and fails exactly where the look-ahead raises |
| Sentences.SplitTokens | somajo/sentence_splitter.py:84-119 | `_split` on the array succeeds exactly when the flag function does and then leaves the array equal to its result |
| Sentences.Ends | somajo/sentence_splitter.py:32 | the sentence boundaries are exactly one past each token flagged last, strictly increasing and within the paragraph |
| Sentences.SlicesCover | somajo/sentence_splitter.py:33 | the slices between consecutive boundaries are non-empty and together are the items up to the last boundary |
| Sentences.SentenceEnds | somajo/sentence_splitter.py:25-32 | the boundaries of `split` are strictly increasing and lie within the paragraph |
| Sentences.SplitPartitions | somajo/sentence_splitter.py:25-33 | `split` partitions the paragraph: its sentences are non-empty and concatenate back to the input (`Paragraph` is the token list read back from the flags) |
| Sentences.SplitTotal | somajo/sentence_splitter.py:25-33 | `split` never fails on a paragraph whose tokens all have text |
| Sentences.SplitEndsJustified | somajo/sentence_splitter.py:25-118 | every sentence but the last ends at a token the look-ahead justifies |
| Sentences.Split | somajo/sentence_splitter.py:25-33 | `split`, running `_split` in place on the tokens it builds, returns exactly the sentences of the specification function |
| SentencesXml.MarkTagsResult | somajo/sentence_splitter.py:44-68 | after the tagging loop exactly the tags are markup; a plain token starts a sentence exactly when only tags lie between it and an end-of-sentence tag or the start of the document, and ends one exactly when only tags lie between it and a following end-of-sentence tag; nothing else changes (`TagsOf` reads the tag of every token) |
| SentencesXml.EosTagSplits | somajo/sentence_splitter.py:57-64 | an end-of-sentence tag ends a sentence at the nearest plain token before it and starts one at the nearest plain token after it |
| SentencesXml.FirstTextStarts | somajo/sentence_splitter.py:44-68 | the first plain token of the document starts a sentence |
| SentencesXml.TagToken | somajo/sentence_splitter.py:46-68 | one round of the tagging loop records the token's tag, changes no later token, and leaves the remaining loop with the same result |
| SentencesXml.TagTokens | somajo/sentence_splitter.py:40-68 | the tagging loop on the array records every token's tag and leaves the tokens as the tagging function describes |
| SentencesXml.EndRun | somajo/sentence_splitter.py:74-78 | the count covers exactly the end tags directly after the position, stopping at the first token that is not an end tag or at the end |
| SentencesXml.EndRunAsWrittenFails | somajo/sentence_splitter.py:74-78 | the inner loop as written fails exactly when the run of end tags stops at a plain token, and otherwise counts the run |
| SentencesXml.XmlBoundariesAsWrittenFails | somajo/sentence_splitter.py:70-79 | the boundary loop as written fails exactly when some token flagged last is followed by end tags only up to a plain token, and otherwise gives the intended boundaries |
| SentencesXml.XmlBoundariesClose | somajo/sentence_splitter.py:70-79 | each boundary closes the sentence of a token flagged last together with the end tags right after it, and is not followed by another end tag |
| SentencesXml.XmlBoundariesIncrease | somajo/sentence_splitter.py:70-79 | the boundaries are strictly increasing and lie within the document |
| SentencesXml.SplitLastIsText | somajo/sentence_splitter.py:56-69 | after the tagging loop and `_split` only plain tokens are flagged last |
| SentencesXml.XmlSentenceEnds | somajo/sentence_splitter.py:69-81 | the boundaries are strictly increasing, lie within the document, and the last one is the end of the document |
| SentencesXml.XmlSentencesAsWrittenAgrees | somajo/sentence_splitter.py:35-82 | `split_xml` as written agrees with the corrected one except where a token flagged last is followed by end tags only up to a plain token; there it fails |
| SentencesXml.XmlSentencesPartition | somajo/sentence_splitter.py:35-82 | `split_xml` partitions the document: its sentences are non-empty and concatenate back to it |
| SentencesXml.XmlSentencesAllTags | somajo/sentence_splitter.py:70-80 | a document of tags only, the empty one included, has no boundary, and `split_xml` fails on it |
| SentencesXml.XmlSentencesTotal | somajo/sentence_splitter.py:35-82 | `split_xml` succeeds on a document that has a plain token and no empty token |
| SentencesXml.XmlEndTagsStay | somajo/sentence_splitter.py:71-79 | no sentence but the first starts with an end tag: each sentence ends at a plain token followed by end tags only |
| SentencesXml.PExampleFlags | somajo/sentence_splitter.py:44-69 | on `<p> hallo </p> du` with `p` ending sentences, `hallo` and `du` are flagged last and the tags are not |
| SentencesXml.EndTagThenText | somajo/sentence_splitter.py:74-75 | on `<p> hallo </p> du` the source's boundary loop fails, and the corrected one cuts after `</p>` |
| SentencesXml.CollectBoundaries | somajo/sentence_splitter.py:70-79 | the boundary loop over the arrays returns exactly the corrected boundaries |
| SentencesXml.SplitXml | somajo/sentence_splitter.py:35-82 | `split_xml`, run in place on the tokens it builds, returns exactly the corrected sentences |
| Utils.Runs | somajo/utils.py:15-24 | the runs are non-empty, hold only non-blank lines, and a non-blank first line opens the first run |
| Utils.Paragraphs | somajo/utils.py:13-24 | there is one paragraph per run of non-blank lines, and each is its lines joined |
| Utils.GetParagraphs | somajo/utils.py:13-24 | the generator's loop yields exactly the joined runs of non-blank lines, in order |
| Utils.ParagraphsNonEmpty | somajo/utils.py:18-24 | no paragraph yielded is empty |
| Utils.RunsKeepLines | somajo/utils.py:16-22 | the runs hold exactly the non-blank lines, in order |
| Utils.ParagraphsKeepText | somajo/utils.py:13-24 | joining the paragraphs gives back the input with its blank lines left out |
| Utils.ParagraphsCount | somajo/utils.py:13-24 | there are as many paragraphs as non-blank lines at the start or right after a blank line |
| Utils.AbbreviationsAre | somajo/utils.py:29-37 | a string is collected exactly when it is some stripped line that is neither empty nor a comment |
| Utils.KeptClean | somajo/utils.py:32-37 | a kept line is non-empty, not a comment, and has no white space at either end |
| Utils.AbbreviationsClean | somajo/utils.py:29-37 | every abbreviation collected is non-empty, not a comment, and has no white space at either end |
| Utils.CollectAbbreviations | somajo/utils.py:29-37 | the set loop collects exactly the kept stripped lines |
| Utils.SortByLength | somajo/utils.py:38 | the result holds each member of the set exactly once, longest first |
| Utils.ReadAbbreviations | somajo/utils.py:27-38 | the abbreviation list holds each kept stripped line once, and nothing else, longest first |
| Utils.TextGetter | somajo/utils.py:48-59 | an element yields two entries per element of its tree, its own text first and its own tail last, with `None` read as the empty string |
| Utils.TextGetterEncloses | somajo/utils.py:48-59 | the entries nest like brackets: each element's text entry comes before and its tail entry after the entries of its descendants, and there is one text entry per element |
| Utils.TextGetterTexts | somajo/utils.py:48-59 | every entry carries its own element's text or tail, `None` read as the empty string |
| Utils.StartTag | somajo/utils.py:82-86 | the start-tag text opens with `<` and the name and ends with `>`; it is exactly `<name>` when there are no attributes |
| Utils.StartTagAttrs | somajo/utils.py:83-84 | with attributes, each `key="escaped value"` follows the name after a single space, in order |
| Utils.SaxTokenHandler.constructor | somajo/utils.py:74-76 | a new handler has an empty, valid token list of its own |
| Utils.SaxTokenHandler.Characters | somajo/utils.py:78-80 | character data appends one plain token holding exactly that data |
| Utils.SaxTokenHandler.StartElement | somajo/utils.py:82-88 | a start event appends one locked markup token with the start-tag text |
| Utils.SaxTokenHandler.EndElement | somajo/utils.py:90-93 | an end event appends one locked markup token `</name>` |
| Utils.EventToken | somajo/utils.py:78-93 | character data becomes a plain token; a start or end tag becomes a locked markup token with default class and flags |
| Utils.ParseToTokenDll | somajo/utils.py:96-103 | feeding the events to a fresh handler leaves its new, valid list holding one token per event, in order (`EventTokens`, the tokens of the events) |
| Evaluate.ReadOne | utils/evaluate.py:29-37 | one round of the line loop, with its inner character loop, gives exactly the result of reading that line |
| Evaluate.ReadCharacters | utils/evaluate.py:26-38 | the line loop returns exactly what reading the lines one after the other gives, failing where the source raises |
| Evaluate.ReadLinesFailed | utils/evaluate.py:26-38 | once reading fails on a prefix of the file it fails on the whole file |
| Evaluate.LineEndsBounded | utils/evaluate.py:35-37 | every line end and every sentence break lies within the text read, and the text's end is a line end when the text is not empty |
| Evaluate.ReadLineReads | utils/evaluate.py:29-37 | one line fails exactly when it is empty once right-stripped, not a skipped tag line, and nothing was read before; otherwise it adds the line's characters with a token boundary at its end, or marks the last character as both boundaries for an empty line in sentence mode |
| Evaluate.ReadLinesSpec | utils/evaluate.py:26-38 | the characters read are those of the kept lines in order; a character is a token boundary exactly where a non-empty line ends; it is a sentence boundary exactly in sentence mode where an empty line follows some text (`Unmarked` gives the characters of a line with no boundary) |
| Evaluate.SentenceBoundaryIsTokenBoundary | utils/evaluate.py:30-31 | every sentence boundary read is also a token boundary |
| Evaluate.BreaksAreLineEnds | utils/evaluate.py:30-37 | every place where an empty line follows text is where a line ends |
| Evaluate.ReadLinesFails | utils/evaluate.py:26-38 | `read_characters` raises exactly when some line is empty once right-stripped and no character was read before it |
| Evaluate.CharToStr | utils/evaluate.py:41-63 | the rendering starts with the system character |
| Evaluate.CharToStrPlain | utils/evaluate.py:60-62 | without focus, a single space follows the character exactly when the system has a boundary there, and nothing otherwise |
| Evaluate.CharToStrFocus | utils/evaluate.py:44-59 | with focus at most one marker follows: none exactly when no side has a boundary, a space exactly when both sides agree on a boundary, ■ and □ exactly for sentence false positives and negatives, token markers only when the sentence boundaries agree |
| Evaluate.PairsSplit | utils/evaluate.py:108-110 | true positives plus false negatives count the gold boundaries, and true positives plus false positives count the system boundaries |
| Evaluate.TallyAddsUp | utils/evaluate.py:108-118 | on files of the same length, `tp + fn` is the number of gold boundaries and `tp + fp` the number of system boundaries, for tokens and sentences alike (`Zip` pairs the characters, and `Golds`/`Systems` take back either side) |
| Evaluate.EvaluateCounts | utils/evaluate.py:91-118 | the counts exist exactly when both files have the same characters, and the sentence counts stay zero unless sentences are evaluated |
| Evaluate.EvaluateCountsAddUp | utils/evaluate.py:108-118 | the counts `evaluate_file` returns add up to the boundaries of each file |
| Evaluate.CountPairsHits | utils/evaluate.py:108-110 | the length of each filtered list of pairs is the number of positions that pass the filter |
| Evaluate.TallyHits | utils/evaluate.py:108-118 | true positives, false positives and false negatives are the numbers of positions where both files, only the system file and only the gold file have a boundary |
| Evaluate.EvaluateCountsHits | utils/evaluate.py:108-118 | the counts `evaluate_file` returns are those position counts, for tokens and, when sentences are evaluated, for sentences |
| Chars.Slice | somajo/tokenizer.py:325-331 | Python slicing never yields more than the string and is the plain sub-sequence for in-range indices |
| Chars.LStripSpec | somajo/tokenizer.py:518 | `lstrip` drops exactly the leading run of white space |
| Chars.RStripSpec | utils/evaluate.py:29 | `rstrip` drops exactly the trailing run of white space |
| Chars.StripSpec | somajo/tokenizer.py:339-341 | a stripped string neither starts nor ends with white space |
| Chars.StripKeepsNonSpace | somajo/tokenizer.py:339-341 | stripping drops white space only, keeping the other characters in order |
| Chars.WordsAreWords | somajo/tokenizer.py:615 | every word `split()` yields is non-empty and holds no white space |
| Chars.WordsKeepNonSpace | somajo/tokenizer.py:615 | the words of `split()` together are the string's non-space characters, in order |

## Left out

- The regular-expression catalogue of somajo/tokenizer.py (lines 36-312) and the `regex` engine: what counts as a URL, a date or an emoticon is not modelled. Each pass receives the matches its pattern would report.
- Normalization.NormalizeText: Unicode NFC normalisation is a parameter, `nfc`.
- SpanBuilders.EmojiSpans: `\X` grapheme clustering and the Extended_Pictographic/Emoji_Presentation properties are parameters (`clusters`, `isEmoji`).
- Sentences.NewSplitter: `str.isupper` and `str.lower`, and the Unicode punctuation categories behind the opening and closing classes, are parameters.
- Catalogue.TokenizeXml: XML parsing is outside the model. The SAX events come in as a sequence, and `saxutils.escape` is a parameter.
- Utils.TextGetter: the ElementTree parse and its `ParseError` path in `parse_xml` (somajo/utils.py:41-70) are not modelled. The element tree comes in as a value.
- Utils.ReadAbbreviations: the `open` of the file is left out, and the lines come in as a sequence.
- Utils.SortByLength: the result is longest first, but the order of entries of equal length is left open. Python's `sorted` keeps the iteration order of the set there, and that order is not specified.
- `tokenize_file` (somajo/tokenizer.py:777-787): file reading and paragraph output are I/O.
- Alignment.CheckSpaces: `warnings.warn` becomes a returned failure flag, and the tokens are taken as their texts. This version of the source reads an attribute `token` that `Token` does not declare.
- XmlAlignment.MatchXml: the writes into `element.text` and `element.tail` (somajo/tokenizer.py:560-563) are returned as one output string per fragment, and the warnings become a returned flag. The tokens are taken as (text, class) pairs. This version of the source reads an attribute `token` that `Token` does not declare. It also pushes the rest of a cut token back as `Token(rest, t.token_class)`, which puts the class into the `markup` argument; the model keeps the class as the class.
- Evaluate.EvaluateCounts: the float arithmetic of `precision_recall_f1` and the weighted averages (utils/evaluate.py:66-71, 153-166) are left out, and so is its `ZeroDivisionError` when a count is zero. Only the integer counts are modelled.
- Evaluate.ReadCharacters: files come in as their lines. The argparse front end, the printing, and the error file with its 20-character mismatch window (utils/evaluate.py:11-23, 93-107, 127-171) are I/O and are left out.
- The `extra_info` attribute of a token is not modelled. The record field `originalSpelling` follows the constructor that somajo/test/test_token.py:15 expects, which accepts an `original_spelling` keyword; the constructor at somajo/token.py:5 does not declare it.
- Splitter.SplitOnBoundaries: as written, every `Token(…, original_spelling=…)` call at somajo/tokenizer.py:353-358 raises `TypeError` against the constructor of somajo/token.py:5, so any non-empty list of boundaries fails, possibly after a left fragment was already inserted at line 351. The model follows the constructor that somajo/test/test_token.py:15 expects, so the split completes and the matched token carries its original spelling.
- The facade in somajo/somajo.py: its public methods are stubs.
- The list operations `append_left`, `pop`, `reversed` and `xml_chunk_generator` are called by tests but defined nowhere in this version of the source.

## Findings

| source | as written | input that shows it | evidently intended | confidence | as-written member | corrected member |
|---|---|---|---|---|---|---|
| somajo/tokenizer.py:405 | `_split_all_matches` passes `split_named_subgroups` positionally into the `repl` slot of `_split_matches`. Named groups are then always split, and for a pattern without groups `m.expand(True)` is called, which raises. | a pattern without groups that matches (`RunnerNoGroupsFails`), or a grouped pattern with the flag false (`RunnerFlagIgnored`) | the flag reaches `split_named_subgroups`, and no replacement is used | not executed | SpanBuilders.RunnerSpansAsWritten | SpanBuilders.RunnerSpans |
| somajo/sentence_splitter.py:75 | the boundary loop of `split_xml` reads `markup_class` on each token after a sentence end, up to the first one that is not an end tag. A plain token has no such attribute. So whenever a token flagged last is followed, after zero or more end tags, by a plain token, the loop raises `AttributeError`. | any document with two sentences and no tag between them, such as the tokens of `Hallo . Du` (`XmlBoundariesAsWrittenFails` states the exact condition); with end tags between them, the tokens of `<p> hallo </p> du` with `p` as end-of-sentence tag (`EndTagThenText`) | the end tags after a sentence end are counted until the first token that is not an end tag | not executed | SentencesXml.XmlSentencesAsWritten | SentencesXml.XmlSentences |
