/**
  The fixed pass catalogue of `Tokenizer._tokenize` (somajo/tokenizer.py)
  and the language fallback of `Tokenizer.__init__`.  The regular
  expressions are not modelled: every rule is a name, and an environment
  supplies what the compiled pattern of each rule reports on a text.  The
  catalogue is an ordered sequence of stages; each stage is realised as an
  abstract pass, so that what is proved about any run of passes holds for
  the tokenizer's own pipeline.
*/
module Catalogue {
  import opened Wrappers
  import opened Tokens
  import opened LinkedList
  import opened SpanBuilders
  import opened Passes
  import opened Runners
  import Utils

  /** The two languages the tokenizer supports. */
  datatype Lang = De | En

  function LangName(l: Lang): string {
    match l
    case De => "de"
    case En => "en"
  }

  /** `Tokenizer.__init__`: an unsupported language falls back to German. */
  function Language(requested: string): (l: Lang)
  {
    if requested == "en" then En else De
  }

  /** The language in use is the requested one exactly when that one is supported, and German otherwise. */
  lemma LanguageFallback(requested: string)
    ensures LangName(Language(requested)) == requested <==> requested in {"de", "en"}
    ensures requested !in {"de", "en"} ==> Language(requested) == De
  {
  }

  /** A pattern of the catalogue; `TwoPart(k)` and `ThreePart(k)` are the English contractions. */
  datatype Rule =
    | XmlDeclaration | Tag | Email | UnicodeFlags
    | SimpleUrlWithBrackets | SimpleUrl | Doi | DoiWithSpace | UrlWithoutProtocol | RedditLinks
    | Entity | HeartEmoticon | Emoticon | Mention | Hashtag | ActionWord | Underline | TextEmoji
    | TokenWithPlusAmpersand | SimplePlusAmpersandCandidates
    | CamelCaseToken | SimpleCamelCaseCandidates | InAndInnen | GenderStar
    | EnglishDecades | EnDms | EnLlreve | EnNot | TwoPart(k: nat) | ThreePart(k: nat)
    | EnNonbreakingWords | EnNonbreakingPrefixes | EnNonbreakingSuffixes
    | SingleLetterEllipsis | AndCetera | StrAbbreviations | NrAbbreviations
    | SingleTokenAbbreviation | SingleLetterAbbreviation | Abbreviation
    | ThreePartDateYearFirst | ThreePartDateDmy | ThreePartDateMdy | TwoPartDate
    | EnTime | Time | EnUsPhoneNumber | EnUsZipCode | EnNumericalIdentifiers
    | Ordinal | EnglishOrdinal | Fraction | Amount | Semester | Measurement | NumberCompound
    | Number | Ipv4 | SectionNumber
    | QuestExclam | Arrow | Paren | EnSlashWords | DeSlash | LetterApostropheWord
    | EnHyphen | EnQuotationMarks | EnOtherPunctuation | OtherPunctuation
    | Ellipsis | DotWithoutSpace | Dot

  /** The two word lists `_split_all_set` filters candidates against. */
  datatype Items = PlusAmpersand | CamelCase

  /** The token classes the catalogue assigns. */
  datatype TokenClass =
    | XmlTagClass | EmailAddressClass | EmoticonClass | UrlClass
    | XmlEntityClass | MentionClass | HashtagClass | ActionWordClass
    | RegularClass | NumberCompoundClass | AbbreviationClass | DateClass
    | TimeClass | NumberClass | OrdinalClass | AmountClass
    | SemesterClass | MeasurementClass | SymbolClass

  function ClassName(c: TokenClass): string {
    match c
    case XmlTagClass => "XML_tag"
    case EmailAddressClass => "email_address"
    case EmoticonClass => "emoticon"
    case UrlClass => "URL"
    case XmlEntityClass => "XML_entity"
    case MentionClass => "mention"
    case HashtagClass => "hashtag"
    case ActionWordClass => "action_word"
    case RegularClass => "regular"
    case NumberCompoundClass => "number_compound"
    case AbbreviationClass => "abbreviation"
    case DateClass => "date"
    case TimeClass => "time"
    case NumberClass => "number"
    case OrdinalClass => "ordinal"
    case AmountClass => "amount"
    case SemesterClass => "semester"
    case MeasurementClass => "measurement"
    case SymbolClass => "symbol"
  }

  /** One call in `_tokenize`. */
  datatype Stage =
    | NormalizeStage
    | MatchStage(rule: Rule, cls: TokenClass, splitNamed: bool)
    | EmojiStage
    | SetStage(rule: Rule, items: Items, ignoreCase: bool)
    | AbbreviationStage(splitMultipart: bool)
    | WhitespaceStage

  /**
    What the tokenizer takes from outside the model: the matches each
    compiled pattern reports on a text and whether it has named groups, NFC
    normalisation, grapheme clusters and the emoji property, lower-casing,
    the multipart-abbreviation test and the two word lists.
  */
  datatype Env = Env(
    find: Rule -> string -> seq<RegexMatch>,
    hasGroups: Rule -> bool,
    nfc: string -> string,
    clusters: string -> seq<RegexMatch>,
    isEmoji: char -> bool,
    lower: string -> string,
    multipart: string -> bool,
    plusAmpersand: set<string>,
    camelCase: set<string>)

  function ItemsOf(env: Env, items: Items): set<string> {
    match items
    case PlusAmpersand => env.plusAmpersand
    case CamelCase => env.camelCase
  }

  /** A `_split_all_matches` call with the default class and flag. */
  function Regular(r: Rule): Stage {
    MatchStage(r, RegularClass, true)
  }

  function Classed(r: Rule, cls: TokenClass): Stage {
    MatchStage(r, cls, true)
  }

  /** XML, e-mail, flags and emoji, which may hold spaces or joiners, come out before the whitespace split. */
  function Prelude(): seq<Stage> {
    [NormalizeStage,
     Classed(XmlDeclaration, XmlTagClass), Classed(Tag, XmlTagClass), Classed(Email, EmailAddressClass),
     Classed(UnicodeFlags, EmoticonClass), EmojiStage,
     WhitespaceStage]
  }

  /** URLs, DOIs, Reddit links and XML entities. */
  function UrlStages(): seq<Stage> {
    [Classed(SimpleUrlWithBrackets, UrlClass), Classed(SimpleUrl, UrlClass), Classed(Doi, UrlClass),
     Classed(DoiWithSpace, UrlClass), Classed(UrlWithoutProtocol, UrlClass), Classed(RedditLinks, UrlClass),
     Classed(Entity, XmlEntityClass)]
  }

  /** Emoticons, mentions, hashtags, action words, underlines and `+`/`&` tokens. */
  function SocialStages(): seq<Stage> {
    [Classed(HeartEmoticon, EmoticonClass), Classed(Emoticon, EmoticonClass),
     Classed(Mention, MentionClass), Classed(Hashtag, HashtagClass), Classed(ActionWord, ActionWordClass),
     Regular(Underline), Classed(TextEmoji, EmoticonClass),
     Regular(TokenWithPlusAmpersand),
     SetStage(SimplePlusAmpersandCandidates, PlusAmpersand, true)]
  }

  /** The stages between the whitespace split and camelCase splitting. */
  function WebStages(): seq<Stage> {
    UrlStages() + SocialStages()
  }

  /** camelCase splitting, only when it is switched on, then the gender star. */
  function CamelStages(splitCamelCase: bool): seq<Stage> {
    (if splitCamelCase then
       [Regular(CamelCaseToken), SetStage(SimpleCamelCaseCandidates, CamelCase, false), Regular(InAndInnen)]
     else [])
    + [Regular(GenderStar)]
  }

  /** The contraction patterns `TwoPart(0)` ... `TwoPart(n - 1)` (or three-part ones), in order. */
  function Contractions(n: nat, three: bool): (ss: seq<Stage>)
    ensures |ss| == n
  {
    if n == 0 then [] else Contractions(n - 1, three) + [Regular(if three then ThreePart(n - 1) else TwoPart(n - 1))]
  }

  /** Decades, the `'s`/`'d`/`'m` forms, `'ll`/`'re`/`'ve` and `n't`. */
  function EnglishHead(): seq<Stage> {
    [Classed(EnglishDecades, NumberCompoundClass), Regular(EnDms), Regular(EnLlreve), Regular(EnNot)]
  }

  /** Non-breaking words, prefixes and suffixes. */
  function EnglishTail(): seq<Stage> {
    [Regular(EnNonbreakingWords), Regular(EnNonbreakingPrefixes), Regular(EnNonbreakingSuffixes)]
  }

  /** The English possessive and contracted forms. */
  function EnglishStages(lang: Lang): seq<Stage> {
    if lang == En then EnglishHead() + Contractions(34, false) + Contractions(4, true) + EnglishTail() else []
  }

  /** `_split_abbreviations`: six fixed patterns, then the abbreviation loop; multipart ones are cut except in English. */
  function AbbreviationStages(lang: Lang): seq<Stage> {
    [Classed(SingleLetterEllipsis, AbbreviationClass), Classed(AndCetera, AbbreviationClass),
     Classed(StrAbbreviations, AbbreviationClass), Classed(NrAbbreviations, AbbreviationClass),
     Classed(SingleTokenAbbreviation, AbbreviationClass), Classed(SingleLetterAbbreviation, AbbreviationClass),
     AbbreviationStage(lang != En)]
  }

  /** Dates (split into their named parts except in English), times, and English phone numbers and ZIP codes. */
  function DateStages(lang: Lang): seq<Stage> {
    [MatchStage(ThreePartDateYearFirst, DateClass, lang != En), MatchStage(ThreePartDateDmy, DateClass, lang != En),
     MatchStage(ThreePartDateMdy, DateClass, lang != En), MatchStage(TwoPartDate, DateClass, lang != En)]
    + (if lang == En then [Classed(EnTime, TimeClass)] else [])
    + [Classed(Time, TimeClass)]
    + (if lang == En then
         [Classed(EnUsPhoneNumber, NumberClass), Classed(EnUsZipCode, NumberClass), Classed(EnNumericalIdentifiers, NumberClass)]
       else [])
  }

  /** Ordinals, fractions, amounts, semesters, measurements and numbers. */
  function NumberStages(lang: Lang): seq<Stage> {
    [if lang == De then Classed(Ordinal, OrdinalClass) else Classed(EnglishOrdinal, OrdinalClass),
       Classed(Fraction, NumberClass), Classed(Amount, AmountClass), Classed(Semester, SemesterClass),
       Classed(Measurement, MeasurementClass), Classed(NumberCompound, NumberCompoundClass),
       Classed(Number, NumberClass), Classed(Ipv4, NumberClass), Classed(SectionNumber, NumberClass)]
  }

  /** Punctuation: question and exclamation marks, arrows, parentheses, slashes, apostrophes, the rest, dots. */
  function PunctuationStages(lang: Lang): seq<Stage> {
    [Classed(QuestExclam, SymbolClass), Classed(Arrow, SymbolClass), Classed(Paren, SymbolClass)]
    + [if lang == En then Classed(EnSlashWords, RegularClass) else Classed(DeSlash, SymbolClass)]
    + [Regular(LetterApostropheWord)]
    + (if lang == En then
         [Classed(EnHyphen, SymbolClass), Classed(EnQuotationMarks, SymbolClass), Classed(EnOtherPunctuation, SymbolClass)]
       else [Classed(OtherPunctuation, SymbolClass)])
    + [Classed(Ellipsis, SymbolClass), Classed(DotWithoutSpace, SymbolClass), Classed(Dot, SymbolClass)]
  }

  /** Every stage after the whitespace split. */
  function MainStages(lang: Lang, splitCamelCase: bool): seq<Stage> {
    WebStages() + CamelStages(splitCamelCase) + EnglishStages(lang)
    + AbbreviationStages(lang) + DateStages(lang) + NumberStages(lang) + PunctuationStages(lang)
  }

  /** The calls of `_tokenize`, in order. */
  function Pipeline(lang: Lang, splitCamelCase: bool): seq<Stage> {
    Prelude() + MainStages(lang, splitCamelCase)
  }

  /** The pass a stage performs, with the split spans of `_split_all_matches` as evidently intended. */
  function Realise(env: Env, s: Stage): Pass {
    match s
    case NormalizeStage => Normalize(env.nfc)
    case MatchStage(rule, cls, splitNamed) => Split(MatchFinder(env.find(rule), env.hasGroups(rule), splitNamed), ClassName(cls))
    case EmojiStage => Split(EmojiFinder(env.clusters, env.isEmoji), "emoticon")
    case SetStage(rule, items, ignoreCase) =>
      Split(SetFinder(env.find(rule), ItemsOf(env, items), env.lower, ignoreCase), "regular")
    case AbbreviationStage(splitMultipart) =>
      Split(AbbreviationFinder(env.find(Abbreviation), env.multipart, splitMultipart), "abbreviation")
    case WhitespaceStage => WhitespaceSplitPass
  }

  /** The passes of a sequence of stages. */
  function Realised(env: Env, ss: seq<Stage>): (ps: seq<Pass>)
    ensures |ps| == |ss|
  {
    if ss == [] then [] else [Realise(env, ss[0])] + Realised(env, ss[1..])
  }

  lemma {:induction false} RealisedAppend(env: Env, a: seq<Stage>, b: seq<Stage>)
    ensures Realised(env, a + b) == Realised(env, a) + Realised(env, b)
  {
    if a == [] {
      assert a + b == b;
    } else {
      assert (a + b)[1..] == a[1..] + b;
      RealisedAppend(env, a[1..], b);
    }
  }

  /** `_tokenize` on the token sequence: every pass of the catalogue, in order. */
  function Tokenize(env: Env, lang: Lang, splitCamelCase: bool, ts: seq<Token>): seq<Token> {
    Run(Realised(env, Pipeline(lang, splitCamelCase)), ts)
  }

  /**
    Lock monotonicity for the whole tokenizer: a markup or locked token
    comes out of `_tokenize` unchanged and in its place, and the tokens on
    either side are tokenized as if it separated two inputs.
  */
  lemma TokenizeAroundFrozen(env: Env, lang: Lang, splitCamelCase: bool, a: seq<Token>, t: Token, b: seq<Token>)
    requires t.Frozen()
    ensures Tokenize(env, lang, splitCamelCase, a + [t] + b)
         == Tokenize(env, lang, splitCamelCase, a) + [t] + Tokenize(env, lang, splitCamelCase, b)
  {
    RunAroundFrozen(Realised(env, Pipeline(lang, splitCamelCase)), a, t, b);
  }

  /** A sequence of markup and locked tokens comes out of `_tokenize` as it went in. */
  lemma TokenizeAllFrozen(env: Env, lang: Lang, splitCamelCase: bool, ts: seq<Token>)
    requires AllFrozen(ts)
    ensures Tokenize(env, lang, splitCamelCase, ts) == ts
  {
    RunAllFrozen(Realised(env, Pipeline(lang, splitCamelCase)), ts);
  }

  /** The contraction stages are plain `_split_all_matches` calls on the contraction patterns below `n`, each of them once. */
  lemma {:induction false} ContractionsShape(n: nat, three: bool)
    ensures forall s :: s in Contractions(n, three) ==>
      s.MatchStage? && s.cls == RegularClass && s.splitNamed &&
      (if three then s.rule.ThreePart? else s.rule.TwoPart?) && s.rule.k < n
    ensures forall k :: 0 <= k < n ==> Regular(if three then ThreePart(k) else TwoPart(k)) in Contractions(n, three)
  {
    if n > 0 {
      ContractionsShape(n - 1, three);
    }
  }

  /** A stage that splits tokens on spans. */
  predicate Splitting(s: Stage) {
    s.MatchStage? || s.SetStage? || s.AbbreviationStage?
  }

  /** A pattern only the English pipeline uses. */
  predicate EnglishOnly(r: Rule) {
    r.EnglishDecades? || r.EnDms? || r.EnLlreve? || r.EnNot? || r.TwoPart? || r.ThreePart?
    || r.EnNonbreakingWords? || r.EnNonbreakingPrefixes? || r.EnNonbreakingSuffixes?
    || r.EnTime? || r.EnUsPhoneNumber? || r.EnUsZipCode? || r.EnNumericalIdentifiers?
    || r.EnglishOrdinal? || r.EnSlashWords? || r.EnHyphen? || r.EnQuotationMarks? || r.EnOtherPunctuation?
  }

  /** A pattern only the German pipeline uses. */
  predicate GermanOnly(r: Rule) {
    r.Ordinal? || r.DeSlash? || r.OtherPunctuation?
  }

  /** One of the four date patterns. */
  predicate DateRule(r: Rule) {
    r.ThreePartDateYearFirst? || r.ThreePartDateDmy? || r.ThreePartDateMdy? || r.TwoPartDate?
  }

  /**
    What every stage after the whitespace split obeys: it splits on spans;
    English-only patterns run only in English and German-only ones only in
    German; dates are split into their named parts and multipart
    abbreviations cut except in English, and every other
    `_split_all_matches` call keeps the default flag; the camelCase word
    list is used only when camelCase splitting is on.
  */
  predicate Conforms(lang: Lang, splitCamelCase: bool, s: Stage) {
    && Splitting(s)
    && (s.MatchStage? && EnglishOnly(s.rule) ==> lang == En)
    && (s.MatchStage? && GermanOnly(s.rule) ==> lang == De)
    && (s.MatchStage? ==> s.splitNamed == (!DateRule(s.rule) || lang != En))
    && (s.AbbreviationStage? ==> s.splitMultipart == (lang != En))
    && (s.SetStage? && s.items == CamelCase ==> splitCamelCase)
  }

  predicate AllConform(lang: Lang, splitCamelCase: bool, ss: seq<Stage>) {
    forall s :: s in ss ==> Conforms(lang, splitCamelCase, s)
  }

  lemma {:induction false} ContractionsConform(lang: Lang, splitCamelCase: bool, n: nat, three: bool)
    requires lang == En
    ensures AllConform(lang, splitCamelCase, Contractions(n, three))
  {
    ContractionsShape(n, three);
  }

  lemma AllConformAppend(lang: Lang, splitCamelCase: bool, a: seq<Stage>, b: seq<Stage>)
    requires AllConform(lang, splitCamelCase, a) && AllConform(lang, splitCamelCase, b)
    ensures AllConform(lang, splitCamelCase, a + b)
  {
  }

  lemma UrlStagesConform(lang: Lang, splitCamelCase: bool)
    ensures AllConform(lang, splitCamelCase, UrlStages())
  {
  }

  lemma SocialStagesConform(lang: Lang, splitCamelCase: bool)
    ensures AllConform(lang, splitCamelCase, SocialStages())
  {
  }

  lemma WebStagesConform(lang: Lang, splitCamelCase: bool)
    ensures AllConform(lang, splitCamelCase, WebStages())
  {
    UrlStagesConform(lang, splitCamelCase);
    SocialStagesConform(lang, splitCamelCase);
    AllConformAppend(lang, splitCamelCase, UrlStages(), SocialStages());
  }

  lemma CamelStagesConform(lang: Lang, splitCamelCase: bool)
    ensures AllConform(lang, splitCamelCase, CamelStages(splitCamelCase))
  {
  }

  lemma EnglishStagesConform(lang: Lang, splitCamelCase: bool)
    ensures AllConform(lang, splitCamelCase, EnglishStages(lang))
  {
    if lang == En {
      var head, tail := EnglishHead(), EnglishTail();
      assert AllConform(lang, splitCamelCase, head);
      assert AllConform(lang, splitCamelCase, tail);
      ContractionsConform(lang, splitCamelCase, 34, false);
      ContractionsConform(lang, splitCamelCase, 4, true);
      AllConformAppend(lang, splitCamelCase, head, Contractions(34, false));
      AllConformAppend(lang, splitCamelCase, head + Contractions(34, false), Contractions(4, true));
      AllConformAppend(lang, splitCamelCase, head + Contractions(34, false) + Contractions(4, true), tail);
    }
  }

  lemma AbbreviationStagesConform(lang: Lang, splitCamelCase: bool)
    ensures AllConform(lang, splitCamelCase, AbbreviationStages(lang))
  {
  }

  lemma DateStagesConform(lang: Lang, splitCamelCase: bool)
    ensures AllConform(lang, splitCamelCase, DateStages(lang))
  {
  }

  lemma NumberStagesConform(lang: Lang, splitCamelCase: bool)
    ensures AllConform(lang, splitCamelCase, NumberStages(lang))
  {
  }

  lemma PunctuationStagesConform(lang: Lang, splitCamelCase: bool)
    ensures AllConform(lang, splitCamelCase, PunctuationStages(lang))
  {
  }

  /** Every stage after the whitespace split conforms. */
  lemma MainStagesConform(lang: Lang, splitCamelCase: bool)
    ensures AllConform(lang, splitCamelCase, MainStages(lang, splitCamelCase))
  {
    WebStagesConform(lang, splitCamelCase);
    CamelStagesConform(lang, splitCamelCase);
    EnglishStagesConform(lang, splitCamelCase);
    AbbreviationStagesConform(lang, splitCamelCase);
    DateStagesConform(lang, splitCamelCase);
    NumberStagesConform(lang, splitCamelCase);
    PunctuationStagesConform(lang, splitCamelCase);
    assert MainStages(lang, splitCamelCase)
      == WebStages() + CamelStages(splitCamelCase) + EnglishStages(lang)
         + AbbreviationStages(lang) + DateStages(lang) + NumberStages(lang) + PunctuationStages(lang);
  }

  /**
    The pipeline starts with the normalisation, takes XML, e-mail, flags and
    emoji out next and splits on white space right after the emoji pass;
    every later stage conforms, so in particular splits tokens on spans.
  */
  lemma PipelineOrder(lang: Lang, splitCamelCase: bool)
    ensures var ss := Pipeline(lang, splitCamelCase);
      && |ss| > 7 && ss[0] == NormalizeStage && ss[5] == EmojiStage && ss[6] == WhitespaceStage
      && forall i :: 7 <= i < |ss| ==> Conforms(lang, splitCamelCase, ss[i])
  {
    var ss := Pipeline(lang, splitCamelCase);
    var m := MainStages(lang, splitCamelCase);
    MainStagesConform(lang, splitCamelCase);
    assert |m| > 0 by {
      assert WebStages() != [];
    }
    forall i | 7 <= i < |ss|
      ensures Conforms(lang, splitCamelCase, ss[i])
    {
      assert ss[i] == m[i - 7];
      assert m[i - 7] in m;
    }
  }

  /**
    English runs all 34 two-part and all 4 three-part contractions and its
    own ordinal pattern, German its ordinal pattern; multipart
    abbreviations are cut except in English; the camelCase stages run when
    camelCase splitting is on.
  */
  lemma PipelineHas(lang: Lang, splitCamelCase: bool)
    ensures lang == En ==> forall k :: 0 <= k < 34 ==> Regular(TwoPart(k)) in Pipeline(lang, splitCamelCase)
    ensures lang == En ==> forall k :: 0 <= k < 4 ==> Regular(ThreePart(k)) in Pipeline(lang, splitCamelCase)
    ensures Classed(if lang == De then Ordinal else EnglishOrdinal, OrdinalClass) in Pipeline(lang, splitCamelCase)
    ensures AbbreviationStage(lang != En) in Pipeline(lang, splitCamelCase)
    ensures splitCamelCase ==> SetStage(SimpleCamelCaseCandidates, CamelCase, false) in Pipeline(lang, splitCamelCase)
    ensures splitCamelCase ==> Regular(CamelCaseToken) in Pipeline(lang, splitCamelCase)
  {
    if lang == En {
      EnglishHas();
      forall k | 0 <= k < 34
        ensures Regular(TwoPart(k)) in Pipeline(lang, splitCamelCase)
      {
        InPipeline(lang, splitCamelCase, Regular(TwoPart(k)));
      }
      forall k | 0 <= k < 4
        ensures Regular(ThreePart(k)) in Pipeline(lang, splitCamelCase)
      {
        InPipeline(lang, splitCamelCase, Regular(ThreePart(k)));
      }
    }
    assert NumberStages(lang)[0] in NumberStages(lang);
    InPipeline(lang, splitCamelCase, NumberStages(lang)[0]);
    assert AbbreviationStages(lang)[6] in AbbreviationStages(lang);
    InPipeline(lang, splitCamelCase, AbbreviationStages(lang)[6]);
    if splitCamelCase {
      var c := CamelStages(splitCamelCase);
      assert c[0] in c && c[1] in c;
      InPipeline(lang, splitCamelCase, c[0]);
      InPipeline(lang, splitCamelCase, c[1]);
    }
  }

  /** A stage of the camelCase, English, abbreviation or number segment is a stage of the pipeline. */
  lemma InPipeline(lang: Lang, splitCamelCase: bool, s: Stage)
    requires s in CamelStages(splitCamelCase) || s in EnglishStages(lang)
             || s in AbbreviationStages(lang) || s in NumberStages(lang)
    ensures s in Pipeline(lang, splitCamelCase)
  {
    assert s in MainStages(lang, splitCamelCase);
  }

  /** The English stages hold every contraction pattern. */
  lemma EnglishHas()
    ensures forall k :: 0 <= k < 34 ==> Regular(TwoPart(k)) in EnglishStages(En)
    ensures forall k :: 0 <= k < 4 ==> Regular(ThreePart(k)) in EnglishStages(En)
  {
    ContractionsShape(34, false);
    ContractionsShape(4, true);
    assert EnglishStages(En) == EnglishHead() + Contractions(34, false) + Contractions(4, true) + EnglishTail();
  }

  /** One call of `_tokenize` on the list. */
  method RunStage(dll: DLL<Token>, env: Env, s: Stage)
    requires dll.Valid()
    modifies dll.Repr
    ensures dll.Valid() && fresh(dll.Repr - old(dll.Repr))
    ensures dll.Contents == Apply(Realise(env, s), old(dll.Contents))
  {
    match s
    case NormalizeStage => NormalizeAll(dll, env.nfc);
    case MatchStage(rule, cls, splitNamed) => SplitAllMatches(dll, env.find(rule), env.hasGroups(rule), ClassName(cls), splitNamed);
    case EmojiStage => SplitAllEmojis(dll, env.clusters, env.isEmoji, "emoticon");
    case SetStage(rule, items, ignoreCase) =>
      SplitAllSet(dll, env.find(rule), ItemsOf(env, items), env.lower, "regular", ignoreCase);
    case AbbreviationStage(splitMultipart) =>
      SplitAllAbbreviations(dll, env.find(Abbreviation), env.multipart, splitMultipart);
    case WhitespaceStage => WhitespaceSplitAll(dll);
  }

  /** The stages `ss[..k + 1]` are the stages `ss[..k]` followed by stage `k`. */
  lemma RunStages(env: Env, ss: seq<Stage>, k: nat, ts: seq<Token>)
    requires k < |ss|
    ensures Run(Realised(env, ss[..k + 1]), ts) == Apply(Realise(env, ss[k]), Run(Realised(env, ss[..k]), ts))
  {
    assert ss[..k + 1] == ss[..k] + [ss[k]];
    RealisedAppend(env, ss[..k], [ss[k]]);
    assert Realised(env, [ss[k]]) == [Realise(env, ss[k])];
    RunAppend(Realised(env, ss[..k]), [Realise(env, ss[k])], ts);
  }

  /** The stages `stages`, one after the other, on the list. */
  method RunPipeline(dll: DLL<Token>, env: Env, stages: seq<Stage>)
    requires dll.Valid()
    modifies dll.Repr
    ensures dll.Valid() && fresh(dll.Repr - old(dll.Repr))
    ensures dll.Contents == Run(Realised(env, stages), old(dll.Contents))
  {
    ghost var ts := dll.Contents;
    for k := 0 to |stages|
      invariant dll.Valid() && fresh(dll.Repr - old(dll.Repr))
      invariant dll.Contents == Run(Realised(env, stages[..k]), ts)
    {
      RunStage(dll, env, stages[k]);
      RunStages(env, stages, k, ts);
    }
    assert stages[..|stages|] == stages;
  }

  /** `_tokenize`: the catalogue's calls on the list, one after the other. */
  method TokenizeList(dll: DLL<Token>, env: Env, lang: Lang, splitCamelCase: bool)
    requires dll.Valid()
    modifies dll.Repr
    ensures dll.Valid() && fresh(dll.Repr - old(dll.Repr))
    ensures dll.Contents == Tokenize(env, lang, splitCamelCase, old(dll.Contents))
  {
    RunPipeline(dll, env, Pipeline(lang, splitCamelCase));
  }

  /** The texts of the tokens, in order. */
  function TokenTexts(ts: seq<Token>): (r: seq<string>)
    ensures |r| == |ts| && forall k | 0 <= k < |ts| :: r[k] == ts[k].text
  {
    seq(|ts|, k requires 0 <= k < |ts| => ts[k].text)
  }

  /** The texts of a token list, read back with `to_list`. */
  method ListTexts(dll: DLL<Token>) returns (r: seq<string>)
    requires dll.Valid()
    ensures r == TokenTexts(dll.Contents)
  {
    var ts := dll.ToList();
    r := seq(|ts|, k requires 0 <= k < |ts| => ts[k].text);
  }

  /**
    `tokenize_paragraph` (and its alias `tokenize`): the paragraph becomes a
    single token that starts and ends a sentence, `_tokenize` runs on a list
    holding just that token, and the texts of the resulting tokens are
    returned.
  */
  method TokenizeParagraph(env: Env, lang: Lang, splitCamelCase: bool, paragraph: string) returns (r: seq<string>)
    ensures r == TokenTexts(Tokenize(env, lang, splitCamelCase, [NewToken(paragraph, false, false, None, true, true, true)]))
  {
    var dll := new DLL([NewToken(paragraph, false, false, None, true, true, true)]);
    TokenizeList(dll, env, lang, splitCamelCase);
    r := ListTexts(dll);
  }

  /**
    `tokenize_xml`: the SAX events of the document become the token list of
    `parse_xml_to_token_dll`, `_tokenize` runs on it, and the texts of the
    resulting tokens are returned.  The tags come out as they went in.
  */
  method TokenizeXml(env: Env, lang: Lang, splitCamelCase: bool, events: seq<Utils.SaxEvent>, escape: string -> string)
    returns (r: seq<string>)
    ensures r == TokenTexts(Tokenize(env, lang, splitCamelCase, Utils.EventTokens(events, escape)))
  {
    var dll := Utils.ParseToTokenDll(events, escape);
    TokenizeList(dll, env, lang, splitCamelCase);
    r := ListTexts(dll);
  }

  /**
    In `tokenize_xml` the token of every tag comes out unchanged and in its
    place, and the character data on either side of it is tokenized as if
    the tag separated two documents.
  */
  lemma TokenizeXmlKeepsTags(env: Env, lang: Lang, splitCamelCase: bool, a: seq<Utils.SaxEvent>, e: Utils.SaxEvent,
                             b: seq<Utils.SaxEvent>, escape: string -> string)
    requires !e.CharactersEvent?
    ensures Tokenize(env, lang, splitCamelCase, Utils.EventTokens(a + [e] + b, escape))
         == Tokenize(env, lang, splitCamelCase, Utils.EventTokens(a, escape)) + [Utils.EventToken(e, escape)]
            + Tokenize(env, lang, splitCamelCase, Utils.EventTokens(b, escape))
  {
    assert Utils.EventTokens(a + [e] + b, escape)
        == Utils.EventTokens(a, escape) + [Utils.EventToken(e, escape)] + Utils.EventTokens(b, escape);
    TokenizeAroundFrozen(env, lang, splitCamelCase, Utils.EventTokens(a, escape), Utils.EventToken(e, escape),
                         Utils.EventTokens(b, escape));
  }
}
