/** The prediction step: clean the text, let a fixed list of positive and
    then of negative keywords decide by substring match, and fall back to
    the trained classifier only when no keyword matches.

    The trained (vectoriser, classifier) pair is the parameter `model`: it
    maps the cleaned text to the string form of the classifier's first
    prediction for that text. */
module Predict {
  import opened Preprocess

  datatype Option<T> = None | Some(value: T)

  const PositiveWords: seq<string> :=
    ["love", "great", "fantastic", "amazing", "happy", "best", "wonderful", "awesome", "thrilled"]

  const NegativeWords: seq<string> :=
    ["hate", "terrible", "awful", "worst", "disappointed", "horrible", "bad", "useless"]

  /** Every keyword is a non-empty run of lower-case ASCII letters, the only
      kind of token `Tokens` yields. */
  lemma KeywordsAreLowerWords()
    ensures |PositiveWords| == 9 && |NegativeWords| == 8
    ensures forall k | 0 <= k < |PositiveWords| ::
      PositiveWords[k] != [] && forall c | c in PositiveWords[k] :: IsLower(c)
    ensures forall k | 0 <= k < |NegativeWords| ::
      NegativeWords[k] != [] && forall c | c in NegativeWords[k] :: IsLower(c)
  {
  }

  // ---------------------------------------------------------------------
  // Substring matching
  // ---------------------------------------------------------------------

  /** `word` occurs in `text` starting at index `i`. */
  ghost predicate OccursAt(text: string, word: string, i: int) {
    0 <= i && i + |word| <= |text| && text[i..i + |word|] == word
  }

  ghost predicate Occurs(text: string, word: string) {
    exists i :: OccursAt(text, word, i)
  }

  /** Some word of `words` occurs somewhere in `text`. */
  ghost predicate KeywordIn(words: seq<string>, text: string) {
    exists k | 0 <= k < |words| :: Occurs(text, words[k])
  }

  /** Python's `word in text` on two strings. */
  function Contains(text: string, word: string): (b: bool)
    ensures b ==> |word| <= |text|
    decreases |text|
  {
    word <= text || (text != [] && Contains(text[1..], word))
  }

  /** `word in text` is substring containment: true exactly when the word
      occurs at some index of the text. */
  lemma {:induction false} ContainsIff(text: string, word: string)
    ensures Contains(text, word) <==> Occurs(text, word)
    decreases |text|
  {
    if word <= text {
      assert OccursAt(text, word, 0);
    } else if text != [] {
      ContainsIff(text[1..], word);
      if Occurs(text[1..], word) {
        var i :| OccursAt(text[1..], word, i);
        assert text[1..][i..i + |word|] == text[i + 1..i + 1 + |word|];
        assert OccursAt(text, word, i + 1);
      }
      if Occurs(text, word) {
        var i :| OccursAt(text, word, i);
        if i != 0 {
          assert text[1..][i - 1..i - 1 + |word|] == text[i..i + |word|];
          assert OccursAt(text[1..], word, i - 1);
        }
      }
    }
  }

  /** Every character of a word occurring in a text is a character of the
      text. */
  lemma OccursChars(text: string, word: string)
    requires Occurs(text, word)
    ensures forall c | c in word :: c in text
  {
    var i :| OccursAt(text, word, i);
    forall c | c in word
      ensures c in text
    {
      var j :| 0 <= j < |word| && word[j] == c;
      assert text[i + j] == c;
    }
  }

  /** Python's `any(word in text for word in words)`. */
  function AnyContains(words: seq<string>, text: string): (b: bool)
    ensures b <==> exists k | 0 <= k < |words| :: Contains(text, words[k])
  {
    if words == [] then false
    else Contains(text, words[0]) || AnyContains(words[1..], text)
  }

  /** `any(...)` over the keyword list holds exactly when some keyword
      occurs in the text. */
  lemma {:induction false} AnyContainsIff(words: seq<string>, text: string)
    ensures AnyContains(words, text) <==> KeywordIn(words, text)
  {
    if words != [] {
      ContainsIff(text, words[0]);
      AnyContainsIff(words[1..], text);
      if KeywordIn(words[1..], text) {
        var k :| 0 <= k < |words[1..]| && Occurs(text, words[1..][k]);
        assert words[1..][k] == words[k + 1];
      }
      if KeywordIn(words, text) {
        var k :| 0 <= k < |words| && Occurs(text, words[k]);
        if k > 0 {
          assert words[k] == words[1..][k - 1];
        }
      }
    }
  }

  // ---------------------------------------------------------------------
  // The rule-based override and the whole prediction
  // ---------------------------------------------------------------------

  /** src/predict.py, lines 22-25: "positive" when a positive keyword occurs,
      otherwise "negative" when a negative keyword occurs, otherwise no
      decision. */
  function RuleLabel(cleaned: string): (r: Option<string>)
    ensures r == Some("positive") <==> KeywordIn(PositiveWords, cleaned)
    ensures r == Some("negative") <==> !KeywordIn(PositiveWords, cleaned) && KeywordIn(NegativeWords, cleaned)
    ensures r == None <==> !KeywordIn(PositiveWords, cleaned) && !KeywordIn(NegativeWords, cleaned)
  {
    AnyContainsIff(PositiveWords, cleaned);
    AnyContainsIff(NegativeWords, cleaned);
    if AnyContains(PositiveWords, cleaned) then Some("positive")
    else if AnyContains(NegativeWords, cleaned) then Some("negative")
    else None
  }

  /** `predict_sentiment(text)`: the keywords are matched against the
      cleaned text, never the raw input, and the model sees the cleaned
      text only when no keyword matched. */
  function PredictSentiment(text: string, stop: set<Token>, lem: Token -> Token, model: string -> string): (sentiment: string)
    ensures var cleaned := CleanText(text, stop, lem);
      && (KeywordIn(PositiveWords, cleaned) ==> sentiment == "positive")
      && (!KeywordIn(PositiveWords, cleaned) && KeywordIn(NegativeWords, cleaned) ==> sentiment == "negative")
      && (!KeywordIn(PositiveWords, cleaned) && !KeywordIn(NegativeWords, cleaned) ==> sentiment == model(cleaned))
  {
    var cleaned := CleanText(text, stop, lem);
    match RuleLabel(cleaned)
    case Some(l) => l
    case None => model(cleaned)
  }

  // ---------------------------------------------------------------------
  // Properties
  // ---------------------------------------------------------------------

  /** The rules only ever say "positive" or "negative"; any other label
      (such as "neutral") comes from the model, on text with no keyword. */
  lemma OtherLabelsComeFromModel(text: string, stop: set<Token>, lem: Token -> Token, model: string -> string)
    ensures var answer := PredictSentiment(text, stop, lem, model);
      var cleaned := CleanText(text, stop, lem);
      answer != "positive" && answer != "negative" ==>
        answer == model(cleaned) && RuleLabel(cleaned) == None
  {
  }

  /** When a keyword matches, the model is not consulted: every model gives
      the same label. */
  lemma ModelIgnoredOnKeyword(text: string, stop: set<Token>, lem: Token -> Token, m1: string -> string, m2: string -> string)
    requires KeywordIn(PositiveWords, CleanText(text, stop, lem)) || KeywordIn(NegativeWords, CleanText(text, stop, lem))
    ensures PredictSentiment(text, stop, lem, m1) == PredictSentiment(text, stop, lem, m2)
  {
  }

  /** No non-empty word occurs in the empty text. */
  lemma NothingOccursInEmpty(words: seq<string>)
    requires forall k | 0 <= k < |words| :: words[k] != []
    ensures !KeywordIn(words, "")
  {
  }

  lemma NoKeywordInEmpty()
    ensures !KeywordIn(PositiveWords, "") && !KeywordIn(NegativeWords, "")
  {
    KeywordsAreLowerWords();
    NothingOccursInEmpty(PositiveWords);
    NothingOccursInEmpty(NegativeWords);
  }

  /** The empty string has no keyword and goes to the model, as "". */
  lemma EmptyInputGoesToModel(stop: set<Token>, lem: Token -> Token, model: string -> string)
    ensures PredictSentiment("", stop, lem, model) == model("")
  {
    var text := "";
    assert CleanText(text, stop, lem) == "" by {
      NoLettersCleansToEmpty(text, stop, lem);
    }
    NoKeywordInEmpty();
  }

  /** No word of `words` occurs in `text` when, for each k, `missing[k]` is
      a character of `words[k]` that the text lacks. */
  lemma NoneOccurs(words: seq<string>, text: string, missing: seq<char>)
    requires |missing| == |words|
    requires forall k | 0 <= k < |words| :: missing[k] in words[k] && missing[k] !in text
    ensures !KeywordIn(words, text)
  {
    forall k | 0 <= k < |words|
      ensures !Occurs(text, words[k])
    {
      if Occurs(text, words[k]) {
        OccursChars(text, words[k]);
      }
    }
  }

  /** "unhappy" is no keyword, but it holds "happy" and is "positive". */
  lemma UnhappyIsPositive()
    ensures "unhappy" !in PositiveWords && RuleLabel("unhappy") == Some("positive")
  {
    assert OccursAt("unhappy", PositiveWords[4], 2);
  }

  lemma BadgeHasNoPositiveKeyword()
    ensures !KeywordIn(PositiveWords, "badge")
  {
    NoneOccurs(PositiveWords, "badge", "lrfmhswwt");
  }

  /** "badge" is no keyword, but it holds "bad" and is "negative". */
  lemma BadgeIsNegative()
    ensures "badge" !in NegativeWords && RuleLabel("badge") == Some("negative")
  {
    BadgeHasNoPositiveKeyword();
    assert OccursAt("badge", NegativeWords[6], 0);
  }

  /** Positive keywords win over negative ones in the same text. */
  lemma PositiveBeatsNegative()
    ensures RuleLabel("great terrible") == Some("positive")
  {
    assert OccursAt("great terrible", PositiveWords[1], 0);
  }

  // In the two tables below, row k names, for each positive keyword, one
  // of its characters that the k-th negative keyword lacks.

  lemma NoPositiveKeywordInFirstNegatives()
    ensures forall k | 0 <= k < 4 :: !KeywordIn(PositiveWords, NegativeWords[k])
  {
    var missing := ["lgfmpbwwr", "ogfahswah", "ognmhboet", "lgfahbnah"];
    forall k | 0 <= k < 4
      ensures !KeywordIn(PositiveWords, NegativeWords[k])
    {
      NoneOccurs(PositiveWords, NegativeWords[k], missing[k]);
    }
  }

  lemma NoPositiveKeywordInLastNegatives()
    ensures forall k | 4 <= k < 8 :: !KeywordIn(PositiveWords, NegativeWords[k])
  {
    var missing := ["lgfmhbwwh", "vgfaaswat", "lgfmhewwt", "ogfahbwat"];
    forall k | 4 <= k < 8
      ensures !KeywordIn(PositiveWords, NegativeWords[k])
    {
      NoneOccurs(PositiveWords, NegativeWords[k], missing[k - 4]);
    }
  }

  /** No negative keyword holds a positive keyword. */
  lemma NoPositiveKeywordInNegative()
    ensures forall k | 0 <= k < |NegativeWords| :: !KeywordIn(PositiveWords, NegativeWords[k])
  {
    NoPositiveKeywordInFirstNegatives();
    NoPositiveKeywordInLastNegatives();
  }

  /** Each negative keyword on its own is classified "negative": none is
      shadowed by the positive list that is checked first. */
  lemma NegativeKeywordsNotShadowed()
    ensures forall k | 0 <= k < |NegativeWords| :: RuleLabel(NegativeWords[k]) == Some("negative")
  {
    NoPositiveKeywordInNegative();
    forall k | 0 <= k < |NegativeWords|
      ensures RuleLabel(NegativeWords[k]) == Some("negative")
    {
      assert OccursAt(NegativeWords[k], NegativeWords[k], 0);
    }
  }

  /** The two keyword lists have no word in common. */
  lemma KeywordListsDisjoint()
    ensures forall k, l | 0 <= k < |PositiveWords| && 0 <= l < |NegativeWords| :: PositiveWords[k] != NegativeWords[l]
  {
    NoPositiveKeywordInNegative();
    forall k, l | 0 <= k < |PositiveWords| && 0 <= l < |NegativeWords|
      ensures PositiveWords[k] != NegativeWords[l]
    {
      var p := PositiveWords[k];
      assert OccursAt(p, p, 0);
    }
  }

  /** A keyword inside the lemma of a surviving token reaches the cleaned
      text, which therefore matches that keyword list. */
  lemma SurvivingKeyword(text: string, stop: set<Token>, lem: Token -> Token, t: Token, words: seq<string>)
    requires t in Tokens(text) && t !in stop
    requires KeywordIn(words, lem(t))
    ensures KeywordIn(words, CleanText(text, stop, lem))
  {
    var ct := CleanTokens(Tokens(text), stop, lem);
    var j: nat :| j < |ct| && ct[j] == lem(t) by {
      var sv := Survivors(Tokens(text), stop);
      assert t in sv;
      var j :| 0 <= j < |sv| && sv[j] == t;
      assert ct[j] == lem(t);
    }
    var k :| 0 <= k < |words| && Occurs(lem(t), words[k]);
    var i :| OccursAt(lem(t), words[k], i);
    InfixOfJoin(ct, j, words[k], i);
  }

  /** An occurrence inside one token is an occurrence in the joined text. */
  lemma InfixOfJoin(ts: seq<Token>, j: nat, w: string, i: int)
    requires j < |ts| && OccursAt(ts[j], w, i)
    ensures Occurs(Join(ts), w)
  {
    var off := JoinContainsToken(ts, j);
    OccursInside(Join(ts), ts[j], off, w, i);
  }

  /** An occurrence inside a slice of a text is an occurrence in the text. */
  lemma OccursInside(text: string, part: string, off: nat, w: string, i: int)
    requires off + |part| <= |text| && text[off..off + |part|] == part
    requires OccursAt(part, w, i)
    ensures OccursAt(text, w, off + i)
  {
    var outer, inner := text[off + i..off + i + |w|], part[i..i + |w|];
    forall k | 0 <= k < |w|
      ensures outer[k] == inner[k]
    {
      assert part[i + k] == text[off + i + k];
    }
    assert outer == inner;
  }

  /** A token whose lemma contains a positive keyword and which is not a
      stopword makes the whole text "positive", whatever the model says. */
  lemma PositiveTokenWins(text: string, stop: set<Token>, lem: Token -> Token, model: string -> string, t: Token)
    requires t in Tokens(text) && t !in stop
    requires KeywordIn(PositiveWords, lem(t))
    ensures PredictSentiment(text, stop, lem, model) == "positive"
  {
    SurvivingKeyword(text, stop, lem, t, PositiveWords);
  }

  lemma LoveIsPositive()
    ensures KeywordIn(PositiveWords, "love")
  {
    assert OccursAt("love", PositiveWords[0], 0);
  }

  lemma LoveIsShoutedToken()
    ensures "love" in Tokens("I LOVE it!!!")
  {
    ShoutedTextTokens();
  }

  /** Keywords are matched after normalisation: a token that lower-cases to
      a keyword (here "LOVE" in "I LOVE it!!!") triggers the positive rule,
      provided it is not a stopword and is its own lemma. */
  lemma NormalisedBeforeMatching(stop: set<Token>, lem: Token -> Token, model: string -> string)
    requires "love" !in stop && lem("love") == "love"
    ensures PredictSentiment("I LOVE it!!!", stop, lem, model) == "positive"
  {
    LoveIsShoutedToken();
    LoveIsPositive();
    PositiveTokenWins("I LOVE it!!!", stop, lem, model, "love");
  }
}
