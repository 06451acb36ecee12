# Sentiment pipeline: text cleaning and rule-override prediction

This project models the two pieces of decision logic in the SentimentSense
prediction pipeline and proves properties about them:

- `clean_text` (module `Preprocess`, file `preprocess.dfy`) normalises a text in six steps:
  - lower-case it;
  - delete every character that is neither an ASCII letter nor whitespace, without leaving a space in its place;
  - split on whitespace;
  - drop stopwords;
  - lemmatise the surviving tokens;
  - join them with single spaces.
- `predict_sentiment` (module `Predict`, file `predict.dfy`) cleans the text and then decides:
  - it answers `"positive"` when one of nine positive keywords is a substring of the cleaned text;
  - otherwise it answers `"negative"` when one of eight negative keywords is;
  - otherwise it returns the trained classifier's label for the cleaned text.

Three parts of the program are external, so each becomes a parameter:

- the English stopword list becomes `stop: set<Token>`;
- the WordNet lemmatiser becomes `lem: Token -> Token`;
- the loaded vectoriser and classifier pair becomes one function `model: string -> string`.

`model` maps the cleaned text to the string form of the classifier's first prediction.

Both source functions are pure, so the model consists of functions and lemmas only.

Python's `in` between two strings is `Contains`. It is linked to the
index-based meaning `Occurs` by the lemmas `ContainsIff` and `AnyContainsIff`.

Whitespace is the set of characters Python's `str.isspace` accepts. CPython
uses the same set for `str.split()` and for `\s` in a `str` pattern:

- U+0009 to U+000D;
- U+001C to U+0020;
- U+0085 and U+00A0;
- U+1680;
- U+2000 to U+200A;
- U+2028, U+2029, U+202F, U+205F and U+3000.

## Model

| member | source | states |
|---|---|---|
| Preprocess.LowerChar | src/preprocess.py:27 | the lower-cased character is never upper-case; it is a lower-case letter exactly when the input was an ASCII letter; it is whitespace exactly when the input was; so lower-casing first never changes whether `[^a-zA-Z\s]` deletes the character; anything that is not upper-case is unchanged |
| Preprocess.Lower | src/preprocess.py:27 | lower-casing keeps the length and leaves no upper-case ASCII letter |
| Preprocess.IsAsciiLetter | src/preprocess.py:27 | the class `a-zA-Z` holds only ASCII code points, and each of its characters is of exactly one case |
| Preprocess.Kept | src/preprocess.py:27 | a character survives `[^a-zA-Z\s]` as a letter or as whitespace, never both |
| Preprocess.IsSpace | src/preprocess.py:27-30 | the whitespace class shared by `\s` and `split()` contains no ASCII letter, so letters and whitespace are disjoint halves of the kept class |
| Preprocess.StripNonLetters | src/preprocess.py:27 | the deletion never lengthens the text; its partners StripChars, StripFixed, StripAll and StripAppend pin down exactly which characters stay |
| Preprocess.StripChars | src/preprocess.py:27 | every character left by the regular-expression deletion comes from the input and is an ASCII letter or whitespace |
| Preprocess.StripFixed | src/preprocess.py:27 | text made only of letters and whitespace is left unchanged by the deletion |
| Preprocess.StripAll | src/preprocess.py:27 | text with no letter and no whitespace is deleted entirely |
| Preprocess.StripAppend | src/preprocess.py:27 | the deletion works character by character, so it distributes over concatenation |
| Preprocess.LowerAndStrip | src/preprocess.py:27 | after lower-casing and deletion the text is no longer than the input, and every character is `a`-`z` or whitespace |
| Preprocess.LowerAndStripAppend | src/preprocess.py:27 | the whole first step distributes over concatenation |
| Preprocess.UppercaseLowered | src/preprocess.py:27 | an upper-case ASCII letter is replaced in place by its lower-case letter (code point + 32) and never dropped |
| Preprocess.PunctuationDeleted | src/preprocess.py:27 | a character that is neither a letter nor whitespace disappears and its neighbours become adjacent; no space is inserted |
| Preprocess.LowerAndStripFixed | src/preprocess.py:27 | lower-case letters and whitespace pass the first step unchanged |
| Preprocess.NothingKeptDropped | src/preprocess.py:27 | a run of characters that are neither letters nor whitespace leaves nothing behind |
| Preprocess.LettersAndSpacesKept | src/preprocess.py:27 | letters and whitespace all survive the first step, lower-cased |
| Preprocess.TailDropped | src/preprocess.py:27 | letters and spaces followed by punctuation become just the lower-cased letters and spaces |
| Preprocess.DropSpaces | src/preprocess.py:30 | the result is a suffix of the input that does not start with whitespace, and everything dropped before it was whitespace |
| Preprocess.Word | src/preprocess.py:30 | the result is the longest whitespace-free prefix of the input |
| Preprocess.Split | src/preprocess.py:30 | every token of `split()` is non-empty and contains no whitespace; with SplitAllSpaces, SplitSkipsLeadingSpaces, SplitLeadingSpace, SplitOnWhitespace and SplitCons (whose `rest == []` case covers a final word with nothing after it) this fixes the split of every input as its maximal whitespace-free runs |
| Preprocess.SplitChars | src/preprocess.py:30 | every character of a token is a character of the split text |
| Preprocess.SplitAllSpaces | src/preprocess.py:27-30 | whitespace-only text (including "") has no tokens |
| Preprocess.Tokens | src/preprocess.py:27-30 | every token of the cleaned-up text is a non-empty run of `a`-`z` |
| Preprocess.LowerWordTokens | src/preprocess.py:27-30 | a non-empty run of lower-case letters is exactly one token |
| Preprocess.PunctuationJoinsWord | src/preprocess.py:27-30 | punctuation inside a word joins its two halves into one token |
| Preprocess.TrailingPunctuationDropped | src/preprocess.py:27-30 | punctuation after a word is dropped and the word is one token |
| Preprocess.ApostropheExample | src/preprocess.py:27-30 | "don't" is the single token "dont" |
| Preprocess.ExclamationExample | src/preprocess.py:27-30 | "great!" is the single token "great" |
| Preprocess.ShoutedPhraseLowered | src/preprocess.py:27 | "I LOVE it" lower-cases to "i love it" |
| Preprocess.ShoutedTextFiltered | src/preprocess.py:27 | "I LOVE it!!!" becomes "i love it" after the first step |
| Preprocess.ShoutedTextSplit | src/preprocess.py:30 | "i love it" splits into "i", "love", "it" |
| Preprocess.ShoutedTextTokens | src/preprocess.py:27-30 | "I LOVE it!!!" has the tokens "i", "love", "it" |
| Preprocess.Survivors | src/preprocess.py:33-37 | the kept tokens are at most as many as the input tokens; a word is kept exactly when it is a token and not a stopword; none is kept exactly when every token is a stopword |
| Preprocess.CleanTokens | src/preprocess.py:33-37 | the output has one entry per surviving token, and entry i is the lemma of the i-th survivor, in order |
| Preprocess.SurvivorsAppend | src/preprocess.py:33-37 | filtering keeps relative order: it distributes over concatenation |
| Preprocess.SurvivorsCount | src/preprocess.py:33-37 | every occurrence of a non-stopword survives and every occurrence of a stopword is dropped (multiset count) |
| Preprocess.SurvivorsNoStopwords | src/preprocess.py:33-37 | with no stopword among the tokens, all of them survive unchanged |
| Preprocess.Join | src/preprocess.py:39 | the length of the joined text is the tokens' total length plus one per gap between consecutive tokens; JoinShape and SplitJoin give the content for word tokens |
| Preprocess.JoinShape | src/preprocess.py:39 | joining words gives text with no leading, trailing or doubled whitespace, made of the words' characters and single spaces, empty exactly when there are no words |
| Preprocess.JoinConsShape | src/preprocess.py:39 | a word, one space and already well-spaced text form well-spaced text |
| Preprocess.SplitCons | src/preprocess.py:30 | a word followed by whitespace or nothing splits into that word followed by the split of the rest |
| Preprocess.SplitLeadingSpace | src/preprocess.py:30 | a leading whitespace character of any kind (space, tab, newline, U+00A0, ...) does not change the split |
| Preprocess.SplitSkipsLeadingSpaces | src/preprocess.py:30 | splitting ignores the whole leading whitespace run |
| Preprocess.SplitOnWhitespace | src/preprocess.py:30 | a word followed by any whitespace character is the first token, and the rest is split on its own |
| Preprocess.SplitJoinStep | src/preprocess.py:30-39 | splitting a word, a space and joined text gives the word followed by the split of the joined text |
| Preprocess.SplitJoinOne | src/preprocess.py:30-39 | a single word, joined and split, comes back as that word |
| Preprocess.SplitJoin | src/preprocess.py:30-39 | splitting the space-joined words gives back exactly those words |
| Preprocess.WordOf | src/preprocess.py:30 | the first token of a word followed by whitespace is that word |
| Preprocess.JoinContainsToken | src/preprocess.py:39 | each joined word appears in the joined text, at the offset returned |
| Preprocess.CleanText | src/preprocess.py:18-39 | when every token is a stopword the result is "" |
| Preprocess.CleanTokensAreWords | src/preprocess.py:33-37 | with letter-only lemmas, every output token is a non-empty run of `a`-`z` |
| Preprocess.CleanTextTokenCount | src/preprocess.py:30-39 | with letter-only lemmas, the output's tokens are exactly the lemmas of the non-stopword tokens; there are as many as survivors and never more than input tokens |
| Preprocess.CleanTextShape | src/preprocess.py:39 | with letter-only lemmas, the output is lower-case letters and single spaces, with no leading, trailing or doubled space; it is empty exactly when every token was a stopword |
| Preprocess.NoLettersCleansToEmpty | src/preprocess.py:27-39 | text without any ASCII letter cleans to "": empty, whitespace-only, digits and punctuation |
| Preprocess.StopwordsCleanToEmpty | src/preprocess.py:33-39 | text made only of stopwords cleans to "" |
| Preprocess.CleanTextRetokenised | src/preprocess.py:27-39 | with letter-only lemmas, the tokens of the cleaned text are its lemmas |
| Preprocess.CleanTokensFixed | src/preprocess.py:33-37 | lemmas that are no stopwords and are their own lemma pass a second filtering and lemmatising unchanged |
| Preprocess.CleanTextIdempotent | src/preprocess.py:18-39 | cleaning twice equals cleaning once, provided the lemmas are letter-only, are not stopwords and are their own lemma |
| Preprocess.CleanWord | src/preprocess.py:18-39 | one lower-case word cleans to its lemma, or to "" when it is a stopword |
| Preprocess.NotIdempotentInGeneral | src/preprocess.py:33-39 | a word whose lemma is a stopword cleans to that lemma once and to "" twice, so cleaning is not idempotent in general |
| Preprocess.LemmatiserSeenOnlyOnSurvivors | src/preprocess.py:33-37 | lemmatisers that agree on the surviving tokens give the same result |
| Preprocess.StopwordsSeenOnlyOnTokens | src/preprocess.py:33-37 | stopword sets that agree on the tokens give the same lemma list |
| Preprocess.StopwordsSeenOnlyOnText | src/preprocess.py:18-39 | stopword sets that agree on the text's tokens give the same cleaned text |
| Predict.Contains | src/predict.py:22 | a word found in a text is no longer than the text |
| Predict.ContainsIff | src/predict.py:22-24 | Python's `word in text` holds exactly when the word occurs at some index of the text |
| Predict.OccursChars | src/predict.py:22 | every character of an occurring word is a character of the text |
| Predict.AnyContains | src/predict.py:22-24 | `any(word in text for word in words)` is true exactly when `word in text` holds for some listed word |
| Predict.AnyContainsIff | src/predict.py:22-24 | `any(word in text for word in words)` holds exactly when some word of the list occurs in the text |
| Predict.RuleLabel | src/predict.py:22-25 | "positive" exactly when a positive keyword occurs; "negative" exactly when none does and a negative keyword does; no decision exactly when neither list matches |
| Predict.PredictSentiment | src/predict.py:10-30 | on the cleaned text: a positive keyword gives "positive" even alongside a negative one; otherwise a negative keyword gives "negative"; otherwise the result is the model's label for the cleaned text |
| Predict.OtherLabelsComeFromModel | src/predict.py:22-30 | any label other than "positive"/"negative" is the model's, and only when no keyword matched |
| Predict.ModelIgnoredOnKeyword | src/predict.py:22-25 | when a keyword matches, every model gives the same answer, so the model is not consulted |
| Predict.NothingOccursInEmpty | src/predict.py:22-24 | no non-empty keyword occurs in "" |
| Predict.KeywordsAreLowerWords | src/predict.py:19-20 | nine positive and eight negative keywords, each a non-empty run of lower-case ASCII letters, the only kind of token `Tokens` yields |
| Predict.NoKeywordInEmpty | src/predict.py:19-24 | neither keyword list matches "" |
| Predict.EmptyInputGoesToModel | src/predict.py:16-30 | "" cleans to "", matches no keyword and gets the model's label for "" |
| Predict.NoneOccurs | src/predict.py:22-24 | a list of words none of which occurs, shown by a missing character in each |
| Predict.UnhappyIsPositive | src/predict.py:19-22 | "unhappy" is no keyword but contains "happy", so the rules say "positive" |
| Predict.BadgeHasNoPositiveKeyword | src/predict.py:19-22 | no positive keyword occurs in "badge" |
| Predict.BadgeIsNegative | src/predict.py:20-24 | "badge" is no keyword but contains "bad", so the rules say "negative" |
| Predict.PositiveBeatsNegative | src/predict.py:22-25 | "great terrible" is "positive": the positive list is checked first |
| Predict.NoPositiveKeywordInFirstNegatives | src/predict.py:19-20 | none of the first four negative keywords contains a positive keyword |
| Predict.NoPositiveKeywordInLastNegatives | src/predict.py:19-20 | none of the last four negative keywords contains a positive keyword |
| Predict.NoPositiveKeywordInNegative | src/predict.py:19-20 | no negative keyword contains a positive keyword |
| Predict.NegativeKeywordsNotShadowed | src/predict.py:19-25 | each negative keyword on its own is classified "negative" |
| Predict.KeywordListsDisjoint | src/predict.py:19-20 | the two keyword lists have no word in common |
| Predict.SurvivingKeyword | src/predict.py:16-22 | a non-stopword token whose lemma contains a keyword makes the cleaned text match that list |
| Predict.InfixOfJoin | src/predict.py:16-22 | an occurrence inside one joined token is an occurrence in the cleaned text |
| Predict.OccursInside | src/predict.py:22 | an occurrence inside a slice of a text is an occurrence in the text |
| Predict.PositiveTokenWins | src/predict.py:16-23 | a non-stopword token whose lemma contains a positive keyword makes the prediction "positive", whatever the model |
| Predict.LoveIsPositive | src/predict.py:19-22 | "love" matches the positive list |
| Predict.LoveIsShoutedToken | src/predict.py:16 | "love" is a token of "I LOVE it!!!" |
| Predict.NormalisedBeforeMatching | src/predict.py:16-22 | "I LOVE it!!!" is "positive": keywords are matched after lower-casing and punctuation removal, provided "love" is no stopword and is its own lemma |

## Left out

- Model training (src/train_model.py) is not part of this model. It is offline work with pandas, scikit-learn, floating point and file output.
- Loading the artifact with `joblib.load` (src/predict.py:8) is file I/O. The loaded vectoriser and classifier are the parameter `model`, and TF-IDF and logistic-regression internals are not modelled.
- The NLTK downloads (src/preprocess.py:10-12) are network I/O. The contents of the English stopword list and WordNet's rules are external data, given as the parameters `stop` and `lem`.
- The web endpoint in app.py is HTTP plumbing that does not call this pipeline.
- Preprocess.Lower: only ASCII letters are lower-cased. Python's `str.lower()` also maps other letters, some of them onto ASCII letters (for example U+212A KELVIN SIGN to `k`), which the regular expression would then keep.
- Preprocess.CleanText: determinism is not stated as a lemma. Dafny functions are deterministic, so the result is fixed by the text, `stop` and `lem`. The dependence lemmas state that `stop` matters only on the tokens and `lem` only on the survivors.
- Preprocess.CleanTextIdempotent: proved only under explicit conditions on the lemmatiser. The program does not make cleaning idempotent in general, as Preprocess.NotIdempotentInGeneral shows.
- Predict.PredictSentiment: a vectoriser or classifier that raises at src/predict.py:28-29 is not modelled. `model` is total, so the prediction always returns a label.
- A returned label that is not a string (`str(prediction)` at src/predict.py:30) is folded into `model`, which returns the string directly.
- Logging, concurrency and process lifetime have no counterpart in these two functions.
