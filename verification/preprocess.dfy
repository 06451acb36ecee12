/** Text normalisation before classification: lower-case, drop every
    character that is not an ASCII letter or whitespace, split on whitespace,
    drop stopwords, lemmatise the survivors and join them with single spaces.

    The stopword list and the lemmatiser are external data; they are the
    parameters `stop` and `lem` of every function below. */
module Preprocess {

  type Token = string

  // ---------------------------------------------------------------------
  // Character classes
  // ---------------------------------------------------------------------

  predicate IsUpper(c: char) { 'A' <= c <= 'Z' }

  predicate IsLower(c: char) { 'a' <= c <= 'z' }

  /** The class `a-zA-Z`: ASCII letters only, each of exactly one case. */
  predicate IsAsciiLetter(c: char)
    ensures IsAsciiLetter(c) ==> 'A' as int <= c as int <= 'z' as int < 0x80
    ensures IsAsciiLetter(c) <==> IsUpper(c) != IsLower(c)
  {
    IsUpper(c) || IsLower(c)
  }

  /** The characters Python treats as whitespace, both in `str.split()` and
      in the regular-expression class `\s` of a `str` pattern. No ASCII
      letter is whitespace, so the two halves of `[a-zA-Z\s]` do not
      overlap. */
  predicate IsSpace(c: char)
    ensures IsSpace(c) ==> !IsAsciiLetter(c)
  {
    var n := c as int;
    || 9 <= n <= 13
    || 28 <= n <= 32
    || n == 0x85 || n == 0xA0 || n == 0x1680
    || 0x2000 <= n <= 0x200A
    || n == 0x2028 || n == 0x2029 || n == 0x202F || n == 0x205F || n == 0x3000
  }

  /** A character the regular expression `[^a-zA-Z\s]` does not delete.
      Each kept character is a letter or whitespace but not both. */
  predicate Kept(c: char)
    ensures Kept(c) ==> (IsAsciiLetter(c) <==> !IsSpace(c))
  {
    IsAsciiLetter(c) || IsSpace(c)
  }

  /** A whitespace-free, non-empty run of characters, i.e. one token of `split()`. */
  predicate IsWord(w: string) {
    w != [] && forall c | c in w :: !IsSpace(c)
  }

  // ---------------------------------------------------------------------
  // Step 1: lower-case, then delete every character outside [a-zA-Z\s]
  // ---------------------------------------------------------------------

  function LowerChar(c: char): (d: char)
    ensures !IsUpper(d)
    ensures IsLower(d) <==> IsAsciiLetter(c)
    ensures IsSpace(d) <==> IsSpace(c)
    ensures Kept(d) <==> Kept(c)
    ensures !IsUpper(c) ==> d == c
  {
    if IsUpper(c) then (c as int + 32) as char else c
  }

  function Lower(s: string): (r: string)
    ensures |r| == |s|
    ensures forall c | c in r :: !IsUpper(c)
  {
    seq(|s|, i requires 0 <= i < |s| => LowerChar(s[i]))
  }

  /** Deletes (without putting anything in their place) the characters that
      are neither ASCII letters nor whitespace. */
  function StripNonLetters(s: string): (r: string)
    ensures |r| <= |s|
  {
    if s == [] then []
    else (if Kept(s[0]) then [s[0]] else []) + StripNonLetters(s[1..])
  }

  /** What survives the deletion is kept characters of the input. */
  lemma {:induction false} StripChars(s: string)
    ensures forall c | c in StripNonLetters(s) :: c in s && Kept(c)
  {
    if s != [] {
      StripChars(s[1..]);
    }
  }

  /** Text made only of kept characters passes the deletion unchanged. */
  lemma {:induction false} StripFixed(s: string)
    requires forall c | c in s :: Kept(c)
    ensures StripNonLetters(s) == s
  {
    if s != [] {
      assert s[0] in s;
      StripFixed(s[1..]);
      assert s == [s[0]] + s[1..];
    }
  }

  /** A run of characters outside the class is deleted entirely. */
  lemma {:induction false} StripAll(s: string)
    requires forall c | c in s :: !Kept(c)
    ensures StripNonLetters(s) == []
  {
    if s != [] {
      assert s[0] in s;
      StripAll(s[1..]);
    }
  }

  /** src/preprocess.py, line 27: lower-case the text, then delete what is
      neither an ASCII letter nor whitespace. */
  function LowerAndStrip(text: string): (r: string)
    ensures |r| <= |text|
    ensures forall c | c in r :: IsLower(c) || IsSpace(c)
  {
    StripChars(Lower(text));
    StripNonLetters(Lower(text))
  }

  lemma {:induction false} StripAppend(a: string, b: string)
    ensures StripNonLetters(a + b) == StripNonLetters(a) + StripNonLetters(b)
  {
    if a == [] {
      assert a + b == b;
    } else {
      var head := if Kept(a[0]) then [a[0]] else [];
      assert (a + b)[0] == a[0];
      assert (a + b)[1..] == a[1..] + b;
      StripAppend(a[1..], b);
      assert StripNonLetters(a + b) == head + StripNonLetters(a[1..] + b);
      assert StripNonLetters(a) == head + StripNonLetters(a[1..]);
    }
  }

  /** The first step works character by character: the result on a
      concatenation is the concatenation of the results. */
  lemma LowerAndStripAppend(a: string, b: string)
    ensures LowerAndStrip(a + b) == LowerAndStrip(a) + LowerAndStrip(b)
  {
    assert Lower(a + b) == Lower(a) + Lower(b);
    StripAppend(Lower(a), Lower(b));
  }

  /** An upper-case ASCII letter is lower-cased in place, never dropped. */
  lemma UppercaseLowered(a: string, c: char, b: string)
    requires IsUpper(c)
    ensures LowerAndStrip(a + [c] + b) == LowerAndStrip(a) + [LowerChar(c)] + LowerAndStrip(b)
    ensures IsLower(LowerChar(c)) && LowerChar(c) as int == c as int + 32
  {
    LowerAndStripAppend(a + [c], b);
    LowerAndStripAppend(a, [c]);
    assert Lower([c]) == [LowerChar(c)];
  }

  /** A character that is neither an ASCII letter nor whitespace is deleted,
      not replaced by a space: its neighbours become adjacent. */
  lemma PunctuationDeleted(a: string, c: char, b: string)
    requires !IsAsciiLetter(c) && !IsSpace(c)
    ensures LowerAndStrip(a + [c] + b) == LowerAndStrip(a + b)
  {
    LowerAndStripAppend(a + [c], b);
    LowerAndStripAppend(a, [c]);
    LowerAndStripAppend(a, b);
    assert Lower([c]) == [c];
  }

  /** Text already made of lower-case letters and whitespace passes the
      first step unchanged. */
  lemma {:induction false} LowerAndStripFixed(s: string)
    requires forall c | c in s :: IsLower(c) || IsSpace(c)
    ensures LowerAndStrip(s) == s
  {
    if s != [] {
      assert s == [s[0]] + s[1..];
      LowerAndStripAppend([s[0]], s[1..]);
      LowerAndStripFixed(s[1..]);
      assert Lower([s[0]]) == [s[0]];
    }
  }

  // ---------------------------------------------------------------------
  // Step 2: `str.split()` with no separator
  // ---------------------------------------------------------------------

  /** Drops leading whitespace. */
  function DropSpaces(s: string): (r: string)
    ensures |r| <= |s| && r == s[|s| - |r|..]
    ensures r == [] || !IsSpace(r[0])
    ensures forall i | 0 <= i < |s| - |r| :: IsSpace(s[i])
  {
    if s != [] && IsSpace(s[0]) then
      var r := DropSpaces(s[1..]);
      assert r == s[|s| - |r|..] by {
        assert s[1..][|s| - 1 - |r|..] == s[|s| - |r|..];
      }
      assert forall i | 1 <= i < |s| - |r| :: s[i] == s[1..][i - 1];
      r
    else s
  }

  /** The longest whitespace-free prefix. */
  function Word(s: string): (w: string)
    ensures |w| <= |s| && w == s[..|w|]
    ensures forall c | c in w :: !IsSpace(c)
    ensures |w| == |s| || IsSpace(s[|w|])
  {
    if s == [] || IsSpace(s[0]) then [] else [s[0]] + Word(s[1..])
  }

  /** The maximal runs of non-whitespace characters, in order. */
  function Split(s: string): (ts: seq<Token>)
    ensures forall t | t in ts :: IsWord(t)
    decreases |s|
  {
    var t := DropSpaces(s);
    if t == [] then []
    else
      var w := Word(t);
      [w] + Split(t[|w|..])
  }

  /** src/preprocess.py, lines 27-30: the tokens of the lower-cased, filtered text. */
  function Tokens(text: string): (ts: seq<Token>)
    ensures forall t | t in ts :: IsWord(t) && forall c | c in t :: IsLower(c)
  {
    var s := LowerAndStrip(text);
    var ts := Split(s);
    assert forall t | t in ts :: forall c | c in t :: c in s by {
      SplitChars(s);
    }
    ts
  }

  lemma {:induction false} SplitChars(s: string)
    ensures forall t, c | t in Split(s) && c in t :: c in s
    decreases |s|
  {
    var t := DropSpaces(s);
    if t != [] {
      var w := Word(t);
      SplitChars(t[|w|..]);
      assert forall c | c in t[|w|..] :: c in t;
      assert forall c | c in w :: c in t;
      assert forall c | c in t :: c in s;
    }
  }

  /** Whitespace-only text (including "") splits into no tokens. */
  lemma SplitAllSpaces(s: string)
    requires forall c | c in s :: IsSpace(c)
    ensures Split(s) == []
  {
  }

  /** Characters outside the class disappear entirely in the first step. */
  lemma NothingKeptDropped(p: string)
    requires forall c | c in p :: !Kept(c)
    ensures LowerAndStrip(p) == []
  {
    var l := Lower(p);
    forall c | c in l
      ensures !Kept(c)
    {
      var i :| 0 <= i < |l| && l[i] == c;
      assert p[i] in p;
    }
    StripAll(l);
  }

  /** Letters and whitespace all survive the first step, lower-cased. */
  lemma LettersAndSpacesKept(s: string)
    requires forall c | c in s :: Kept(c)
    ensures LowerAndStrip(s) == Lower(s)
  {
    var l := Lower(s);
    forall c | c in l
      ensures Kept(c)
    {
      var i :| 0 <= i < |l| && l[i] == c;
      assert s[i] in s;
    }
    StripFixed(l);
  }

  /** A non-empty run of lower-case letters is one token. */
  lemma LowerWordTokens(w: string)
    requires w != [] && forall c | c in w :: IsLower(c)
    ensures Tokens(w) == [w]
  {
    LowerAndStripFixed(w);
    assert IsWord(w);
    SplitCons(w, []);
    assert w + [] == w;
  }

  /** Punctuation inside a word joins its halves into one token. */
  lemma PunctuationJoinsWord(a: string, c: char, b: string)
    requires a + b != [] && forall d | d in a + b :: IsLower(d)
    requires !Kept(c)
    ensures Tokens(a + [c] + b) == [a + b]
  {
    PunctuationDeleted(a, c, b);
    LowerWordTokens(a + b);
  }

  /** Trailing punctuation after a word is dropped. */
  lemma TrailingPunctuationDropped(w: string, p: string)
    requires w != [] && forall c | c in w :: IsLower(c)
    requires forall c | c in p :: !Kept(c)
    ensures Tokens(w + p) == [w]
  {
    LowerAndStripAppend(w, p);
    NothingKeptDropped(p);
    assert LowerAndStrip(w + p) == LowerAndStrip(w);
    LowerWordTokens(w);
  }

  /** The apostrophe in "don't" is deleted: one token "dont". */
  lemma ApostropheExample()
    ensures Tokens("don't") == ["dont"]
  {
    assert "don" + ['\''] + "t" == "don't";
    assert "don" + "t" == "dont";
    PunctuationJoinsWord("don", '\'', "t");
  }

  /** "great!" is the single token "great". */
  lemma ExclamationExample()
    ensures Tokens("great!") == ["great"]
  {
    assert "great" + "!" == "great!";
    TrailingPunctuationDropped("great", "!");
  }

  /** Letters and whitespace followed by characters outside the class: the
      first step keeps only the lower-cased front part. */
  lemma TailDropped(s: string, p: string)
    requires forall c | c in s :: Kept(c)
    requires forall c | c in p :: !Kept(c)
    ensures LowerAndStrip(s + p) == Lower(s)
  {
    LowerAndStripAppend(s, p);
    NothingKeptDropped(p);
    LettersAndSpacesKept(s);
    assert Lower(s) + [] == Lower(s);
  }

  lemma ShoutedPhraseLowered()
    ensures Lower("I LOVE it") == "i love it"
  {
  }

  lemma ShoutedTextFiltered()
    ensures LowerAndStrip("I LOVE it!!!") == "i love it"
  {
    var phrase, bang := "I LOVE it", "!!!";
    assert phrase + bang == "I LOVE it!!!";
    assert forall c | c in phrase :: Kept(c);
    assert forall c | c in bang :: !Kept(c);
    TailDropped(phrase, bang);
    ShoutedPhraseLowered();
  }

  lemma ShoutedTextSplit()
    ensures Split("i love it") == ["i", "love", "it"]
  {
    var ts := ["i", "love", "it"];
    assert Join(ts) == "i love it";
    assert forall t | t in ts :: IsWord(t);
    SplitJoin(ts);
  }

  /** Upper case is folded and punctuation dropped before splitting. */
  lemma ShoutedTextTokens()
    ensures Tokens("I LOVE it!!!") == ["i", "love", "it"]
  {
    ShoutedTextFiltered();
    ShoutedTextSplit();
  }

  // ---------------------------------------------------------------------
  // Step 3: drop stopwords and lemmatise the survivors
  // ---------------------------------------------------------------------

  /** The tokens that are not stopwords, in their original order. This is a
      reference definition: the program never builds this list on its own. */
  function Survivors(tokens: seq<Token>, stop: set<Token>): (r: seq<Token>)
    ensures |r| <= |tokens|
    ensures forall w :: w in r <==> w in tokens && w !in stop
    ensures r == [] <==> forall w | w in tokens :: w in stop
  {
    if tokens == [] then []
    else (if tokens[0] in stop then [] else [tokens[0]]) + Survivors(tokens[1..], stop)
  }

  /** src/preprocess.py, lines 33-37: the list comprehension that keeps the
      tokens outside `stop` and replaces each by its lemma. */
  function CleanTokens(tokens: seq<Token>, stop: set<Token>, lem: Token -> Token): (r: seq<Token>)
    ensures |r| == |Survivors(tokens, stop)|
    ensures forall i | 0 <= i < |r| :: r[i] == lem(Survivors(tokens, stop)[i])
  {
    if tokens == [] then []
    else (if tokens[0] in stop then [] else [lem(tokens[0])]) + CleanTokens(tokens[1..], stop, lem)
  }

  /** Filtering keeps the relative order: it distributes over concatenation. */
  lemma {:induction false} SurvivorsAppend(a: seq<Token>, b: seq<Token>, stop: set<Token>)
    ensures Survivors(a + b, stop) == Survivors(a, stop) + Survivors(b, stop)
  {
    if a == [] {
      assert a + b == b;
    } else {
      assert (a + b)[1..] == a[1..] + b;
      SurvivorsAppend(a[1..], b, stop);
    }
  }

  /** Every occurrence of a non-stopword survives, every occurrence of a
      stopword is dropped. */
  lemma {:induction false} SurvivorsCount(tokens: seq<Token>, stop: set<Token>, w: Token)
    ensures multiset(Survivors(tokens, stop))[w] == if w in stop then 0 else multiset(tokens)[w]
  {
    if tokens != [] {
      var head := if tokens[0] in stop then [] else [tokens[0]];
      SurvivorsCount(tokens[1..], stop, w);
      assert tokens == [tokens[0]] + tokens[1..];
      assert multiset(tokens) == multiset([tokens[0]]) + multiset(tokens[1..]);
      assert Survivors(tokens, stop) == head + Survivors(tokens[1..], stop);
      assert multiset(Survivors(tokens, stop)) == multiset(head) + multiset(Survivors(tokens[1..], stop));
    }
  }

  lemma {:induction false} SurvivorsNoStopwords(tokens: seq<Token>, stop: set<Token>)
    requires forall w | w in tokens :: w !in stop
    ensures Survivors(tokens, stop) == tokens
  {
    if tokens != [] {
      SurvivorsNoStopwords(tokens[1..], stop);
    }
  }

  // ---------------------------------------------------------------------
  // Step 4: `" ".join(tokens)`
  // ---------------------------------------------------------------------

  /** The total number of characters in the tokens. */
  function TotalLength(ts: seq<Token>): nat
  {
    if ts == [] then 0 else |ts[0]| + TotalLength(ts[1..])
  }

  /** `" ".join`: the length is the tokens' characters plus one separator
      per gap between consecutive tokens. JoinShape and SplitJoin give the
      content when the tokens are words. */
  function Join(ts: seq<Token>): (s: string)
    ensures |s| == TotalLength(ts) + (if ts == [] then 0 else |ts| - 1)
  {
    if |ts| == 0 then ""
    else if |ts| == 1 then ts[0]
    else ts[0] + " " + Join(ts[1..])
  }

  /** No leading or trailing whitespace. */
  predicate Trimmed(s: string) {
    s == [] || (!IsSpace(s[0]) && !IsSpace(s[|s| - 1]))
  }

  /** No two adjacent whitespace characters. */
  predicate NoDoubledSpaces(s: string) {
    forall i | 0 < i < |s| :: !(IsSpace(s[i - 1]) && IsSpace(s[i]))
  }

  lemma {:induction false} JoinShape(ts: seq<Token>)
    requires forall t | t in ts :: IsWord(t)
    ensures Trimmed(Join(ts)) && NoDoubledSpaces(Join(ts))
    ensures forall c | c in Join(ts) :: c == ' ' || exists t | t in ts :: c in t
    ensures Join(ts) == [] <==> ts == []
  {
    if |ts| == 1 {
      assert ts[0] in ts;
    } else if |ts| >= 2 {
      var w, j := ts[0], Join(ts[1..]);
      assert w in ts;
      assert forall t | t in ts[1..] :: t in ts;
      JoinShape(ts[1..]);
      JoinConsShape(w, j);
      forall c | c in Join(ts)
        ensures c == ' ' || exists t | t in ts :: c in t
      {
        assert Join(ts) == w + " " + j;
        if c in j && c != ' ' {
          var t :| t in ts[1..] && c in t;
          assert t in ts;
        }
      }
    }
  }

  /** The shape facts for one step of the join: a word, a space, and joined text. */
  lemma JoinConsShape(w: string, j: string)
    requires IsWord(w) && j != [] && Trimmed(j) && NoDoubledSpaces(j)
    ensures Trimmed(w + " " + j) && NoDoubledSpaces(w + " " + j)
    ensures forall c | c in w + " " + j :: c in w || c == ' ' || c in j
  {
    var s := w + " " + j;
    var n := |w|;
    assert s[n - 1] == w[n - 1] && w[n - 1] in w;
    assert s[n] == ' ' && s[n + 1] == j[0];
    assert s[|s| - 1] == j[|j| - 1];
    forall i | 0 < i < |s|
      ensures !(IsSpace(s[i - 1]) && IsSpace(s[i]))
    {
      if i < n {
        assert s[i] == w[i] && w[i] in w;
      } else if i > n + 1 {
        assert s[i - 1] == j[i - n - 2] && s[i] == j[i - n - 1];
      }
    }
    assert s[0] == w[0] && w[0] in w;
  }

  /** A word followed by text that is empty or starts with whitespace splits
      into that word and the split of the rest. */
  lemma SplitCons(w: string, rest: string)
    requires IsWord(w)
    requires rest == [] || IsSpace(rest[0])
    ensures Split(w + rest) == [w] + Split(rest)
  {
    var s := w + rest;
    assert s[0] == w[0] && w[0] in w;
    assert DropSpaces(s) == s;
    WordOf(w, rest);
    assert s[|w|..] == rest;
  }

  /** Any leading whitespace character, not only U+0020, leaves the split
      unchanged. */
  lemma SplitLeadingSpace(c: char, j: string)
    requires IsSpace(c)
    ensures Split([c] + j) == Split(j)
  {
    assert ([c] + j)[1..] == j;
    assert DropSpaces([c] + j) == DropSpaces(j);
  }

  /** Splitting skips the leading whitespace run, whatever it is made of. */
  lemma SplitSkipsLeadingSpaces(s: string)
    ensures Split(s) == Split(DropSpaces(s))
  {
    var t := DropSpaces(s);
    assert DropSpaces(t) == t;
  }

  /** A word followed by any whitespace character is the first token, and
      the rest is split on its own. */
  lemma SplitOnWhitespace(w: string, c: char, rest: string)
    requires IsWord(w) && IsSpace(c)
    ensures Split(w + [c] + rest) == [w] + Split(rest)
  {
    assert w + [c] + rest == w + ([c] + rest);
    SplitCons(w, [c] + rest);
    SplitLeadingSpace(c, rest);
  }

  /** One step of splitting joined text: a word, a space, then the rest. */
  lemma SplitJoinStep(w: string, rest: seq<Token>)
    requires IsWord(w) && rest != []
    ensures Split(Join([w] + rest)) == [w] + Split(Join(rest))
  {
    var j := Join(rest);
    assert ([w] + rest)[1..] == rest;
    assert Join([w] + rest) == w + (" " + j);
    SplitCons(w, " " + j);
    SplitLeadingSpace(' ', j);
  }

  /** Splitting the joined words gives back the words. */
  lemma {:induction false} SplitJoin(ts: seq<Token>)
    requires forall t | t in ts :: IsWord(t)
    ensures Split(Join(ts)) == ts
  {
    if |ts| == 1 {
      assert IsWord(ts[0]) by { assert ts[0] in ts; }
      SplitJoinOne(ts[0]);
      assert ts == [ts[0]];
    } else if |ts| >= 2 {
      var w, rest := ts[0], ts[1..];
      assert ts == [w] + rest;
      assert IsWord(w) by { assert w in ts; }
      assert Split(Join(rest)) == rest by {
        assert forall t | t in rest :: t in ts;
        SplitJoin(rest);
      }
      SplitJoinStep(w, rest);
    }
  }

  lemma SplitJoinOne(w: string)
    requires IsWord(w)
    ensures Split(Join([w])) == [w]
  {
    SplitCons(w, []);
    assert w + [] == w;
  }

  lemma {:induction false} WordOf(w: string, rest: string)
    requires forall c | c in w :: !IsSpace(c)
    requires rest == [] || IsSpace(rest[0])
    ensures Word(w + rest) == w
  {
    if w != [] {
      assert w[0] in w;
      assert (w + rest)[1..] == w[1..] + rest;
      WordOf(w[1..], rest);
    } else {
      assert w + rest == rest;
    }
  }

  /** Each joined token occurs in the joined text, at the returned offset. */
  lemma {:induction false} JoinContainsToken(ts: seq<Token>, k: nat) returns (off: nat)
    requires k < |ts|
    ensures off + |ts[k]| <= |Join(ts)| && Join(ts)[off..off + |ts[k]|] == ts[k]
  {
    if |ts| == 1 {
      off := 0;
    } else if k == 0 {
      off := 0;
      assert Join(ts) == ts[0] + (" " + Join(ts[1..]));
    } else {
      var o := JoinContainsToken(ts[1..], k - 1);
      off := |ts[0]| + 1 + o;
      var j := Join(ts[1..]);
      assert Join(ts) == ts[0] + " " + j;
      assert Join(ts)[off..off + |ts[k]|] == j[o..o + |ts[k]|];
    }
  }

  // ---------------------------------------------------------------------
  // The whole of clean_text
  // ---------------------------------------------------------------------

  /** `clean_text(text)` with the stopword set `stop` and the lemmatiser `lem`. */
  function CleanText(text: string, stop: set<Token>, lem: Token -> Token): (r: string)
    ensures Survivors(Tokens(text), stop) == [] ==> r == ""
  {
    Join(CleanTokens(Tokens(text), stop, lem))
  }

  /** The assumption the shape guarantees rest on: the lemmatiser maps each
      of `words` to a non-empty run of lower-case ASCII letters. */
  ghost predicate LetterLemmas(lem: Token -> Token, words: seq<Token>) {
    forall w | w in words :: lem(w) != [] && forall c | c in lem(w) :: IsLower(c)
  }

  lemma CleanTokensAreWords(tokens: seq<Token>, stop: set<Token>, lem: Token -> Token)
    requires LetterLemmas(lem, Survivors(tokens, stop))
    ensures forall t | t in CleanTokens(tokens, stop, lem) :: IsWord(t) && forall c | c in t :: IsLower(c)
  {
    var sv, r := Survivors(tokens, stop), CleanTokens(tokens, stop, lem);
    forall t | t in r
      ensures IsWord(t) && forall c | c in t :: IsLower(c)
    {
      var i :| 0 <= i < |r| && r[i] == t;
      assert sv[i] in sv;
    }
  }

  /** With letter-only lemmas, the output's tokens are exactly the lemmas of
      the non-stopword tokens, so there are never more of them than input
      tokens. */
  lemma CleanTextTokenCount(text: string, stop: set<Token>, lem: Token -> Token)
    requires LetterLemmas(lem, Survivors(Tokens(text), stop))
    ensures Split(CleanText(text, stop, lem)) == CleanTokens(Tokens(text), stop, lem)
    ensures |Split(CleanText(text, stop, lem))| == |Survivors(Tokens(text), stop)| <= |Tokens(text)|
  {
    CleanTokensAreWords(Tokens(text), stop, lem);
    SplitJoin(CleanTokens(Tokens(text), stop, lem));
  }

  /** With letter-only lemmas, the output holds only lower-case letters and
      single spaces, with no leading, trailing or doubled space; and it is
      empty exactly when every token was a stopword. */
  lemma CleanTextShape(text: string, stop: set<Token>, lem: Token -> Token)
    requires LetterLemmas(lem, Survivors(Tokens(text), stop))
    ensures forall c | c in CleanText(text, stop, lem) :: IsLower(c) || c == ' '
    ensures Trimmed(CleanText(text, stop, lem)) && NoDoubledSpaces(CleanText(text, stop, lem))
    ensures CleanText(text, stop, lem) == "" <==> Survivors(Tokens(text), stop) == []
  {
    var ct := CleanTokens(Tokens(text), stop, lem);
    CleanTokensAreWords(Tokens(text), stop, lem);
    JoinShape(ct);
  }

  /** Empty text, whitespace, digits and punctuation all clean to "". */
  lemma NoLettersCleansToEmpty(text: string, stop: set<Token>, lem: Token -> Token)
    requires forall c | c in text :: !IsAsciiLetter(c)
    ensures CleanText(text, stop, lem) == ""
  {
    var s := LowerAndStrip(text);
    StripChars(Lower(text));
    forall c | c in s
      ensures IsSpace(c)
    {
      assert c in Lower(text);
      var i :| 0 <= i < |text| && Lower(text)[i] == c;
      assert text[i] in text;
    }
    SplitAllSpaces(s);
  }

  /** Text made only of stopwords cleans to "". */
  lemma StopwordsCleanToEmpty(text: string, stop: set<Token>, lem: Token -> Token)
    requires forall t | t in Tokens(text) :: t in stop
    ensures CleanText(text, stop, lem) == ""
  {
  }

  /** Cleaning twice changes nothing when the lemmatiser is idempotent on
      the survivors, returns letter-only words and never returns a stopword.
      The program promises no more than this: see NotIdempotentInGeneral. */
  lemma CleanTextIdempotent(text: string, stop: set<Token>, lem: Token -> Token)
    requires LetterLemmas(lem, Survivors(Tokens(text), stop))
    requires forall w | w in Survivors(Tokens(text), stop) :: lem(w) !in stop && lem(lem(w)) == lem(w)
    ensures CleanText(CleanText(text, stop, lem), stop, lem) == CleanText(text, stop, lem)
  {
    var ct := CleanTokens(Tokens(text), stop, lem);
    CleanTextRetokenised(text, stop, lem);
    CleanTokensFixed(ct, Survivors(Tokens(text), stop), stop, lem);
  }

  /** With letter-only lemmas, the tokens of the cleaned text are the lemmas. */
  lemma CleanTextRetokenised(text: string, stop: set<Token>, lem: Token -> Token)
    requires LetterLemmas(lem, Survivors(Tokens(text), stop))
    ensures Tokens(CleanText(text, stop, lem)) == CleanTokens(Tokens(text), stop, lem)
  {
    var c := CleanText(text, stop, lem);
    assert LowerAndStrip(c) == c by {
      assert forall ch | ch in c :: IsLower(ch) || IsSpace(ch) by {
        CleanTextShape(text, stop, lem);
      }
      LowerAndStripFixed(c);
    }
    assert Split(c) == CleanTokens(Tokens(text), stop, lem) by {
      CleanTextTokenCount(text, stop, lem);
    }
  }

  /** Cleaning the lemmas a second time returns them unchanged when none is a
      stopword and the lemmatiser is idempotent on them. */
  lemma CleanTokensFixed(ct: seq<Token>, sv: seq<Token>, stop: set<Token>, lem: Token -> Token)
    requires |ct| == |sv| && forall i | 0 <= i < |ct| :: ct[i] == lem(sv[i])
    requires forall w | w in sv :: lem(w) !in stop && lem(lem(w)) == lem(w)
    ensures CleanTokens(ct, stop, lem) == ct
  {
    forall w | w in ct
      ensures w !in stop
    {
      var i :| 0 <= i < |ct| && ct[i] == w;
      assert sv[i] in sv;
    }
    SurvivorsNoStopwords(ct, stop);
    var ct2 := CleanTokens(ct, stop, lem);
    forall i | 0 <= i < |ct|
      ensures ct2[i] == ct[i]
    {
      assert sv[i] in sv;
    }
  }

  /** A single lower-case word cleans to its lemma, or to "" when it is a
      stopword. */
  lemma CleanWord(w: string, stop: set<Token>, lem: Token -> Token)
    requires w != [] && forall c | c in w :: IsLower(c)
    ensures CleanText(w, stop, lem) == if w in stop then "" else lem(w)
  {
    LowerWordTokens(w);
  }

  /** Without those assumptions a second pass can change the text: a word
      whose lemma is a stopword cleans to that lemma once, and to "" twice. */
  lemma NotIdempotentInGeneral(w: string, stop: set<Token>, lem: Token -> Token)
    requires w != [] && forall c | c in w :: IsLower(c)
    requires lem(w) != [] && forall c | c in lem(w) :: IsLower(c)
    requires w !in stop && lem(w) in stop
    ensures CleanText(w, stop, lem) == lem(w)
    ensures CleanText(CleanText(w, stop, lem), stop, lem) == ""
    ensures CleanText(CleanText(w, stop, lem), stop, lem) != CleanText(w, stop, lem)
  {
    CleanWord(w, stop, lem);
    CleanWord(lem(w), stop, lem);
  }

  /** The lemmatiser is consulted only on the surviving tokens: two
      lemmatisers that agree there give the same cleaned text. */
  lemma LemmatiserSeenOnlyOnSurvivors(text: string, stop: set<Token>, lem1: Token -> Token, lem2: Token -> Token)
    requires forall w | w in Survivors(Tokens(text), stop) :: lem1(w) == lem2(w)
    ensures CleanText(text, stop, lem1) == CleanText(text, stop, lem2)
  {
    var sv := Survivors(Tokens(text), stop);
    var a, b := CleanTokens(Tokens(text), stop, lem1), CleanTokens(Tokens(text), stop, lem2);
    forall i | 0 <= i < |a|
      ensures a[i] == b[i]
    {
      assert sv[i] in sv;
    }
    assert a == b;
  }

  /** The stopword set is consulted only on the tokens themselves. */
  lemma {:induction false} StopwordsSeenOnlyOnTokens(tokens: seq<Token>, stop1: set<Token>, stop2: set<Token>, lem: Token -> Token)
    requires forall w | w in tokens :: (w in stop1 <==> w in stop2)
    ensures CleanTokens(tokens, stop1, lem) == CleanTokens(tokens, stop2, lem)
  {
    if tokens != [] {
      assert tokens[0] in tokens;
      assert forall w | w in tokens[1..] :: w in tokens;
      StopwordsSeenOnlyOnTokens(tokens[1..], stop1, stop2, lem);
    }
  }

  /** Two stopword sets that agree on the tokens of the text give the same
      cleaned text. */
  lemma StopwordsSeenOnlyOnText(text: string, stop1: set<Token>, stop2: set<Token>, lem: Token -> Token)
    requires forall w | w in Tokens(text) :: (w in stop1 <==> w in stop2)
    ensures CleanText(text, stop1, lem) == CleanText(text, stop2, lem)
  {
    StopwordsSeenOnlyOnTokens(Tokens(text), stop1, stop2, lem);
  }
}
