/**
 * The word filter: `clean_word` strips punctuation and wrapping symbols from
 * one token, and `clean_up_words` lowercases, cleans and drops stop words.
 */
module Words {
  import opened Text

  /** The substrings `clean_word` turns into a single space, in the order it does so. */
  const Replaced: seq<string> := ["!", "?", ".", ",", ":", ";", "(", ")", "-", "--", "—", "it’s"]

  /** The single characters among `Replaced`: none survives cleaning. */
  const Punctuation: set<char> := {'!', '?', '.', ',', ':', ';', '(', ')', '-', '—'}

  /**
   * The hand-written noise list, entry for entry and in order. A comma is
   * missing between "we're" and '|', so Python concatenates them into the one
   * entry "we're|". The list is kept in groups that follow its source lines
   * (the first line in two halves), so that a membership fact about it is a
   * few small facts about the groups.
   */
  const MyStopWords: seq<string> :=
    StopWords58a + StopWords58b + StopWords59 + StopWords60 + StopWords61 + StopWords62 + StopWords63 + StopWords64

  const StopWords58a: seq<string> := [" ", "reply", "like", "share", "tweet", "says", "comments"]
  const StopWords58b: seq<string> := ["i'm", "it's", "you're", "we're|", "don't", "comment", "buy"]
  const StopWords59: seq<string> := ["contact", "open", "google", "maps", "positive", "feedback", "email"]
  const StopWords60: seq<string> := [
    "hi", "-", "etc", "twitter", "libro", "libros", "tig", "página", "páginas", "páginas ", "anterior", "siguiente"
  ]
  const StopWords61: seq<string> := ["ficha", "empty", "nº", "2021", "2020", "2019", "2018", "2017", "2016"]
  const StopWords62: seq<string> := [
    "2015", "2014", "2013", "2012", "2011", "2010", "octubre", "16", "gratis", "correo", "electrónico", "nosolosig"
  ]
  const StopWords63: seq<string> := ["autor/a", "editorial", "país", "fecha", "edición", "precio", "isbn", "idioma"]
  const StopWords64: seq<string> := [
    "autor/a ", "editorial ", "país ", "fecha ", "edición ", "precio ", "isbn ", "idioma ", "euros", "español", "españa"
  ]

  /** Applies the replacements in order, each turning its pattern into one space. */
  function ReplaceEach(w: string, pats: seq<string>): (r: string)
    requires forall i :: 0 <= i < |pats| ==> |pats[i]| > 0
    ensures |r| <= |w|
    decreases |pats|
  {
    if pats == [] then w
    else Replace(ReplaceEach(w, pats[..|pats| - 1]), pats[|pats| - 1], " ")
  }

  /** A one-character pattern is gone after the chain, whatever follows it. */
  lemma {:induction false} ReplaceEachRemovesSingle(w: string, pats: seq<string>, i: int)
    requires forall j :: 0 <= j < |pats| ==> |pats[j]| > 0
    requires 0 <= i < |pats| && |pats[i]| == 1 && pats[i][0] != ' '
    ensures pats[i][0] !in ReplaceEach(w, pats)
    decreases |pats|
  {
    var n := |pats| - 1;
    var before := ReplaceEach(w, pats[..n]);
    if i == n {
      assert pats[i] == [pats[i][0]];
      ReplaceRemovesChar(before, pats[i][0], " ");
    } else {
      ReplaceEachRemovesSingle(w, pats[..n], i);
      ReplaceChars(before, pats[n], " ");
    }
  }

  /** Patterns that cannot occur in the input leave it unchanged. */
  lemma {:induction false} ReplaceEachAbsent(w: string, pats: seq<string>)
    requires forall j :: 0 <= j < |pats| ==> |pats[j]| > 0 && exists c :: c in pats[j] && c !in w
    ensures ReplaceEach(w, pats) == w
    decreases |pats|
  {
    if pats != [] {
      var n := |pats| - 1;
      forall j | 0 <= j < n ensures |pats[..n][j]| > 0 && exists c :: c in pats[..n][j] && c !in w {
        assert pats[..n][j] == pats[j];
      }
      ReplaceEachAbsent(w, pats[..n]);
      var c :| c in pats[n] && c !in w;
      ReplaceAbsent(w, pats[n], " ", c);
    }
  }

  /** No punctuation character and no "it’s" is left once every replacement has run. */
  lemma ReplacedLeavesNoPunctuation(word: string)
    ensures forall c :: c in ReplaceEach(word, Replaced) ==> c !in Punctuation
    ensures !Contains(ReplaceEach(word, Replaced), "it’s")
  {
    ReplaceEachRemovesSingle(word, Replaced, 0);
    ReplaceEachRemovesSingle(word, Replaced, 1);
    ReplaceEachRemovesSingle(word, Replaced, 2);
    ReplaceEachRemovesSingle(word, Replaced, 3);
    ReplaceEachRemovesSingle(word, Replaced, 4);
    ReplaceEachRemovesSingle(word, Replaced, 5);
    ReplaceEachRemovesSingle(word, Replaced, 6);
    ReplaceEachRemovesSingle(word, Replaced, 7);
    ReplaceEachRemovesSingle(word, Replaced, 8);
    ReplaceEachRemovesSingle(word, Replaced, 10);
    assert Replaced[..11][..|Replaced[..11]|] == Replaced[..11];
    ReplaceRemovesPattern(ReplaceEach(word, Replaced[..11]), "it’s", " ");
  }

  /** The four strips that end `clean_word`: whitespace, then '#', '«' and '»'. */
  function StripEnds(s: string): (r: string)
    ensures |r| <= |s|
  {
    Strip(Strip(Strip(Strip(s, Whitespace), {'#'}), {'«'}), {'»'})
  }

  /** Stripping the ends adds no character and creates no occurrence of a pattern. */
  lemma StripEndsKeeps(s: string, p: string)
    ensures forall c :: c in StripEnds(s) ==> c in s
    ensures !Contains(s, p) ==> !Contains(StripEnds(s), p)
  {
    var s1 := Strip(s, Whitespace);
    var s2 := Strip(s1, {'#'});
    var s3 := Strip(s2, {'«'});
    StripChars(s, Whitespace);
    StripChars(s1, {'#'});
    StripChars(s2, {'«'});
    StripChars(s3, {'»'});
    if !Contains(s, p) {
      StripKeepsOut(s, Whitespace, p);
      StripKeepsOut(s1, {'#'}, p);
      StripKeepsOut(s2, {'«'}, p);
      StripKeepsOut(s3, {'»'}, p);
    }
  }

  /** A string that starts and ends outside every stripped set goes through unchanged. */
  lemma StripEndsKeepsClean(s: string)
    requires s == [] || (s[0] !in Whitespace && s[0] !in "#«»")
    requires s == [] || (s[|s| - 1] !in Whitespace && s[|s| - 1] !in "#«»")
    ensures StripEnds(s) == s
  {
    StripKeepsClean(s, Whitespace);
    StripKeepsClean(s, {'#'});
    StripKeepsClean(s, {'«'});
    StripKeepsClean(s, {'»'});
  }

  /**
   * `clean_word`: replace each pattern of `Replaced` by a space, then strip
   * the ends. Every replacement is one space for at least one character and
   * the strips only shorten, so the result is never longer than the word.
   */
  function CleanWord(word: string): (r: string)
    ensures |r| <= |word|
  {
    StripEnds(ReplaceEach(word, Replaced))
  }

  /** A cleaned word holds no punctuation character and no "it’s". */
  lemma CleanWordSound(word: string)
    ensures forall c :: c in CleanWord(word) ==> c !in Punctuation
    ensures !Contains(CleanWord(word), "it’s")
  {
    ReplacedNonEmpty();
    var replaced := ReplaceEach(word, Replaced);
    ReplacedLeavesNoPunctuation(word);
    StripEndsKeeps(replaced, "it’s");
  }

  lemma ReplacedNonEmpty()
    ensures forall i :: 0 <= i < |Replaced| ==> |Replaced[i]| > 0
  {
  }

  /** Letters, digits and the ASCII apostrophe: characters cleaning never touches. */
  predicate PlainChar(c: char)
  {
    'a' <= c <= 'z' || 'A' <= c <= 'Z' || '0' <= c <= '9' || c == '\''
  }

  /** A word with no punctuation character and no '’' goes through the replacements unchanged. */
  lemma ReplacedUntouched(word: string)
    requires forall c :: c in word ==> c !in Punctuation && c != '’'
    ensures ReplaceEach(word, Replaced) == word
  {
    forall j | 0 <= j < |Replaced| ensures |Replaced[j]| > 0 && exists c :: c in Replaced[j] && c !in word {
      var c := if j == 11 then '’' else Replaced[j][0];
      assert c in Replaced[j];
    }
    ReplaceEachAbsent(word, Replaced);
  }

  /** An ordinary word comes out of `clean_word` exactly as it went in. */
  lemma CleanWordKeepsPlain(word: string)
    requires forall c :: c in word ==> PlainChar(c)
    ensures CleanWord(word) == word
  {
    ReplacedUntouched(word);
    PlainEndsUntouched(word);
  }

  lemma PlainEndsUntouched(word: string)
    requires forall c :: c in word ==> PlainChar(c)
    ensures StripEnds(word) == word
  {
    if word != [] {
      assert PlainChar(word[0]) && PlainChar(word[|word| - 1]);
    }
    StripEndsKeepsClean(word);
  }

  /**
   * `clean_word` is not idempotent, even on a token of `.split()`: "#!a"
   * becomes "# a", whose '#' is stripped only after the whitespace strip, so
   * a space is left that only a second pass removes.
   */
  lemma CleanWordNotIdempotent()
    ensures CleanWord("#!a") == " a"
    ensures CleanWord(CleanWord("#!a")) == "a"
  {
    BangReplaced();
    HashSpaceStripped();
    SpaceCleans();
  }

  lemma BangReplaced()
    ensures ReplaceEach("#!a", Replaced) == "# a"
  {
    assert ReplaceEach("#!a", Replaced[..1]) == "# a";
    ReplacedTailUntouched("# a");
    ReplaceEachSplit("#!a", Replaced[..1], Replaced[1..]);
    assert Replaced[..1] + Replaced[1..] == Replaced;
  }

  lemma HashSpaceStripped()
    ensures StripEnds("# a") == " a"
  {
    StripKeepsClean("# a", Whitespace);
    assert StripLeft(" a", {'#'}) == " a";
    assert StripLeft("# a", {'#'}) == " a";
    assert Strip("# a", {'#'}) == " a";
    StripKeepsClean(" a", {'«'});
    StripKeepsClean(" a", {'»'});
  }

  lemma SpaceCleans()
    ensures CleanWord(" a") == "a"
  {
    ReplacedUntouched(" a");
    assert StripLeft("a", Whitespace) == "a";
    assert StripLeft(" a", Whitespace) == "a";
    assert Strip(" a", Whitespace) == "a";
    StripKeepsClean("a", {'#'});
    StripKeepsClean("a", {'«'});
    StripKeepsClean("a", {'»'});
  }

  /** The test `clean_up_words` drops a cleaned token on. */
  predicate IsStopWord(w: string, myStopWords: seq<string>, pkgStopWords: seq<string>)
  {
    w in myStopWords || w in pkgStopWords
  }

  /** The per-token step of `clean_up_words`: lowercase, then clean. */
  function CleanToken(token: string): string
  {
    CleanWord(Lower(token))
  }

  /**
   * What `clean_up_words` returns: the cleaned lowercase form of every token
   * that is not a stop word, in input order, duplicates kept.
   */
  function KeptWords(words: seq<string>, myStopWords: seq<string>, pkgStopWords: seq<string>): (r: seq<string>)
    ensures |r| <= |words|
    decreases |words|
  {
    if words == [] then []
    else KeptWords(words[..|words| - 1], myStopWords, pkgStopWords) + KeptEntry(words[|words| - 1], myStopWords, pkgStopWords)
  }

  /** What one token contributes: nothing when its cleaned form is a stop word, else that form. */
  function KeptEntry(token: string, myStopWords: seq<string>, pkgStopWords: seq<string>): (r: seq<string>)
    ensures |r| <= 1
  {
    var cleaned := CleanToken(token);
    if IsStopWord(cleaned, myStopWords, pkgStopWords) then [] else [cleaned]
  }

  lemma KeptWordsSnoc(words: seq<string>, token: string, myStopWords: seq<string>, pkgStopWords: seq<string>)
    ensures KeptWords(words + [token], myStopWords, pkgStopWords) ==
            KeptWords(words, myStopWords, pkgStopWords) + KeptEntry(token, myStopWords, pkgStopWords)
  {
    assert (words + [token])[..|words|] == words;
  }

  /** `clean_up_words`, with the package stop-word list passed in. */
  method CleanUpWords(words: seq<string>, pkgStopWords: seq<string>) returns (newWords: seq<string>)
    ensures newWords == KeptWords(words, MyStopWords, pkgStopWords)
  {
    newWords := FilterWords(words, MyStopWords, pkgStopWords);
  }

  /** The loop of `clean_up_words`, over either stop-word list. */
  method FilterWords(words: seq<string>, myStopWords: seq<string>, pkgStopWords: seq<string>)
    returns (newWords: seq<string>)
    ensures newWords == KeptWords(words, myStopWords, pkgStopWords)
  {
    newWords := [];
    for i := 0 to |words|
      invariant newWords == KeptWords(words[..i], myStopWords, pkgStopWords)
    {
      var word := Lower(words[i]);
      var cleaned := CleanWord(word);
      KeptWordsSnoc(words[..i], words[i], myStopWords, pkgStopWords);
      TakeSnoc(words, i);
      if cleaned in myStopWords || cleaned in pkgStopWords {
      } else {
        newWords := newWords + [cleaned];
      }
    }
    assert words[..|words|] == words;
  }

  /** Every kept word is the cleaned form of some token and is no stop word. */
  lemma {:induction false} KeptWordsSound(words: seq<string>, myStopWords: seq<string>, pkgStopWords: seq<string>, x: string)
    requires x in KeptWords(words, myStopWords, pkgStopWords)
    ensures !IsStopWord(x, myStopWords, pkgStopWords)
    ensures exists i :: 0 <= i < |words| && x == CleanToken(words[i])
    decreases |words|
  {
    var n := |words| - 1;
    if x in KeptWords(words[..n], myStopWords, pkgStopWords) {
      KeptWordsSound(words[..n], myStopWords, pkgStopWords, x);
      var i :| 0 <= i < n && x == CleanToken(words[..n][i]);
      assert words[..n][i] == words[i];
    } else {
      assert x == CleanToken(words[n]);
    }
  }

  /** Every token whose cleaned form is no stop word contributes that form. */
  lemma {:induction false} KeptWordsComplete(words: seq<string>, myStopWords: seq<string>, pkgStopWords: seq<string>, i: int)
    requires 0 <= i < |words|
    requires !IsStopWord(CleanToken(words[i]), myStopWords, pkgStopWords)
    ensures CleanToken(words[i]) in KeptWords(words, myStopWords, pkgStopWords)
    decreases |words|
  {
    var n := |words| - 1;
    var init := words[..n];
    assert words == init + [words[n]];
    KeptWordsSnoc(init, words[n], myStopWords, pkgStopWords);
    if i < n {
      assert init[i] == words[i];
      KeptWordsComplete(init, myStopWords, pkgStopWords, i);
    }
  }

  /** Cleaning works token by token, so it distributes over concatenation. */
  lemma {:induction false} KeptWordsAppend(a: seq<string>, b: seq<string>, myStopWords: seq<string>, pkgStopWords: seq<string>)
    ensures KeptWords(a + b, myStopWords, pkgStopWords) ==
            KeptWords(a, myStopWords, pkgStopWords) + KeptWords(b, myStopWords, pkgStopWords)
    decreases |b|
  {
    if b == [] {
      assert a + b == a;
    } else {
      var n := |b| - 1;
      var init := b[..n];
      var last := KeptEntry(b[n], myStopWords, pkgStopWords);
      AppendSnoc(a, b);
      calc {
        KeptWords(a + b, myStopWords, pkgStopWords);
        KeptWords((a + init) + [b[n]], myStopWords, pkgStopWords);
        { KeptWordsSnoc(a + init, b[n], myStopWords, pkgStopWords); }
        KeptWords(a + init, myStopWords, pkgStopWords) + last;
        { KeptWordsAppend(a, init, myStopWords, pkgStopWords); }
        (KeptWords(a, myStopWords, pkgStopWords) + KeptWords(init, myStopWords, pkgStopWords)) + last;
        KeptWords(a, myStopWords, pkgStopWords) + (KeptWords(init, myStopWords, pkgStopWords) + last);
        { KeptWordsSnoc(init, b[n], myStopWords, pkgStopWords); }
        KeptWords(a, myStopWords, pkgStopWords) + KeptWords(b, myStopWords, pkgStopWords);
      }
    }
  }

  /** Running the chain on `p + q` is running it on `p`, then on `q`. */
  lemma {:induction false} ReplaceEachSplit(w: string, p: seq<string>, q: seq<string>)
    requires forall j :: 0 <= j < |p| ==> |p[j]| > 0
    requires forall j :: 0 <= j < |q| ==> |q[j]| > 0
    ensures ReplaceEach(w, p + q) == ReplaceEach(ReplaceEach(w, p), q)
    decreases |q|
  {
    if q == [] {
      assert p + q == p;
    } else {
      var n := |q| - 1;
      ReplaceEachSplit(w, p, q[..n]);
      assert (p + q)[..|p + q| - 1] == p + q[..n];
    }
  }

  /** A token that cleans to the empty string (such as "!") is kept, as "". */
  lemma EmptyTokenKept(pkgStopWords: seq<string>)
    requires "" !in pkgStopWords
    ensures KeptWords(["!"], MyStopWords, pkgStopWords) == [""]
  {
    assert Lower("!") == "!";
    assert ReplaceEach("!", Replaced[..1]) == " ";
    ReplacedTailUntouched(" ");
    ReplaceEachSplit("!", Replaced[..1], Replaced[1..]);
    assert Replaced[..1] + Replaced[1..] == Replaced;
    assert StripLeft(" ", Whitespace) == "";
    StripEndsKeepsClean("");
    EmptyNotListed();
  }

  /** The replacements after the first leave a word without punctuation or '’' alone. */
  lemma ReplacedTailUntouched(w: string)
    requires forall c :: c in w ==> c !in Punctuation && c != '’'
    ensures ReplaceEach(w, Replaced[1..]) == w
  {
    forall j | 0 <= j < |Replaced[1..]| ensures |Replaced[1..][j]| > 0 && exists c :: c in Replaced[1..][j] && c !in w {
      assert Replaced[1..][j] == Replaced[j + 1];
      var c := if j == 10 then '’' else Replaced[j + 1][0];
      assert c in Replaced[j + 1];
    }
    ReplaceEachAbsent(w, Replaced[1..]);
  }

  /** A word is on the noise list exactly when it is in one of its groups. */
  lemma StopWordGroups(w: string)
    ensures w in MyStopWords <==>
            w in StopWords58a || w in StopWords58b || w in StopWords59 || w in StopWords60 ||
            w in StopWords61 || w in StopWords62 || w in StopWords63 || w in StopWords64
  {
    InJoined(w, StopWords58a, StopWords58b);
    InJoined(w, StopWords58a + StopWords58b, StopWords59);
    InJoined(w, StopWords58a + StopWords58b + StopWords59, StopWords60);
    InJoined(w, StopWords58a + StopWords58b + StopWords59 + StopWords60, StopWords61);
    InJoined(w, StopWords58a + StopWords58b + StopWords59 + StopWords60 + StopWords61, StopWords62);
    InJoined(w, StopWords58a + StopWords58b + StopWords59 + StopWords60 + StopWords61 + StopWords62, StopWords63);
    InJoined(w, StopWords58a + StopWords58b + StopWords59 + StopWords60 + StopWords61 + StopWords62 + StopWords63,
             StopWords64);
  }

  lemma InJoined(w: string, a: seq<string>, b: seq<string>)
    ensures w in a + b <==> w in a || w in b
  {
  }

  lemma EmptyNotListed()
    ensures "" !in MyStopWords
  {
    StopWordGroups("");
  }

  lemma ReplyListed()
    ensures "reply" in MyStopWords
  {
    StopWordGroups("reply");
    assert StopWords58a[1] == "reply";
  }

  lemma GlacierNotListed()
    ensures "glacier" !in MyStopWords
  {
    StopWordGroups("glacier");
  }

  lemma WereNotListed()
    ensures "we're" !in MyStopWords
  {
    StopWordGroups("we're");
  }

  /** "Reply" is a stop word; "Glacier", in neither list, is kept in lowercase. */
  lemma ReplyDroppedGlacierKept(pkgStopWords: seq<string>)
    requires "glacier" !in pkgStopWords
    ensures KeptWords(["Reply", "Glacier"], MyStopWords, pkgStopWords) == ["glacier"]
  {
    ReplyCleans();
    GlacierCleans();
    ReplyListed();
    GlacierNotListed();
    TwoTokensKept("Reply", "Glacier", "reply", "glacier", MyStopWords, pkgStopWords);
  }

  lemma ReplyCleans()
    ensures CleanToken("Reply") == "reply"
  {
    CleansTo("Reply", "reply");
  }

  lemma GlacierCleans()
    ensures CleanToken("Glacier") == "glacier"
  {
    CleansTo("Glacier", "glacier");
  }

  /** A two-token input whose first token is a stop word and whose second is not. */
  lemma TwoTokensKept(t1: string, t2: string, w1: string, w2: string, myStopWords: seq<string>, pkgStopWords: seq<string>)
    requires CleanToken(t1) == w1 && IsStopWord(w1, myStopWords, pkgStopWords)
    requires CleanToken(t2) == w2 && !IsStopWord(w2, myStopWords, pkgStopWords)
    ensures KeptWords([t1, t2], myStopWords, pkgStopWords) == [w2]
  {
    assert [t1, t2][..1] == [t1];
    assert [t1][..0] == [];
  }

  /** A one-token input whose cleaned form is known. */
  lemma SingleTokenKept(token: string, word: string, myStopWords: seq<string>, pkgStopWords: seq<string>)
    requires CleanToken(token) == word
    ensures KeptWords([token], myStopWords, pkgStopWords) ==
            if IsStopWord(word, myStopWords, pkgStopWords) then [] else [word]
  {
    assert [token][..0] == [];
  }

  lemma CleansTo(token: string, word: string)
    requires forall c :: c in word ==> PlainChar(c) && !IsAsciiUpper(c)
    requires Lower(token) == word
    ensures CleanToken(token) == word
  {
    CleanWordKeepsPlain(word);
  }

  /** The fused entry "we're|" means the token "we're" is not filtered. */
  lemma WereIsKept(pkgStopWords: seq<string>)
    requires "we're" !in pkgStopWords
    ensures KeptWords(["We're"], MyStopWords, pkgStopWords) == ["we're"]
  {
    CleansTo("We're", "we're");
    SingleTokenKept("We're", "we're", MyStopWords, pkgStopWords);
    WereNotListed();
  }
}
