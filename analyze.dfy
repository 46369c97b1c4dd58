/** The text pipeline of the tweet analyser: the abridged text of a tweet is split into words,
    cleaned of punctuation at both ends and of links, hashtags and mentions, optionally
    lower-cased, stripped of stop words and cut into n-grams, which the counting and salience
    algorithms then score. */
module Analyze {
  import opened Errors
  import opened Builtins
  import opened Ranking
  import opened BasicAlgorithms

  datatype Option<T> = None | Some(value: T)

  /** The characters of Unicode category P other than '#', '@' and '&', as far as the first 256
      code points go, together with the space that separates them in the source's string. */
  const PUNCTUATION: set<char> := {
    ' ', '!', '"', '%', '\'', '(', ')', '*', ',', '-', '.', '/', ':', ';', '?', '[', '\\', ']',
    '_', '{', '}', '\U{A1}', '\U{A7}', '\U{AB}', '\U{B6}', '\U{B7}', '\U{BB}', '\U{BF}'
  }

  /** Words ignored by the counting analyses. */
  const STOP_WORDS: seq<string> := [
    "a", "an", "the", "this", "that", "of", "for", "or", "and", "on", "to", "be", "if", "we",
    "you", "in", "is", "at", "it", "rt", "mt", "with"
  ]

  /** A word starting with one of these is a mention, a hashtag, a link or an escaped ampersand. */
  const STOP_PREFIXES: seq<string> := ["@", "#", "http", "&amp"]

  predicate HasStopPrefix(w: string) {
    exists i :: 0 <= i < |STOP_PREFIXES| && STOP_PREFIXES[i] <= w
  }

  // ---------------------------------------------------------------- list_clean_words

  /** The number of punctuation characters at the front of w. */
  function LeadingPunctuation(w: string): (k: nat)
    ensures k <= |w|
  {
    if w == [] || w[0] !in PUNCTUATION then 0 else 1 + LeadingPunctuation(w[1..])
  }

  /** The number of punctuation characters at the back of w. */
  function TrailingPunctuation(w: string): (k: nat)
    ensures k <= |w|
  {
    if w == [] || w[|w| - 1] !in PUNCTUATION then 0 else 1 + TrailingPunctuation(w[..|w| - 1])
  }

  /** The leading run is all punctuation and stops at the first other character. */
  lemma {:induction false} LeadingPunctuationRun(w: string)
    ensures forall j :: 0 <= j < LeadingPunctuation(w) ==> w[j] in PUNCTUATION
    ensures LeadingPunctuation(w) < |w| ==> w[LeadingPunctuation(w)] !in PUNCTUATION
  {
    if w != [] && w[0] in PUNCTUATION {
      LeadingPunctuationRun(w[1..]);
    }
  }

  /** The trailing run is all punctuation and stops at the last other character. */
  lemma {:induction false} TrailingPunctuationRun(w: string)
    ensures forall j :: |w| - TrailingPunctuation(w) <= j < |w| ==> w[j] in PUNCTUATION
    ensures TrailingPunctuation(w) < |w| ==> w[|w| - 1 - TrailingPunctuation(w)] !in PUNCTUATION
  {
    if w != [] && w[|w| - 1] in PUNCTUATION {
      TrailingPunctuationRun(w[..|w| - 1]);
    }
  }

  /** A run of punctuation that ends at the first other character is the leading run. */
  lemma LeadingPunctuationUnique(w: string, k: nat)
    requires k <= |w|
    requires forall j :: 0 <= j < k ==> w[j] in PUNCTUATION
    requires k < |w| ==> w[k] !in PUNCTUATION
    ensures k == LeadingPunctuation(w)
  {
    LeadingPunctuationRun(w);
  }

  /** A run of punctuation that ends at the last other character is the trailing run. */
  lemma TrailingPunctuationUnique(w: string, k: nat)
    requires k <= |w|
    requires forall j :: |w| - k <= j < |w| ==> w[j] in PUNCTUATION
    requires k < |w| ==> w[|w| - 1 - k] !in PUNCTUATION
    ensures k == TrailingPunctuation(w)
  {
    TrailingPunctuationRun(w);
  }

  /** w with its leading, then its trailing punctuation removed. */
  function Strip(w: string): string {
    var s := w[LeadingPunctuation(w)..];
    s[..|s| - TrailingPunctuation(s)]
  }

  /** What the loop body of list_clean_words keeps of one split word, if anything. */
  function CleanWord(w: string): Option<string> {
    if w == [] || HasStopPrefix(w) then None
    else
      var t := Strip(w);
      if t != [] && !HasStopPrefix(t) then Some(t) else None
  }

  function Kept(w: string): seq<string> {
    match CleanWord(w)
    case None => []
    case Some(t) => [t]
  }

  /** The cleaned words of a list of split words, in order. */
  function CleanAll(ws: seq<string>): seq<string> {
    if ws == [] then [] else CleanAll(ws[..|ws| - 1]) + Kept(ws[|ws| - 1])
  }

  /** What list_clean_words returns for an abridged text. */
  function CleanWords(text: string): seq<string> {
    CleanAll(Split(text))
  }

  lemma CleanAllSnoc(ws: seq<string>, i: nat)
    requires i < |ws|
    ensures CleanAll(ws[..i + 1]) == CleanAll(ws[..i]) + Kept(ws[i])
  {
    assert ws[..i + 1][..i] == ws[..i];
  }

  /** The loop of list_clean_words that drops leading punctuation. */
  method DropLeadingPunctuation(w: string) returns (word: string)
    ensures word == w[LeadingPunctuation(w)..]
  {
    word := w;
    ghost var lo := 0;
    while word != [] && word[0] in PUNCTUATION
      invariant lo <= |w| && word == w[lo..]
      invariant lo + LeadingPunctuation(word) == LeadingPunctuation(w)
      decreases |word|
    {
      word := word[1..];
      lo := lo + 1;
    }
  }

  /** The loop of list_clean_words that drops trailing punctuation. */
  method DropTrailingPunctuation(w: string) returns (word: string)
    ensures word == w[..|w| - TrailingPunctuation(w)]
  {
    word := w;
    ghost var cut := 0;
    while word != [] && word[|word| - 1] in PUNCTUATION
      invariant cut <= |w| && word == w[..|w| - cut]
      invariant cut + TrailingPunctuation(word) == TrailingPunctuation(w)
      decreases |word|
    {
      word := word[..|word| - 1];
      cut := cut + 1;
    }
  }

  method ListCleanWords(abridgedText: string) returns (cleanLst: seq<string>)
    ensures cleanLst == CleanWords(abridgedText)
  {
    var lst := Split(abridgedText);
    cleanLst := [];
    for i := 0 to |lst|
      invariant cleanLst == CleanAll(lst[..i])
    {
      CleanAllSnoc(lst, i);
      var word := lst[i];
      // ignore empty strings and links, hashtags and mentions
      if word == [] || HasStopPrefix(word) {
        assert Kept(lst[i]) == [];
        continue;
      }
      word := DropLeadingPunctuation(word);
      word := DropTrailingPunctuation(word);
      assert word == Strip(lst[i]);
      if word != [] && !HasStopPrefix(word) {
        cleanLst := cleanLst + [word];
      }
    }
    assert lst[..|lst|] == lst;
  }

  /** A word the cleaning lets through: not empty, free of whitespace, not starting with a stop
      prefix, and with no punctuation at either end. */
  ghost predicate IsCleanWord(t: string) {
    && t != []
    && NoWhitespace(t)
    && !HasStopPrefix(t)
    && t[0] !in PUNCTUATION
    && t[|t| - 1] !in PUNCTUATION
  }

  /** t occurs as a contiguous run of characters of w starting at lo. */
  ghost predicate InfixAt(t: string, w: string, lo: int) {
    0 <= lo && lo + |t| <= |w| && w[lo..lo + |t|] == t
  }

  /** The trailing run of a suffix w[lo..], read as positions of w. */
  lemma TrailingOfSuffix(w: string, lo: nat)
    requires lo <= |w|
    ensures var k := TrailingPunctuation(w[lo..]);
      && (forall j :: |w| - k <= j < |w| ==> w[j] in PUNCTUATION)
      && (k < |w| - lo ==> w[|w| - 1 - k] !in PUNCTUATION)
  {
    var s := w[lo..];
    TrailingPunctuationRun(s);
    var k := TrailingPunctuation(s);
    forall j | |w| - k <= j < |w| ensures w[j] in PUNCTUATION {
      assert w[j] == s[j - lo];
    }
    if k < |s| {
      assert w[|w| - 1 - k] == s[|s| - 1 - k];
    }
  }

  /** Stripping keeps the run w[lo..hi] between the punctuation at the front and at the back,
      and that run neither starts nor ends with punctuation. */
  lemma StripBounds(w: string)
    ensures var lo := LeadingPunctuation(w);
      var hi := lo + |Strip(w)|;
      && hi <= |w| && Strip(w) == w[lo..hi]
      && (forall j :: 0 <= j < lo ==> w[j] in PUNCTUATION)
      && (forall j :: hi <= j < |w| ==> w[j] in PUNCTUATION)
      && (Strip(w) != [] ==> w[lo] !in PUNCTUATION && w[hi - 1] !in PUNCTUATION)
  {
    var lo := LeadingPunctuation(w);
    var k := TrailingPunctuation(w[lo..]);
    assert Strip(w) == w[lo..][..|w| - lo - k];
    assert w[lo..][..|w| - lo - k] == w[lo..|w| - k];
    var hi := |w| - k;
    assert lo + |Strip(w)| == hi;
    LeadingPunctuationRun(w);
    TrailingOfSuffix(w, lo);
    if Strip(w) != [] {
      assert lo < hi;
      assert w[lo] !in PUNCTUATION;
      assert w[hi - 1] !in PUNCTUATION;
    }
  }

  /** A kept word is the split word with punctuation removed at both ends; neither it nor the
      split word starts with a stop prefix, and it has no punctuation at its ends. */
  lemma CleanWordShape(w: string)
    requires CleanWord(w).Some?
    ensures !HasStopPrefix(w)
    ensures var t, lo := CleanWord(w).value, LeadingPunctuation(w);
      && InfixAt(t, w, lo)
      && (forall j :: 0 <= j < lo ==> w[j] in PUNCTUATION)
      && (forall j :: lo + |t| <= j < |w| ==> w[j] in PUNCTUATION)
      && t != [] && !HasStopPrefix(t) && t[0] !in PUNCTUATION && t[|t| - 1] !in PUNCTUATION
  {
    StripBounds(w);
    var t, lo := CleanWord(w).value, LeadingPunctuation(w);
    assert t == Strip(w) && t != [];
    assert t[0] == w[lo] && t[|t| - 1] == w[lo + |t| - 1];
  }

  /** A clean word comes out of the loop body unchanged. */
  lemma CleanWordOfClean(t: string)
    requires IsCleanWord(t)
    ensures CleanWord(t) == Some(t) && Kept(t) == [t]
  {
    LeadingPunctuationUnique(t, 0);
    TrailingPunctuationUnique(t, 0);
    assert LeadingPunctuation(t) == 0;
    assert t[0..] == t;
    assert TrailingPunctuation(t) == 0;
    assert t[..|t|] == t;
  }

  /** Cleaning distributes over concatenation of word lists. */
  lemma {:induction false} CleanAllAppend(a: seq<string>, b: seq<string>)
    ensures CleanAll(a + b) == CleanAll(a) + CleanAll(b)
    decreases |b|
  {
    if b == [] {
      assert a + b == a;
    } else {
      var b' := b[..|b| - 1];
      assert (a + b)[..|a + b| - 1] == a + b';
      CleanAllAppend(a, b');
    }
  }

  /** The indices of the split words whose cleaned forms make up CleanAll(ws). */
  ghost function Origins(ws: seq<string>): seq<nat> {
    if ws == [] then []
    else Origins(ws[..|ws| - 1]) + (if CleanWord(ws[|ws| - 1]).Some? then [|ws| - 1] else [])
  }

  /** Every cleaned word is an infix of its own split word, no split word yields two cleaned
      words, and the cleaned words keep the order of the split words they come from. */
  lemma {:induction false} CleanAllOrigins(ws: seq<string>)
    ensures |Origins(ws)| == |CleanAll(ws)| <= |ws|
    ensures forall i :: 0 <= i < |Origins(ws)| ==> Origins(ws)[i] < |ws|
    ensures forall i, j :: 0 <= i < j < |Origins(ws)| ==> Origins(ws)[i] < Origins(ws)[j]
    ensures forall i :: 0 <= i < |Origins(ws)| ==>
      CleanWord(ws[Origins(ws)[i]]) == Some(CleanAll(ws)[i])
  {
    if ws != [] {
      var prefix := ws[..|ws| - 1];
      CleanAllOrigins(prefix);
      var o, c := Origins(ws), CleanAll(ws);
      assert forall i :: 0 <= i < |prefix| ==> ws[i] == prefix[i];
      assert forall i :: 0 <= i < |Origins(prefix)| ==> o[i] == Origins(prefix)[i] && c[i] == CleanAll(prefix)[i];
    }
  }

  /** The words list_clean_words returns are clean, and each is an infix of a different split
      word of the text, in the order of those words. */
  lemma CleanWordsAreClean(text: string)
    ensures forall i :: 0 <= i < |CleanWords(text)| ==> IsCleanWord(CleanWords(text)[i])
    ensures |CleanWords(text)| <= |Split(text)|
  {
    var ws := Split(text);
    CleanAllOrigins(ws);
    forall i | 0 <= i < |CleanWords(text)| ensures IsCleanWord(CleanWords(text)[i]) {
      var w := ws[Origins(ws)[i]];
      CleanWordShape(w);
      var t := CleanWords(text)[i];
      forall j | 0 <= j < |t| ensures t[j] !in WHITESPACE {
        assert t[j] == w[LeadingPunctuation(w) + j];
      }
    }
  }

  /** A list of words each of which cleaning keeps as it is passes through unchanged. */
  lemma {:induction false} CleanAllKeepsAll(ws: seq<string>)
    requires forall i :: 0 <= i < |ws| ==> Kept(ws[i]) == [ws[i]]
    ensures CleanAll(ws) == ws
  {
    if ws != [] {
      var prefix, last := ws[..|ws| - 1], ws[|ws| - 1];
      assert forall i :: 0 <= i < |prefix| ==> prefix[i] == ws[i];
      CleanAllKeepsAll(prefix);
      assert ws == prefix + [last];
    }
  }

  /** Clean words pass through cleaning unchanged. */
  lemma CleanAllOfClean(ws: seq<string>)
    requires forall i :: 0 <= i < |ws| ==> IsCleanWord(ws[i])
    ensures CleanAll(ws) == ws
  {
    forall i | 0 <= i < |ws| ensures Kept(ws[i]) == [ws[i]] {
      CleanWordOfClean(ws[i]);
    }
    CleanAllKeepsAll(ws);
  }

  /** Cleaning the space-joined output of list_clean_words gives that output back. */
  lemma CleanWordsIdempotent(text: string)
    ensures CleanWords(JoinSpace(CleanWords(text))) == CleanWords(text)
  {
    var ws := CleanWords(text);
    CleanWordsAreClean(text);
    SplitJoinSpace(ws);
    CleanAllOfClean(ws);
  }
  // ---------------------------------------------------------------- convert_case

  /** Each word lower-cased. */
  function LowerAll(ws: seq<string>): seq<string> {
    seq(|ws|, i requires 0 <= i < |ws| => Lower(ws[i]))
  }

  method ConvertCase(lst: seq<string>) returns (lowerLst: seq<string>)
    ensures lowerLst == LowerAll(lst)
  {
    lowerLst := [];
    for i := 0 to |lst|
      invariant |lowerLst| == i
      invariant forall j :: 0 <= j < i ==> lowerLst[j] == Lower(lst[j])
    {
      lowerLst := lowerLst + [Lower(lst[i])];
    }
    assert lowerLst == LowerAll(lst);
  }

  /** Lower-casing a lower-cased list changes nothing, and lower-casing commutes with joining
      lists. */
  lemma LowerAllProperties(a: seq<string>, b: seq<string>)
    ensures LowerAll(LowerAll(a)) == LowerAll(a)
    ensures LowerAll(a + b) == LowerAll(a) + LowerAll(b)
  {
    forall i | 0 <= i < |a| ensures LowerAll(LowerAll(a))[i] == LowerAll(a)[i] {
      LowerIdempotent(a[i]);
    }
  }

  // ---------------------------------------------------------------- eliminate_stop_words

  /** The words of ws that are not stop words, in order. */
  function WithoutStopWords(ws: seq<string>): (r: seq<string>)
    ensures |r| <= |ws|
    ensures forall w :: w in r ==> w !in STOP_WORDS
  {
    if ws == [] then []
    else
      var last := ws[|ws| - 1];
      WithoutStopWords(ws[..|ws| - 1]) + (if last in STOP_WORDS then [] else [last])
  }

  method EliminateStopWords(lst: seq<string>) returns (removedLst: seq<string>)
    ensures removedLst == WithoutStopWords(lst)
  {
    removedLst := [];
    for i := 0 to |lst|
      invariant removedLst == WithoutStopWords(lst[..i])
    {
      assert lst[..i + 1][..i] == lst[..i];
      if lst[i] !in STOP_WORDS {
        removedLst := removedLst + [lst[i]];
      }
    }
    assert lst[..|lst|] == lst;
  }

  /** Removing stop words distributes over concatenation. */
  lemma {:induction false} WithoutStopWordsAppend(a: seq<string>, b: seq<string>)
    ensures WithoutStopWords(a + b) == WithoutStopWords(a) + WithoutStopWords(b)
    decreases |b|
  {
    if b == [] {
      assert a + b == a;
    } else {
      var b' := b[..|b| - 1];
      assert (a + b)[..|a + b| - 1] == a + b';
      WithoutStopWordsAppend(a, b');
    }
  }

  /** Every word that is not a stop word is kept as often as it occurs; stop words are gone. */
  lemma {:induction false} WithoutStopWordsCount(ws: seq<string>, w: string)
    ensures multiset(WithoutStopWords(ws))[w] == if w in STOP_WORDS then 0 else multiset(ws)[w]
  {
    if ws != [] {
      var prefix, last := ws[..|ws| - 1], ws[|ws| - 1];
      WithoutStopWordsCount(prefix, w);
      assert ws == prefix + [last];
      var kept := if last in STOP_WORDS then [] else [last];
      assert WithoutStopWords(ws) == WithoutStopWords(prefix) + kept;
      assert multiset(WithoutStopWords(ws))[w] == multiset(WithoutStopWords(prefix))[w] + multiset(kept)[w];
      assert multiset(ws)[w] == multiset(prefix)[w] + multiset([last])[w];
    }
  }

  lemma WithoutStopWordsMultiset(ws: seq<string>)
    ensures forall w :: w !in STOP_WORDS ==> multiset(WithoutStopWords(ws))[w] == multiset(ws)[w]
    ensures forall w :: w in STOP_WORDS ==> multiset(WithoutStopWords(ws))[w] == 0
  {
    forall w ensures multiset(WithoutStopWords(ws))[w] == if w in STOP_WORDS then 0 else multiset(ws)[w] {
      WithoutStopWordsCount(ws, w);
    }
  }

  /** A list without stop words is left unchanged; in particular the filter is idempotent. */
  lemma {:induction false} WithoutStopWordsOfClean(ws: seq<string>)
    requires forall i :: 0 <= i < |ws| ==> ws[i] !in STOP_WORDS
    ensures WithoutStopWords(ws) == ws
  {
    if ws != [] {
      WithoutStopWordsOfClean(ws[..|ws| - 1]);
    }
  }

  // ---------------------------------------------------------------- find_ngram

  /** The number of windows of range(len(lst) - n + 1). */
  function WindowCount(len: nat, n: int): nat {
    if len - n + 1 > 0 then len - n + 1 else 0
  }

  /** The slices lst[i:i+n] for i in range(len(lst) - n + 1). */
  function NGrams(lst: seq<string>, n: int): seq<Token> {
    seq(WindowCount(|lst|, n), i requires 0 <= i < WindowCount(|lst|, n) => Slice(lst, i, i + n))
  }

  method FindNgram(lst: seq<string>, n: int) returns (ngram: seq<Token>)
    ensures ngram == NGrams(lst, n)
  {
    ngram := [];
    var i := 0;
    while i < |lst| - n + 1
      invariant 0 <= i <= WindowCount(|lst|, n)
      invariant ngram == NGrams(lst, n)[..i]
    {
      ngram := ngram + [Slice(lst, i, i + n)];
      i := i + 1;
    }
  }

  /** For n >= 1 there are max(0, len(lst) - n + 1) windows, so none when the list is shorter
      than n, and window i is the run lst[i..i+n] of n consecutive words. */
  lemma NGramsWindows(lst: seq<string>, n: int)
    requires n >= 1
    ensures |NGrams(lst, n)| == if |lst| >= n then |lst| - n + 1 else 0
    ensures forall i :: 0 <= i < |NGrams(lst, n)| ==>
      |NGrams(lst, n)[i]| == n && NGrams(lst, n)[i] == lst[i..i + n]
  {
    var g := NGrams(lst, n);
    forall i | 0 <= i < |g| ensures g[i] == lst[i..i + n] {
      assert i + n <= |lst|;
      assert g[i] == Slice(lst, i, i + n);
    }
  }

  /** Consecutive windows overlap in n - 1 words. */
  lemma NGramsOverlap(lst: seq<string>, n: int)
    requires n >= 1
    ensures forall i :: 1 <= i < |NGrams(lst, n)| ==>
      |NGrams(lst, n)[i - 1]| == |NGrams(lst, n)[i]| == n &&
      NGrams(lst, n)[i - 1][1..] == NGrams(lst, n)[i][..n - 1]
  {
    NGramsWindows(lst, n);
    var g := NGrams(lst, n);
    forall i | 1 <= i < |g|
      ensures |g[i - 1]| == |g[i]| == n && g[i - 1][1..] == g[i][..n - 1]
    {
      assert g[i - 1] == lst[i - 1..i - 1 + n] && g[i] == lst[i..i + n];
      assert g[i - 1][1..] == lst[i..i - 1 + n];
    }
  }

  /** For n = 0 the loop runs len(lst) + 1 times and every window is empty. */
  lemma NGramsOfZero(lst: seq<string>)
    ensures |NGrams(lst, 0)| == |lst| + 1
    ensures forall i :: 0 <= i < |NGrams(lst, 0)| ==> NGrams(lst, 0)[i] == []
  {
  }

  /** The 1-grams of a list are its words, one per window. */
  lemma UnigramsAreWords(lst: seq<string>)
    ensures |NGrams(lst, 1)| == |lst|
    ensures forall i :: 0 <= i < |lst| ==> NGrams(lst, 1)[i] == [lst[i]]
  {
    NGramsWindows(lst, 1);
  }

  // ---------------------------------------------------------------- the per-tweet analyses

  /** A tweet, reduced to the one field the analyses read. */
  datatype Tweet = Tweet(abridged_text: string)

  /** The cleaned words of a tweet, lower-cased unless the analysis is case sensitive. */
  function TweetWords(tweet: Tweet, caseSensitive: bool): seq<string> {
    var clean := CleanWords(tweet.abridged_text);
    if caseSensitive then clean else LowerAll(clean)
  }

  /** The words the counting analyses cut into n-grams: stop words go after lower-casing. */
  function CountedWords(tweet: Tweet, caseSensitive: bool): seq<string> {
    WithoutStopWords(TweetWords(tweet, caseSensitive))
  }

  /** The n-grams of every tweet, one tweet after another, as the counting analyses gather them. */
  ghost function AllNGrams(tweets: seq<Tweet>, n: int, caseSensitive: bool): seq<Token> {
    if tweets == [] then []
    else
      AllNGrams(tweets[..|tweets| - 1], n, caseSensitive)
        + NGrams(CountedWords(tweets[|tweets| - 1], caseSensitive), n)
  }

  /** The list of per-tweet n-gram lists that find_salient_ngrams scores; stop words stay. */
  ghost function TweetNGrams(tweets: seq<Tweet>, n: int, caseSensitive: bool): seq<seq<Token>> {
    seq(|tweets|, i requires 0 <= i < |tweets| => NGrams(TweetWords(tweets[i], caseSensitive), n))
  }

  method FindTopKNgrams(tweets: seq<Tweet>, n: int, caseSensitive: bool, k: int) returns (r: Result<seq<Token>>)
    ensures k < 0 ==> r == Err(ValueError)
    ensures k >= 0 ==> r == Ok(TopK(AllNGrams(tweets, n, caseSensitive), k))
  {
    var ngram: seq<Token> := [];
    for i := 0 to |tweets|
      invariant ngram == AllNGrams(tweets[..i], n, caseSensitive)
    {
      assert tweets[..i + 1][..i] == tweets[..i];
      var abridgedText := tweets[i].abridged_text;
      var cleanLst;
      if caseSensitive {
        var words := ListCleanWords(abridgedText);
        cleanLst := EliminateStopWords(words);
      } else {
        var words := ListCleanWords(abridgedText);
        var lower := ConvertCase(words);
        cleanLst := EliminateStopWords(lower);
      }
      var tweetNgrams := FindNgram(cleanLst, n);
      ngram := ngram + tweetNgrams;
    }
    assert tweets[..|tweets|] == tweets;
    r := FindTopK(ngram, k);
  }

  method FindMinCountNgrams(tweets: seq<Tweet>, n: int, caseSensitive: bool, minCount: int)
    returns (r: Result<set<Token>>)
    ensures minCount < 0 ==> r == Err(ValueError)
    ensures minCount >= 0 ==> r == Ok(MinCount(AllNGrams(tweets, n, caseSensitive), minCount))
  {
    var ngram: seq<Token> := [];
    for i := 0 to |tweets|
      invariant ngram == AllNGrams(tweets[..i], n, caseSensitive)
    {
      assert tweets[..i + 1][..i] == tweets[..i];
      var abridgedText := tweets[i].abridged_text;
      var cleanLst;
      if caseSensitive {
        var words := ListCleanWords(abridgedText);
        cleanLst := EliminateStopWords(words);
      } else {
        var words := ListCleanWords(abridgedText);
        var lower := ConvertCase(words);
        cleanLst := EliminateStopWords(lower);
      }
      var tweetNgrams := FindNgram(cleanLst, n);
      ngram := ngram + tweetNgrams;
    }
    assert tweets[..|tweets|] == tweets;
    r := FindMinCount(ngram, minCount);
  }

  lemma TweetNGramsSnoc(tweets: seq<Tweet>, n: int, caseSensitive: bool, i: nat)
    requires i < |tweets|
    ensures TweetNGrams(tweets[..i + 1], n, caseSensitive) ==
      TweetNGrams(tweets[..i], n, caseSensitive) + [NGrams(TweetWords(tweets[i], caseSensitive), n)]
  {
    assert tweets[..i + 1][..i] == tweets[..i];
  }

  method FindSalientNgrams(tweets: seq<Tweet>, n: int, caseSensitive: bool, threshold: real, ln: real -> real)
    returns (r: Result<seq<set<Token>>>)
    ensures tweets == [] ==> r == Err(UnboundLocalError)
    ensures tweets != [] ==> r == Ok(Salient(TweetNGrams(tweets, n, caseSensitive), threshold, ln))
  {
    var ngram: seq<seq<Token>> := [];
    var lst: Option<seq<set<Token>>> := None;
    for i := 0 to |tweets|
      invariant ngram == TweetNGrams(tweets[..i], n, caseSensitive)
      invariant i == 0 <==> lst == None
      invariant i > 0 ==> lst == Some(Salient(ngram, threshold, ln))
    {
      var abridgedText := tweets[i].abridged_text;
      var cleanLst;
      if caseSensitive {
        cleanLst := ListCleanWords(abridgedText);
      } else {
        var words := ListCleanWords(abridgedText);
        cleanLst := ConvertCase(words);
      }
      var tweetNgrams := FindNgram(cleanLst, n);
      TweetNGramsSnoc(tweets, n, caseSensitive, i);
      ngram := ngram + [tweetNgrams];
      // find_salient is called on the n-grams gathered so far, in every iteration
      var salient := FindSalient(ngram, threshold, ln);
      lst := Some(salient);
    }
    assert tweets[..|tweets|] == tweets;
    if lst == None {
      // the return statement reads lst, which no iteration has bound
      return Err(UnboundLocalError);
    }
    return Ok(lst.value);
  }
  /** Gathering the n-grams of two runs of tweets gives the n-grams of each run, joined. */
  lemma {:induction false} AllNGramsAppend(a: seq<Tweet>, b: seq<Tweet>, n: int, caseSensitive: bool)
    ensures AllNGrams(a + b, n, caseSensitive) == AllNGrams(a, n, caseSensitive) + AllNGrams(b, n, caseSensitive)
    decreases |b|
  {
    if b == [] {
      assert a + b == a;
    } else {
      var b' := b[..|b| - 1];
      assert (a + b)[..|a + b| - 1] == a + b';
      AllNGramsAppend(a, b', n, caseSensitive);
    }
  }

  /** An n-gram is counted exactly when it is an n-gram of the counted words of one tweet: no
      window spans two tweets. */
  lemma {:induction false} AllNGramsWithinTweets(tweets: seq<Tweet>, n: int, caseSensitive: bool)
    ensures forall g :: g in AllNGrams(tweets, n, caseSensitive) <==>
      exists i :: 0 <= i < |tweets| && g in NGrams(CountedWords(tweets[i], caseSensitive), n)
  {
    if tweets != [] {
      var prefix := tweets[..|tweets| - 1];
      AllNGramsWithinTweets(prefix, n, caseSensitive);
      assert forall i :: 0 <= i < |prefix| ==> prefix[i] == tweets[i];
    }
  }

  /** Lower-casing neither creates nor removes punctuation. */
  lemma LowerCharPunctuation(c: char)
    ensures LowerChar(c) in PUNCTUATION <==> c in PUNCTUATION
  {
  }

  /** The cleaned words of a tweet stay non-empty and free of punctuation at their ends when
      lower-cased, and on the case insensitive path they are lower-case. */
  lemma TweetWordsShape(tweet: Tweet, caseSensitive: bool)
    ensures forall i :: 0 <= i < |TweetWords(tweet, caseSensitive)| ==>
      var w := TweetWords(tweet, caseSensitive)[i];
      && w != [] && w[0] !in PUNCTUATION && w[|w| - 1] !in PUNCTUATION
      && (!caseSensitive ==> Lower(w) == w)
  {
    var clean := CleanWords(tweet.abridged_text);
    var words := TweetWords(tweet, caseSensitive);
    CleanWordsAreClean(tweet.abridged_text);
    forall i | 0 <= i < |words|
      ensures words[i] != [] && words[i][0] !in PUNCTUATION && words[i][|words[i]| - 1] !in PUNCTUATION
      ensures !caseSensitive ==> Lower(words[i]) == words[i]
    {
      var t := clean[i];
      assert IsCleanWord(t);
      if !caseSensitive {
        LowerCharPunctuation(t[0]);
        LowerCharPunctuation(t[|t| - 1]);
        LowerIdempotent(t);
      }
    }
  }

  /** The filter keeps only words of its input. */
  lemma {:induction false} WithoutStopWordsMembers(ws: seq<string>)
    ensures forall w :: w in WithoutStopWords(ws) ==> w in ws
  {
    if ws != [] {
      WithoutStopWordsMembers(ws[..|ws| - 1]);
      assert forall w :: w in ws[..|ws| - 1] ==> w in ws;
    }
  }

  /** The words the counting analyses use are among the cleaned, possibly lower-cased words of
      the tweet, have no punctuation at either end and are not stop words; on the case
      insensitive path they are lower-case, so a capitalised stop word is removed as well. */
  lemma CountedWordsProperties(tweet: Tweet, caseSensitive: bool)
    ensures forall w :: w in CountedWords(tweet, caseSensitive) ==>
      && w in TweetWords(tweet, caseSensitive)
      && w != [] && w[0] !in PUNCTUATION && w[|w| - 1] !in PUNCTUATION
      && w !in STOP_WORDS
      && (!caseSensitive ==> Lower(w) == w && Lower(w) !in STOP_WORDS)
  {
    var words := TweetWords(tweet, caseSensitive);
    var counted := CountedWords(tweet, caseSensitive);
    TweetWordsShape(tweet, caseSensitive);
    WithoutStopWordsMembers(words);
    forall w | w in counted
      ensures w in words && w != [] && w[0] !in PUNCTUATION && w[|w| - 1] !in PUNCTUATION
      ensures w !in STOP_WORDS
      ensures !caseSensitive ==> Lower(w) == w
    {
      var i :| 0 <= i < |words| && words[i] == w;
    }
  }

  /** For n >= 1 an n-gram of a list has n words, all taken from the list. */
  lemma NGramWords(words: seq<string>, n: int, g: Token)
    requires n >= 1 && g in NGrams(words, n)
    ensures |g| == n && forall j :: 0 <= j < n ==> g[j] in words
  {
    NGramsWindows(words, n);
    var k :| 0 <= k < |NGrams(words, n)| && NGrams(words, n)[k] == g;
    forall j | 0 <= j < n ensures g[j] in words {
      assert g[j] == words[k + j];
    }
  }

  /** For n >= 1 every counted n-gram has n words, none of them a stop word. */
  lemma CountedNGramsShape(tweets: seq<Tweet>, n: int, caseSensitive: bool)
    requires n >= 1
    ensures forall g :: g in AllNGrams(tweets, n, caseSensitive) ==>
      |g| == n && forall j :: 0 <= j < n ==> g[j] !in STOP_WORDS
  {
    AllNGramsWithinTweets(tweets, n, caseSensitive);
    forall g | g in AllNGrams(tweets, n, caseSensitive)
      ensures |g| == n && forall j :: 0 <= j < n ==> g[j] !in STOP_WORDS
    {
      var i :| 0 <= i < |tweets| && g in NGrams(CountedWords(tweets[i], caseSensitive), n);
      NGramWords(CountedWords(tweets[i], caseSensitive), n, g);
    }
  }

  /** find_salient_ngrams gives one salient set per tweet, each made of n-grams of that tweet,
      and a higher threshold never makes a set larger. */
  lemma SalientNGramsPerTweet(tweets: seq<Tweet>, n: int, caseSensitive: bool, low: real, high: real, ln: real -> real)
    requires low <= high
    ensures var docs := TweetNGrams(tweets, n, caseSensitive);
      && |Salient(docs, high, ln)| == |tweets|
      && forall i :: 0 <= i < |tweets| ==>
        && Salient(docs, high, ln)[i] <= Salient(docs, low, ln)[i]
        && Salient(docs, low, ln)[i] <= Elems(NGrams(TweetWords(tweets[i], caseSensitive), n))
  {
    var docs := TweetNGrams(tweets, n, caseSensitive);
    forall i | 0 <= i < |tweets|
      ensures Salient(docs, high, ln)[i] <= Salient(docs, low, ln)[i]
      ensures Salient(docs, low, ln)[i] <= Elems(NGrams(TweetWords(tweets[i], caseSensitive), n))
    {
      SalientOneMonotone(docs[i], Idf(docs, ln), low, high);
    }
  }
}
