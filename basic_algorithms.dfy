/** The token toolkit of basic_algorithms.py: counting, top-k ranking, minimum-count filtering
    and tf-idf salience over lists of tokens. A Python dictionary whose key order matters is
    modelled by its keys in insertion order beside a map; the other dictionaries are maps
    whose keys the loops visit in an unspecified order. */
module BasicAlgorithms {
  import opened Errors
  import opened Builtins
  import opened Ranking

  ghost predicate Distinct<T>(s: seq<T>) {
    forall i, j :: 0 <= i < j < |s| ==> s[i] != s[j]
  }

  function Min(a: int, b: int): int { if a < b then a else b }

  /** A list without repetitions holds no element more than once, and conversely. */
  lemma {:induction false} DistinctMultiplicity<T>(s: seq<T>)
    ensures Distinct(s) <==> forall x :: multiset(s)[x] <= 1
  {
    if Distinct(s) {
      forall x ensures multiset(s)[x] <= 1 {
        DistinctOnce(s, x);
      }
    }
    if !Distinct(s) {
      var i, j :| 0 <= i < j < |s| && s[i] == s[j];
      assert s == s[..j] + [s[j]] + s[j + 1..];
      assert s[i] in s[..j];
      assert multiset(s)[s[j]] >= multiset(s[..j])[s[j]] + 1;
    }
  }

  lemma {:induction false} DistinctOnce<T>(s: seq<T>, x: T)
    requires Distinct(s)
    ensures multiset(s)[x] <= 1
  {
    if s != [] {
      var p := s[..|s| - 1];
      assert s == p + [s[|s| - 1]];
      DistinctOnce(p, x);
      if x == s[|s| - 1] {
        assert x !in p;
      }
    }
  }

  /** The number of distinct elements of a list without repetitions is its length. */
  lemma {:induction false} DistinctCardinality<T>(s: seq<T>)
    requires Distinct(s)
    ensures |set x | x in s| == |s|
  {
    if s != [] {
      var p, last := s[..|s| - 1], s[|s| - 1];
      assert s == p + [last];
      assert (set x | x in s) == (set x | x in p) + {last};
      assert last !in p;
      DistinctCardinality(p);
    }
  }

  // ---------------------------------------------------------------- count_tokens

  /** Number of occurrences of t in tokens. */
  ghost function Count(tokens: seq<Token>, t: Token): nat {
    multiset(tokens)[t]
  }

  /** The count dictionary's contents: each distinct token mapped to its occurrences. */
  ghost function Counts(tokens: seq<Token>): map<Token, nat> {
    map t | t in tokens :: Count(tokens, t)
  }

  /** The distinct tokens in order of first occurrence: the key order of a dictionary filled
      from tokens left to right. */
  ghost function FirstOccurrences(tokens: seq<Token>): (keys: seq<Token>)
    ensures forall t :: t in keys <==> t in tokens
    ensures Distinct(keys)
  {
    if tokens == [] then []
    else
      var prefix, last := tokens[..|tokens| - 1], tokens[|tokens| - 1];
      assert tokens == prefix + [last];
      var keys := FirstOccurrences(prefix);
      if last in keys then keys else keys + [last]
  }

  lemma FirstOccurrencesSnoc(s: seq<Token>, x: Token)
    ensures FirstOccurrences(s + [x]) == if x in s then FirstOccurrences(s) else FirstOccurrences(s) + [x]
  {
    assert (s + [x])[..|s|] == s;
  }

  /** Sum of the values of a count dictionary. */
  ghost function Total(m: map<Token, nat>): nat
    decreases |m|
  {
    if m == map[] then 0
    else
      var t :| t in m;
      assert |m - {t}| < |m| by { assert (m - {t}).Keys == m.Keys - {t}; }
      m[t] + Total(m - {t})
  }

  /** Total may take the keys in any order. */
  lemma {:induction false} TotalWithout(m: map<Token, nat>, t: Token)
    requires t in m
    ensures Total(m) == m[t] + Total(m - {t})
    decreases |m|
  {
    var u :| u in m && Total(m) == m[u] + Total(m - {u});
    if u != t {
      assert (m - {u}).Keys == m.Keys - {u};
      assert (m - {t}).Keys == m.Keys - {t};
      assert (m - {u}) - {t} == (m - {t}) - {u};
      TotalWithout(m - {u}, t);
      TotalWithout(m - {t}, u);
    }
  }

  /** Appending a token raises its count by one and leaves the others alone. */
  lemma CountsSnoc(s: seq<Token>, x: Token)
    ensures Counts(s + [x]) == Counts(s)[x := Count(s, x) + 1]
  {
    var m, m' := Counts(s), Counts(s + [x]);
    assert multiset(s + [x]) == multiset(s) + multiset{x};
    assert forall t :: t in s + [x] <==> t in s || t == x;
    assert m'.Keys == m.Keys + {x};
  }

  /** The count dictionary has exactly the distinct tokens as keys, every count is at least
      one, and the counts add up to the number of tokens. */
  lemma {:induction false} CountsTotal(tokens: seq<Token>)
    ensures forall t :: t in Counts(tokens) <==> t in tokens
    ensures forall t :: t in Counts(tokens) ==> Counts(tokens)[t] >= 1
    ensures Total(Counts(tokens)) == |tokens|
  {
    if tokens != [] {
      var s, x := tokens[..|tokens| - 1], tokens[|tokens| - 1];
      assert tokens == s + [x];
      CountsTotal(s);
      CountsSnoc(s, x);
      var m, m' := Counts(s), Counts(tokens);
      TotalWithout(m', x);
      assert m' - {x} == m - {x};
      if x in m {
        TotalWithout(m, x);
      } else {
        assert m - {x} == m;
      }
    }
  }

  /** The number of keys of the count dictionary is the number of distinct tokens. */
  lemma CountsSize(tokens: seq<Token>)
    ensures |Counts(tokens)| == |FirstOccurrences(tokens)|
  {
    var keys := FirstOccurrences(tokens);
    DistinctCardinality(keys);
    assert Counts(tokens).Keys == set t | t in keys;
  }

  /** One step of count_tokens: the next token is new, or its count goes up by one. */
  lemma CountStep(tokens: seq<Token>, i: nat)
    requires i < |tokens|
    ensures var prefix, token := tokens[..i], tokens[i];
      && (token in Counts(prefix) <==> token in FirstOccurrences(prefix))
      && (token !in Counts(prefix) ==>
            Counts(tokens[..i + 1]) == Counts(prefix)[token := 1] &&
            FirstOccurrences(tokens[..i + 1]) == FirstOccurrences(prefix) + [token])
      && (token in Counts(prefix) ==>
            Counts(tokens[..i + 1]) == Counts(prefix)[token := Counts(prefix)[token] + 1] &&
            FirstOccurrences(tokens[..i + 1]) == FirstOccurrences(prefix))
  {
    var prefix, token := tokens[..i], tokens[i];
    assert tokens[..i + 1] == prefix + [token];
    CountsSnoc(prefix, token);
    FirstOccurrencesSnoc(prefix, token);
  }

  /** count_tokens: the dictionary is returned as its keys in insertion order and its
      contents. */
  method CountTokens(tokens: seq<Token>) returns (keys: seq<Token>, counts: map<Token, nat>)
    ensures counts == Counts(tokens)
    ensures keys == FirstOccurrences(tokens)
  {
    keys, counts := [], map[];
    for i := 0 to |tokens|
      invariant counts == Counts(tokens[..i])
      invariant keys == FirstOccurrences(tokens[..i])
    {
      var token := tokens[i];
      CountStep(tokens, i);
      if token !in counts {
        counts := counts[token := 1];
        keys := keys + [token];
      } else {
        counts := counts[token := counts[token] + 1];
      }
    }
    assert tokens[..|tokens|] == tokens;
  }

  // ---------------------------------------------------------------- find_top_k

  /** A token with its count in tokens. */
  ghost function Scored(tokens: seq<Token>, t: Token): Pair {
    (t, Count(tokens, t))
  }

  /** count_tokens(tokens).items() in the dictionary's order. */
  ghost function Items(tokens: seq<Token>): seq<Pair> {
    var keys := FirstOccurrences(tokens);
    seq(|keys|, i requires 0 <= i < |keys| => Scored(tokens, keys[i]))
  }

  lemma ItemsAt(tokens: seq<Token>, i: nat)
    requires i < |FirstOccurrences(tokens)|
    ensures |Items(tokens)| == |FirstOccurrences(tokens)|
    ensures var t := FirstOccurrences(tokens)[i]; t in Counts(tokens) && Items(tokens)[i] == (t, Counts(tokens)[t])
  {
  }

  /** The tokens of a list of pairs. */
  function TokensOf(pairs: seq<Pair>): seq<Token> {
    seq(|pairs|, i requires 0 <= i < |pairs| => pairs[i].0)
  }

  /** What find_top_k returns for a non-negative k. */
  ghost function TopK(tokens: seq<Token>, k: nat): seq<Token> {
    TokensOf(Slice(SortCountPairs(Items(tokens)), 0, k))
  }

  lemma ItemsSnoc(tokens: seq<Token>, keys: seq<Token>, counts: map<Token, nat>, i: nat)
    requires keys == FirstOccurrences(tokens) && counts == Counts(tokens) && i < |keys|
    ensures keys[i] in counts && |Items(tokens)| == |keys|
    ensures Items(tokens)[..i + 1] == Items(tokens)[..i] + [(keys[i], counts[keys[i]])]
  {
    ItemsAt(tokens, i);
    var items := Items(tokens);
    assert items[..i + 1] == items[..i] + [items[i]];
  }

  lemma TokensOfSnoc(pairs: seq<Pair>, i: nat)
    requires i < |pairs|
    ensures TokensOf(pairs[..i + 1]) == TokensOf(pairs[..i]) + [pairs[i].0]
  {
    assert pairs[..i + 1] == pairs[..i] + [pairs[i]];
  }

  method FindTopK(tokens: seq<Token>, k: int) returns (r: Result<seq<Token>>)
    ensures k < 0 ==> r == Err(ValueError)
    ensures k >= 0 ==> r == Ok(TopK(tokens, k))
  {
    if k < 0 {
      return Err(ValueError);
    }
    var pairs: seq<Pair> := [];
    var top: seq<Token> := [];
    var keys, counts := CountTokens(tokens);
    ghost var items := Items(tokens);
    for i := 0 to |keys|
      invariant pairs == items[..i]
    {
      ItemsSnoc(tokens, keys, counts, i);
      pairs := pairs + [(keys[i], counts[keys[i]])];
    }
    assert pairs == items by {
      if keys == [] { } else { ItemsSnoc(tokens, keys, counts, 0); }
      assert items[..|items|] == items;
    }
    var sorted := SortCountPairs(pairs);
    sorted := Slice(sorted, 0, k);
    for i := 0 to |sorted|
      invariant top == TokensOf(sorted[..i])
    {
      TokensOfSnoc(sorted, i);
      top := top + [sorted[i].0];
    }
    assert sorted[..|sorted|] == sorted;
    return Ok(top);
  }

  /** The items are the distinct tokens of the input, each with its count. */
  lemma ItemsContents(tokens: seq<Token>)
    ensures |Items(tokens)| == |Counts(tokens)|
    ensures Distinct(Items(tokens))
    ensures forall p :: p in Items(tokens) ==> p.0 in tokens && p == Scored(tokens, p.0)
    ensures forall t :: t in tokens ==> Scored(tokens, t) in Items(tokens)
  {
    var items := Items(tokens);
    var keys := FirstOccurrences(tokens);
    CountsSize(tokens);
    forall i, j | 0 <= i < j < |items| ensures items[i] != items[j] {
      assert items[i].0 == keys[i] && items[j].0 == keys[j];
    }
    forall t | t in tokens ensures Scored(tokens, t) in items {
      var q :| 0 <= q < |keys| && keys[q] == t;
      assert items[q] == Scored(tokens, t);
    }
  }

  /** A permutation of a list without repetitions has the same elements and no repetitions. */
  lemma PermutationDistinct<T>(s: seq<T>, t: seq<T>)
    requires multiset(s) == multiset(t) && Distinct(s)
    ensures |t| == |s| && Distinct(t)
    ensures forall x :: x in t <==> x in s
  {
    assert |t| == |multiset(t)| == |multiset(s)| == |s|;
    DistinctMultiplicity(s);
    DistinctMultiplicity(t);
    forall x ensures x in t <==> x in s {
      assert x in t <==> x in multiset(t);
      assert x in s <==> x in multiset(s);
    }
  }

  /** Every pair of the sorted items is a distinct token of the input with its count. */
  lemma RankedItems(tokens: seq<Token>)
    ensures var ranked := SortCountPairs(Items(tokens));
      && |ranked| == |Counts(tokens)|
      && Distinct(ranked)
      && (forall i :: 0 <= i < |ranked| ==> ranked[i].0 in tokens && ranked[i] == Scored(tokens, ranked[i].0))
      && (forall t :: t in tokens ==> Scored(tokens, t) in ranked)
  {
    var items := Items(tokens);
    var ranked := SortCountPairs(items);
    assert multiset(items) == multiset(ranked);
    ItemsContents(tokens);
    PermutationDistinct(items, ranked);
    forall i | 0 <= i < |ranked|
      ensures ranked[i].0 in tokens && ranked[i] == Scored(tokens, ranked[i].0)
    {
      var p := ranked[i];
      assert p in ranked;
      assert p in items;
    }
  }

  /** The result of find_top_k is read off the first min(k, n) pairs of the ranking. */
  lemma TopKIsPrefix(tokens: seq<Token>, k: nat)
    ensures var ranked := SortCountPairs(Items(tokens));
      && |TopK(tokens, k)| == Min(k, |ranked|)
      && forall i :: 0 <= i < |TopK(tokens, k)| ==>
           TopK(tokens, k)[i] == ranked[i].0 && Scored(tokens, TopK(tokens, k)[i]) == ranked[i]
  {
    var ranked := SortCountPairs(Items(tokens));
    RankedItems(tokens);
    var m := Min(k, |ranked|);
    assert Slice(ranked, 0, k) == ranked[..m];
    var top := TokensOf(ranked[..m]);
    assert TopK(tokens, k) == top;
    forall i | 0 <= i < |top| ensures top[i] == ranked[i].0 && Scored(tokens, top[i]) == ranked[i] {
      assert ranked[..m][i] == ranked[i];
    }
  }

  /** find_top_k returns min(k, #distinct tokens) tokens; k = 0 gives the empty list. */
  lemma TopKSize(tokens: seq<Token>, k: nat)
    ensures |TopK(tokens, k)| == Min(k, |Counts(tokens)|)
  {
    TopKIsPrefix(tokens, k);
    RankedItems(tokens);
  }

  /** The tokens returned are tokens of the input, each at most once. */
  lemma TopKDistinctInputs(tokens: seq<Token>, k: nat)
    ensures Distinct(TopK(tokens, k))
    ensures forall i :: 0 <= i < |TopK(tokens, k)| ==> TopK(tokens, k)[i] in tokens
  {
    TopKIsPrefix(tokens, k);
    RankedItems(tokens);
  }

  /** The tokens come in ranking order: counts never increase along the list, and equal counts
      are in token order. */
  lemma TopKOrdered(tokens: seq<Token>, k: nat)
    ensures var top := TopK(tokens, k);
      forall i, j :: 0 <= i < j < |top| ==>
        RanksBefore(Scored(tokens, top[i]), Scored(tokens, top[j])) &&
        Count(tokens, top[i]) >= Count(tokens, top[j])
  {
    var ranked := SortCountPairs(Items(tokens));
    TopKIsPrefix(tokens, k);
    RankedItems(tokens);
    RankedStrictly(ranked);
  }

  /** Every input token left out ranks after every token returned. */
  lemma TopKIsTop(tokens: seq<Token>, k: nat)
    ensures var top := TopK(tokens, k);
      forall i, t :: 0 <= i < |top| && t in tokens && t !in top ==>
        RanksBefore(Scored(tokens, top[i]), Scored(tokens, t))
  {
    var ranked := SortCountPairs(Items(tokens));
    TopKIsPrefix(tokens, k);
    RankedItems(tokens);
    RankedStrictly(ranked);
    var top := TopK(tokens, k);
    forall i, t | 0 <= i < |top| && t in tokens && t !in top
      ensures RanksBefore(Scored(tokens, top[i]), Scored(tokens, t))
    {
      var j :| 0 <= j < |ranked| && ranked[j] == Scored(tokens, t);
      assert j >= |top|;
    }
  }

  /** In a ranked list without repetitions every pair ranks strictly ahead of the later ones. */
  lemma RankedStrictly(s: seq<Pair>)
    requires Ranked(s) && Distinct(s)
    ensures forall i, j :: 0 <= i < j < |s| ==> RanksBefore(s[i], s[j])
  {
    forall i, j | 0 <= i < j < |s| ensures RanksBefore(s[i], s[j]) {
      RanksBeforeTotal(s[i], s[j]);
    }
  }

  /** The dictionary's key order does not reach the result: sorting the items in any order
      gives the same ranking. */
  lemma TopKOrderIndependent(tokens: seq<Token>, items: seq<Pair>, k: nat)
    requires multiset(items) == multiset(Items(tokens))
    ensures TokensOf(Slice(SortCountPairs(items), 0, k)) == TopK(tokens, k)
  {
    RankedUnique(SortCountPairs(items), SortCountPairs(Items(tokens)));
  }

  // ---------------------------------------------------------------- find_min_count

  /** The tokens occurring at least m times. */
  ghost function MinCount(tokens: seq<Token>, m: int): set<Token> {
    set t | t in tokens && Count(tokens, t) >= m
  }

  method FindMinCount(tokens: seq<Token>, minCount: int) returns (r: Result<set<Token>>)
    ensures minCount < 0 ==> r == Err(ValueError)
    ensures minCount >= 0 ==> r == Ok(MinCount(tokens, minCount))
  {
    if minCount < 0 {
      return Err(ValueError);
    }
    var keys, counts := CountTokens(tokens);
    var found: set<Token> := {};
    for i := 0 to |keys|
      invariant found == set t | t in keys[..i] && counts[t] >= minCount
    {
      assert keys[..i + 1] == keys[..i] + [keys[i]];
      if counts[keys[i]] >= minCount {
        found := found + {keys[i]};
      }
    }
    assert keys[..|keys|] == keys;
    assert found == MinCount(tokens, minCount) by {
      forall t ensures t in found <==> t in MinCount(tokens, minCount) {
        if t in tokens {
          assert t in keys && counts[t] == Count(tokens, t);
        }
      }
    }
    return Ok(found);
  }

  /** A threshold of at most one keeps every distinct token; raising the threshold can only
      drop tokens; no tokens give no result. */
  lemma MinCountProperties(tokens: seq<Token>, m: int, m': int)
    ensures m <= 1 ==> MinCount(tokens, m) == set t | t in tokens
    ensures m <= m' ==> MinCount(tokens, m') <= MinCount(tokens, m)
    ensures tokens == [] ==> MinCount(tokens, m) == {}
  {
  }

  // ---------------------------------------------------------------- calculate_tf

  /** max(counts[k] for k in keys), Python's max over the dictionary's values; 0 for no keys,
      a case the caller handles before. */
  function MaxOver(counts: map<Token, nat>, keys: seq<Token>): (mx: nat)
    requires forall i :: 0 <= i < |keys| ==> keys[i] in counts
    ensures forall i :: 0 <= i < |keys| ==> counts[keys[i]] <= mx
    ensures keys != [] ==> exists i :: 0 <= i < |keys| && counts[keys[i]] == mx
  {
    if keys == [] then 0
    else
      var mx := MaxOver(counts, keys[..|keys| - 1]);
      var last := counts[keys[|keys| - 1]];
      if last > mx then last else mx
  }

  /** The largest count of a token in doc. */
  ghost function MaxCount(doc: seq<Token>): nat {
    MaxOver(Counts(doc), FirstOccurrences(doc))
  }

  lemma MaxCountIsMax(doc: seq<Token>)
    ensures forall t :: t in doc ==> Count(doc, t) <= MaxCount(doc)
    ensures doc != [] ==> MaxCount(doc) >= 1 && exists t :: t in doc && Count(doc, t) == MaxCount(doc)
  {
    var keys := FirstOccurrences(doc);
    forall t | t in doc ensures Count(doc, t) <= MaxCount(doc) {
      var i :| 0 <= i < |keys| && keys[i] == t;
    }
    if doc != [] {
      var i :| 0 <= i < |keys| && Counts(doc)[keys[i]] == MaxCount(doc);
      assert keys[i] in doc;
    }
  }

  /** 0.5 + 0.5 * (count / max_number), the augmented frequency of a token. */
  function TfValue(count: nat, maxNumber: nat): real
    requires maxNumber > 0
  {
    0.5 + 0.5 * (count as real / maxNumber as real)
  }

  lemma TfValueBounds(c: nat, m: nat)
    requires 1 <= c <= m
    ensures 0.5 < TfValue(c, m) <= 1.0
  {
    assert c as real / m as real * m as real == c as real;
  }

  lemma TfValueAtMax(m: nat)
    requires m > 0
    ensures TfValue(m, m) == 1.0
  {
    assert m as real / m as real == 1.0;
  }

  lemma TfValueMonotone(a: nat, b: nat, m: nat)
    requires a <= b && m > 0
    ensures TfValue(a, m) <= TfValue(b, m)
  {
    assert a as real / m as real <= b as real / m as real;
  }

  /** The augmented term frequency of each token of doc. */
  ghost function Tf(doc: seq<Token>): (tf: map<Token, real>)
    ensures forall t :: t in tf <==> t in doc
  {
    if doc == [] then map[]
    else
      MaxCountIsMax(doc);
      map t | t in doc :: TfValue(Count(doc, t), MaxCount(doc))
  }

  /** The tf dictionary filled in key order, as the loop of calculate_tf fills it. */
  ghost function TfOver(counts: map<Token, nat>, maxNumber: nat, keys: seq<Token>): (tf: map<Token, real>)
    requires maxNumber > 0
    requires forall i :: 0 <= i < |keys| ==> keys[i] in counts
  {
    if keys == [] then map[]
    else
      var prefix, last := keys[..|keys| - 1], keys[|keys| - 1];
      assert keys == prefix + [last];
      TfOver(counts, maxNumber, prefix)[last := TfValue(counts[last], maxNumber)]
  }

  /** Filling in key order gives exactly the keys, each with its tf value. */
  lemma {:induction false} TfOverContents(counts: map<Token, nat>, maxNumber: nat, keys: seq<Token>)
    requires maxNumber > 0
    requires forall i :: 0 <= i < |keys| ==> keys[i] in counts
    ensures forall t :: t in TfOver(counts, maxNumber, keys) <==> t in keys
    ensures forall t :: t in TfOver(counts, maxNumber, keys) ==>
      TfOver(counts, maxNumber, keys)[t] == TfValue(counts[t], maxNumber)
  {
    if keys != [] {
      var prefix := keys[..|keys| - 1];
      assert keys == prefix + [keys[|keys| - 1]];
      TfOverContents(counts, maxNumber, prefix);
    }
  }

  /** The tf dictionary of a non-empty document, read through its count dictionary. */
  lemma TfOfCounts(doc: seq<Token>)
    requires doc != []
    ensures MaxCount(doc) > 0
    ensures Tf(doc).Keys == Counts(doc).Keys
    ensures forall t :: t in Tf(doc) ==> Tf(doc)[t] == TfValue(Counts(doc)[t], MaxCount(doc))
  {
    MaxCountIsMax(doc);
  }

  lemma TfOverIsTf(doc: seq<Token>)
    requires doc != []
    ensures MaxCount(doc) > 0
    ensures TfOver(Counts(doc), MaxCount(doc), FirstOccurrences(doc)) == Tf(doc)
  {
    var counts, m, keys := Counts(doc), MaxCount(doc), FirstOccurrences(doc);
    TfOfCounts(doc);
    assert forall i :: 0 <= i < |keys| ==> keys[i] in counts;
    TfOverContents(counts, m, keys);
    SameTfMaps(TfOver(counts, m, keys), Tf(doc), counts, m);
  }

  lemma SameTfMaps(a: map<Token, real>, b: map<Token, real>, counts: map<Token, nat>, m: nat)
    requires m > 0 && a.Keys == b.Keys && a.Keys <= counts.Keys
    requires forall t :: t in a ==> a[t] == TfValue(counts[t], m)
    requires forall t :: t in b ==> b[t] == TfValue(counts[t], m)
    ensures a == b
  {
  }

  lemma TfOverSnoc(counts: map<Token, nat>, maxNumber: nat, keys: seq<Token>, i: nat)
    requires maxNumber > 0 && i < |keys|
    requires forall j :: 0 <= j < |keys| ==> keys[j] in counts
    ensures TfOver(counts, maxNumber, keys[..i + 1]) ==
      TfOver(counts, maxNumber, keys[..i])[keys[i] := TfValue(counts[keys[i]], maxNumber)]
  {
    assert keys[..i + 1][..i] == keys[..i];
  }

  method CalculateTf(doc: seq<Token>) returns (tf: map<Token, real>)
    ensures tf == Tf(doc)
  {
    var keys, counts := CountTokens(doc);
    tf := map[];
    if keys == [] {
      // max() of no values raises ValueError, and the handler returns the empty dictionary
      return;
    }
    var maxNumber := MaxOver(counts, keys);
    for i := 0 to |keys|
      invariant tf == TfOver(counts, maxNumber, keys[..i])
    {
      var token := keys[i];
      TfOverSnoc(counts, maxNumber, keys, i);
      tf := tf[token := TfValue(counts[token], maxNumber)];
    }
    assert tf == Tf(doc) by {
      assert keys[..|keys|] == keys;
      TfOverIsTf(doc);
    }
  }

  /** Every tf value lies in (0.5, 1.0]; the most frequent tokens score exactly 1.0 and there is
      one; a more frequent token never scores lower. */
  lemma TfProperties(doc: seq<Token>)
    ensures doc == [] <==> Tf(doc) == map[]
    ensures forall t :: t in Tf(doc) ==> 0.5 < Tf(doc)[t] <= 1.0
    ensures forall t :: t in doc && Count(doc, t) == MaxCount(doc) ==> Tf(doc)[t] == 1.0
    ensures doc != [] ==> exists t :: t in doc && Tf(doc)[t] == 1.0
    ensures forall a, b :: a in doc && b in doc && Count(doc, a) <= Count(doc, b) ==> Tf(doc)[a] <= Tf(doc)[b]
  {
    if doc != [] {
      var tf, mx := Tf(doc), MaxCount(doc);
      assert doc[0] in tf;
      MaxCountIsMax(doc);
      assert forall t :: t in tf ==> tf[t] == TfValue(Count(doc, t), mx) by {
        TfOfCounts(doc);
      }
      forall t | t in tf ensures 0.5 < tf[t] <= 1.0 {
        TfValueBounds(Count(doc, t), mx);
      }
      TfValueAtMax(mx);
      var w :| w in doc && Count(doc, w) == mx;
      assert tf[w] == 1.0;
      forall a, b | a in doc && b in doc && Count(doc, a) <= Count(doc, b)
        ensures tf[a] <= tf[b]
      {
        TfValueMonotone(Count(doc, a), Count(doc, b), mx);
      }
    }
  }

  // ---------------------------------------------------------------- calculate_idf

  /** The distinct tokens of a document. */
  ghost function Elems(doc: seq<Token>): set<Token> {
    set t | t in doc
  }

  /** Every token of every document. */
  ghost function Vocabulary(docs: seq<seq<Token>>): set<Token> {
    if docs == [] then {}
    else Vocabulary(docs[..|docs| - 1]) + Elems(docs[|docs| - 1])
  }

  /** Number of documents containing t, each counted once. */
  ghost function DocFreq(docs: seq<seq<Token>>, t: Token): nat {
    if docs == [] then 0
    else DocFreq(docs[..|docs| - 1], t) + (if t in docs[|docs| - 1] then 1 else 0)
  }

  lemma {:induction false} VocabularyMembers(docs: seq<seq<Token>>)
    ensures forall t :: t in Vocabulary(docs) <==> exists i :: 0 <= i < |docs| && t in docs[i]
  {
    if docs != [] {
      var prefix := docs[..|docs| - 1];
      VocabularyMembers(prefix);
      forall t | t in Vocabulary(docs) ensures exists i :: 0 <= i < |docs| && t in docs[i] {
        if t in Vocabulary(prefix) {
          var i :| 0 <= i < |prefix| && t in prefix[i];
          assert t in docs[i];
        } else {
          assert t in docs[|docs| - 1];
        }
      }
      forall t | exists i :: 0 <= i < |docs| && t in docs[i] ensures t in Vocabulary(docs) {
        var i :| 0 <= i < |docs| && t in docs[i];
        if i < |docs| - 1 {
          assert t in prefix[i];
        }
      }
    }
  }

  /** A token of the corpus occurs in at least one and at most all of its documents. */
  lemma {:induction false} DocFreqBounds(docs: seq<seq<Token>>)
    ensures forall t :: t in Vocabulary(docs) ==> 1 <= DocFreq(docs, t) <= |docs|
    ensures forall t :: t !in Vocabulary(docs) ==> DocFreq(docs, t) == 0
  {
    if docs != [] {
      DocFreqBounds(docs[..|docs| - 1]);
    }
  }

  /** DocFreq is the number of indices of documents that contain t. */
  lemma {:induction false} DocFreqCountsDocuments(docs: seq<seq<Token>>, t: Token)
    ensures DocFreq(docs, t) == |set i | 0 <= i < |docs| && t in docs[i]|
  {
    if docs != [] {
      var n := |docs| - 1;
      var prefix := docs[..n];
      DocFreqCountsDocuments(prefix, t);
      var before := set i | 0 <= i < n && t in prefix[i];
      assert before == set i | 0 <= i < n && t in docs[i];
      if t in docs[n] {
        assert (set i | 0 <= i < |docs| && t in docs[i]) == before + {n};
      } else {
        assert (set i | 0 <= i < |docs| && t in docs[i]) == before;
      }
    }
  }

  /** A token in every document has document frequency D. */
  lemma {:induction false} DocFreqEverywhere(docs: seq<seq<Token>>, t: Token)
    requires forall i :: 0 <= i < |docs| ==> t in docs[i]
    ensures DocFreq(docs, t) == |docs|
  {
    if docs != [] {
      DocFreqEverywhere(docs[..|docs| - 1], t);
    }
  }

  /** The idf dictionary, with math.log passed in as ln. */
  ghost function Idf(docs: seq<seq<Token>>, ln: real -> real): (idf: map<Token, real>)
    ensures docs == [] ==> idf == map[]
  {
    DocFreqBounds(docs);
    map t | t in Vocabulary(docs) :: ln(|docs| as real / DocFreq(docs, t) as real)
  }

  /** calculate_idf; the dictionary holds zeros, then document frequencies, then their idf. */
  method CalculateIdf(docs: seq<seq<Token>>, ln: real -> real) returns (idf: map<Token, real>)
    ensures idf == Idf(docs, ln)
  {
    idf := CollectTokens(docs);
    idf := CountDocuments(docs, idf);
    idf := TakeLogs(docs, ln, idf);
  }

  /** The first loop of calculate_idf: a zero for every token of the corpus. */
  method CollectTokens(docs: seq<seq<Token>>) returns (idf: map<Token, real>)
    ensures idf.Keys == Vocabulary(docs)
    ensures forall t :: t in idf ==> idf[t] == 0.0
  {
    idf := map[];
    for i := 0 to |docs|
      invariant idf.Keys == Vocabulary(docs[..i])
      invariant forall t :: t in idf ==> idf[t] == 0.0
    {
      assert docs[..i + 1][..i] == docs[..i];
      for j := 0 to |docs[i]|
        invariant idf.Keys == Vocabulary(docs[..i]) + Elems(docs[i][..j])
        invariant forall t :: t in idf ==> idf[t] == 0.0
      {
        assert docs[i][..j + 1] == docs[i][..j] + [docs[i][j]];
        var token := docs[i][j];
        if token !in idf {
          idf := idf[token := 0.0];
        }
      }
      assert docs[i][..|docs[i]|] == docs[i];
    }
    assert docs[..|docs|] == docs;
  }

  /** The second loop of calculate_idf: one added to a token's entry per document holding it. */
  method CountDocuments(docs: seq<seq<Token>>, zeros: map<Token, real>) returns (idf: map<Token, real>)
    requires forall t :: t in zeros ==> zeros[t] == 0.0
    ensures idf.Keys == zeros.Keys
    ensures forall t :: t in idf ==> idf[t] == DocFreq(docs, t) as real
  {
    idf := zeros;
    var todo := idf.Keys;
    while todo != {}
      invariant idf.Keys == zeros.Keys && todo <= idf.Keys
      invariant forall t :: t in idf && t !in todo ==> idf[t] == DocFreq(docs, t) as real
      invariant forall t :: t in todo ==> idf[t] == 0.0
      decreases todo
    {
      var word :| word in todo;
      todo := todo - {word};
      ghost var before := idf;
      for j := 0 to |docs|
        invariant idf == before[word := DocFreq(docs[..j], word) as real]
      {
        assert docs[..j + 1][..j] == docs[..j];
        if word in docs[j] {
          idf := idf[word := idf[word] + 1.0];
        }
      }
      assert docs[..|docs|] == docs;
    }
  }

  /** The third loop of calculate_idf: each frequency f becomes ln(D / f). */
  method TakeLogs(docs: seq<seq<Token>>, ln: real -> real, freqs: map<Token, real>) returns (idf: map<Token, real>)
    requires freqs.Keys == Vocabulary(docs)
    requires forall t :: t in freqs ==> freqs[t] == DocFreq(docs, t) as real
    ensures idf == Idf(docs, ln)
  {
    assert forall t :: t in freqs ==> freqs[t] >= 1.0 by {
      DocFreqBounds(docs);
    }
    idf := freqs;
    var todo := idf.Keys;
    while todo != {}
      invariant idf.Keys == freqs.Keys && todo <= idf.Keys
      invariant forall t :: t in todo ==> idf[t] == freqs[t]
      invariant forall t :: t in idf && t !in todo ==> idf[t] == ln(|docs| as real / freqs[t])
      decreases todo
    {
      var token :| token in todo;
      idf := idf[token := ln(|docs| as real / idf[token])];
      todo := todo - {token};
    }
    IdfOfFreqs(docs, ln, freqs, idf);
  }

  lemma IdfOfFreqs(docs: seq<seq<Token>>, ln: real -> real, freqs: map<Token, real>, idf: map<Token, real>)
    requires freqs.Keys == Vocabulary(docs) && idf.Keys == freqs.Keys
    requires forall t :: t in freqs ==> freqs[t] == DocFreq(docs, t) as real && freqs[t] >= 1.0
    requires forall t :: t in idf ==> idf[t] == ln(|docs| as real / freqs[t])
    ensures idf == Idf(docs, ln)
  {
    var expected := Idf(docs, ln);
    assert idf.Keys == expected.Keys;
  }

  // ---------------------------------------------------------------- find_salient_one

  /** What find_salient_one returns: a KeyError when a token of doc has no idf entry, otherwise
      the tokens whose tf times idf exceeds the threshold. */
  ghost function SalientOne(doc: seq<Token>, threshold: real, idf: map<Token, real>): Result<set<Token>> {
    if exists t :: t in doc && t !in idf then Err(KeyError)
    else Ok(set t | t in doc && Tf(doc)[t] * idf[t] > threshold)
  }

  /** The tokens of keys whose tf-idf score exceeds the threshold. */
  ghost function Above(tf: map<Token, real>, idf: map<Token, real>, threshold: real, keys: set<Token>): set<Token>
    requires keys <= tf.Keys && keys <= idf.Keys
  {
    set t | t in keys && tf[t] * idf[t] > threshold
  }

  lemma AboveAdd(tf: map<Token, real>, idf: map<Token, real>, threshold: real, keys: set<Token>, x: Token)
    requires keys <= tf.Keys && keys <= idf.Keys && x in tf && x in idf
    ensures Above(tf, idf, threshold, keys + {x}) ==
      Above(tf, idf, threshold, keys) + (if tf[x] * idf[x] > threshold then {x} else {})
  {
  }

  lemma SalientOneMissing(doc: seq<Token>, threshold: real, idf: map<Token, real>, t: Token)
    requires t in Tf(doc) && t !in idf
    ensures SalientOne(doc, threshold, idf) == Err(KeyError)
  {
  }

  lemma SalientOneAbove(doc: seq<Token>, threshold: real, idf: map<Token, real>)
    requires Tf(doc).Keys <= idf.Keys
    ensures SalientOne(doc, threshold, idf) == Ok(Above(Tf(doc), idf, threshold, Tf(doc).Keys))
  {
    var tf := Tf(doc);
    assert !exists t :: t in doc && t !in idf;
    var chosen := set t | t in doc && tf[t] * idf[t] > threshold;
    var above := Above(tf, idf, threshold, tf.Keys);
    forall t ensures t in chosen <==> t in above {
      assert t in doc <==> t in tf;
    }
    assert chosen == above;
  }

  /** What the loop of find_salient_one computes from a tf dictionary: a KeyError when one of
      its tokens has no idf entry, otherwise the tokens scoring above the threshold. */
  ghost function ScoreAbove(tf: map<Token, real>, idf: map<Token, real>, threshold: real): Result<set<Token>> {
    if tf.Keys <= idf.Keys then Ok(Above(tf, idf, threshold, tf.Keys)) else Err(KeyError)
  }

  method FindSalientOne(doc: seq<Token>, threshold: real, idf: map<Token, real>) returns (r: Result<set<Token>>)
    ensures r == SalientOne(doc, threshold, idf)
  {
    var tf := CalculateTf(doc);
    r := ScoreTokens(tf, idf, threshold);
    if tf.Keys <= idf.Keys {
      SalientOneAbove(doc, threshold, idf);
    } else {
      var t :| t in tf && t !in idf;
      SalientOneMissing(doc, threshold, idf, t);
    }
  }

  /** The loop of find_salient_one over the tf dictionary. */
  method ScoreTokens(tf: map<Token, real>, idf: map<Token, real>, threshold: real) returns (r: Result<set<Token>>)
    ensures r == ScoreAbove(tf, idf, threshold)
  {
    var salient: set<Token> := {};
    var todo, done := tf.Keys, {};
    while todo != {}
      invariant todo <= tf.Keys && done == tf.Keys - todo
      invariant done <= idf.Keys
      invariant salient == Above(tf, idf, threshold, done)
      decreases todo
    {
      var token :| token in todo;
      if token !in idf {
        assert !(tf.Keys <= idf.Keys);
        return Err(KeyError);
      }
      var tfidf := tf[token] * idf[token];
      AboveAdd(tf, idf, threshold, done, token);
      if tfidf > threshold {
        salient := salient + {token};
      }
      assert done + {token} == tf.Keys - (todo - {token});
      todo, done := todo - {token}, done + {token};
    }
    assert done == tf.Keys;
    assert tf.Keys <= idf.Keys;
    return Ok(salient);
  }

  /** The salient set is made of tokens of the document, and a higher threshold never adds to
      it; whether a KeyError arises does not depend on the threshold. */
  lemma SalientOneMonotone(doc: seq<Token>, idf: map<Token, real>, low: real, high: real)
    requires low <= high
    ensures SalientOne(doc, low, idf).Ok? == SalientOne(doc, high, idf).Ok?
    ensures SalientOne(doc, high, idf).Ok? ==>
      && SalientOne(doc, high, idf).value <= SalientOne(doc, low, idf).value
      && SalientOne(doc, low, idf).value <= Elems(doc)
  {
  }

  // ---------------------------------------------------------------- find_salient

  /** What find_salient returns: one salient set per document, in corpus order, each scored
      with the idf of the whole corpus. No lookup fails, since every token of a document is
      in the corpus. */
  ghost function Salient(docs: seq<seq<Token>>, threshold: real, ln: real -> real): (r: seq<set<Token>>)
    ensures |r| == |docs|
    ensures forall i :: 0 <= i < |docs| ==> SalientOne(docs[i], threshold, Idf(docs, ln)) == Ok(r[i])
  {
    var idf := Idf(docs, ln);
    VocabularyMembers(docs);
    assert forall i, t :: 0 <= i < |docs| && t in docs[i] ==> t in idf;
    seq(|docs|, i requires 0 <= i < |docs| => SalientOne(docs[i], threshold, idf).value)
  }

  method FindSalient(docs: seq<seq<Token>>, threshold: real, ln: real -> real) returns (salient: seq<set<Token>>)
    ensures salient == Salient(docs, threshold, ln)
  {
    var idf := CalculateIdf(docs, ln);
    salient := [];
    for i := 0 to |docs|
      invariant salient == Salient(docs, threshold, ln)[..i]
    {
      var one := FindSalientOne(docs[i], threshold, idf);
      salient := salient + [one.value];
    }
  }

  /** A token whose idf is zero scores zero, so a threshold that is not negative excludes it. */
  lemma ZeroIdfNeverSalient(doc: seq<Token>, threshold: real, idf: map<Token, real>, t: Token)
    requires t in idf && idf[t] == 0.0 && threshold >= 0.0
    requires SalientOne(doc, threshold, idf).Ok?
    ensures t !in SalientOne(doc, threshold, idf).value
  {
    var tf := Tf(doc);
    assert SalientOne(doc, threshold, idf).value == set s | s in doc && tf[s] * idf[s] > threshold;
    if t in doc {
      assert tf[t] * 0.0 == 0.0;
    }
  }

  /** The idf of a token in every document of a corpus is ln(1). */
  lemma IdfOfUbiquitous(docs: seq<seq<Token>>, ln: real -> real, t: Token)
    requires docs != []
    requires forall i :: 0 <= i < |docs| ==> t in docs[i]
    ensures t in Idf(docs, ln) && Idf(docs, ln)[t] == ln(1.0)
  {
    DocFreqEverywhere(docs, t);
    VocabularyMembers(docs);
    assert t in docs[0];
    assert |docs| as real / |docs| as real == 1.0;
  }

  /** A token in every document is salient in none when ln(1) = 0 and the threshold is not
      negative: its idf is ln(D / D) = 0. */
  lemma UbiquitousTokenNeverSalient(docs: seq<seq<Token>>, threshold: real, ln: real -> real, t: Token)
    requires ln(1.0) == 0.0
    requires threshold >= 0.0
    requires forall i :: 0 <= i < |docs| ==> t in docs[i]
    ensures forall i :: 0 <= i < |docs| ==> t !in Salient(docs, threshold, ln)[i]
  {
    if docs != [] {
      IdfOfUbiquitous(docs, ln, t);
      var r := Salient(docs, threshold, ln);
      forall i | 0 <= i < |docs| ensures t !in r[i] {
        ZeroIdfNeverSalient(docs[i], threshold, Idf(docs, ln), t);
      }
    }
  }
}
