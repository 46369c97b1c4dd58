/** The ranking that find_top_k delegates to util.sort_count_pairs. That routine is not part of
    this model; it is replaced by a sort with the contract the caller relies on: a permutation
    of the (token, count) pairs ordered by count, highest first. Ties on the count are broken
    by the lexicographic order of the tokens, a choice of this model that makes the ranking
    total and deterministic. */
module Ranking {

  /** A token is a word sequence: a single word is a 1-gram. */
  type Token = seq<string>

  /** A (token, count) item of a count dictionary. */
  type Pair = (Token, nat)

  ghost predicate StrictTotalOrder<T(!new)>(less: (T, T) -> bool) {
    && (forall a :: !less(a, a))
    && (forall a, b, c :: less(a, b) && less(b, c) ==> less(a, c))
    && (forall a, b :: a != b ==> less(a, b) || less(b, a))
  }

  /** Lexicographic order of sequences, built on an order of their elements. */
  function LexLess<T(==)>(a: seq<T>, b: seq<T>, less: (T, T) -> bool): bool {
    if b == [] then false
    else if a == [] then true
    else if less(a[0], b[0]) then true
    else a[0] == b[0] && LexLess(a[1..], b[1..], less)
  }

  lemma {:induction false} LexIrreflexive<T(!new)>(a: seq<T>, less: (T, T) -> bool)
    requires StrictTotalOrder(less)
    ensures !LexLess(a, a, less)
  {
    if a != [] {
      LexIrreflexive(a[1..], less);
    }
  }

  lemma {:induction false} LexTransitive<T(!new)>(a: seq<T>, b: seq<T>, c: seq<T>, less: (T, T) -> bool)
    requires StrictTotalOrder(less)
    requires LexLess(a, b, less) && LexLess(b, c, less)
    ensures LexLess(a, c, less)
  {
    if a != [] && a[0] == b[0] && b[0] == c[0] {
      LexTransitive(a[1..], b[1..], c[1..], less);
    }
  }

  lemma {:induction false} LexTotal<T(!new)>(a: seq<T>, b: seq<T>, less: (T, T) -> bool)
    requires StrictTotalOrder(less)
    requires a != b
    ensures LexLess(a, b, less) || LexLess(b, a, less)
  {
    if a != [] && b != [] && a[0] == b[0] {
      assert a == [a[0]] + a[1..] && b == [b[0]] + b[1..];
      LexTotal(a[1..], b[1..], less);
    }
  }

  /** The lexicographic order over a strict total order is again a strict total order. */
  lemma LexIsStrictTotal<T(!new)>(less: (T, T) -> bool)
    requires StrictTotalOrder(less)
    ensures forall a: seq<T> :: !LexLess(a, a, less)
    ensures forall a: seq<T>, b, c :: LexLess(a, b, less) && LexLess(b, c, less) ==> LexLess(a, c, less)
    ensures forall a: seq<T>, b :: a != b ==> LexLess(a, b, less) || LexLess(b, a, less)
  {
    forall a: seq<T> ensures !LexLess(a, a, less) {
      LexIrreflexive(a, less);
    }
    forall a: seq<T>, b, c | LexLess(a, b, less) && LexLess(b, c, less)
      ensures LexLess(a, c, less)
    {
      LexTransitive(a, b, c, less);
    }
    forall a: seq<T>, b | a != b ensures LexLess(a, b, less) || LexLess(b, a, less) {
      LexTotal(a, b, less);
    }
  }

  function CharLess(x: char, y: char): bool { x < y }

  function StringLess(x: string, y: string): bool { LexLess(x, y, CharLess) }

  /** The tie-break: lexicographic order of tokens, word by word. */
  function TokenLess(x: Token, y: Token): bool { LexLess(x, y, StringLess) }

  lemma TokenLessIsStrictTotal()
    ensures StrictTotalOrder(TokenLess)
  {
    LexIsStrictTotal(CharLess);
    assert StrictTotalOrder(StringLess);
    LexIsStrictTotal(StringLess);
  }

  /** p ranks ahead of q: a higher count, or the same count and a smaller token. */
  predicate RanksBefore(p: Pair, q: Pair) {
    p.1 > q.1 || (p.1 == q.1 && TokenLess(p.0, q.0))
  }

  lemma RanksBeforeIrreflexive(p: Pair)
    ensures !RanksBefore(p, p)
  {
    TokenLessIsStrictTotal();
  }

  lemma RanksBeforeTransitive(p: Pair, q: Pair, r: Pair)
    requires RanksBefore(p, q) && RanksBefore(q, r)
    ensures RanksBefore(p, r)
  {
    TokenLessIsStrictTotal();
  }

  /** Any two different pairs are ranked one way or the other: the ranking has no ties. */
  lemma RanksBeforeTotal(p: Pair, q: Pair)
    requires p != q
    ensures RanksBefore(p, q) || RanksBefore(q, p)
  {
    TokenLessIsStrictTotal();
  }

  /** No pair is ranked ahead of one that precedes it. */
  ghost predicate Ranked(s: seq<Pair>) {
    forall i, j :: 0 <= i < j < |s| ==> !RanksBefore(s[j], s[i])
  }

  /** Inserts p into a list ahead of the first pair it ranks before. */
  function Insert(p: Pair, s: seq<Pair>): (r: seq<Pair>)
    ensures multiset(r) == multiset(s) + multiset{p}
  {
    if s == [] || RanksBefore(p, s[0]) then
      [p] + s
    else
      assert s == [s[0]] + s[1..];
      [s[0]] + Insert(p, s[1..])
  }

  /** A pair ranked ahead of the head of a ranked list may go in front of it. */
  lemma RankedCons(p: Pair, s: seq<Pair>)
    requires Ranked(s)
    requires forall j :: 0 <= j < |s| ==> !RanksBefore(s[j], p)
    ensures Ranked([p] + s)
  {
    var r := [p] + s;
    forall i, j | 0 <= i < j < |r| ensures !RanksBefore(r[j], r[i]) {
      if i > 0 {
        assert r[i] == s[i - 1] && r[j] == s[j - 1];
      } else {
        assert r[j] == s[j - 1];
      }
    }
  }

  /** Nothing in a ranked list ranks ahead of its head. */
  lemma RankedHead(s: seq<Pair>, q: Pair)
    requires Ranked(s) && s != []
    requires RanksBefore(q, s[0])
    ensures forall j :: 0 <= j < |s| ==> !RanksBefore(s[j], q)
  {
    forall j | 0 <= j < |s| ensures !RanksBefore(s[j], q) {
      if RanksBefore(s[j], q) {
        RanksBeforeTransitive(s[j], q, s[0]);
        if j == 0 { RanksBeforeIrreflexive(s[0]); }
      }
    }
  }

  lemma {:induction false} InsertRanked(p: Pair, s: seq<Pair>)
    requires Ranked(s)
    ensures Ranked(Insert(p, s))
  {
    if s == [] {
    } else if RanksBefore(p, s[0]) {
      RankedHead(s, p);
      RankedCons(p, s);
    } else {
      var rest := Insert(p, s[1..]);
      InsertRanked(p, s[1..]);
      forall j | 0 <= j < |rest| ensures !RanksBefore(rest[j], s[0]) {
        assert rest[j] in multiset(s[1..]) + multiset{p};
        if rest[j] != p {
          assert rest[j] in s[1..];
          var k :| 0 <= k < |s[1..]| && s[1..][k] == rest[j];
          assert s[k + 1] == rest[j];
        }
      }
      RankedCons(s[0], rest);
    }
  }

  /** The model of util.sort_count_pairs: an insertion sort by RanksBefore. */
  function SortCountPairs(pairs: seq<Pair>): (sorted: seq<Pair>)
    ensures multiset(sorted) == multiset(pairs)
    ensures Ranked(sorted)
  {
    if pairs == [] then []
    else
      assert pairs == [pairs[0]] + pairs[1..];
      var rest := SortCountPairs(pairs[1..]);
      InsertRanked(pairs[0], rest);
      Insert(pairs[0], rest)
  }

  /** Two ranked permutations of the same non-empty list of pairs start with the same pair. */
  lemma RankedSameHead(s: seq<Pair>, t: seq<Pair>)
    requires Ranked(s) && Ranked(t)
    requires multiset(s) == multiset(t)
    requires s != [] && t != []
    ensures s[0] == t[0]
  {
    assert s[0] in multiset(t);
    var j :| 0 <= j < |t| && t[j] == s[0];
    assert t[0] in multiset(s);
    var i :| 0 <= i < |s| && s[i] == t[0];
    assert !RanksBefore(s[0], t[0]) by {
      if j == 0 { RanksBeforeIrreflexive(s[0]); }
    }
    assert !RanksBefore(t[0], s[0]) by {
      if i == 0 { RanksBeforeIrreflexive(t[0]); }
    }
    if s[0] != t[0] {
      RanksBeforeTotal(s[0], t[0]);
    }
  }

  lemma MultisetTail<T>(x: T, a: seq<T>, b: seq<T>)
    requires multiset([x] + a) == multiset([x] + b)
    ensures multiset(a) == multiset(b)
  {
    assert multiset([x] + a) == multiset{x} + multiset(a);
    assert multiset([x] + b) == multiset{x} + multiset(b);
    forall y ensures multiset(a)[y] == multiset(b)[y] {
      assert multiset([x] + a)[y] == multiset([x] + b)[y];
    }
  }

  lemma RankedTail(s: seq<Pair>)
    requires Ranked(s) && s != []
    ensures Ranked(s[1..])
  {
    var s' := s[1..];
    forall i, j | 0 <= i < j < |s'| ensures !RanksBefore(s'[j], s'[i]) {
      assert s'[i] == s[i + 1] && s'[j] == s[j + 1];
    }
  }

  /** The ranking is determined by the pairs alone: two ranked permutations of the same pairs
      are equal, so the order in which the pairs reach the sort does not matter. */
  lemma {:induction false} RankedUnique(s: seq<Pair>, t: seq<Pair>)
    requires Ranked(s) && Ranked(t)
    requires multiset(s) == multiset(t)
    ensures s == t
  {
    if s == [] {
      assert |t| == |multiset(t)| == 0;
    } else {
      assert |t| == |multiset(t)| == |multiset(s)| == |s|;
      RankedSameHead(s, t);
      var s', t' := s[1..], t[1..];
      assert s == [s[0]] + s' && t == [s[0]] + t';
      MultisetTail(s[0], s', t');
      RankedTail(s);
      RankedTail(t);
      RankedUnique(s', t');
    }
  }
}
