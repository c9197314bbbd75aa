/** A bounded tail of recently used tokens: what it holds and how two capacities compare. */
module RecencyTail {
  import opened Sorting

  function Without(s: seq<int>, x: int): (r: seq<int>) {
    if s == [] then [] else if s[0] == x then Without(s[1..], x) else [s[0]] + Without(s[1..], x)
  }

  // ----- the ordered cache -----

  /** Moves a token to the recent end and drops the oldest entry when over capacity. */
  function Touch(ids: seq<int>, capacity: nat, token: int): seq<int> {
    var moved := Without(ids, token) + [token];
    if |moved| > capacity then moved[1..] else moved
  }

  function InsertAll(ids: seq<int>, base: set<int>, capacity: nat, tokens: seq<int>): seq<int> {
    if tokens == [] then ids
    else
      var before, token := InsertAll(ids, base, capacity, tokens[..|tokens| - 1]), tokens[|tokens| - 1];
      if token in base then before else Touch(before, capacity, token)
  }

  /** The entries are kept oldest first, as an insertion-ordered dictionary keeps its keys. */
  class Tail {
    const capacity: nat
    const base: set<int>
    var ids: seq<int>

    constructor (capacity: nat, base: set<int>, initial: seq<int>)
      ensures this.capacity == capacity && this.base == base
      ensures ids == InsertAll([], base, capacity, initial)
    {
      this.capacity, this.base, ids := capacity, base, [];
      new;
      Insert(initial);
    }

    method Insert(tokens: seq<int>)
      modifies this`ids
      ensures ids == InsertAll(old(ids), base, capacity, tokens)
    {
      for i := 0 to |tokens|
        invariant ids == InsertAll(old(ids), base, capacity, tokens[..i])
      {
        assert tokens[..i + 1][..i] == tokens[..i];
        if tokens[i] in base {
          continue;
        }
        ids := Without(ids, tokens[i]);
        ids := ids + [tokens[i]];
        if |ids| > capacity {
          ids := ids[1..];
        }
      }
      assert tokens[..|tokens|] == tokens;
    }
  }

  // ----- list facts -----

  lemma {:induction false} WithoutFacts(s: seq<int>, x: int)
    ensures forall y :: y in Without(s, x) <==> y in s && y != x
    ensures NoDup(s) ==> NoDup(Without(s, x))
    ensures x !in s ==> Without(s, x) == s
    ensures NoDup(s) && x in s ==> |Without(s, x)| == |s| - 1
  {
    if s != [] {
      assert s == [s[0]] + s[1..];
      WithoutFacts(s[1..], x);
      if NoDup(s) {
        assert NoDup(s[1..]) && s[0] !in s[1..];
      }
    }
  }

  lemma {:induction false} WithoutAppend(s: seq<int>, t: seq<int>, x: int)
    ensures Without(s + t, x) == Without(s, x) + Without(t, x)
  {
    if s == [] {
      assert s + t == t;
    } else {
      assert (s + t)[1..] == s[1..] + t;
      WithoutAppend(s[1..], t, x);
    }
  }

  lemma {:induction false} InsertAppend(ids: seq<int>, base: set<int>, capacity: nat, xs: seq<int>, ys: seq<int>)
    ensures InsertAll(ids, base, capacity, xs + ys) == InsertAll(InsertAll(ids, base, capacity, xs), base, capacity, ys)
  {
    if ys == [] {
      assert xs + ys == xs;
    } else {
      assert (xs + ys)[..|xs + ys| - 1] == xs + ys[..|ys| - 1];
      InsertAppend(ids, base, capacity, xs, ys[..|ys| - 1]);
    }
  }

  // ----- the meaning of a history of insertions -----

  /** Position of the last use of `token` in `history`. */
  function LastUse(history: seq<int>, token: int): (i: nat)
    requires token in history
    ensures i < |history| && history[i] == token && token !in history[i + 1..]
  {
    var n := |history| - 1;
    if history[n] == token then n
    else
      assert history == history[..n] + [history[n]];
      var i := LastUse(history[..n], token);
      assert history[i + 1..] == history[..n][i + 1..] + [history[n]];
      i
  }

  /** The distinct tokens outside the base. */
  function Distinct(base: set<int>, history: seq<int>): set<int> {
    set x | x in history && x !in base
  }

  /** The distinct tokens outside the base used since the last use of `token`. */
  function Since(base: set<int>, history: seq<int>, token: int): set<int>
    requires token in history
  {
    Distinct(base, history[LastUse(history, token) + 1..])
  }

  /** Used before, with fewer than `capacity` other tokens since. */
  predicate Recent(base: set<int>, capacity: nat, history: seq<int>, token: int) {
    token in history && token !in base && |Since(base, history, token)| < capacity
  }

  lemma SinceNext(base: set<int>, history: seq<int>, x: int, token: int)
    requires token in history && token != x
    ensures token in history + [x]
    ensures Since(base, history + [x], token) == Since(base, history, token) + (if x in base then {} else {x})
  {
    var i := LastUse(history, token);
    assert (history + [x])[..|history|] == history;
    assert LastUse(history + [x], token) == i;
    assert (history + [x])[i + 1..] == history[i + 1..] + [x];
  }

  lemma SinceLast(base: set<int>, history: seq<int>, token: int)
    ensures token in history + [token]
    ensures Since(base, history + [token], token) == {}
  {
  }

  /** All distinct tokens outside the base, least recently used first. */
  function Recency(base: set<int>, history: seq<int>): seq<int> {
    if history == [] then []
    else
      var before, x := Recency(base, history[..|history| - 1]), history[|history| - 1];
      if x in base then before else Without(before, x) + [x]
  }

  lemma {:induction false} RecencyElements(base: set<int>, history: seq<int>)
    ensures NoDup(Recency(base, history))
    ensures Elements(Recency(base, history)) == Distinct(base, history)
  {
    if history != [] {
      var before, x := history[..|history| - 1], history[|history| - 1];
      assert history == before + [x];
      RecencyElements(base, before);
      WithoutFacts(Recency(base, before), x);
      forall y ensures y in Recency(base, history) <==> y in history && y !in base {
        assert y in Recency(base, before) <==> y in Elements(Recency(base, before));
      }
    }
  }

  /** The elements after `token` in a list. */
  function Behind(s: seq<int>, token: int): set<int> {
    if s == [] then {} else if s[0] == token then Elements(s[1..]) else Behind(s[1..], token)
  }

  lemma {:induction false} BehindWithout(s: seq<int>, x: int, token: int)
    requires token in s && token != x
    ensures Behind(Without(s, x), token) == Behind(s, token) - {x}
  {
    assert s == [s[0]] + s[1..];
    WithoutFacts(s[1..], x);
    if s[0] == token {
      assert Without(s, x) == [s[0]] + Without(s[1..], x);
      assert ([s[0]] + Without(s[1..], x))[1..] == Without(s[1..], x);
      forall y ensures y in Elements(Without(s[1..], x)) <==> y in Elements(s[1..]) - {x} {
        assert y in Without(s[1..], x) <==> y in s[1..] && y != x;
      }
    } else {
      BehindWithout(s[1..], x, token);
      if s[0] != x {
        assert Without(s, x)[1..] == Without(s[1..], x);
      }
    }
  }

  lemma {:induction false} BehindSnoc(s: seq<int>, x: int, token: int)
    requires token in s
    ensures Behind(s + [x], token) == Behind(s, token) + {x}
  {
    assert s == [s[0]] + s[1..];
    assert (s + [x])[1..] == s[1..] + [x];
    if s[0] != token {
      BehindSnoc(s[1..], x, token);
    }
  }

  lemma {:induction false} BehindLast(s: seq<int>, token: int)
    requires token !in s
    ensures Behind(s + [token], token) == {}
  {
    if s != [] {
      assert s[0] in s;
      assert (s + [token])[1..] == s[1..] + [token];
      BehindLast(s[1..], token);
    }
  }

  /** The recency order lists after a token exactly what was used since. */
  lemma {:induction false} BehindIsSince(base: set<int>, history: seq<int>, token: int)
    requires token in history && token !in base
    ensures Behind(Recency(base, history), token) == Since(base, history, token)
  {
    var before, x := history[..|history| - 1], history[|history| - 1];
    assert history == before + [x];
    var r := Recency(base, before);
    RecencyElements(base, before);
    WithoutFacts(r, x);
    if x == token {
      BehindLast(Without(r, x), x);
      SinceLast(base, before, x);
    } else {
      BehindIsSince(base, before, token);
      SinceNext(base, before, x, token);
      if x !in base {
        assert token in Elements(r);
        BehindWithout(r, x, token);
        BehindSnoc(Without(r, x), x, token);
      }
    }
  }

  function LastOf(s: seq<int>, n: nat): seq<int> {
    if |s| > n then s[|s| - n..] else s
  }

  lemma {:induction false} InLastOf(s: seq<int>, n: nat, token: int)
    requires NoDup(s)
    ensures token in LastOf(s, n) <==> token in s && |Behind(s, token)| < n
  {
    if s != [] {
      assert s == [s[0]] + s[1..];
      InLastOf(s[1..], n, token);
      NoDupSize(s[1..]);
      if |s| > n {
        assert LastOf(s, n) == LastOf(s[1..], n);
      } else {
        BehindSmall(s, token);
      }
    }
  }

  lemma {:induction false} BehindSmall(s: seq<int>, token: int)
    requires s != [] && NoDup(s)
    ensures |Behind(s, token)| < |s|
  {
    NoDupSize(s[1..]);
    if s[0] != token && |s| > 1 {
      BehindSmall(s[1..], token);
    }
  }

  lemma LastOfAppend(p: seq<int>, s: seq<int>, n: nat)
    requires p == [] || n <= |s|
    ensures LastOf(p + s, n) == LastOf(s, n)
  {
    if p == [] {
      assert p + s == s;
    }
  }

  lemma TouchSplit(gone: seq<int>, kept: seq<int>, capacity: nat, x: int)
    requires NoDup(kept) && |kept| <= capacity && (gone == [] || |kept| == capacity)
    requires x in kept ==> x !in gone
    ensures Touch(kept, capacity, x) == LastOf(Without(gone + kept, x) + [x], capacity)
  {
    var p, moved := Without(gone, x), Without(kept, x) + [x];
    WithoutAppend(gone, kept, x);
    WithoutFacts(gone, x);
    WithoutFacts(kept, x);
    assert Without(gone + kept, x) + [x] == p + moved;
    LastOfAppend(p, moved, capacity);
  }

  /** One insertion keeps the tail a window on the recency order. */
  lemma TouchWindow(r: seq<int>, capacity: nat, x: int)
    requires NoDup(r)
    ensures Touch(LastOf(r, capacity), capacity, x) == LastOf(Without(r, x) + [x], capacity)
  {
    var cut := |r| - |LastOf(r, capacity)|;
    assert r == r[..cut] + r[cut..];
    TouchSplit(r[..cut], r[cut..], capacity, x);
  }

  /** After any history the tail holds the `capacity` most recently used distinct tokens, oldest first. */
  lemma {:induction false} TailIsRecencyWindow(base: set<int>, capacity: nat, history: seq<int>)
    ensures InsertAll([], base, capacity, history) == LastOf(Recency(base, history), capacity)
  {
    if history != [] {
      var before, x := history[..|history| - 1], history[|history| - 1];
      TailIsRecencyWindow(base, capacity, before);
      RecencyElements(base, before);
      if x !in base {
        TouchWindow(Recency(base, before), capacity, x);
      }
    }
  }

  /** A token is in the tail iff fewer than `capacity` distinct other tokens were used since its last use. */
  lemma InTailIffRecent(base: set<int>, capacity: nat, history: seq<int>, token: int)
    ensures token in InsertAll([], base, capacity, history) <==> Recent(base, capacity, history, token)
  {
    TailIsRecencyWindow(base, capacity, history);
    RecencyElements(base, history);
    InLastOf(Recency(base, history), capacity, token);
    assert token in Recency(base, history) <==> token in Elements(Recency(base, history));
    if token in history && token !in base {
      BehindIsSince(base, history, token);
    }
  }

  function Least(a: nat, b: nat): nat { if a < b then a else b }

  lemma TailSize(base: set<int>, capacity: nat, history: seq<int>)
    ensures |InsertAll([], base, capacity, history)| == Least(capacity, |Distinct(base, history)|)
  {
    TailIsRecencyWindow(base, capacity, history);
    RecencyElements(base, history);
    NoDupSize(Recency(base, history));
  }

  // ----- two capacities -----

  /** Every entry of `a` occurs in `b`, in the same order. */
  predicate Subsequence(a: seq<int>, b: seq<int>) {
    a == [] || (b != [] && if a[0] == b[0] then Subsequence(a[1..], b[1..]) else Subsequence(a, b[1..]))
  }

  lemma {:induction false} SubsequenceMember(a: seq<int>, b: seq<int>)
    requires Subsequence(a, b)
    ensures forall x :: x in a ==> x in b
  {
    if a != [] {
      assert a == [a[0]] + a[1..] && b == [b[0]] + b[1..];
      SubsequenceMember(if a[0] == b[0] then a[1..] else a, b[1..]);
    }
  }

  lemma {:induction false} SubsequenceTail(a: seq<int>, b: seq<int>)
    requires a != [] && Subsequence(a, b)
    ensures Subsequence(a[1..], b)
    ensures Subsequence(a[1..], b[1..])
  {
    if a[0] != b[0] {
      SubsequenceTail(a, b[1..]);
    }
    if a[1..] != [] && a[1..][0] == b[0] {
      SubsequenceTail(a[1..], b[1..]);
    }
  }

  lemma SubsequenceCons(a: seq<int>, y: int, b: seq<int>)
    requires Subsequence(a, b)
    ensures Subsequence(a, [y] + b)
  {
    assert ([y] + b)[1..] == b;
    if a != [] {
      SubsequenceTail(a, b);
    }
  }

  lemma {:induction false} SubsequenceWithout(a: seq<int>, b: seq<int>, x: int)
    requires Subsequence(a, b)
    ensures Subsequence(Without(a, x), Without(b, x))
  {
    if a != [] {
      if a[0] == b[0] {
        SubsequenceWithout(a[1..], b[1..], x);
        assert ([a[0]] + Without(a[1..], x))[1..] == Without(a[1..], x);
        assert ([b[0]] + Without(b[1..], x))[1..] == Without(b[1..], x);
      } else {
        SubsequenceWithout(a, b[1..], x);
        SubsequenceCons(Without(a, x), b[0], Without(b[1..], x));
      }
    }
  }

  lemma {:induction false} SubsequenceSnoc(a: seq<int>, b: seq<int>, x: int)
    requires Subsequence(a, b)
    ensures Subsequence(a + [x], b + [x])
  {
    if b != [] {
      assert (b + [x])[1..] == b[1..] + [x];
      if a == [] {
        SubsequenceSnoc(a, b[1..], x);
        SubsequenceCons(a + [x], b[0], b[1..] + [x]);
        assert b + [x] == [b[0]] + (b[1..] + [x]);
      } else {
        assert (a + [x])[1..] == a[1..] + [x];
        SubsequenceSnoc(if a[0] == b[0] then a[1..] else a, b[1..], x);
      }
    }
  }

  lemma {:induction false} SubsequencePrefix(a: seq<int>, b: seq<int>)
    ensures Subsequence(a, a + b)
  {
    if a != [] {
      assert (a + b)[1..] == a[1..] + b;
      SubsequencePrefix(a[1..], b);
    }
  }

  /** A smaller tail inside a larger one, no further from its capacity than the larger is from its own. */
  ghost predicate Inside(a: seq<int>, small: nat, b: seq<int>, large: nat) {
    && NoDup(a) && NoDup(b) && |a| <= small && |b| <= large
    && Subsequence(a, b)
    && small - |a| <= large - |b|
  }

  lemma {:induction false} NoDupSnoc(s: seq<int>, x: int)
    requires NoDup(s)
    ensures NoDup(Without(s, x) + [x])
  {
    WithoutFacts(s, x);
  }

  lemma InsideStep(a: seq<int>, small: nat, b: seq<int>, large: nat, x: int)
    requires Inside(a, small, b, large)
    ensures Inside(Touch(a, small, x), small, Touch(b, large, x), large)
  {
    var a', b' := Without(a, x) + [x], Without(b, x) + [x];
    WithoutFacts(a, x);
    WithoutFacts(b, x);
    NoDupSnoc(a, x);
    NoDupSnoc(b, x);
    SubsequenceMember(a, b);
    SubsequenceWithout(a, b, x);
    SubsequenceSnoc(Without(a, x), Without(b, x), x);
    SubsequenceTail(a', b');
  }

  lemma {:induction false} InsideRun(a: seq<int>, small: nat, b: seq<int>, large: nat, base: set<int>, tokens: seq<int>)
    requires Inside(a, small, b, large)
    ensures Inside(InsertAll(a, base, small, tokens), small, InsertAll(b, base, large, tokens), large)
  {
    if tokens != [] {
      var before, x := tokens[..|tokens| - 1], tokens[|tokens| - 1];
      InsideRun(a, small, b, large, base, before);
      if x !in base {
        InsideStep(InsertAll(a, base, small, before), small, InsertAll(b, base, large, before), large, x);
      }
    }
  }

  /** A slice that stops at the end of the list, as the source's slices do. */
  function Slice(s: seq<int>, from: nat, n: nat): seq<int> {
    s[Least(from, |s|)..Least(from + n, |s|)]
  }

  function BaseOf(ranking: seq<int>, baseSize: nat): set<int> {
    Elements(Slice(ranking, 0, baseSize))
  }

  function SeedOf(ranking: seq<int>, baseSize: nat, tailSize: nat): seq<int> {
    Slice(ranking, baseSize, tailSize)
  }

  lemma {:induction false} SeedStays(base: set<int>, capacity: nat, seed: seq<int>)
    requires NoDup(seed) && |seed| <= capacity && forall x :: x in seed ==> x !in base
    ensures InsertAll([], base, capacity, seed) == seed
  {
    if seed != [] {
      var before, x := seed[..|seed| - 1], seed[|seed| - 1];
      assert seed == before + [x] && x in seed;
      SeedStays(base, capacity, before);
      assert x !in before;
      WithoutFacts(before, x);
    }
  }

  lemma SeedFacts(ranking: seq<int>, baseSize: nat, tailSize: nat)
    requires NoDup(ranking)
    ensures var base, seed := BaseOf(ranking, baseSize), SeedOf(ranking, baseSize, tailSize);
            InsertAll([], base, tailSize, seed) == seed && NoDup(seed) && |seed| <= tailSize
  {
    var base, seed := BaseOf(ranking, baseSize), SeedOf(ranking, baseSize, tailSize);
    var lo := Least(baseSize, |ranking|);
    forall x | x in seed ensures x !in base {
      var i :| 0 <= i < |seed| && seed[i] == x;
      assert ranking[lo + i] == x;
      forall j | 0 <= j < lo ensures Slice(ranking, 0, baseSize)[j] != x {
        assert ranking[j] != ranking[lo + i];
      }
    }
    SeedStays(base, tailSize, seed);
  }

  /** A larger tail's seed continues the smaller one's. */
  lemma SeedGrows(ranking: seq<int>, baseSize: nat, small: nat, large: nat)
    requires small <= large
    ensures var a, b := SeedOf(ranking, baseSize, small), SeedOf(ranking, baseSize, large);
            |a| <= |b| && b == a + b[|a|..]
  {
  }

  /**
   * Although each size is seeded with its own slice of the ranking, the smaller tail stays an ordered part
   * of the larger one under any common stream of insertions.
   */
  lemma TailInclusion(ranking: seq<int>, baseSize: nat, small: nat, large: nat, tokens: seq<int>)
    requires NoDup(ranking) && small <= large
    ensures var base := BaseOf(ranking, baseSize);
            Inside(InsertAll([], base, small, SeedOf(ranking, baseSize, small) + tokens), small,
                   InsertAll([], base, large, SeedOf(ranking, baseSize, large) + tokens), large)
  {
    var base := BaseOf(ranking, baseSize);
    var a, b := SeedOf(ranking, baseSize, small), SeedOf(ranking, baseSize, large);
    SeedFacts(ranking, baseSize, small);
    SeedFacts(ranking, baseSize, large);
    SeedGrows(ranking, baseSize, small, large);
    SubsequencePrefix(a, b[|a|..]);
    InsideRun(a, small, b, large, base, tokens);
    InsertAppend([], base, small, a, tokens);
    InsertAppend([], base, large, b, tokens);
  }

  /** Hence whatever is recent for the smaller size is recent for the larger. */
  lemma RecentMonotone(ranking: seq<int>, baseSize: nat, small: nat, large: nat, tokens: seq<int>, token: int)
    requires NoDup(ranking) && small <= large
    requires Recent(BaseOf(ranking, baseSize), small, SeedOf(ranking, baseSize, small) + tokens, token)
    ensures Recent(BaseOf(ranking, baseSize), large, SeedOf(ranking, baseSize, large) + tokens, token)
  {
    var base := BaseOf(ranking, baseSize);
    var a, b := SeedOf(ranking, baseSize, small) + tokens, SeedOf(ranking, baseSize, large) + tokens;
    TailInclusion(ranking, baseSize, small, large, tokens);
    SubsequenceMember(InsertAll([], base, small, a), InsertAll([], base, large, b));
    InTailIffRecent(base, small, a, token);
    InTailIffRecent(base, large, b, token);
  }
}
