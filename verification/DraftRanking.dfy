/** The draft-vocabulary ranking, its shards, and the subsets selected from it. */
module DraftRanking {
  import opened Sorting
  import opened IntegerFacts
  import S = Spans

  /** Training counts, background counts and the mandatory token ids; a missing count is zero. */
  datatype Statistics = Statistics(counts: map<int, nat>, background: map<int, nat>, mandatory: set<int>)

  function CountOf(m: map<int, nat>, id: int): nat {
    if id in m then m[id] else 0
  }

  /** Mandatory first, then by training count, then by background count, then by id. */
  predicate RanksBefore(p: Statistics, x: int, y: int) {
    if (x in p.mandatory) != (y in p.mandatory) then x in p.mandatory
    else if CountOf(p.counts, x) != CountOf(p.counts, y) then CountOf(p.counts, x) > CountOf(p.counts, y)
    else if CountOf(p.background, x) != CountOf(p.background, y)
      then CountOf(p.background, x) > CountOf(p.background, y)
    else x <= y
  }

  function Ids(lo: int, hi: int): (r: seq<int>)
    ensures |r| == if lo < hi then hi - lo else 0
    ensures forall i :: 0 <= i < |r| ==> r[i] == lo + i
  {
    if lo < hi then seq(hi - lo, i => lo + i) else []
  }

  function Order(p: Statistics): (int, int) -> bool {
    (x, y) => RanksBefore(p, x, y)
  }

  function RankIds(p: Statistics, lo: int, hi: int): seq<int> {
    Sort(Ids(lo, hi), Order(p))
  }

  lemma RankOrder(p: Statistics)
    ensures TotalPreorder(Order(p)) && Antisymmetric(Order(p))
  {
  }

  /** The ranking lists every id of the range once, best first. */
  lemma RankingMeaning(p: Statistics, lo: int, hi: int)
    ensures var r := RankIds(p, lo, hi);
            && |r| == |Ids(lo, hi)| && NoDup(r)
            && (forall x :: x in r <==> lo <= x < hi)
            && (forall i, j :: 0 <= i < j < |r| ==> RanksBefore(p, r[i], r[j]))
  {
    var ids, r := Ids(lo, hi), RankIds(p, lo, hi);
    RankOrder(p);
    SortCorrect(ids, Order(p));
    SameLength(r, ids);
    forall x ensures x in r <==> lo <= x < hi {
      assert x in r <==> x in multiset(r);
      assert x in ids <==> x in multiset(ids);
      if lo <= x < hi {
        assert ids[x - lo] == x;
      }
    }
    forall i, j | 0 <= i < j < |r| ensures r[i] != r[j] && RanksBefore(p, r[i], r[j]) {
      assert Order(p)(r[i], r[j]);
      DistinctByMultiset(ids, r, i, j);
    }
  }

  /** A ranking in the terms of its sort key: mandatory ids, then training count, background count and id. */
  lemma RankingOrder(p: Statistics, lo: int, hi: int, i: nat, j: nat)
    requires i < j < |RankIds(p, lo, hi)|
    ensures var x, y := RankIds(p, lo, hi)[i], RankIds(p, lo, hi)[j];
            var cx, cy := if x in p.counts then p.counts[x] else 0, if y in p.counts then p.counts[y] else 0;
            var backX, backY := if x in p.background then p.background[x] else 0,
                           if y in p.background then p.background[y] else 0;
            && (y in p.mandatory ==> x in p.mandatory)
            && ((x in p.mandatory) == (y in p.mandatory) ==> cx >= cy)
            && ((x in p.mandatory) == (y in p.mandatory) && cx == cy ==> backX >= backY)
            && ((x in p.mandatory) == (y in p.mandatory) && cx == cy && backX == backY ==> x < y)
  {
    RankingMeaning(p, lo, hi);
    assert RanksBefore(p, RankIds(p, lo, hi)[i], RankIds(p, lo, hi)[j]);
  }

  lemma DistinctByMultiset(ids: seq<int>, r: seq<int>, i: nat, j: nat)
    requires NoDup(ids) && multiset(r) == multiset(ids) && i < j < |r|
    ensures r[i] != r[j]
  {
    assert r == r[..i] + [r[i]] + r[i + 1..j] + [r[j]] + r[j + 1..];
    if r[i] == r[j] {
      assert multiset(r)[r[i]] >= 2;
      OnceEach(ids, r[i]);
      assert false;
    }
  }

  lemma {:induction false} OnceEach(ids: seq<int>, x: int)
    requires NoDup(ids)
    ensures multiset(ids)[x] <= 1
  {
    if ids != [] {
      assert ids == [ids[0]] + ids[1..];
      OnceEach(ids[1..], x);
      assert ids[0] !in ids[1..];
    }
  }

  // ----- shards -----

  function Filter(s: seq<int>, lo: int, hi: int): seq<int> {
    if s == [] then [] else (if lo <= s[0] < hi then [s[0]] else []) + Filter(s[1..], lo, hi)
  }

  lemma {:induction false} FilterAppend(s: seq<int>, t: seq<int>, lo: int, hi: int)
    ensures Filter(s + t, lo, hi) == Filter(s, lo, hi) + Filter(t, lo, hi)
  {
    if s == [] {
      assert s + t == t;
    } else {
      assert (s + t)[1..] == s[1..] + t;
      FilterAppend(s[1..], t, lo, hi);
    }
  }

  lemma {:induction false} FilterMember(s: seq<int>, lo: int, hi: int)
    ensures forall x :: x in Filter(s, lo, hi) <==> x in s && lo <= x < hi
  {
    if s != [] {
      FilterMember(s[1..], lo, hi);
      assert s == [s[0]] + s[1..];
    }
  }

  lemma FilterCons(x: int, s: seq<int>, lo: int, hi: int)
    ensures Filter([x] + s, lo, hi) == if lo <= x < hi then [x] + Filter(s, lo, hi) else Filter(s, lo, hi)
  {
    assert ([x] + s)[1..] == s;
  }

  /** Inserting and then restricting is restricting and then inserting. */
  lemma {:induction false} InsertFilter(x: int, s: seq<int>, le: (int, int) -> bool, lo: int, hi: int)
    requires TotalPreorder(le) && Ordered(s, le)
    ensures Filter(Insert(x, s, le), lo, hi)
         == if lo <= x < hi then Insert(x, Filter(s, lo, hi), le) else Filter(s, lo, hi)
  {
    if s == [] || le(x, s[0]) {
      FilterCons(x, s, lo, hi);
      InsertInFront(x, s, le, lo, hi);
    } else {
      var rest := Insert(x, s[1..], le);
      InsertFilter(x, s[1..], le, lo, hi);
      FilterCons(s[0], rest, lo, hi);
      FilterCons(s[0], s[1..], lo, hi);
      assert s == [s[0]] + s[1..];
      if lo <= s[0] < hi {
        assert ([s[0]] + Filter(s[1..], lo, hi))[1..] == Filter(s[1..], lo, hi);
      }
    }
  }

  lemma InsertInFront(x: int, s: seq<int>, le: (int, int) -> bool, lo: int, hi: int)
    requires TotalPreorder(le) && Ordered(s, le) && (s == [] || le(x, s[0]))
    ensures Insert(x, Filter(s, lo, hi), le) == [x] + Filter(s, lo, hi)
  {
    var f := Filter(s, lo, hi);
    FilterMember(s, lo, hi);
    if f != [] {
      assert f[0] in f;
      var i :| 0 <= i < |s| && s[i] == f[0];
      assert le(x, s[0]) && (i > 0 ==> le(s[0], s[i]));
    }
  }

  lemma SortCons(x: int, s: seq<int>, le: (int, int) -> bool)
    ensures Sort([x] + s, le) == Insert(x, Sort(s, le), le)
  {
    assert ([x] + s)[1..] == s;
  }

  lemma {:induction false} SortFilter(s: seq<int>, le: (int, int) -> bool, lo: int, hi: int)
    requires TotalPreorder(le)
    ensures Filter(Sort(s, le), lo, hi) == Sort(Filter(s, lo, hi), le)
  {
    if s != [] {
      var rest, sorted := s[1..], Sort(s[1..], le);
      SortFilter(rest, le, lo, hi);
      SortCorrect(rest, le);
      InsertFilter(s[0], sorted, le, lo, hi);
      FilterCons(s[0], rest, lo, hi);
      assert s == [s[0]] + rest && Sort(s, le) == Insert(s[0], sorted, le);
      if lo <= s[0] < hi {
        SortCons(s[0], Filter(rest, lo, hi), le);
      }
    }
  }

  lemma {:induction false} FilterIds(first: int, last: int, lo: int, hi: int)
    requires first <= lo && hi <= last
    ensures Filter(Ids(first, last), lo, hi) == Ids(lo, hi)
    decreases last - first
  {
    if first < last {
      var rest := Ids(first + 1, last);
      assert Ids(first, last) == [first] + rest;
      assert ([first] + rest)[1..] == rest;
      if hi <= lo {
        NoneInside(Ids(first, last), lo, hi);
      } else if first < lo {
        FilterIds(first + 1, last, lo, hi);
      } else {
        FilterIds(first + 1, last, lo + 1, hi);
        FilterFrom(rest, lo, hi);
        assert Ids(lo, hi) == [lo] + Ids(lo + 1, hi);
      }
    }
  }

  lemma {:induction false} FilterFrom(s: seq<int>, lo: int, hi: int)
    requires forall i :: 0 <= i < |s| ==> s[i] > lo
    ensures Filter(s, lo, hi) == Filter(s, lo + 1, hi)
  {
    if s != [] {
      FilterFrom(s[1..], lo, hi);
    }
  }

  lemma {:induction false} NoneInside(s: seq<int>, lo: int, hi: int)
    requires hi <= lo
    ensures Filter(s, lo, hi) == []
  {
    if s != [] {
      NoneInside(s[1..], lo, hi);
    }
  }

  /** The ranking of a shard is the global ranking restricted to the shard. */
  lemma LocalIsRestriction(p: Statistics, vocab: nat, lo: int, hi: int)
    requires 0 <= lo && hi <= vocab
    ensures RankIds(p, lo, hi) == Filter(RankIds(p, 0, vocab), lo, hi)
  {
    RankOrder(p);
    SortFilter(Ids(0, vocab), Order(p), lo, hi);
    FilterIds(0, vocab, lo, hi);
  }

  /** The global top `k` meets a shard in a prefix of the shard's own ranking. */
  lemma TopMeetsShardInPrefix(p: Statistics, vocab: nat, lo: int, hi: int, k: nat)
    requires 0 <= lo && hi <= vocab && k <= |RankIds(p, 0, vocab)|
    ensures var inShard := Filter(RankIds(p, 0, vocab)[..k], lo, hi);
            |inShard| <= |RankIds(p, lo, hi)| && inShard == RankIds(p, lo, hi)[..|inShard|]
  {
    var r := RankIds(p, 0, vocab);
    LocalIsRestriction(p, vocab, lo, hi);
    assert r == r[..k] + r[k..];
    FilterAppend(r[..k], r[k..], lo, hi);
  }

  function ShardWidth(vocab: nat, tp: nat): nat
    requires tp > 0
  {
    (vocab + tp - 1) / tp
  }

  function ShardStart(vocab: nat, tp: nat, rank: nat): nat
    requires tp > 0
  {
    rank * ShardWidth(vocab, tp)
  }

  function ShardEnd(vocab: nat, tp: nat, rank: nat): nat
    requires tp > 0
  {
    var end := ShardStart(vocab, tp, rank) + ShardWidth(vocab, tp);
    if end < vocab then end else vocab
  }

  predicate InShard(vocab: nat, tp: nat, rank: nat, id: int)
    requires tp > 0
  {
    ShardStart(vocab, tp, rank) <= id < ShardEnd(vocab, tp, rank)
  }

  lemma WidthCovers(vocab: nat, tp: nat)
    requires tp > 0
    ensures vocab <= tp * ShardWidth(vocab, tp)
    ensures vocab > 0 ==> ShardWidth(vocab, tp) > 0
  {
    var a := vocab + tp - 1;
    assert a == tp * (a / tp) + a % tp;
  }

  /** The shard width is the least one with which the ranks cover the vocabulary. */
  lemma WidthIsLeast(vocab: nat, tp: nat, w: nat)
    requires tp > 0
    ensures vocab <= w * tp <==> ShardWidth(vocab, tp) <= w
  {
    var least := ShardWidth(vocab, tp);
    WidthCovers(vocab, tp);
    QuotientBounds(vocab + tp - 1, tp);
    if least <= w {
      Grow(least, w, tp);
    } else {
      OneMore(w, tp);
      Grow(w + 1, least, tp);
    }
  }

  /** Every id lies in exactly one shard. */
  lemma ShardsPartition(vocab: nat, tp: nat, id: nat, r: nat)
    requires tp > 0 && id < vocab
    ensures ShardWidth(vocab, tp) > 0
    ensures var owner := id / ShardWidth(vocab, tp);
            owner < tp && (InShard(vocab, tp, r, id) <==> r == owner)
  {
    var w := ShardWidth(vocab, tp);
    WidthCovers(vocab, tp);
    QuotientBelow(id, w, tp);
    RangeOf(id, w, r);
  }

  // ----- optimality of the global prefix -----

  /** Training occurrences covered by a set of ids. */
  ghost function Covered(p: Statistics, s: set<int>): nat {
    if s == {} then 0
    else
      var x := Some(s);
      CountOf(p.counts, x) + Covered(p, s - {x})
  }

  ghost function Some(s: set<int>): (x: int)
    requires s != {}
    ensures x in s
  {
    SomeExists(s);
    var x :| x in s;
    x
  }

  lemma SomeExists(s: set<int>)
    requires s != {}
    ensures exists x :: x in s
  {
    var x := Pick(s);
    assert x in s;
  }

  lemma {:induction false} CoveredWithout(p: Statistics, s: set<int>, x: int)
    requires x in s
    ensures Covered(p, s) == CountOf(p.counts, x) + Covered(p, s - {x})
    decreases |s|
  {
    var y := Some(s);
    if y != x {
      CoveredWithout(p, s - {y}, x);
      assert s - {y} - {x} == s - {x} - {y};
      CoveredWithout(p, s - {x}, y);
    }
  }

  lemma {:induction false} CoveredUnion(p: Statistics, s: set<int>, t: set<int>)
    requires s !! t
    ensures Covered(p, s + t) == Covered(p, s) + Covered(p, t)
  {
    if s == {} {
      assert s + t == t;
    } else {
      var x := Some(s);
      CoveredUnion(p, s - {x}, t);
      CoveredWithout(p, s + t, x);
      assert s + t - {x} == (s - {x}) + t;
    }
  }

  /** If every member of `a` counts at least as much as every member of `b`, so does `a` as a whole. */
  lemma {:induction false} PairwiseDominates(p: Statistics, a: set<int>, b: set<int>)
    requires |a| == |b|
    requires forall x, y :: x in a && y in b ==> CountOf(p.counts, y) <= CountOf(p.counts, x)
    ensures Covered(p, b) <= Covered(p, a)
    decreases |a|
  {
    if a == {} {
      assert b == {};
    } else {
      assert |b| > 0 && b != {};
      var x, y := Some(a), Some(b);
      CoveredWithout(p, a, x);
      CoveredWithout(p, b, y);
      PairwiseDominates(p, a - {x}, b - {y});
    }
  }

  lemma CoveredSplit(p: Statistics, s: set<int>, t: set<int>)
    ensures Covered(p, s) == Covered(p, s - t) + Covered(p, s * t)
    ensures |s| == |s - t| + |s * t|
  {
    assert s == (s - t) + s * t;
    CoveredUnion(p, s - t, s * t);
  }

  /**
   * The global prefix covers the most training occurrences among all sets of its size that contain every
   * mandatory id (or, when the prefix is too short for that, hold only mandatory ids).
   */
  lemma PrefixIsOptimal(p: Statistics, vocab: nat, k: nat, chosen: set<int>)
    requires k <= |RankIds(p, 0, vocab)| && |chosen| == k && forall x :: x in chosen ==> 0 <= x < vocab
    requires (forall x :: x in p.mandatory && 0 <= x < vocab ==> x in chosen) || chosen <= p.mandatory
    ensures Covered(p, chosen) <= Covered(p, Elements(RankIds(p, 0, vocab)[..k]))
  {
    var r := RankIds(p, 0, vocab);
    var top := Elements(r[..k]);
    RankingMeaning(p, 0, vocab);
    NoDupSize(r[..k]);
    var a, b := top - chosen, chosen - top;
    CoveredSplit(p, top, chosen);
    CoveredSplit(p, chosen, top);
    assert top * chosen == chosen * top;
    forall x, y | x in a && y in b ensures CountOf(p.counts, y) <= CountOf(p.counts, x) {
      ExchangeLoses(p, vocab, k, chosen, x, y);
    }
    PairwiseDominates(p, a, b);
  }

  /** Replacing an id of the prefix by one from outside it never covers more, if mandatory ids are respected. */
  lemma ExchangeLoses(p: Statistics, vocab: nat, k: nat, chosen: set<int>, x: int, y: int)
    requires k <= |RankIds(p, 0, vocab)| && x in RankIds(p, 0, vocab)[..k] && x !in chosen
    requires 0 <= y < vocab && y !in RankIds(p, 0, vocab)[..k] && y in chosen
    requires (forall z :: z in p.mandatory && 0 <= z < vocab ==> z in chosen) || chosen <= p.mandatory
    ensures CountOf(p.counts, y) <= CountOf(p.counts, x)
  {
    TopBeatsRest(p, vocab, k, x, y);
    RankingMeaning(p, 0, vocab);
    assert x in RankIds(p, 0, vocab);
    if chosen <= p.mandatory {
      assert y in p.mandatory;
    } else {
      assert x !in p.mandatory;
    }
  }

  lemma TopBeatsRest(p: Statistics, vocab: nat, k: nat, x: int, y: int)
    requires k <= |RankIds(p, 0, vocab)| && x in RankIds(p, 0, vocab)[..k]
    requires 0 <= y < vocab && y !in RankIds(p, 0, vocab)[..k]
    ensures RanksBefore(p, x, y)
  {
    var r := RankIds(p, 0, vocab);
    RankingMeaning(p, 0, vocab);
    var i :| 0 <= i < k && r[i] == x;
    assert y in r;
    var j :| 0 <= j < |r| && r[j] == y;
    assert forall l :: 0 <= l < k ==> r[..k][l] == r[l];
  }

  // ----- balanced selection -----

  function Quota(k: nat, tp: nat, rank: nat): nat
    requires tp > 0
  {
    k / tp + (if rank < k % tp then 1 else 0)
  }

  function QuotaSum(k: nat, tp: nat, ranks: nat): nat
    requires tp > 0
  {
    if ranks == 0 then 0 else QuotaSum(k, tp, ranks - 1) + Quota(k, tp, ranks - 1)
  }

  lemma {:induction false} QuotaPrefix(k: nat, tp: nat, ranks: nat, each: nat, more: nat)
    requires tp > 0 && ranks <= tp && each == k / tp && more == k % tp
    ensures QuotaSum(k, tp, ranks) == Product(ranks, each) + (if ranks < more then ranks else more)
  {
    if ranks > 0 {
      QuotaPrefix(k, tp, ranks - 1, each, more);
      OneMore(ranks - 1, each);
      assert Quota(k, tp, ranks - 1) == each + (if ranks - 1 < more then 1 else 0);
    }
  }

  /** The quotas add up to the subset size. */
  lemma QuotasSum(k: nat, tp: nat)
    requires tp > 0
    ensures QuotaSum(k, tp, tp) == k
  {
    QuotaPrefix(k, tp, tp, k / tp, k % tp);
    QuotientBounds(k, tp);
  }

  /** Earlier ranks take no less than later ones, and at most one more. */
  lemma QuotasEven(k: nat, tp: nat, r: nat, s: nat)
    requires r <= s < tp
    ensures Quota(k, tp, s) <= Quota(k, tp, r) <= Quota(k, tp, s) + 1
  {
  }

  function ShardSize(vocab: nat, tp: nat, rank: nat): nat
    requires tp > 0
  {
    |Ids(ShardStart(vocab, tp, rank), ShardEnd(vocab, tp, rank))|
  }

  function Smaller(a: nat, b: nat): nat { if a < b then a else b }

  function SelectedSum(k: nat, vocab: nat, tp: nat, ranks: nat): nat
    requires tp > 0
  {
    if ranks == 0 then 0
    else SelectedSum(k, vocab, tp, ranks - 1) + Smaller(Quota(k, tp, ranks - 1), ShardSize(vocab, tp, ranks - 1))
  }

  /** The first `quota` entries of a shard's ranking. */
  function RankPick(p: Statistics, vocab: nat, tp: nat, k: nat, rank: nat): seq<int>
    requires tp > 0
  {
    var local := RankIds(p, ShardStart(vocab, tp, rank), ShardEnd(vocab, tp, rank));
    local[..Smaller(Quota(k, tp, rank), |local|)]
  }

  /** The picks of the first `ranks` ranks. */
  function Picks(p: Statistics, vocab: nat, tp: nat, k: nat, ranks: nat): (r: seq<seq<int>>)
    requires tp > 0
    ensures |r| == ranks && forall i :: 0 <= i < ranks ==> r[i] == RankPick(p, vocab, tp, k, i)
  {
    if ranks == 0 then [] else Picks(p, vocab, tp, k, ranks - 1) + [RankPick(p, vocab, tp, k, ranks - 1)]
  }

  /** All ids of several lists. */
  function Union(lists: seq<seq<int>>): set<int> {
    if lists == [] then {} else Union(lists[..|lists| - 1]) + Elements(lists[|lists| - 1])
  }

  function Balanced(p: Statistics, vocab: nat, tp: nat, k: nat): set<int>
    requires tp > 0
  {
    Union(Picks(p, vocab, tp, k, tp))
  }

  /** Every rank's pick and the set of all picked ids. */
  method BalancedSelection(p: Statistics, vocab: nat, tp: nat, k: nat)
    returns (byRank: seq<seq<int>>, selected: set<int>)
    requires tp > 0
    ensures |byRank| == tp && forall r :: 0 <= r < tp ==> byRank[r] == RankPick(p, vocab, tp, k, r)
    ensures selected == Balanced(p, vocab, tp, k)
  {
    byRank := [];
    for rank := 0 to tp
      invariant byRank == Picks(p, vocab, tp, k, rank)
    {
      var local := RankIds(p, ShardStart(vocab, tp, rank), ShardEnd(vocab, tp, rank));
      var pick := local[..Smaller(Quota(k, tp, rank), |local|)];
      assert pick == RankPick(p, vocab, tp, k, rank);
      byRank := byRank + [pick];
    }
    selected := Union(byRank);
  }

  // ----- how many ids are selected -----

  function Lengths(lists: seq<seq<int>>): nat {
    if lists == [] then 0 else Lengths(lists[..|lists| - 1]) + |lists[|lists| - 1]|
  }

  /** No id twice, in one list or in two. */
  ghost predicate Apart(lists: seq<seq<int>>) {
    && (forall i :: 0 <= i < |lists| ==> NoDup(lists[i]))
    && (forall i, j :: 0 <= i < j < |lists| ==> Elements(lists[i]) !! Elements(lists[j]))
  }

  lemma {:induction false} UnionMember(lists: seq<seq<int>>, x: int)
    requires x in Union(lists)
    ensures exists i :: 0 <= i < |lists| && x in Elements(lists[i])
  {
    var n := |lists| - 1;
    if x !in Elements(lists[n]) {
      UnionMember(lists[..n], x);
      var i :| 0 <= i < n && x in Elements(lists[..n][i]);
      assert x in Elements(lists[i]);
    }
  }

  lemma {:induction false} UnionSize(lists: seq<seq<int>>)
    requires Apart(lists)
    ensures |Union(lists)| == Lengths(lists)
  {
    if lists != [] {
      var n := |lists| - 1;
      UnionSize(lists[..n]);
      NoDupSize(lists[n]);
      forall x | x in Union(lists[..n]) ensures x !in Elements(lists[n]) {
        UnionMember(lists[..n], x);
        var i :| 0 <= i < n && x in Elements(lists[..n][i]);
        assert Elements(lists[i]) !! Elements(lists[n]);
      }
      S.DisjointUnionSize(Union(lists[..n]), Elements(lists[n]));
    }
  }

  /** A pick has no repetition, stays in its shard, and is as long as quota and shard allow. */
  lemma PickMeaning(p: Statistics, vocab: nat, tp: nat, k: nat, rank: nat)
    requires tp > 0
    ensures var pick := RankPick(p, vocab, tp, k, rank);
            && NoDup(pick) && |pick| == Smaller(Quota(k, tp, rank), ShardSize(vocab, tp, rank))
            && forall x :: x in pick ==> InShard(vocab, tp, rank, x)
  {
    var start, end := ShardStart(vocab, tp, rank), ShardEnd(vocab, tp, rank);
    var local, pick := RankIds(p, start, end), RankPick(p, vocab, tp, k, rank);
    RankingMeaning(p, start, end);
    forall x | x in pick ensures x in local {
    }
  }

  lemma PicksDisjoint(p: Statistics, vocab: nat, tp: nat, k: nat, i: nat, j: nat)
    requires i < j < tp
    ensures Elements(RankPick(p, vocab, tp, k, i)) !! Elements(RankPick(p, vocab, tp, k, j))
  {
    PickMeaning(p, vocab, tp, k, i);
    PickMeaning(p, vocab, tp, k, j);
    forall x | x in RankPick(p, vocab, tp, k, i) ensures x !in RankPick(p, vocab, tp, k, j) {
      ShardsPartition(vocab, tp, x, i);
      ShardsPartition(vocab, tp, x, j);
    }
  }

  lemma PicksApart(p: Statistics, vocab: nat, tp: nat, k: nat)
    requires tp > 0
    ensures Apart(Picks(p, vocab, tp, k, tp))
  {
    var lists := Picks(p, vocab, tp, k, tp);
    forall i | 0 <= i < tp ensures NoDup(lists[i]) {
      PickMeaning(p, vocab, tp, k, i);
    }
    forall i, j | 0 <= i < j < tp ensures Elements(lists[i]) !! Elements(lists[j]) {
      PicksDisjoint(p, vocab, tp, k, i, j);
    }
  }

  lemma {:induction false} PicksLength(p: Statistics, vocab: nat, tp: nat, k: nat, ranks: nat)
    requires tp > 0
    ensures Lengths(Picks(p, vocab, tp, k, ranks)) == SelectedSum(k, vocab, tp, ranks)
  {
    if ranks > 0 {
      PicksLength(p, vocab, tp, k, ranks - 1);
      PickMeaning(p, vocab, tp, k, ranks - 1);
      var before, last := Picks(p, vocab, tp, k, ranks - 1), RankPick(p, vocab, tp, k, ranks - 1);
      assert (before + [last])[..ranks - 1] == before;
    }
  }

  /** The picks of different ranks share no id, so the selected set is as large as the picks together. */
  lemma BalancedSize(p: Statistics, vocab: nat, tp: nat, k: nat)
    requires tp > 0
    ensures |Balanced(p, vocab, tp, k)| == SelectedSum(k, vocab, tp, tp)
  {
    PicksApart(p, vocab, tp, k);
    UnionSize(Picks(p, vocab, tp, k, tp));
    PicksLength(p, vocab, tp, k, tp);
  }

  lemma {:induction false} SelectedAtMostQuota(k: nat, vocab: nat, tp: nat, ranks: nat)
    requires tp > 0
    ensures SelectedSum(k, vocab, tp, ranks) <= QuotaSum(k, tp, ranks)
    ensures SelectedSum(k, vocab, tp, ranks) == QuotaSum(k, tp, ranks) <==>
            forall r :: 0 <= r < ranks ==> Quota(k, tp, r) <= ShardSize(vocab, tp, r)
  {
    if ranks > 0 {
      SelectedAtMostQuota(k, vocab, tp, ranks - 1);
    }
  }

  /** The balanced selection holds the requested number of ids exactly when no shard is smaller than its quota. */
  lemma BalancedIsFullIff(p: Statistics, k: nat, vocab: nat, tp: nat)
    requires tp > 0
    ensures |Balanced(p, vocab, tp, k)| <= k
    ensures |Balanced(p, vocab, tp, k)| == k <==> forall r :: 0 <= r < tp ==> Quota(k, tp, r) <= ShardSize(vocab, tp, r)
  {
    BalancedSize(p, vocab, tp, k);
    QuotasSum(k, tp);
    SelectedAtMostQuota(k, vocab, tp, tp);
  }

  /** In particular when the ranks divide the vocabulary evenly. */
  lemma EvenShardsAreFull(p: Statistics, k: nat, vocab: nat, tp: nat)
    requires tp > 0 && vocab % tp == 0 && k <= vocab
    ensures |Balanced(p, vocab, tp, k)| == k
  {
    forall r | 0 <= r < tp ensures Quota(k, tp, r) <= ShardSize(vocab, tp, r) {
      EvenShard(k, vocab, tp, r);
    }
    BalancedIsFullIff(p, k, vocab, tp);
  }

  lemma EvenShard(k: nat, vocab: nat, tp: nat, r: nat)
    requires tp > 0 && vocab % tp == 0 && k <= vocab && r < tp
    ensures ShardSize(vocab, tp, r) == vocab / tp
    ensures Quota(k, tp, r) <= ShardSize(vocab, tp, r)
  {
    var w := vocab / tp;
    assert vocab == tp * w;
    EvenWidth(vocab, tp, w);
    Grow(r + 1, tp, w);
    assert (r + 1) * w == r * w + w;
    QuotaFits(k, tp, w, r);
  }

  lemma EvenWidth(vocab: nat, tp: nat, w: nat)
    requires tp > 0 && vocab == tp * w
    ensures ShardWidth(vocab, tp) == w
  {
    var a := vocab + tp - 1;
    assert a == tp * (a / tp) + a % tp;
    var q := a / tp;
    assert (q + 1) * tp == q * tp + tp && (w + 1) * tp == w * tp + tp;
    if q < w {
      Grow(q + 1, w, tp);
      assert false;
    }
    if q > w {
      Grow(w + 1, q, tp);
      assert false;
    }
  }

  lemma QuotaFits(k: nat, tp: nat, w: nat, r: nat)
    requires tp > 0 && k <= tp * w && r < tp
    ensures Quota(k, tp, r) <= w
  {
    var q := k / tp;
    assert k == tp * q + k % tp && (w + 1) * tp == w * tp + tp;
    if q > w {
      Grow(w + 1, q, tp);
      assert false;
    }
  }

  /** Ten ids over four ranks: the last shard holds one id but its quota is two, whatever the statistics. */
  lemma UnevenShardsFallShort(p: Statistics)
    ensures |Balanced(p, 10, 4, 10)| == 9
  {
    BalancedSize(p, 10, 4, 10);
    TenOverFour();
  }

  lemma TenOverFour()
    ensures SelectedSum(10, 10, 4, 4) == 9
  {
    assert ShardWidth(10, 4) == 3;
    assert ShardSize(10, 4, 0) == 3 && ShardSize(10, 4, 1) == 3 && ShardSize(10, 4, 2) == 3 && ShardSize(10, 4, 3) == 1;
    assert Quota(10, 4, 0) == 3 && Quota(10, 4, 1) == 3 && Quota(10, 4, 2) == 2 && Quota(10, 4, 3) == 2;
    assert SelectedSum(10, 10, 4, 1) == 3;
    assert SelectedSum(10, 10, 4, 2) == 6;
    assert SelectedSum(10, 10, 4, 3) == 8;
  }
}
