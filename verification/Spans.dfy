/** Half-open spans of nanosecond timestamps and the sets of instants they cover. */
module Spans {

  datatype Span = Span(start: int, stop: int)

  /** A recorded activity never ends before it starts. */
  predicate Forward(spans: seq<Span>) {
    forall s :: s in spans ==> s.start <= s.stop
  }

  function Max(a: int, b: int): int { if a < b then b else a }

  function Min(a: int, b: int): int { if a < b then a else b }

  ghost function Range(a: int, b: int): (r: set<int>)
    ensures forall t :: t in r <==> a <= t < b
    ensures |r| == Max(0, b - a)
    decreases b - a
  {
    if a < b then Range(a, b - 1) + {b - 1} else {}
  }

  ghost predicate Covers(spans: seq<Span>, t: int) {
    exists s :: s in spans && s.start <= t < s.stop
  }

  /** The common meaning of every sweep: the instants that some span covers. */
  ghost function Instants(spans: seq<Span>): set<int> {
    if spans == [] then {} else Range(spans[0].start, spans[0].stop) + Instants(spans[1..])
  }

  lemma {:induction false} InstantsMeaning(spans: seq<Span>, t: int)
    ensures t in Instants(spans) <==> Covers(spans, t)
  {
    if spans != [] {
      InstantsMeaning(spans[1..], t);
      assert spans == [spans[0]] + spans[1..];
      if t in Range(spans[0].start, spans[0].stop) {
        assert spans[0] in spans;
      }
    }
  }

  lemma CoveredBy(spans: seq<Span>, s: Span, t: int)
    requires s in spans && s.start <= t < s.stop
    ensures t in Instants(spans)
  {
    InstantsMeaning(spans, t);
  }

  /** Service time: the sum of the lengths, overlaps counted as often as they occur. */
  function Service(spans: seq<Span>): int {
    if spans == [] then 0 else spans[0].stop - spans[0].start + Service(spans[1..])
  }

  lemma DisjointUnionSize(a: set<int>, b: set<int>)
    requires a !! b
    ensures |a + b| == |a| + |b|
  {
  }

  lemma SplitSize(whole: set<int>, part: set<int>)
    requires part <= whole
    ensures |whole| == |part| + |whole - part|
  {
    assert whole == part + (whole - part);
  }

  lemma {:induction false} SubsetSize(part: set<int>, whole: set<int>)
    requires part <= whole
    ensures |part| <= |whole|
    ensures |part| == |whole| ==> part == whole
  {
    SplitSize(whole, part);
    if |part| == |whole| {
      assert whole - part == {};
    }
  }

  lemma UncoveredSize(covered: set<int>, start: int, end: int)
    requires start <= end
    ensures |covered * Range(start, end)| + |Range(start, end) - covered| == end - start
  {
    SplitSize(Range(start, end), covered * Range(start, end));
    assert Range(start, end) - covered * Range(start, end) == Range(start, end) - covered;
  }

  lemma {:induction false} InstantsAppend(xs: seq<Span>, ys: seq<Span>)
    ensures Instants(xs + ys) == Instants(xs) + Instants(ys)
  {
    if xs == [] {
      assert xs + ys == ys;
    } else {
      assert (xs + ys)[1..] == xs[1..] + ys;
      InstantsAppend(xs[1..], ys);
    }
  }

  /** Only the multiset of spans matters. */
  lemma InstantsPermute(xs: seq<Span>, ys: seq<Span>)
    requires multiset(xs) == multiset(ys)
    ensures Instants(xs) == Instants(ys)
  {
    assert forall s :: s in xs <==> s in multiset(xs);
    assert forall s :: s in ys <==> s in multiset(ys);
    forall t ensures t in Instants(xs) <==> t in Instants(ys) {
      InstantsMeaning(xs, t);
      InstantsMeaning(ys, t);
    }
  }

  /** Spans that follow each other without overlap have no doubly counted instant. */
  lemma {:induction false} DisjointService(spans: seq<Span>)
    requires Forward(spans)
    requires forall i, j :: 0 <= i < j < |spans| ==> spans[i].stop <= spans[j].start
    ensures Service(spans) == |Instants(spans)|
  {
    if spans != [] {
      var head, tail := spans[0], spans[1..];
      assert spans == [head] + tail;
      DisjointService(tail);
      forall t | t in Instants(tail) ensures t !in Range(head.start, head.stop) {
        InstantsMeaning(tail, t);
      }
      DisjointUnionSize(Range(head.start, head.stop), Instants(tail));
    }
  }

  /** In general service exceeds the covered time by the overlap, which is never negative. */
  lemma {:induction false} ServiceBoundsUnion(spans: seq<Span>)
    requires Forward(spans)
    ensures |Instants(spans)| <= Service(spans)
  {
    if spans != [] {
      var head, tail := Range(spans[0].start, spans[0].stop), Instants(spans[1..]);
      assert Instants(spans) == head + tail;
      ServiceBoundsUnion(spans[1..]);
      assert head + tail == (head - tail) + tail;
      DisjointUnionSize(head - tail, tail);
      SubsetSize(head - tail, head);
    }
  }

  lemma {:induction false} ServiceAppend(xs: seq<Span>, ys: seq<Span>)
    ensures Service(xs + ys) == Service(xs) + Service(ys)
  {
    if xs == [] {
      assert xs + ys == ys;
    } else {
      assert (xs + ys)[1..] == xs[1..] + ys;
      ServiceAppend(xs[1..], ys);
    }
  }
}
