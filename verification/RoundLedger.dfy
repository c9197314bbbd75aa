/** Per-window accounting of GPU activity: covered time, clipping to a window and the idle frontier. */
module RoundLedger {
  import opened Spans
  import opened Sorting

  // ----- covered time -----

  predicate SpanLe(x: Span, y: Span) {
    x.start < y.start || (x.start == y.start && x.stop <= y.stop)
  }

  lemma SpanOrder()
    ensures TotalPreorder(SpanLe) && Antisymmetric(SpanLe)
  {
  }

  /** The instants that covered-time accounting sees: its frontier starts at zero. */
  ghost function Recorded(spans: seq<Span>): set<int> {
    set t | t in Instants(spans) && 0 <= t
  }

  /** `end` is the furthest stop of the spans swept so far, or zero. */
  ghost predicate SweptTo(prefix: seq<Span>, end: int) {
    && 0 <= end
    && (forall s :: s in prefix ==> s.stop <= end)
    && (end > 0 ==> exists s :: s in prefix && s.stop == end)
  }

  lemma SweepOn(prefix: seq<Span>, next: Span, end: int)
    requires SweptTo(prefix, end)
    ensures SweptTo(prefix + [next], Max(end, next.stop))
  {
    assert next in prefix + [next];
    assert forall s :: s in prefix ==> s in prefix + [next];
  }

  /** The sweep over `prefix` has reached `end` and counted `total` instants. */
  ghost predicate CountedTo(prefix: seq<Span>, end: int, total: int) {
    SweptTo(prefix, end) && total == |Recorded(prefix)|
  }

  lemma CountNone()
    ensures CountedTo([], 0, 0)
  {
    assert Recorded([]) == {};
  }

  lemma CountNext(sorted: seq<Span>, i: nat, end: int, total: int)
    requires Ordered(sorted, SpanLe) && i < |sorted| && CountedTo(sorted[..i], end, total)
    ensures var s := sorted[i];
            CountedTo(sorted[..i + 1], Max(end, s.stop), total + Max(0, s.stop - Max(s.start, end)))
  {
    SortedBefore(sorted, i);
    UnionStep(sorted[..i], sorted[i], end);
    SweepOn(sorted[..i], sorted[i], end);
    assert sorted[..i + 1] == sorted[..i] + [sorted[i]];
  }

  lemma SortedSpans(intervals: seq<Span>)
    ensures Ordered(Sort(intervals, SpanLe), SpanLe)
    ensures Recorded(Sort(intervals, SpanLe)) == Recorded(intervals)
  {
    SpanOrder();
    SortCorrect(intervals, SpanLe);
    InstantsPermute(intervals, Sort(intervals, SpanLe));
  }

  /** The sorted sweep returns the number of covered instants from zero on, for any spans at all. */
  method UnionNs(intervals: seq<Span>) returns (total: int)
    ensures total == |Recorded(intervals)|
  {
    var sorted := Sort(intervals, SpanLe);
    SortedSpans(intervals);
    var end := 0;
    total := 0;
    CountNone();
    for i := 0 to |sorted|
      invariant CountedTo(sorted[..i], end, total)
    {
      CountNext(sorted, i, end, total);
      total := total + Max(0, sorted[i].stop - Max(sorted[i].start, end));
      end := Max(end, sorted[i].stop);
    }
    assert sorted[..|sorted|] == sorted;
  }

  lemma SortedBefore(sorted: seq<Span>, i: nat)
    requires Ordered(sorted, SpanLe) && i < |sorted|
    ensures forall s :: s in sorted[..i] ==> s.start <= sorted[i].start
  {
    forall s | s in sorted[..i] ensures s.start <= sorted[i].start {
      var k :| 0 <= k < i && sorted[k] == s;
      assert SpanLe(sorted[k], sorted[i]);
    }
  }

  /** An instant is covered after the next span of a sorted list iff it was before or lies beyond the frontier. */
  lemma UnionStepAt(prefix: seq<Span>, next: Span, end: int, t: int)
    requires SweptTo(prefix, end) && 0 <= t
    requires forall s :: s in prefix ==> s.start <= next.start
    ensures t in Instants(prefix) ==> t < end
    ensures t in Instants(prefix + [next]) <==> t in Instants(prefix) || Max(next.start, end) <= t < next.stop
  {
    InstantsMeaning(prefix, t);
    InstantsAppend(prefix, [next]);
    assert t in Instants([next]) <==> next.start <= t < next.stop;
    if next.start <= t < next.stop && t < end {
      var s :| s in prefix && s.stop == end;
      CoveredBy(prefix, s, t);
    }
  }

  /** The next span of a sorted list adds exactly its part beyond the frontier. */
  lemma UnionStep(prefix: seq<Span>, next: Span, end: int)
    requires SweptTo(prefix, end)
    requires forall s :: s in prefix ==> s.start <= next.start
    ensures |Recorded(prefix + [next])| == |Recorded(prefix)| + Max(0, next.stop - Max(next.start, end))
  {
    var added := Range(Max(next.start, end), next.stop);
    forall t | 0 <= t
      ensures t in Recorded(prefix) ==> t !in added
      ensures t in Recorded(prefix + [next]) <==> t in Recorded(prefix) + added
    {
      UnionStepAt(prefix, next, end, t);
    }
    assert Recorded(prefix + [next]) == Recorded(prefix) + added;
  }

  /** The sweep reports the whole covered time exactly when no covered instant is negative. */
  lemma UnionExactWhenNonNegative(spans: seq<Span>)
    ensures |Recorded(spans)| == |Instants(spans)| <==>
            forall s :: s in spans ==> s.stop <= s.start || 0 <= s.start
  {
    SubsetSize(Recorded(spans), Instants(spans));
    if forall s :: s in spans ==> s.stop <= s.start || 0 <= s.start {
      forall t | t in Instants(spans) ensures 0 <= t {
        InstantsMeaning(spans, t);
      }
      assert Recorded(spans) == Instants(spans);
    } else {
      var s :| s in spans && s.start < s.stop && s.start < 0;
      CoveredBy(spans, s, s.start);
      assert s.start in Instants(spans) && s.start !in Recorded(spans);
    }
  }

  // ----- clipping -----

  /** Two instants before time zero: the sweep sees neither. */
  lemma NegativeTimeIsMissed()
    ensures |Recorded([Span(-2, 0)])| == 0 && |Instants([Span(-2, 0)])| == 2
  {
    assert Instants([Span(-2, 0)]) == Range(-2, 0);
    assert Recorded([Span(-2, 0)]) == {};
  }

  predicate InWindow(s: Span, start: int, end: int) {
    s.start < end && s.stop > start
  }

  function Clipped(intervals: seq<Span>, start: int, end: int): (r: seq<Span>)
    ensures start <= end && Forward(intervals) ==> Forward(r)
    ensures forall s :: s in r ==> start <= s.start && s.stop <= end
  {
    if intervals == [] then []
    else
      var s := intervals[0];
      (if InWindow(s, start, end) then [Span(Max(s.start, start), Min(s.stop, end))] else [])
      + Clipped(intervals[1..], start, end)
  }

  lemma {:induction false} ClippedAt(intervals: seq<Span>, start: int, end: int, t: int)
    ensures t in Instants(Clipped(intervals, start, end)) <==> t in Instants(intervals) && start <= t < end
  {
    if intervals != [] {
      var head, rest := intervals[0], Clipped(intervals[1..], start, end);
      ClippedAt(intervals[1..], start, end, t);
      if InWindow(head, start, end) {
        var cut := Span(Max(head.start, start), Min(head.stop, end));
        assert Clipped(intervals, start, end) == [cut] + rest;
        assert ([cut] + rest)[1..] == rest;
      } else {
        assert Clipped(intervals, start, end) == rest;
      }
    }
  }

  /** Clipping to a window intersects the covered instants with it. */
  lemma ClippedMeaning(intervals: seq<Span>, start: int, end: int)
    ensures Instants(Clipped(intervals, start, end)) == Instants(intervals) * Range(start, end)
  {
    forall t
      ensures t in Instants(Clipped(intervals, start, end)) <==> t in Instants(intervals) * Range(start, end)
    {
      ClippedAt(intervals, start, end, t);
    }
  }

  /** Service time is additive over adjacent windows, also for spans that straddle the boundary. */
  lemma {:induction false} ServiceTiles(intervals: seq<Span>, x: int, y: int, z: int)
    requires x <= y <= z && Forward(intervals)
    ensures Service(Clipped(intervals, x, z))
         == Service(Clipped(intervals, x, y)) + Service(Clipped(intervals, y, z))
  {
    if intervals != [] {
      assert intervals[0] in intervals;
      ServiceTiles(intervals[1..], x, y, z);
      ServiceHead(intervals, x, z);
      ServiceHead(intervals, x, y);
      ServiceHead(intervals, y, z);
      OverlapTiles(intervals[0], x, y, z);
    }
  }

  /** The length of the part of a span inside a window. */
  function Overlap(s: Span, x: int, z: int): int {
    Max(0, Min(s.stop, z) - Max(s.start, x))
  }

  lemma OverlapTiles(s: Span, x: int, y: int, z: int)
    requires x <= y <= z && s.start <= s.stop
    ensures Overlap(s, x, z) == Overlap(s, x, y) + Overlap(s, y, z)
  {
  }

  lemma ServiceHead(intervals: seq<Span>, x: int, z: int)
    requires intervals != [] && x <= z && Forward(intervals)
    ensures Service(Clipped(intervals, x, z))
         == Overlap(intervals[0], x, z) + Service(Clipped(intervals[1..], x, z))
  {
    var s := intervals[0];
    assert s in intervals;
    var cut := if InWindow(s, x, z) then [Span(Max(s.start, x), Min(s.stop, z))] else [];
    ServiceAppend(cut, Clipped(intervals[1..], x, z));
  }

  /** Covered time is additive over adjacent windows too. */
  lemma UnionTiles(intervals: seq<Span>, x: int, y: int, z: int)
    requires x <= y <= z
    ensures |Recorded(Clipped(intervals, x, z))|
         == |Recorded(Clipped(intervals, x, y))| + |Recorded(Clipped(intervals, y, z))|
  {
    ClippedMeaning(intervals, x, z);
    ClippedMeaning(intervals, x, y);
    ClippedMeaning(intervals, y, z);
    assert Recorded(Clipped(intervals, x, z))
        == Recorded(Clipped(intervals, x, y)) + Recorded(Clipped(intervals, y, z));
  }
}
