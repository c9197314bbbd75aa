/** The merge scan over one replay interval and its agreement with the idle frontier. */
module ReplayGaps {
  import opened Spans
  import opened Sorting
  import opened RoundLedger
  import opened Options
  import F = IdleFrontier

  datatype Kind = Empty | Front | Internal | Tail

  datatype Gap = Gap(kind: Kind, at: Span, before: string, after: string)

  /** The merged stretch still growing, the service closed so far and the gaps reported so far. */
  datatype Scan = Scan(current: Span, name: string, closed: int, gaps: seq<Gap>)

  /** The summary row of an interval. */
  datatype IntervalRow = IntervalRow(busy: int, raw: int, overlap: int, idle: int,
                                     front: int, inner: int, tail: int, gapCount: nat)

  const ReplayStart: string := "[replay start]"
  const NextReplay: string := "[next replay]"

  /** What an interval receives: activities that start inside it, sorted by start and end. */
  predicate Loaded(activity: seq<F.Activity>, start: int, end: int) {
    && start <= end
    && (forall a :: a in activity ==> start <= a.span.start < end && a.span.start <= a.span.stop)
    && (forall i, j :: 0 <= i < j < |activity| ==> SpanLe(activity[i].span, activity[j].span))
  }

  lemma LoadedPrefix(activity: seq<F.Activity>, start: int, end: int)
    requires activity != [] && Loaded(activity, start, end)
    ensures Loaded(activity[..|activity| - 1], start, end)
  {
  }

  lemma LoadedLast(activity: seq<F.Activity>, start: int, end: int)
    requires activity != [] && Loaded(activity, start, end)
    ensures var last := activity[|activity| - 1].span;
            && last.start <= last.stop
            && (|activity| > 1 ==> activity[|activity| - 2].span.start <= last.start)
  {
    assert activity[|activity| - 1] in activity;
  }

  function Length(s: Span): int { s.stop - s.start }

  function GapIf(gap: Gap, minGap: int): seq<Gap> {
    if Length(gap.at) >= minGap then [gap] else []
  }

  // ----- the scan as a fold -----

  function Open(first: F.Activity, start: int, minGap: int): Scan {
    Scan(first.span, first.tag.name, 0,
         GapIf(Gap(Front, Span(start, first.span.start), ReplayStart, first.tag.name), minGap))
  }

  function Next(s: Scan, a: F.Activity, minGap: int): Scan {
    if a.span.start <= s.current.stop then
      if a.span.stop > s.current.stop
      then s.(current := Span(s.current.start, a.span.stop), name := a.tag.name)
      else s
    else
      Scan(a.span, a.tag.name, s.closed + Length(s.current),
           s.gaps + GapIf(Gap(Internal, Span(s.current.stop, a.span.start), s.name, a.tag.name), minGap))
  }

  function ScanOver(activity: seq<F.Activity>, start: int, minGap: int): Scan
    requires activity != []
  {
    var n := |activity| - 1;
    if n == 0 then Open(activity[0], start, minGap)
    else Next(ScanOver(activity[..n], start, minGap), activity[n], minGap)
  }

  function GapsOf(activity: seq<F.Activity>, start: int, end: int, minGap: int): seq<Gap> {
    if activity == [] then [Gap(Empty, Span(start, end), ReplayStart, NextReplay)]
    else
      var s := ScanOver(activity, start, minGap);
      s.gaps + GapIf(Gap(Tail, Span(s.current.stop, end), s.name, NextReplay), minGap)
  }

  /** Total length of the gaps of one kind. */
  function KindTotal(gaps: seq<Gap>, kind: Kind): int {
    if gaps == [] then 0
    else (if gaps[0].kind == kind then Length(gaps[0].at) else 0) + KindTotal(gaps[1..], kind)
  }

  /** The row in terms of covered instants and the gaps of the fold. */
  ghost function RowOf(activity: seq<F.Activity>, start: int, end: int, gaps: seq<Gap>): IntervalRow {
    var busy, raw := |Instants(F.SpansOf(activity))|, Service(F.SpansOf(activity));
    IntervalRow(busy, raw, raw - busy, end - start - busy,
                KindTotal(gaps, Front), KindTotal(gaps, Internal), KindTotal(gaps, Tail), |gaps|)
  }

  /** Busy time is the number of instants some activity covers; the gaps are those of the fold. */
  method AnalyzeInterval(activity: seq<F.Activity>, start: int, end: int, minGap: int)
    returns (row: IntervalRow, gaps: seq<Gap>)
    requires Loaded(activity, start, end)
    ensures gaps == GapsOf(activity, start, end, minGap)
    ensures row == RowOf(activity, start, end, gaps)
  {
    var raw, busy := Service(F.SpansOf(activity)), 0;
    gaps := [];
    if activity == [] {
      gaps := [Gap(Empty, Span(start, end), ReplayStart, NextReplay)];
    } else {
      busy, gaps := ScanInterval(activity, start, end, minGap);
      ScanCovers(activity, start, end, minGap);
    }
    row := IntervalRow(busy, raw, raw - busy, end - start - busy,
                       KindTotal(gaps, Front), KindTotal(gaps, Internal), KindTotal(gaps, Tail), |gaps|);
  }

  method ScanInterval(activity: seq<F.Activity>, start: int, end: int, minGap: int) returns (busy: int, gaps: seq<Gap>)
    requires activity != []
    ensures var s := ScanOver(activity, start, minGap); busy == s.closed + Length(s.current)
    ensures gaps == GapsOf(activity, start, end, minGap)
  {
    busy, gaps := 0, [];
    var current, name := activity[0].span, activity[0].tag.name;
    if current.start - start >= minGap {
      gaps := gaps + [Gap(Front, Span(start, current.start), ReplayStart, name)];
    }
    assert activity[..1] == [activity[0]];
    for i := 1 to |activity|
      invariant Scan(current, name, busy, gaps) == ScanOver(activity[..i], start, minGap)
    {
      var a := activity[i];
      assert activity[..i + 1][..i] == activity[..i];
      ghost var before := Scan(current, name, busy, gaps);
      if a.span.start <= current.stop {
        if a.span.stop > current.stop {
          current := Span(current.start, a.span.stop);
          name := a.tag.name;
        }
        assert Scan(current, name, busy, gaps) == Next(before, a, minGap);
        continue;
      }
      busy := busy + (current.stop - current.start);
      if a.span.start - current.stop >= minGap {
        gaps := gaps + [Gap(Internal, Span(current.stop, a.span.start), name, a.tag.name)];
      }
      current, name := a.span, a.tag.name;
      assert Scan(current, name, busy, gaps) == Next(before, a, minGap);
    }
    assert activity[..|activity|] == activity;
    busy := busy + (current.stop - current.start);
    if end - current.stop >= minGap {
      gaps := gaps + [Gap(Tail, Span(current.stop, end), name, NextReplay)];
    }
  }

  // ----- union service -----

  /** The current stretch is covered without a hole and nothing lies beyond it. */
  ghost predicate Merged(visited: seq<F.Activity>, s: Scan) {
    && s.current.start <= s.current.stop
    && (forall a :: a in visited ==> a.span.stop <= s.current.stop)
    && (forall t :: s.current.start <= t < s.current.stop ==> t in Instants(F.SpansOf(visited)))
    && |Instants(F.SpansOf(visited))| == s.closed + Length(s.current)
  }

  lemma BelowStop(visited: seq<F.Activity>, s: Scan, t: int)
    requires Merged(visited, s) && t in Instants(F.SpansOf(visited))
    ensures t < s.current.stop
  {
    InstantsMeaning(F.SpansOf(visited), t);
    F.SpansOfMember(visited);
  }

  lemma CoverNextAt(visited: seq<F.Activity>, s: Scan, a: F.Activity, t: int)
    requires Merged(visited, s) && s.current.start <= a.span.start
    ensures t in Instants(F.SpansOf(visited)) ==> t < s.current.stop
    ensures t in Instants(F.SpansOf(visited + [a])) <==>
            t in Instants(F.SpansOf(visited)) || Max(a.span.start, s.current.stop) <= t < a.span.stop
  {
    F.VisitedAt(visited, a, t);
    if t in Instants(F.SpansOf(visited)) {
      BelowStop(visited, s, t);
    }
  }

  lemma CoverGrows(visited: seq<F.Activity>, s: Scan, a: F.Activity)
    requires Merged(visited, s) && s.current.start <= a.span.start
    ensures |Instants(F.SpansOf(visited + [a]))|
         == |Instants(F.SpansOf(visited))| + Max(0, a.span.stop - Max(a.span.start, s.current.stop))
  {
    var before, added := Instants(F.SpansOf(visited)), Range(Max(a.span.start, s.current.stop), a.span.stop);
    forall t
      ensures t in before ==> t !in added
      ensures t in Instants(F.SpansOf(visited + [a])) <==> t in before + added
    {
      CoverNextAt(visited, s, a, t);
    }
    assert Instants(F.SpansOf(visited + [a])) == before + added;
    DisjointUnionSize(before, added);
  }

  lemma MergedNext(visited: seq<F.Activity>, s: Scan, a: F.Activity, minGap: int)
    requires Merged(visited, s) && s.current.start <= a.span.start <= a.span.stop
    ensures Merged(visited + [a], Next(s, a, minGap))
  {
    var next := Next(s, a, minGap);
    CoverGrows(visited, s, a);
    forall t | next.current.start <= t < next.current.stop ensures t in Instants(F.SpansOf(visited + [a])) {
      CoverNextAt(visited, s, a, t);
    }
  }

  lemma OneActivity(a: F.Activity)
    ensures Instants(F.SpansOf([a])) == Range(a.span.start, a.span.stop)
  {
    assert F.SpansOf([a]) == [a.span];
  }

  lemma Overlapping(x: int, y: int, z: int)
    requires x <= y <= z
    ensures Range(x, z) * Range(x, y) == Range(x, y)
  {
  }

  lemma OpenCovers(a: F.Activity, start: int, minGap: int)
    requires a.span.start <= a.span.stop
    ensures Merged([a], Open(a, start, minGap))
  {
    OneActivity(a);
  }

  lemma {:induction false} ScanStart(activity: seq<F.Activity>, start: int, end: int, minGap: int)
    requires activity != [] && Loaded(activity, start, end)
    ensures ScanOver(activity, start, minGap).current.start <= activity[|activity| - 1].span.start
  {
    if |activity| > 1 {
      LoadedPrefix(activity, start, end);
      LoadedLast(activity, start, end);
      ScanStart(activity[..|activity| - 1], start, end, minGap);
    }
  }

  lemma ScanStep(activity: seq<F.Activity>, start: int, minGap: int)
    requires |activity| > 1
    ensures var n := |activity| - 1;
            ScanOver(activity, start, minGap) == Next(ScanOver(activity[..n], start, minGap), activity[n], minGap)
  {
  }

  lemma CoversLast(before: seq<F.Activity>, last: F.Activity, start: int, end: int, minGap: int)
    requires before != [] && Loaded(before, start, end) && Merged(before, ScanOver(before, start, minGap))
    requires before[|before| - 1].span.start <= last.span.start <= last.span.stop
    ensures Merged(before + [last], ScanOver(before + [last], start, minGap))
  {
    ScanStart(before, start, end, minGap);
    MergedNext(before, ScanOver(before, start, minGap), last, minGap);
    assert (before + [last])[..|before|] == before;
    ScanStep(before + [last], start, minGap);
  }

  lemma {:induction false} ScanCovers(activity: seq<F.Activity>, start: int, end: int, minGap: int)
    requires activity != [] && Loaded(activity, start, end)
    ensures Merged(activity, ScanOver(activity, start, minGap))
  {
    var n := |activity| - 1;
    var before, last := activity[..n], activity[n];
    LoadedLast(activity, start, end);
    assert activity == before + [last];
    if n == 0 {
      OpenCovers(last, start, minGap);
    } else {
      LoadedPrefix(activity, start, end);
      ScanCovers(before, start, end, minGap);
      CoversLast(before, last, start, end, minGap);
    }
  }

  /** Union service is the busy time inside the interval exactly when no activity overruns its end. */
  lemma BusyInsideIffNoOverrun(activity: seq<F.Activity>, start: int, end: int)
    requires Loaded(activity, start, end)
    ensures |Instants(F.SpansOf(activity))| == |Instants(F.SpansOf(activity)) * Range(start, end)| <==>
            forall a :: a in activity ==> a.span.stop <= end
  {
    var covered := Instants(F.SpansOf(activity));
    SubsetSize(covered * Range(start, end), covered);
    if forall a :: a in activity ==> a.span.stop <= end {
      forall t | t in covered ensures start <= t < end {
        InstantsMeaning(F.SpansOf(activity), t);
        F.SpansOfMember(activity);
      }
      assert covered * Range(start, end) == covered;
    } else {
      var a :| a in activity && a.span.stop > end;
      F.SpansOfMember(activity);
      CoveredBy(F.SpansOf(activity), a.span, end);
      assert end in covered && end !in covered * Range(start, end);
    }
  }

  /** One activity of two instants in an interval of one: both are counted busy. */
  lemma OverrunCountsOutside()
    ensures var activity := [F.Activity(Span(0, 2), F.Label("", ""))];
            && Loaded(activity, 0, 1)
            && |Instants(F.SpansOf(activity))| == 2
            && |Instants(F.SpansOf(activity)) * Range(0, 1)| == 1
  {
    OneActivity(F.Activity(Span(0, 2), F.Label("", "")));
    Overlapping(0, 1, 2);
  }

  // ----- agreement with the idle frontier -----

  function LongSpans(spans: seq<Span>, least: int): seq<Span> {
    if spans == [] then []
    else
      var last := spans[|spans| - 1];
      LongSpans(spans[..|spans| - 1], least) + (if Length(last) >= least then [last] else [])
  }

  function PlacesOf(gaps: seq<Gap>): (r: seq<Span>)
    ensures |r| == |gaps|
    ensures forall i :: 0 <= i < |r| ==> r[i] == gaps[i].at
  {
    seq(|gaps|, i requires 0 <= i < |gaps| => gaps[i].at)
  }

  lemma LongSnoc(spans: seq<Span>, s: Span, least: int)
    ensures LongSpans(spans + [s], least) == LongSpans(spans, least) + (if Length(s) >= least then [s] else [])
  {
    assert (spans + [s])[..|spans|] == spans;
  }

  lemma AddGap(gaps: seq<Gap>, gap: Gap, minGap: int)
    ensures LongSpans(PlacesOf(gaps + GapIf(gap, minGap)), 1)
         == LongSpans(PlacesOf(gaps), 1) + (if Length(gap.at) >= Max(minGap, 1) then [gap.at] else [])
  {
    if Length(gap.at) >= minGap {
      assert PlacesOf(gaps + [gap]) == PlacesOf(gaps) + [gap.at];
      LongSnoc(PlacesOf(gaps), gap.at, 1);
    } else {
      assert gaps + [] == gaps;
    }
  }

  lemma AddEdge(edges: seq<F.Edge>, e: F.Edge, least: int)
    ensures LongSpans(F.SpansOfEdges(edges + [e]), least)
         == LongSpans(F.SpansOfEdges(edges), least) + (if Length(e.at) >= least then [e.at] else [])
  {
    assert F.SpansOfEdges(edges + [e]) == F.SpansOfEdges(edges) + [e.at];
    LongSnoc(F.SpansOfEdges(edges), e.at, least);
  }

  /** Both scans have the same frontier, up to the end of the interval, and the same long gaps. */
  ghost predicate InStep(s: Scan, w: F.Sweep, start: int, end: int, minGap: int) {
    && w.cursor == Min(s.current.stop, end)
    && start <= s.current.stop
    && LongSpans(PlacesOf(s.gaps), 1) == LongSpans(F.SpansOfEdges(w.edges), Max(minGap, 1))
  }

  lemma InStepOpen(a: F.Activity, b: F.Activity, start: int, end: int, minGap: int)
    requires a.span == b.span && start <= a.span.start < end && a.span.start <= a.span.stop
    ensures InStep(Open(a, start, minGap), F.Visit(F.Sweep(start, None, []), b, start, end), start, end, minGap)
  {
    var front := Gap(Front, Span(start, a.span.start), ReplayStart, a.tag.name);
    AddGap([], front, minGap);
    assert [] + GapIf(front, minGap) == GapIf(front, minGap);
    AddEdge([], F.Edge(Span(start, a.span.start), None, Some(b.tag)), Max(minGap, 1));
    var w := F.Visit(F.Sweep(start, None, []), b, start, end);
    if a.span.start > start {
      assert w.edges == [] + [F.Edge(Span(start, a.span.start), None, Some(b.tag))];
    }
  }

  lemma InStepNext(s: Scan, w: F.Sweep, a: F.Activity, b: F.Activity, start: int, end: int, minGap: int)
    requires InStep(s, w, start, end, minGap)
    requires a.span == b.span && start <= a.span.start < end && a.span.start <= a.span.stop
    ensures InStep(Next(s, a, minGap), F.Visit(w, b, start, end), start, end, minGap)
  {
    if a.span.start > s.current.stop {
      AddGap(s.gaps, Gap(Internal, Span(s.current.stop, a.span.start), s.name, a.tag.name), minGap);
      AddEdge(w.edges, F.Edge(Span(w.cursor, a.span.start), w.previous, Some(b.tag)), Max(minGap, 1));
    }
  }

  lemma {:induction false} ScansInStep(xs: seq<F.Activity>, ys: seq<F.Activity>, start: int, end: int, minGap: int)
    requires xs != [] && |xs| == |ys| && Loaded(xs, start, end)
    requires forall i :: 0 <= i < |xs| ==> xs[i].span == ys[i].span
    ensures InStep(ScanOver(xs, start, minGap), F.SweepOver(ys, start, end), start, end, minGap)
  {
    var n := |xs| - 1;
    assert xs[n] in xs;
    if n == 0 {
      assert ys[..0] == [];
      InStepOpen(xs[0], ys[0], start, end, minGap);
    } else {
      var s, w := ScanOver(xs[..n], start, minGap), F.SweepOver(ys[..n], start, end);
      LoadedPrefix(xs, start, end);
      ScansInStep(xs[..n], ys[..n], start, end, minGap);
      InStepNext(s, w, xs[n], ys[n], start, end, minGap);
      assert ScanOver(xs, start, minGap) == Next(s, xs[n], minGap);
      assert F.SweepOver(ys, start, end) == F.Visit(w, ys[n], start, end);
    }
  }

  lemma {:induction false} SpansOfAt(activities: seq<F.Activity>, i: nat)
    requires i < |activities|
    ensures F.SpansOf(activities)[i] == activities[i].span
  {
    if i > 0 {
      SpansOfAt(activities[1..], i - 1);
    }
  }

  lemma {:induction false} InsertSpans(a: F.Activity, sorted: seq<F.Activity>)
    ensures multiset(F.SpansOf(Insert(a, sorted, F.ActivityLe))) == multiset(F.SpansOf(sorted)) + multiset{a.span}
  {
    if sorted == [] || F.ActivityLe(a, sorted[0]) {
      F.SpansOfAppend([a], sorted);
      assert F.SpansOf([a]) == [a.span];
    } else {
      var rest := Insert(a, sorted[1..], F.ActivityLe);
      InsertSpans(a, sorted[1..]);
      F.SpansOfAppend([sorted[0]], rest);
      F.SpansOfAppend([sorted[0]], sorted[1..]);
      assert sorted == [sorted[0]] + sorted[1..];
      assert F.SpansOf([sorted[0]]) == [sorted[0].span];
    }
  }

  lemma {:induction false} SortSpans(activity: seq<F.Activity>)
    ensures multiset(F.SpansOf(Sort(activity, F.ActivityLe))) == multiset(F.SpansOf(activity))
  {
    if activity != [] {
      SortSpans(activity[1..]);
      InsertSpans(activity[0], Sort(activity[1..], F.ActivityLe));
      assert F.SpansOf(activity) == [activity[0].span] + F.SpansOf(activity[1..]);
    }
  }

  /** Sorting by scope and name as well does not change the order of the spans. */
  lemma SameSpanOrder(activity: seq<F.Activity>, start: int, end: int)
    requires Loaded(activity, start, end)
    ensures var sorted := Sort(activity, F.ActivityLe);
            |sorted| == |activity| && forall i :: 0 <= i < |sorted| ==> sorted[i].span == activity[i].span
  {
    var sorted := Sort(activity, F.ActivityLe);
    F.ActivityOrder();
    SortCorrect(activity, F.ActivityLe);
    SameLength(activity, sorted);
    SortSpans(activity);
    SpanOrder();
    forall i | 0 <= i < |sorted|
      ensures F.SpansOf(sorted)[i] == sorted[i].span && F.SpansOf(activity)[i] == activity[i].span
    {
      SpansOfAt(sorted, i);
      SpansOfAt(activity, i);
    }
    forall i, j | 0 <= i < j < |sorted| ensures SpanLe(sorted[i].span, sorted[j].span) {
      assert F.ActivityLe(sorted[i], sorted[j]);
    }
    OrderedUnique(F.SpansOf(sorted), F.SpansOf(activity), SpanLe);
  }

  lemma ScannedGaps(activity: seq<F.Activity>, start: int, end: int, minGap: int)
    requires activity != [] && Loaded(activity, start, end)
    ensures LongSpans(PlacesOf(GapsOf(activity, start, end, minGap)), 1)
         == LongSpans(F.SpansOfEdges(F.Edges(activity, start, end)), Max(minGap, 1))
  {
    var sorted := Sort(activity, F.ActivityLe);
    SameSpanOrder(activity, start, end);
    ScansInStep(activity, sorted, start, end, minGap);
    var s, w := ScanOver(activity, start, minGap), F.SweepOver(sorted, start, end);
    AddGap(s.gaps, Gap(Tail, Span(s.current.stop, end), s.name, NextReplay), minGap);
    if w.cursor < end {
      AddEdge(w.edges, F.Edge(Span(w.cursor, end), w.previous, None), Max(minGap, 1));
    }
  }

  /** Without activity the one gap and the one edge are the whole interval. */
  lemma EmptyInterval(start: int, end: int, minGap: int)
    requires start <= end
    ensures PlacesOf(GapsOf([], start, end, minGap)) == [Span(start, end)]
    ensures F.SpansOfEdges(F.Edges([], start, end)) == if start < end then [Span(start, end)] else []
  {
    assert Sort([], F.ActivityLe) == [];
  }

  /**
   * The non-empty gaps of the scan are the idle edges of the interval that reach the threshold, in the same
   * places and order, even when activities overrun the interval. An interval without activity is reported
   * whatever the threshold, so there the threshold must not exceed its length.
   */
  lemma GapsAreLongIdleEdgesIff(activity: seq<F.Activity>, start: int, end: int, minGap: int)
    requires Loaded(activity, start, end)
    ensures LongSpans(PlacesOf(GapsOf(activity, start, end, minGap)), 1)
              == LongSpans(F.SpansOfEdges(F.Edges(activity, start, end)), Max(minGap, 1))
            <==> activity != [] || start == end || minGap <= end - start
  {
    if activity == [] {
      EmptyInterval(start, end, minGap);
      LongSnoc([], Span(start, end), 1);
      LongSnoc([], Span(start, end), Max(minGap, 1));
      assert [] + [Span(start, end)] == [Span(start, end)];
    } else {
      ScannedGaps(activity, start, end, minGap);
    }
  }

  /** An idle interval of five instants is reported at a threshold of ten. */
  lemma EmptyIntervalIgnoresThreshold()
    ensures LongSpans(PlacesOf(GapsOf([], 0, 5, 10)), 1) == [Span(0, 5)]
    ensures LongSpans(F.SpansOfEdges(F.Edges([], 0, 5)), 10) == []
  {
    EmptyInterval(0, 5, 10);
    LongSnoc([], Span(0, 5), 1);
    LongSnoc([], Span(0, 5), 10);
    assert [] + [Span(0, 5)] == [Span(0, 5)];
  }

  lemma {:induction false} AllLong(spans: seq<Span>, least: int)
    requires forall s :: s in spans ==> Length(s) >= least
    ensures LongSpans(spans, least) == spans
  {
    if spans != [] {
      assert spans[|spans| - 1] in spans;
      AllLong(spans[..|spans| - 1], least);
      assert spans == spans[..|spans| - 1] + [spans[|spans| - 1]];
    }
  }

  lemma {:induction false} ReportedAreLong(activity: seq<F.Activity>, start: int, minGap: int)
    requires activity != []
    ensures forall g :: g in ScanOver(activity, start, minGap).gaps ==> Length(g.at) >= minGap
  {
    if |activity| > 1 {
      ReportedAreLong(activity[..|activity| - 1], start, minGap);
    }
  }

  lemma GapsPositive(activity: seq<F.Activity>, start: int, end: int)
    requires activity != []
    ensures LongSpans(PlacesOf(GapsOf(activity, start, end, 1)), 1) == PlacesOf(GapsOf(activity, start, end, 1))
  {
    ReportedAreLong(activity, start, 1);
    AllLong(PlacesOf(GapsOf(activity, start, end, 1)), 1);
  }

  lemma EdgesPositive(activity: seq<F.Activity>, start: int, end: int)
    requires start <= end && F.AllForward(activity)
    ensures LongSpans(F.SpansOfEdges(F.Edges(activity, start, end)), 1) == F.SpansOfEdges(F.Edges(activity, start, end))
  {
    var edges := F.Edges(activity, start, end);
    F.EdgesNamed(activity, start, end);
    forall s | s in F.SpansOfEdges(edges) ensures Length(s) >= 1 {
      var i :| 0 <= i < |edges| && edges[i].at == s;
      assert F.EdgeSides(activity, edges[i], start, end);
    }
    AllLong(F.SpansOfEdges(edges), 1);
  }

  lemma UnitThresholdScanned(activity: seq<F.Activity>, start: int, end: int)
    requires activity != [] && Loaded(activity, start, end)
    ensures PlacesOf(GapsOf(activity, start, end, 1)) == F.SpansOfEdges(F.Edges(activity, start, end))
    ensures Service(PlacesOf(GapsOf(activity, start, end, 1))) == |Range(start, end) - Instants(F.SpansOf(activity))|
  {
    assert F.AllForward(activity);
    GapsPositive(activity, start, end);
    EdgesPositive(activity, start, end);
    ScannedGaps(activity, start, end, 1);
    F.DurationIsService(F.Edges(activity, start, end));
    F.IdleTotal(activity, start, end);
  }

  /**
   * With a 1 ns threshold the reported gaps add up to the uncovered time, and they are the idle edges unless
   * the interval is empty and without activity, where a gap of no length is reported.
   */
  lemma UnitThresholdIsExact(activity: seq<F.Activity>, start: int, end: int)
    requires Loaded(activity, start, end)
    ensures Service(PlacesOf(GapsOf(activity, start, end, 1))) == |Range(start, end) - Instants(F.SpansOf(activity))|
    ensures PlacesOf(GapsOf(activity, start, end, 1)) == F.SpansOfEdges(F.Edges(activity, start, end))
            <==> activity != [] || start < end
  {
    if activity == [] {
      EmptyInterval(start, end, 1);
      assert Range(start, end) - Instants(F.SpansOf([])) == Range(start, end);
    } else {
      UnitThresholdScanned(activity, start, end);
    }
  }

  // ----- the idle columns of the row -----

  lemma OneGap(g: Gap)
    requires g.kind == Empty
    ensures KindTotal([g], Front) == KindTotal([g], Internal) == KindTotal([g], Tail) == 0
  {
    assert [g][1..] == [];
  }

  lemma {:induction false} KindsAdd(gaps: seq<Gap>)
    requires forall g :: g in gaps ==> g.kind != Empty
    ensures KindTotal(gaps, Front) + KindTotal(gaps, Internal) + KindTotal(gaps, Tail) == Service(PlacesOf(gaps))
  {
    if gaps != [] {
      KindsAdd(gaps[1..]);
      assert gaps[0] in gaps;
      assert PlacesOf(gaps)[1..] == PlacesOf(gaps[1..]);
    }
  }

  lemma {:induction false} ScanKinds(activity: seq<F.Activity>, start: int, minGap: int)
    requires activity != []
    ensures forall g :: g in ScanOver(activity, start, minGap).gaps ==> g.kind != Empty
  {
    if |activity| > 1 {
      ScanKinds(activity[..|activity| - 1], start, minGap);
    }
  }

  /**
   * Front, internal and tail idle time at a 1 ns threshold add up to the idle column exactly when no activity
   * overruns the interval and the interval has activity or no length: an interval without activity has its
   * own kind of gap, which no column counts.
   */
  lemma IdleColumnsAddIff(activity: seq<F.Activity>, start: int, end: int)
    requires Loaded(activity, start, end)
    ensures var row := RowOf(activity, start, end, GapsOf(activity, start, end, 1));
            row.front + row.inner + row.tail == row.idle <==>
            (forall a :: a in activity ==> a.span.stop <= end) && (activity != [] || start == end)
  {
    var covered := Instants(F.SpansOf(activity));
    if activity != [] {
      ScanKinds(activity, start, 1);
      KindsAdd(GapsOf(activity, start, end, 1));
      UnitThresholdScanned(activity, start, end);
      UncoveredSize(covered, start, end);
      BusyInsideIffNoOverrun(activity, start, end);
    } else {
      assert covered == {};
      OneGap(Gap(Empty, Span(start, end), ReplayStart, NextReplay));
    }
  }

  /** An interval of one instant without activity: idle for one, but no column says so. */
  lemma EmptyIntervalHasNoColumn()
    ensures var row := RowOf([], 0, 1, GapsOf([], 0, 1, 1)); row.idle == 1 && row.front == row.inner == row.tail == 0
  {
    OneGap(Gap(Empty, Span(0, 1), ReplayStart, NextReplay));
  }

  // ----- names on the gaps -----

  ghost predicate StopsWith(activity: seq<F.Activity>, at: int, name: string) {
    exists a :: a in activity && a.span.stop == at && a.tag.name == name
  }

  ghost predicate StartsWith(activity: seq<F.Activity>, at: int, name: string) {
    exists a :: a in activity && a.span.start == at && a.tag.name == name
  }

  /** A gap is named after activities that stop and start at its ends, or after the ends of the interval. */
  ghost predicate Named(activity: seq<F.Activity>, g: Gap, start: int, end: int) {
    && (if g.kind in {Empty, Front} then g.at.start == start && g.before == ReplayStart
        else StopsWith(activity, g.at.start, g.before))
    && (if g.kind in {Empty, Tail} then g.at.stop == end && g.after == NextReplay
        else StartsWith(activity, g.at.stop, g.after))
  }

  lemma NamedExtends(activity: seq<F.Activity>, a: F.Activity, g: Gap, start: int, end: int)
    requires Named(activity, g, start, end)
    ensures Named(activity + [a], g, start, end)
  {
    assert forall x :: x in activity ==> x in activity + [a];
  }

  lemma {:induction false} ScanNamed(activity: seq<F.Activity>, start: int, end: int, minGap: int)
    requires activity != []
    ensures var s := ScanOver(activity, start, minGap);
            && StopsWith(activity, s.current.stop, s.name)
            && forall g :: g in s.gaps ==> Named(activity, g, start, end)
  {
    var n := |activity| - 1;
    var before, last := activity[..n], activity[n];
    assert activity == before + [last] && last in activity;
    if n > 0 {
      ScanNamed(before, start, end, minGap);
      var s := ScanOver(before, start, minGap);
      forall g | g in s.gaps ensures Named(activity, g, start, end) {
        NamedExtends(before, last, g, start, end);
      }
      assert forall x :: x in before ==> x in activity;
    }
  }

  /** Every reported gap carries the names of its neighbours. */
  lemma GapsNamed(activity: seq<F.Activity>, start: int, end: int, minGap: int)
    ensures forall g :: g in GapsOf(activity, start, end, minGap) ==> Named(activity, g, start, end)
  {
    if activity != [] {
      ScanNamed(activity, start, end, minGap);
    }
  }

  /** Among the activities in scan order, the first to stop at `at` carries the name. */
  ghost predicate FirstStop(activity: seq<F.Activity>, at: int, name: string) {
    exists i :: 0 <= i < |activity| && activity[i].span.stop == at && activity[i].tag.name == name
                && forall j :: 0 <= j < i ==> activity[j].span.stop < at
  }

  /** The first to start at `at` carries the name. */
  ghost predicate FirstStart(activity: seq<F.Activity>, at: int, name: string) {
    exists i :: 0 <= i < |activity| && activity[i].span.start == at && activity[i].tag.name == name
                && forall j :: 0 <= j < i ==> activity[j].span.start < at
  }

  ghost predicate NamedFirst(activity: seq<F.Activity>, g: Gap) {
    && (g.kind in {Internal, Tail} ==> FirstStop(activity, g.at.start, g.before))
    && (g.kind in {Front, Internal} ==> FirstStart(activity, g.at.stop, g.after))
  }

  lemma FirstExtends(activity: seq<F.Activity>, a: F.Activity, at: int, name: string)
    ensures FirstStop(activity, at, name) ==> FirstStop(activity + [a], at, name)
    ensures FirstStart(activity, at, name) ==> FirstStart(activity + [a], at, name)
  {
    if FirstStop(activity, at, name) {
      var i :| 0 <= i < |activity| && activity[i].span.stop == at && activity[i].tag.name == name
               && forall j :: 0 <= j < i ==> activity[j].span.stop < at;
      assert (activity + [a])[i] == activity[i];
    }
    if FirstStart(activity, at, name) {
      var i :| 0 <= i < |activity| && activity[i].span.start == at && activity[i].tag.name == name
               && forall j :: 0 <= j < i ==> activity[j].span.start < at;
      assert (activity + [a])[i] == activity[i];
    }
  }

  lemma NewFirst(activity: seq<F.Activity>, a: F.Activity)
    ensures (forall x :: x in activity ==> x.span.stop < a.span.stop) ==>
              FirstStop(activity + [a], a.span.stop, a.tag.name)
    ensures (forall x :: x in activity ==> x.span.start < a.span.start) ==>
              FirstStart(activity + [a], a.span.start, a.tag.name)
  {
    assert (activity + [a])[|activity|] == a;
    assert forall j :: 0 <= j < |activity| ==> (activity + [a])[j] in activity;
  }

  /** The growing stretch is named after the first activity that reaches its end. */
  ghost predicate NamesFirst(activity: seq<F.Activity>, s: Scan) {
    && FirstStop(activity, s.current.stop, s.name)
    && (forall x :: x in activity ==> x.span.start <= x.span.stop <= s.current.stop)
    && forall g :: g in s.gaps ==> NamedFirst(activity, g)
  }

  lemma NamesFirstOpen(a: F.Activity, start: int, minGap: int)
    requires a.span.start <= a.span.stop
    ensures NamesFirst([a], Open(a, start, minGap))
  {
    NewFirst([], a);
    assert [] + [a] == [a];
  }

  lemma NamedFirstExtends(activity: seq<F.Activity>, a: F.Activity, g: Gap)
    requires NamedFirst(activity, g)
    ensures NamedFirst(activity + [a], g)
  {
    FirstExtends(activity, a, g.at.start, g.before);
    FirstExtends(activity, a, g.at.stop, g.after);
  }

  /** The gap before an activity that starts past the stretch is named after both. */
  lemma NewGapNamed(activity: seq<F.Activity>, s: Scan, a: F.Activity)
    requires NamesFirst(activity, s) && s.current.stop < a.span.start
    ensures NamedFirst(activity + [a], Gap(Internal, Span(s.current.stop, a.span.start), s.name, a.tag.name))
  {
    NewFirst(activity, a);
    FirstExtends(activity, a, s.current.stop, s.name);
  }

  lemma StretchNamed(activity: seq<F.Activity>, s: Scan, a: F.Activity, minGap: int)
    requires NamesFirst(activity, s) && a.span.start <= a.span.stop
    ensures var next := Next(s, a, minGap);
            FirstStop(activity + [a], next.current.stop, next.name) && a.span.stop <= next.current.stop
  {
    NewFirst(activity, a);
    FirstExtends(activity, a, s.current.stop, s.name);
  }

  lemma NamesFirstNext(activity: seq<F.Activity>, s: Scan, a: F.Activity, minGap: int)
    requires NamesFirst(activity, s) && a.span.start <= a.span.stop
    ensures NamesFirst(activity + [a], Next(s, a, minGap))
  {
    StretchNamed(activity, s, a, minGap);
    forall g | g in s.gaps ensures NamedFirst(activity + [a], g) {
      NamedFirstExtends(activity, a, g);
    }
    if s.current.stop < a.span.start {
      NewGapNamed(activity, s, a);
    }
  }

  lemma {:induction false} ScanNamesFirst(activity: seq<F.Activity>, start: int, end: int, minGap: int)
    requires activity != [] && Loaded(activity, start, end)
    ensures NamesFirst(activity, ScanOver(activity, start, minGap))
  {
    var n := |activity| - 1;
    var before, last := activity[..n], activity[n];
    assert last in activity;
    if n == 0 {
      assert activity == [last];
      NamesFirstOpen(last, start, minGap);
    } else {
      LoadedPrefix(activity, start, end);
      ScanNamesFirst(before, start, end, minGap);
      NamesFirstNext(before, ScanOver(before, start, minGap), last, minGap);
      assert activity == before + [last];
    }
  }

  /** Of several activities that end or start at a gap, it is named after the first in scan order. */
  lemma GapsNamedFirst(activity: seq<F.Activity>, start: int, end: int, minGap: int)
    requires Loaded(activity, start, end)
    ensures forall g :: g in GapsOf(activity, start, end, minGap) ==> NamedFirst(activity, g)
  {
    if activity != [] {
      ScanNamesFirst(activity, start, end, minGap);
    }
  }

  // ----- the columns of the row -----

  function IfLong(length: int, minGap: int): int {
    if length >= minGap then length else 0
  }

  lemma {:induction false} KindSnoc(gaps: seq<Gap>, g: Gap, kind: Kind)
    ensures KindTotal(gaps + [g], kind) == KindTotal(gaps, kind) + (if g.kind == kind then Length(g.at) else 0)
  {
    if gaps == [] {
      assert gaps + [g] == [g] && [g][1..] == [];
    } else {
      KindSnoc(gaps[1..], g, kind);
      assert (gaps + [g])[1..] == gaps[1..] + [g];
    }
  }

  lemma KindAdded(gaps: seq<Gap>, g: Gap, minGap: int, kind: Kind)
    ensures KindTotal(gaps + GapIf(g, minGap), kind)
         == KindTotal(gaps, kind) + (if g.kind == kind then IfLong(Length(g.at), minGap) else 0)
  {
    if Length(g.at) >= minGap {
      KindSnoc(gaps, g, kind);
    } else {
      assert gaps + [] == gaps;
    }
  }

  lemma {:induction false} ScanColumns(activity: seq<F.Activity>, start: int, minGap: int)
    requires activity != []
    ensures var gaps := ScanOver(activity, start, minGap).gaps;
            && KindTotal(gaps, Front) == IfLong(activity[0].span.start - start, minGap)
            && KindTotal(gaps, Tail) == 0
  {
    var n := |activity| - 1;
    if n == 0 {
      var front := Gap(Front, Span(start, activity[0].span.start), ReplayStart, activity[0].tag.name);
      KindAdded([], front, minGap, Front);
      KindAdded([], front, minGap, Tail);
      assert [] + GapIf(front, minGap) == GapIf(front, minGap);
    } else {
      var s, a := ScanOver(activity[..n], start, minGap), activity[n];
      ScanColumns(activity[..n], start, minGap);
      var g := Gap(Internal, Span(s.current.stop, a.span.start), s.name, a.tag.name);
      KindAdded(s.gaps, g, minGap, Front);
      KindAdded(s.gaps, g, minGap, Tail);
      ScanStep(activity, start, minGap);
    }
  }

  /** The first start and the last stop of the activities. */
  ghost predicate Extent(activity: seq<F.Activity>, first: int, last: int) {
    && (exists a :: a in activity && a.span.start == first) && (exists a :: a in activity && a.span.stop == last)
    && forall a :: a in activity ==> first <= a.span.start && a.span.stop <= last
  }

  lemma ScanExtent(activity: seq<F.Activity>, start: int, end: int, minGap: int, first: int, last: int)
    requires activity != [] && Loaded(activity, start, end) && Extent(activity, first, last)
    ensures activity[0].span.start == first && ScanOver(activity, start, minGap).current.stop == last
  {
    ScanNamesFirst(activity, start, end, minGap);
    assert activity[0] in activity;
    var a :| a in activity && a.span.start == first;
    var i :| 0 <= i < |activity| && activity[i] == a;
    assert i > 0 ==> SpanLe(activity[0].span, activity[i].span);
    var b :| b in activity && b.span.stop == last;
    var s := ScanOver(activity, start, minGap);
    var j :| 0 <= j < |activity| && activity[j].span.stop == s.current.stop;
    assert activity[j] in activity;
  }

  /**
   * Front idle time is the time before the first start and tail idle time the time after the last stop, each if it
   * reaches the threshold; with the internal idle time they add up to all reported gaps. Busy time is the covered
   * time, and overlap and idle time are what it leaves of the service and of the interval.
   */
  lemma ColumnsMeaning(activity: seq<F.Activity>, start: int, end: int, minGap: int, first: int, last: int)
    requires activity != [] && Loaded(activity, start, end) && Extent(activity, first, last)
    ensures var gaps := GapsOf(activity, start, end, minGap);
            var row := RowOf(activity, start, end, gaps);
            && row.front == IfLong(first - start, minGap) && row.tail == IfLong(end - last, minGap)
            && row.front + row.inner + row.tail == Service(PlacesOf(gaps)) && row.gapCount == |gaps|
            && row.busy == |Instants(F.SpansOf(activity))| && row.raw == Service(F.SpansOf(activity))
            && row.overlap == row.raw - row.busy && row.idle == end - start - row.busy
  {
    var s := ScanOver(activity, start, minGap);
    ScanExtent(activity, start, end, minGap, first, last);
    ScanColumns(activity, start, minGap);
    var tail := Gap(Tail, Span(s.current.stop, end), s.name, NextReplay);
    KindAdded(s.gaps, tail, minGap, Front);
    KindAdded(s.gaps, tail, minGap, Tail);
    ScanKinds(activity, start, minGap);
    KindsAdd(GapsOf(activity, start, end, minGap));
  }

  // ----- replay intervals and what they receive -----

  datatype Interval = Interval(step: nat, rank: nat, start: int, end: int)

  /** Every rank has the same number of ranges, and dropping both edges leaves a step with a successor. */
  predicate EnoughRanges(starts: seq<seq<int>>, drop: nat) {
    && starts != [] && drop > 0
    && (forall r :: 0 <= r < |starts| ==> |starts[r]| == |starts[0]|)
    && |starts[0]| > 2 * drop + 1
  }

  ghost predicate IsInterval(starts: seq<seq<int>>, drop: nat, i: Interval)
    requires EnoughRanges(starts, drop)
  {
    && i.rank < |starts| && i.step < |starts[0]| - 2 * drop
    && i.start == starts[i.rank][drop + i.step] && i.end == starts[i.rank][drop + i.step + 1]
  }

  /** Rank by rank, and step by step within a rank. */
  predicate Precedes(i: Interval, j: Interval) {
    i.rank < j.rank || (i.rank == j.rank && i.step < j.step)
  }

  /** In strictly ascending order, so none twice. */
  predicate Listed(records: seq<Interval>) {
    forall a, b :: 0 <= a < b < |records| ==> Precedes(records[a], records[b])
  }

  lemma ListedSnoc(records: seq<Interval>, last: Interval)
    requires Listed(records) && forall i :: i in records ==> Precedes(i, last)
    ensures Listed(records + [last])
  {
    forall a | 0 <= a < |records| ensures Precedes(records[a], last) {
      assert records[a] in records;
    }
  }

  /** `None` is a raised error; without an edge drop the last step reads past its ranges. */
  method CreateIntervals(starts: seq<seq<int>>, drop: nat) returns (r: Option<seq<Interval>>)
    ensures r.Some? <==> EnoughRanges(starts, drop)
    ensures r.Some? ==> Listed(r.value) && forall i :: i in r.value <==> IsInterval(starts, drop, i)
  {
    if !EnoughRanges(starts, drop) {
      return None;
    }
    var records: seq<Interval>, count := [], |starts[0]|;
    for rank := 0 to |starts|
      invariant Listed(records) && forall i :: i in records <==> IsInterval(starts, drop, i) && i.rank < rank
    {
      ghost var before := records;
      for step := drop to count - drop
        invariant Listed(records)
        invariant forall i :: i in records <==>
                    i in before || (IsInterval(starts, drop, i) && i.rank == rank && i.step < step - drop)
      {
        var record := Interval(step - drop, rank, starts[rank][step], starts[rank][step + 1]);
        ListedSnoc(records, record);
        records := records + [record];
      }
    }
    r := Some(records);
  }

  predicate Ascends(starts: seq<int>) {
    forall i, j :: 0 <= i <= j < |starts| ==> starts[i] <= starts[j]
  }

  function StartsIn(activity: seq<F.Activity>, start: int, end: int): seq<F.Activity> {
    if activity == [] then []
    else (if start <= activity[0].span.start < end then [activity[0]] else []) + StartsIn(activity[1..], start, end)
  }

  function Timed(): (F.Activity, F.Activity) -> bool {
    (x: F.Activity, y: F.Activity) => SpanLe(x.span, y.span)
  }

  /** What an interval receives: the activities of its rank that start in it, sorted stably by start and end. */
  function Load(activity: seq<F.Activity>, start: int, end: int): seq<F.Activity> {
    Sort(StartsIn(activity, start, end), Timed())
  }

  lemma {:induction false} StartsInMeaning(activity: seq<F.Activity>, start: int, end: int)
    ensures forall a :: a in StartsIn(activity, start, end) <==> a in activity && start <= a.span.start < end
  {
    if activity != [] {
      StartsInMeaning(activity[1..], start, end);
      assert activity == [activity[0]] + activity[1..];
    }
  }

  /** Loading gives the scan what it expects. */
  lemma LoadIsLoaded(activity: seq<F.Activity>, start: int, end: int)
    requires start <= end && F.AllForward(activity)
    ensures Loaded(Load(activity, start, end), start, end)
  {
    var loaded := StartsIn(activity, start, end);
    StartsInMeaning(activity, start, end);
    TimedOrder();
    SortCorrect(loaded, Timed());
    assert forall a :: a in Load(activity, start, end) <==> a in multiset(Load(activity, start, end));
    assert forall a :: a in loaded <==> a in multiset(loaded);
    forall i, j | 0 <= i < j < |Load(activity, start, end)|
      ensures SpanLe(Load(activity, start, end)[i].span, Load(activity, start, end)[j].span)
    {
      assert Timed()(Load(activity, start, end)[i], Load(activity, start, end)[j]);
    }
  }

  /** What `n` consecutive intervals of one rank load, one after the other. */
  function LoadedBy(activity: seq<F.Activity>, starts: seq<int>, first: nat, n: nat): seq<F.Activity>
    requires first + n < |starts|
  {
    if n == 0 then []
    else LoadedBy(activity, starts, first, n - 1) + Load(activity, starts[first + n - 1], starts[first + n])
  }

  lemma {:induction false} StartsInTile(activity: seq<F.Activity>, x: int, y: int, z: int)
    requires x <= y <= z
    ensures multiset(StartsIn(activity, x, z))
         == multiset(StartsIn(activity, x, y)) + multiset(StartsIn(activity, y, z))
  {
    if activity != [] {
      StartsInTile(activity[1..], x, y, z);
    }
  }

  lemma LoadKeeps(activity: seq<F.Activity>, start: int, end: int)
    ensures multiset(Load(activity, start, end)) == multiset(StartsIn(activity, start, end))
  {
    TimedOrder();
    SortCorrect(StartsIn(activity, start, end), Timed());
  }

  lemma TimedOrder()
    ensures TotalPreorder(Timed())
  {
  }

  lemma {:induction false} StartsNowhere(activity: seq<F.Activity>, x: int)
    ensures StartsIn(activity, x, x) == []
  {
    if activity != [] {
      StartsNowhere(activity[1..], x);
    }
  }

  lemma JoinElements(a: seq<F.Activity>, b: seq<F.Activity>, c: seq<F.Activity>, d: seq<F.Activity>)
    requires multiset(a) == multiset(c) && multiset(b) == multiset(d)
    ensures multiset(a + b) == multiset(c) + multiset(d)
  {
  }

  /** The intervals of a rank load every activity that starts between the kept edges, and each exactly once. */
  lemma {:induction false} IntervalsTile(activity: seq<F.Activity>, starts: seq<int>, first: nat, n: nat)
    requires first + n < |starts| && Ascends(starts)
    ensures multiset(LoadedBy(activity, starts, first, n))
         == multiset(StartsIn(activity, starts[first], starts[first + n]))
  {
    if n == 0 {
      StartsNowhere(activity, starts[first]);
    } else {
      var x, y, z := starts[first], starts[first + n - 1], starts[first + n];
      IntervalsTile(activity, starts, first, n - 1);
      LoadKeeps(activity, y, z);
      StartsInTile(activity, x, y, z);
      JoinElements(LoadedBy(activity, starts, first, n - 1), Load(activity, y, z),
                   StartsIn(activity, x, y), StartsIn(activity, y, z));
    }
  }

  /** The intervals of a rank follow each other without overlap, so no start lies in two of them. */
  lemma IntervalsFollow(starts: seq<seq<int>>, drop: nat, i: Interval, j: Interval)
    requires EnoughRanges(starts, drop) && IsInterval(starts, drop, i) && IsInterval(starts, drop, j)
    requires i.rank == j.rank && Ascends(starts[i.rank]) && i.step < j.step
    ensures i.start <= i.end <= j.start <= j.end
  {
    var row := starts[i.rank];
    assert row[drop + i.step + 1] <= row[drop + j.step];
  }
}
