/** Idle gaps of a window, each attributed to the activities on both sides of it. */
module IdleFrontier {
  import opened Spans
  import opened Sorting
  import opened RoundLedger
  import opened Options

  datatype Label = Label(scope: string, name: string)

  datatype Activity = Activity(span: Span, tag: Label)

  /** An uncovered stretch of the window with the activity before and after it, if any. */
  datatype Edge = Edge(at: Span, previous: Option<Label>, following: Option<Label>)

  /** What the tool reports of an edge: its length in place of its position. */
  datatype Gap = Gap(duration: int, previous: Option<Label>, following: Option<Label>)

  datatype Sweep = Sweep(cursor: int, previous: Option<Label>, edges: seq<Edge>)

  // ----- the order in which activities are visited -----

  predicate TextLe(x: string, y: string) {
    x == [] || (y != [] && (x[0] < y[0] || (x[0] == y[0] && TextLe(x[1..], y[1..]))))
  }

  lemma {:induction false} TextTotal(x: string, y: string)
    ensures TextLe(x, y) || TextLe(y, x)
    ensures TextLe(x, y) && TextLe(y, x) ==> x == y
  {
    if x != [] && y != [] && x[0] == y[0] {
      TextTotal(x[1..], y[1..]);
      assert x == [x[0]] + x[1..] && y == [y[0]] + y[1..];
    }
  }

  lemma {:induction false} TextTransitive(x: string, y: string, z: string)
    requires TextLe(x, y) && TextLe(y, z)
    ensures TextLe(x, z)
  {
    if x != [] && x[0] == y[0] == z[0] {
      TextTransitive(x[1..], y[1..], z[1..]);
    }
  }

  predicate LabelLe(x: Label, y: Label) {
    if x.scope == y.scope then TextLe(x.name, y.name) else TextLe(x.scope, y.scope)
  }

  predicate ActivityLe(x: Activity, y: Activity) {
    if x.span == y.span then LabelLe(x.tag, y.tag) else SpanLe(x.span, y.span)
  }

  /** Activities are visited by start, stop, scope and name. */
  lemma VisitingOrder(x: Activity, y: Activity)
    ensures ActivityLe(x, y) <==>
            || x.span.start < y.span.start
            || (x.span.start == y.span.start && x.span.stop < y.span.stop)
            || (x.span == y.span && x.tag.scope != y.tag.scope && TextLe(x.tag.scope, y.tag.scope))
            || (x.span == y.span && x.tag.scope == y.tag.scope && TextLe(x.tag.name, y.tag.name))
  {
  }

  /** Texts compare by the first character in which they differ; a prefix comes first. */
  lemma {:induction false} TextOrder(common: string, x: string, y: string)
    ensures TextLe(common, common + y)
    ensures x != [] && y != [] && x[0] != y[0] ==> (TextLe(common + x, common + y) <==> x[0] < y[0])
    ensures y != [] ==> !TextLe(common + y, common)
  {
    if common == [] {
      assert common + x == x && common + y == y;
    } else {
      TextOrder(common[1..], x, y);
      assert (common + x)[1..] == common[1..] + x && (common + y)[1..] == common[1..] + y;
    }
  }

  lemma LabelTotal(x: Label, y: Label)
    ensures LabelLe(x, y) || LabelLe(y, x)
    ensures LabelLe(x, y) && LabelLe(y, x) ==> x == y
  {
    TextTotal(x.scope, y.scope);
    TextTotal(x.name, y.name);
  }

  lemma LabelTransitive(x: Label, y: Label, z: Label)
    requires LabelLe(x, y) && LabelLe(y, z)
    ensures LabelLe(x, z)
  {
    if x.scope == y.scope == z.scope {
      TextTransitive(x.name, y.name, z.name);
    } else if x.scope != y.scope && y.scope != z.scope {
      TextTransitive(x.scope, y.scope, z.scope);
      TextTotal(x.scope, y.scope);
    }
  }

  lemma ActivityOrder()
    ensures TotalPreorder(ActivityLe) && Antisymmetric(ActivityLe)
  {
    forall x, y
      ensures ActivityLe(x, y) || ActivityLe(y, x)
      ensures ActivityLe(x, y) && ActivityLe(y, x) ==> x == y
    {
      LabelTotal(x.tag, y.tag);
    }
    forall x, y, z | ActivityLe(x, y) && ActivityLe(y, z) ensures ActivityLe(x, z) {
      if x.span == y.span == z.span {
        LabelTransitive(x.tag, y.tag, z.tag);
      }
    }
  }

  // ----- the sweep -----

  function SpansOf(activities: seq<Activity>): (r: seq<Span>)
    ensures |r| == |activities|
  {
    if activities == [] then [] else [activities[0].span] + SpansOf(activities[1..])
  }

  function SpansOfEdges(edges: seq<Edge>): (r: seq<Span>)
    ensures |r| == |edges|
    ensures forall i :: 0 <= i < |r| ==> r[i] == edges[i].at
  {
    seq(|edges|, i requires 0 <= i < |edges| => edges[i].at)
  }

  function Report(e: Edge): Gap {
    Gap(e.at.stop - e.at.start, e.previous, e.following)
  }

  function Reported(edges: seq<Edge>): (r: seq<Gap>)
    ensures |r| == |edges|
    ensures forall i :: 0 <= i < |r| ==> r[i] == Report(edges[i])
  {
    seq(|edges|, i requires 0 <= i < |edges| => Report(edges[i]))
  }

  function TotalDuration(gaps: seq<Gap>): int {
    if gaps == [] then 0 else gaps[0].duration + TotalDuration(gaps[1..])
  }

  function Visit(s: Sweep, a: Activity, start: int, end: int): Sweep {
    if !InWindow(a.span, start, end) then s
    else
      var edges :=
        if a.span.start > s.cursor
        then s.edges + [Edge(Span(s.cursor, a.span.start), s.previous, Some(a.tag))]
        else s.edges;
      if a.span.stop > s.cursor
      then Sweep(Min(a.span.stop, end), Some(a.tag), edges)
      else Sweep(s.cursor, s.previous, edges)
  }

  function SweepOver(visited: seq<Activity>, start: int, end: int): Sweep {
    if visited == [] then Sweep(start, None, [])
    else Visit(SweepOver(visited[..|visited| - 1], start, end), visited[|visited| - 1], start, end)
  }

  function CloseSweep(s: Sweep, end: int): seq<Edge> {
    if s.cursor < end then s.edges + [Edge(Span(s.cursor, end), s.previous, None)] else s.edges
  }

  /** The idle edges of a window in time order. */
  function Edges(activities: seq<Activity>, start: int, end: int): seq<Edge> {
    CloseSweep(SweepOver(Sort(activities, ActivityLe), start, end), end)
  }

  method IdleEdges(activities: seq<Activity>, start: int, end: int) returns (gaps: seq<Gap>)
    ensures gaps == Reported(Edges(activities, start, end))
  {
    var cursor, previous := start, None;
    gaps := [];
    var sorted := Sort(activities, ActivityLe);
    ghost var swept := Sweep(start, None, []);
    for i := 0 to |sorted|
      invariant swept == SweepOver(sorted[..i], start, end)
      invariant cursor == swept.cursor && previous == swept.previous && gaps == Reported(swept.edges)
    {
      var Activity(Span(a, b), tag) := sorted[i];
      assert sorted[..i + 1][..i] == sorted[..i];
      swept := Visit(swept, sorted[i], start, end);
      if b <= start || a >= end {
        continue;
      }
      if a > cursor {
        gaps := gaps + [Gap(a - cursor, previous, Some(tag))];
      }
      if b > cursor {
        cursor := Min(b, end);
        previous := Some(tag);
      }
    }
    assert sorted[..|sorted|] == sorted;
    if cursor < end {
      gaps := gaps + [Gap(end - cursor, previous, None)];
    }
  }

  // ----- what the sweep keeps -----

  /** Each reported gap has the length of its edge and the labels on its sides. */
  lemma ReportedAre(edges: seq<Edge>, i: nat)
    requires i < |edges|
    ensures Reported(edges)[i] == Gap(edges[i].at.stop - edges[i].at.start, edges[i].previous, edges[i].following)
  {
  }

  /** Some activity stops at `at`, and `tag` belongs to the first such activity in visiting order. */
  ghost predicate EndsAt(activities: seq<Activity>, at: int, tag: Label) {
    exists a :: a in activities && a.span.stop == at && a.tag == tag &&
                forall x :: x in activities && x.span.stop == at ==> ActivityLe(a, x)
  }

  /** Some activity starts at `at`, and `tag` belongs to the first such activity in visiting order. */
  ghost predicate StartsAt(activities: seq<Activity>, at: int, tag: Label) {
    exists a :: a in activities && a.span.start == at && a.tag == tag &&
                forall x :: x in activities && x.span.start == at ==> ActivityLe(a, x)
  }

  /** The frontier is the furthest visited stop inside the window and `previous` first reached it. */
  ghost predicate AtFrontier(visited: seq<Activity>, s: Sweep, start: int, end: int) {
    && start <= s.cursor <= end
    && (s.cursor < end ==> forall x :: x in visited && InWindow(x.span, start, end) ==> x.span.stop <= s.cursor)
    && (s.cursor < end ==> match s.previous
                           case None => s.cursor == start
                           case Some(tag) => s.cursor > start && EndsAt(visited, s.cursor, tag))
  }

  ghost predicate EdgeSides(activities: seq<Activity>, e: Edge, start: int, end: int) {
    && start <= e.at.start < e.at.stop <= end
    && (match e.previous
        case None => e.at.start == start
        case Some(tag) => e.at.start > start && EndsAt(activities, e.at.start, tag))
    && (match e.following
        case None => e.at.stop == end
        case Some(tag) => e.at.stop < end && StartsAt(activities, e.at.stop, tag))
  }

  ghost predicate InOrder(edges: seq<Edge>) {
    forall i, j :: 0 <= i < j < |edges| ==> edges[i].at.stop <= edges[j].at.start
  }

  ghost predicate EdgesKept(visited: seq<Activity>, s: Sweep, start: int, end: int) {
    && InOrder(s.edges)
    && forall e :: e in s.edges ==> e.at.stop <= s.cursor && e.following.Some? && EdgeSides(visited, e, start, end)
  }

  /** Up to the frontier an instant lies in an edge exactly when no visited activity covers it. */
  ghost predicate SplitAt(visited: seq<Activity>, s: Sweep, start: int, t: int) {
    start <= t < s.cursor ==>
      (t in Instants(SpansOfEdges(s.edges)) <==> t !in Instants(SpansOf(visited)))
  }

  ghost predicate Follows(a: Activity, visited: seq<Activity>) {
    forall x :: x in visited ==> ActivityLe(x, a)
  }

  lemma {:induction false} SpansOfMember(activities: seq<Activity>)
    ensures forall a :: a in activities ==> a.span in SpansOf(activities)
    ensures forall s :: s in SpansOf(activities) ==> exists a :: a in activities && a.span == s
  {
    if activities != [] {
      SpansOfMember(activities[1..]);
      assert activities == [activities[0]] + activities[1..];
      assert activities[0] in activities;
    }
  }

  lemma {:induction false} SpansOfAppend(xs: seq<Activity>, ys: seq<Activity>)
    ensures SpansOf(xs + ys) == SpansOf(xs) + SpansOf(ys)
  {
    if xs == [] {
      assert xs + ys == ys;
    } else {
      assert (xs + ys)[1..] == xs[1..] + ys;
      SpansOfAppend(xs[1..], ys);
    }
  }

  lemma SidesExtend(visited: seq<Activity>, a: Activity, at: int, tag: Label)
    requires Follows(a, visited)
    ensures EndsAt(visited, at, tag) ==> EndsAt(visited + [a], at, tag)
    ensures StartsAt(visited, at, tag) ==> StartsAt(visited + [a], at, tag)
  {
    if EndsAt(visited, at, tag) {
      var b :| b in visited && b.span.stop == at && b.tag == tag &&
               forall x :: x in visited && x.span.stop == at ==> ActivityLe(b, x);
      assert b in visited + [a];
    }
    if StartsAt(visited, at, tag) {
      var b :| b in visited && b.span.start == at && b.tag == tag &&
               forall x :: x in visited && x.span.start == at ==> ActivityLe(b, x);
      assert b in visited + [a];
    }
  }

  lemma EdgeSidesExtend(visited: seq<Activity>, a: Activity, e: Edge, start: int, end: int)
    requires Follows(a, visited) && EdgeSides(visited, e, start, end)
    ensures EdgeSides(visited + [a], e, start, end)
  {
    if e.previous.Some? {
      SidesExtend(visited, a, e.at.start, e.previous.value);
    }
    if e.following.Some? {
      SidesExtend(visited, a, e.at.stop, e.following.value);
    }
  }

  lemma FrontierKept(visited: seq<Activity>, s: Sweep, a: Activity, start: int, end: int)
    requires AtFrontier(visited, s, start, end) && Follows(a, visited)
    requires a.span.start <= a.span.stop
    ensures AtFrontier(visited + [a], Visit(s, a, start, end), start, end)
  {
    assert a in visited + [a];
    if InWindow(a.span, start, end) && s.cursor < a.span.stop < end {
      forall x | x in visited ensures x.span.stop != a.span.stop {
        assert ActivityLe(x, a);
      }
      assert ActivityLe(a, a) by { ActivityOrder(); }
      assert EndsAt(visited + [a], a.span.stop, a.tag);
    } else if s.cursor < end && s.previous.Some? {
      SidesExtend(visited, a, s.cursor, s.previous.value);
    }
  }

  lemma EdgesStayKept(visited: seq<Activity>, s: Sweep, a: Activity, start: int, end: int)
    requires AtFrontier(visited, s, start, end) && EdgesKept(visited, s, start, end) && Follows(a, visited)
    requires a.span.start <= a.span.stop && forall x :: x in visited ==> x.span.start <= x.span.stop
    ensures EdgesKept(visited + [a], Visit(s, a, start, end), start, end)
  {
    forall e | e in s.edges ensures EdgeSides(visited + [a], e, start, end) {
      EdgeSidesExtend(visited, a, e, start, end);
    }
    if InWindow(a.span, start, end) && a.span.start > s.cursor {
      var e := Edge(Span(s.cursor, a.span.start), s.previous, Some(a.tag));
      if s.previous.Some? {
        SidesExtend(visited, a, s.cursor, s.previous.value);
      }
      assert ActivityLe(a, a) by { ActivityOrder(); }
      assert a in visited + [a];
      assert StartsAt(visited + [a], a.span.start, a.tag);
      assert EdgeSides(visited + [a], e, start, end);
      assert Visit(s, a, start, end).edges == s.edges + [e];
    }
  }

  lemma EdgeBefore(visited: seq<Activity>, s: Sweep, a: Activity, start: int, end: int, t: int)
    requires EdgesKept(visited, s, start, end) && Follows(a, visited)
    requires t in Instants(SpansOfEdges(s.edges))
    ensures t < s.cursor && t < a.span.start
  {
    InstantsMeaning(SpansOfEdges(s.edges), t);
    var at :| at in SpansOfEdges(s.edges) && at.start <= t < at.stop;
    var i :| 0 <= i < |s.edges| && s.edges[i].at == at;
    assert s.edges[i] in s.edges;
    assert StartsAt(visited, at.stop, s.edges[i].following.value);
  }

  /** No visited activity reaches past the frontier inside the window. */
  lemma BeyondFrontier(visited: seq<Activity>, s: Sweep, start: int, end: int, t: int)
    requires AtFrontier(visited, s, start, end) && s.cursor <= t < end
    ensures t !in Instants(SpansOf(visited))
  {
    InstantsMeaning(SpansOf(visited), t);
    SpansOfMember(visited);
  }

  lemma VisitedAt(visited: seq<Activity>, a: Activity, t: int)
    ensures t in Instants(SpansOf(visited + [a])) <==>
            t in Instants(SpansOf(visited)) || a.span.start <= t < a.span.stop
  {
    SpansOfAppend(visited, [a]);
    assert SpansOf([a]) == [a.span];
    InstantsAppend(SpansOf(visited), [a.span]);
    assert Instants([a.span]) == Range(a.span.start, a.span.stop);
  }

  lemma EdgeAddedAt(edges: seq<Edge>, e: Edge, t: int)
    ensures t in Instants(SpansOfEdges(edges + [e])) <==>
            t in Instants(SpansOfEdges(edges)) || e.at.start <= t < e.at.stop
  {
    assert SpansOfEdges(edges + [e]) == SpansOfEdges(edges) + [e.at];
    InstantsAppend(SpansOfEdges(edges), [e.at]);
    assert Instants([e.at]) == Range(e.at.start, e.at.stop);
  }

  lemma EdgeWithin(visited: seq<Activity>, s: Sweep, start: int, end: int, t: int)
    requires EdgesKept(visited, s, start, end) && t in Instants(SpansOfEdges(s.edges))
    ensures start <= t < s.cursor
  {
    InstantsMeaning(SpansOfEdges(s.edges), t);
    var at :| at in SpansOfEdges(s.edges) && at.start <= t < at.stop;
    var i :| 0 <= i < |s.edges| && s.edges[i].at == at;
    assert s.edges[i] in s.edges;
  }

  /** The instants of the edges after a visit. */
  lemma VisitEdgesAt(s: Sweep, a: Activity, start: int, end: int, t: int)
    ensures t in Instants(SpansOfEdges(Visit(s, a, start, end).edges)) <==>
            || t in Instants(SpansOfEdges(s.edges))
            || (InWindow(a.span, start, end) && s.cursor <= t < a.span.start)
  {
    if InWindow(a.span, start, end) && a.span.start > s.cursor {
      EdgeAddedAt(s.edges, Edge(Span(s.cursor, a.span.start), s.previous, Some(a.tag)), t);
    }
  }

  lemma SplitKept(visited: seq<Activity>, s: Sweep, a: Activity, start: int, end: int, t: int)
    requires AtFrontier(visited, s, start, end) && EdgesKept(visited, s, start, end)
    requires Follows(a, visited) && SplitAt(visited, s, start, t)
    ensures SplitAt(visited + [a], Visit(s, a, start, end), start, t)
  {
    VisitEdgesAt(s, a, start, end, t);
    VisitedAt(visited, a, t);
    if t in Instants(SpansOfEdges(s.edges)) {
      EdgeBefore(visited, s, a, start, end, t);
    }
    if s.cursor <= t < end {
      BeyondFrontier(visited, s, start, end, t);
    }
  }

  lemma {:induction false} SweepKeeps(visited: seq<Activity>, start: int, end: int)
    requires start <= end && Ordered(visited, ActivityLe)
    requires forall x :: x in visited ==> x.span.start <= x.span.stop
    ensures AtFrontier(visited, SweepOver(visited, start, end), start, end)
    ensures EdgesKept(visited, SweepOver(visited, start, end), start, end)
    ensures forall t :: SplitAt(visited, SweepOver(visited, start, end), start, t)
  {
    if visited != [] {
      var n := |visited| - 1;
      var before, a := visited[..n], visited[n];
      var s := SweepOver(before, start, end);
      SweepKeeps(before, start, end);
      assert visited == before + [a];
      assert Follows(a, before);
      FrontierKept(before, s, a, start, end);
      EdgesStayKept(before, s, a, start, end);
      forall t ensures SplitAt(visited, Visit(s, a, start, end), start, t) {
        SplitKept(before, s, a, start, end, t);
      }
    }
  }

  // ----- the idle edges of a window -----

  predicate AllForward(activities: seq<Activity>) {
    forall x :: x in activities ==> x.span.start <= x.span.stop
  }

  /** Closing the sweep adds at most the edge from the frontier to the window end. */
  lemma ClosedSides(visited: seq<Activity>, s: Sweep, start: int, end: int)
    requires AtFrontier(visited, s, start, end) && EdgesKept(visited, s, start, end)
    ensures InOrder(CloseSweep(s, end))
    ensures forall e :: e in CloseSweep(s, end) ==> EdgeSides(visited, e, start, end)
  {
    forall e | e in CloseSweep(s, end) && e !in s.edges ensures EdgeSides(visited, e, start, end) {
      assert e == Edge(Span(s.cursor, end), s.previous, None);
    }
    forall i | 0 <= i < |s.edges| ensures s.edges[i].at.stop <= s.cursor {
      assert s.edges[i] in s.edges;
    }
  }

  /** Every edge lies in the window between the activities named on it, and edges do not overlap. */
  lemma EdgesNamed(activities: seq<Activity>, start: int, end: int)
    requires start <= end && AllForward(activities)
    ensures InOrder(Edges(activities, start, end))
    ensures forall e :: e in Edges(activities, start, end) ==> EdgeSides(activities, e, start, end)
  {
    var sorted := Sort(activities, ActivityLe);
    SortedActivities(activities);
    SweepKeeps(sorted, start, end);
    ClosedSides(sorted, SweepOver(sorted, start, end), start, end);
    forall e | e in Edges(activities, start, end) ensures EdgeSides(activities, e, start, end) {
      SidesSame(sorted, activities, e, start, end);
    }
  }

  lemma SortedActivities(activities: seq<Activity>)
    ensures var sorted := Sort(activities, ActivityLe);
            Ordered(sorted, ActivityLe) && forall x :: x in sorted <==> x in activities
    ensures Instants(SpansOf(Sort(activities, ActivityLe))) == Instants(SpansOf(activities))
  {
    var sorted := Sort(activities, ActivityLe);
    ActivityOrder();
    SortCorrect(activities, ActivityLe);
    assert forall x :: x in sorted <==> x in multiset(sorted);
    assert forall x :: x in activities <==> x in multiset(activities);
    forall t ensures t in Instants(SpansOf(sorted)) <==> t in Instants(SpansOf(activities)) {
      SameCover(sorted, activities, t);
    }
  }

  lemma SameCover(xs: seq<Activity>, ys: seq<Activity>, t: int)
    requires forall x :: x in xs <==> x in ys
    ensures t in Instants(SpansOf(xs)) <==> t in Instants(SpansOf(ys))
  {
    InstantsMeaning(SpansOf(xs), t);
    InstantsMeaning(SpansOf(ys), t);
    SpansOfMember(xs);
    SpansOfMember(ys);
  }

  lemma SidesSame(xs: seq<Activity>, ys: seq<Activity>, e: Edge, start: int, end: int)
    requires forall x :: x in xs <==> x in ys
    requires EdgeSides(xs, e, start, end)
    ensures EdgeSides(ys, e, start, end)
  {
  }

  /** The edges are exactly the instants of the window that no activity covers. */
  lemma EdgesMeaning(activities: seq<Activity>, start: int, end: int)
    requires start <= end && AllForward(activities)
    ensures Instants(SpansOfEdges(Edges(activities, start, end)))
         == Range(start, end) - Instants(SpansOf(activities))
  {
    var sorted := Sort(activities, ActivityLe);
    SortedActivities(activities);
    SweepKeeps(sorted, start, end);
    forall t
      ensures t in Instants(SpansOfEdges(Edges(activities, start, end))) <==>
              start <= t < end && t !in Instants(SpansOf(activities))
    {
      ClosedAt(sorted, SweepOver(sorted, start, end), start, end, t);
    }
  }

  lemma ClosedAt(sorted: seq<Activity>, s: Sweep, start: int, end: int, t: int)
    requires AtFrontier(sorted, s, start, end) && EdgesKept(sorted, s, start, end) && SplitAt(sorted, s, start, t)
    ensures t in Instants(SpansOfEdges(CloseSweep(s, end))) <==>
            start <= t < end && t !in Instants(SpansOf(sorted))
  {
    if t in Instants(SpansOfEdges(s.edges)) {
      EdgeWithin(sorted, s, start, end, t);
    }
    if s.cursor < end {
      EdgeAddedAt(s.edges, Edge(Span(s.cursor, end), s.previous, None), t);
      if s.cursor <= t < end {
        BeyondFrontier(sorted, s, start, end, t);
      }
    }
  }

  lemma {:induction false} DurationIsService(edges: seq<Edge>)
    ensures TotalDuration(Reported(edges)) == Service(SpansOfEdges(edges))
  {
    if edges != [] {
      DurationIsService(edges[1..]);
      assert Reported(edges)[1..] == Reported(edges[1..]);
      assert SpansOfEdges(edges)[1..] == SpansOfEdges(edges[1..]);
    }
  }

  /** The reported durations add up to the uncovered time of the window. */
  lemma IdleTotal(activities: seq<Activity>, start: int, end: int)
    requires start <= end && AllForward(activities)
    ensures TotalDuration(Reported(Edges(activities, start, end)))
         == |Range(start, end) - Instants(SpansOf(activities))|
  {
    var edges := Edges(activities, start, end);
    EdgesNamed(activities, start, end);
    EdgesMeaning(activities, start, end);
    DurationIsService(edges);
    forall s | s in SpansOfEdges(edges) ensures s.start <= s.stop {
      var i :| 0 <= i < |edges| && edges[i].at == s;
      assert edges[i] in edges;
    }
    DisjointService(SpansOfEdges(edges));
  }
}
