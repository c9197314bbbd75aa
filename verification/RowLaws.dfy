/** Laws of a ledger row, stated on the recorded spans alone: who is credited, what overlaps, what is counted. */
module RowLaws {
  import opened Spans
  import opened RoundLedger
  import opened IdleFrontier
  import opened RoundWindows
  import opened WindowColumns
  import opened Options
  import E = ExclusiveActivity

  // ----- exclusive credit by scope -----

  /** Instants at which some kernel of the scope runs. */
  ghost function Running(kernels: seq<Activity>, scope: string): set<int> {
    Instants(SpansWith(kernels, ScopeKey(), scope))
  }

  /** Target work wins over draft work, draft over work outside graphs, and any of them over copies. */
  lemma OwnerCases(scopes: seq<E.Scope>, t: int)
    ensures E.Owner(scopes, t)
         == if E.ActiveAt(scopes, "target", t) then "target"
            else if E.ActiveAt(scopes, "draft", t) then "draft"
            else if E.ActiveAt(scopes, "outside graphs", t) then "outside graphs"
            else if E.ActiveAt(scopes, "copies", t) then "copies"
            else "no activity"
  {
    var names := ["target", "draft", "outside graphs", "copies"];
    assert E.Priority == names && E.Idle == "no activity";
    assert names[1..] == ["draft", "outside graphs", "copies"];
    assert names[1..][1..] == ["outside graphs", "copies"];
    assert names[1..][1..][1..] == ["copies"];
    assert names[1..][1..][1..][1..] == [];
    OwnerUnfolds(names, scopes, t);
    OwnerUnfolds(names[1..], scopes, t);
    OwnerUnfolds(names[1..][1..], scopes, t);
    OwnerUnfolds(names[1..][1..][1..], scopes, t);
  }

  lemma OwnerUnfolds(names: seq<string>, scopes: seq<E.Scope>, t: int)
    requires names != []
    ensures E.OwnerAmong(names, scopes, t)
         == if E.ActiveAt(scopes, names[0], t) then names[0] else E.OwnerAmong(names[1..], scopes, t)
    ensures E.OwnerAmong([], scopes, t) == E.Idle
  {
  }

  lemma CopiesActive(kernels: seq<Activity>, copies: seq<Span>, t: int)
    requires KernelTrace(kernels)
    ensures E.ActiveAt(ScopesOf(kernels, copies), "copies", t) <==> t in Instants(copies)
  {
    ScopesAt(kernels, copies, "copies", t);
    forall a | a in kernels ensures a.tag.scope != "copies" {
      assert a.tag.scope in KernelScopes;
    }
  }

  lemma KernelsRun(kernels: seq<Activity>, t: int)
    requires KernelTrace(kernels)
    ensures t in Instants(SpansOf(kernels)) <==>
            t in Running(kernels, "target") || t in Running(kernels, "draft") || t in Running(kernels, "outside graphs")
  {
    if t in Instants(SpansOf(kernels)) {
      var a := RunningKernel(kernels, t);
      assert a.tag.scope in KernelScopes;
      ScopeOf(kernels, a, t);
    }
    RunningCovers(kernels, "target", t);
    RunningCovers(kernels, "draft", t);
    RunningCovers(kernels, "outside graphs", t);
  }

  lemma RunningKernel(kernels: seq<Activity>, t: int) returns (a: Activity)
    requires t in Instants(SpansOf(kernels))
    ensures a in kernels && a.span.start <= t < a.span.stop
  {
    InstantsMeaning(SpansOf(kernels), t);
    SpansOfMember(kernels);
    var s :| s in SpansOf(kernels) && s.start <= t < s.stop;
    a :| a in kernels && a.span == s;
  }

  lemma ScopeOf(kernels: seq<Activity>, a: Activity, t: int)
    requires a in kernels && a.span.start <= t < a.span.stop
    ensures t in Running(kernels, a.tag.scope)
  {
    SpansWithAt(kernels, ScopeKey(), a.tag.scope, t);
    assert ScopeKey()(a) == a.tag.scope;
  }

  lemma RunningCovers(kernels: seq<Activity>, scope: string, t: int)
    ensures t in Running(kernels, scope) ==> t in Instants(SpansOf(kernels))
  {
    SpansWithAt(kernels, ScopeKey(), scope, t);
    SpansOfMember(kernels);
    if t in Running(kernels, scope) {
      var a :| a in kernels && ScopeKey()(a) == scope && a.span.start <= t < a.span.stop;
      CoveredBy(SpansOf(kernels), a.span, t);
    }
  }

  /** The instants credited to each label, in terms of what runs. */
  ghost function CreditedTo(kernels: seq<Activity>, copies: seq<Span>, name: string): set<int> {
    var target, draft := Running(kernels, "target"), Running(kernels, "draft");
    var outside := Running(kernels, "outside graphs");
    if name == "target" then target
    else if name == "draft" then draft - target
    else if name == "outside graphs" then outside - target - draft
    else if name == "copies" then Instants(copies) - Instants(SpansOf(kernels))
    else {}
  }

  /** What is active is what runs. */
  lemma ActiveIsRunning(kernels: seq<Activity>, copies: seq<Span>, t: int)
    requires KernelTrace(kernels)
    ensures var scopes := ScopesOf(kernels, copies);
            && (E.ActiveAt(scopes, "target", t) <==> t in Running(kernels, "target"))
            && (E.ActiveAt(scopes, "draft", t) <==> t in Running(kernels, "draft"))
            && (E.ActiveAt(scopes, "outside graphs", t) <==> t in Running(kernels, "outside graphs"))
            && (E.ActiveAt(scopes, "copies", t) <==> t in Instants(copies))
  {
    ScopeRuns(kernels, copies, "target", t);
    ScopeRuns(kernels, copies, "draft", t);
    ScopeRuns(kernels, copies, "outside graphs", t);
    CopiesActive(kernels, copies, t);
  }

  lemma OwnerIs(kernels: seq<Activity>, copies: seq<Span>, name: string, t: int)
    requires KernelTrace(kernels) && name in ["target", "draft", "outside graphs", "copies"]
    ensures E.Owner(ScopesOf(kernels, copies), t) == name <==> t in CreditedTo(kernels, copies, name)
  {
    OwnerCases(ScopesOf(kernels, copies), t);
    ActiveIsRunning(kernels, copies, t);
    KernelsRun(kernels, t);
  }

  lemma CreditOf(kernels: seq<Activity>, copies: seq<Span>, name: string, start: int, end: int)
    requires KernelTrace(kernels) && name in ["target", "draft", "outside graphs", "copies"]
    ensures E.Count(RowOf(kernels, copies, start, end).exclusive, name)
         == |CreditedTo(kernels, copies, name) * Range(start, end)|
  {
    var scopes := ScopesOf(kernels, copies);
    CreditCredits(scopes, start, end);
    forall t ensures t in E.Owned(scopes, name, start, end) <==>
                     t in CreditedTo(kernels, copies, name) * Range(start, end)
    {
      OwnerIs(kernels, copies, name, t);
    }
    assert E.Owned(scopes, name, start, end) == CreditedTo(kernels, copies, name) * Range(start, end);
  }

  /**
   * In a row target work is credited all its time, draft work its time without target work, work outside graphs its
   * time without either, copies their time without any kernel, and the idle label the rest of the window.
   */
  lemma ExclusiveByPriority(kernels: seq<Activity>, copies: seq<Span>, start: int, end: int)
    requires start <= end && KernelTrace(kernels) && Forward(copies)
    ensures var exclusive, window := RowOf(kernels, copies, start, end).exclusive, Range(start, end);
            var target, draft := Running(kernels, "target"), Running(kernels, "draft");
            var outside, covered := Running(kernels, "outside graphs"), Instants(SpansOf(kernels));
            && E.Count(exclusive, "target") == |target * window|
            && E.Count(exclusive, "draft") == |(draft - target) * window|
            && E.Count(exclusive, "outside graphs") == |(outside - target - draft) * window|
            && E.Count(exclusive, "copies") == |(Instants(copies) - covered) * window|
            && E.Count(exclusive, "no activity") == |window - (covered + Instants(copies))|
  {
    CreditOf(kernels, copies, "target", start, end);
    CreditOf(kernels, copies, "draft", start, end);
    CreditOf(kernels, copies, "outside graphs", start, end);
    CreditOf(kernels, copies, "copies", start, end);
    RowCloses(kernels, copies, start, end);
    assert E.Idle == "no activity";
  }

  // ----- overlap -----

  /** How many spans cover an instant. */
  function Depth(spans: seq<Span>, t: int): nat {
    if spans == [] then 0 else (if spans[0].start <= t < spans[0].stop then 1 else 0) + Depth(spans[1..], t)
  }

  function DepthSum(spans: seq<Span>, x: int, y: int): nat
    decreases y - x
  {
    if x < y then DepthSum(spans, x, y - 1) + Depth(spans, y - 1) else 0
  }

  /** Instants beyond the first kernel that runs, over the window. */
  function ExcessSum(spans: seq<Span>, x: int, y: int): nat
    decreases y - x
  {
    if x < y then ExcessSum(spans, x, y - 1) + (if Depth(spans, y - 1) > 1 then Depth(spans, y - 1) - 1 else 0) else 0
  }

  lemma {:induction false} DepthSumHead(spans: seq<Span>, x: int, y: int)
    requires spans != [] && x <= y && spans[0].start <= spans[0].stop
    ensures DepthSum(spans, x, y) == Overlap(spans[0], x, y) + DepthSum(spans[1..], x, y)
    decreases y - x
  {
    if x < y {
      DepthSumHead(spans, x, y - 1);
    }
  }

  lemma {:induction false} DepthSumNone(x: int, y: int)
    ensures DepthSum([], x, y) == 0
    decreases y - x
  {
    if x < y {
      DepthSumNone(x, y - 1);
    }
  }

  /** Clipped service counts every instant once per span that covers it. */
  lemma {:induction false} ServiceIsDepth(spans: seq<Span>, x: int, y: int)
    requires x <= y && Forward(spans)
    ensures Service(Clipped(spans, x, y)) == DepthSum(spans, x, y)
  {
    if spans == [] {
      DepthSumNone(x, y);
    } else {
      assert spans[0] in spans;
      ServiceHead(spans, x, y);
      ServiceIsDepth(spans[1..], x, y);
      DepthSumHead(spans, x, y);
    }
  }

  lemma {:induction false} DepthCovers(spans: seq<Span>, t: int)
    ensures Depth(spans, t) > 0 <==> t in Instants(spans)
  {
    if spans != [] {
      DepthCovers(spans[1..], t);
    }
  }

  lemma {:induction false} DepthSplits(spans: seq<Span>, x: int, y: int)
    requires x <= y
    ensures DepthSum(spans, x, y) == |Instants(spans) * Range(x, y)| + ExcessSum(spans, x, y)
    decreases y - x
  {
    var covered := Instants(spans);
    if x < y {
      DepthSplits(spans, x, y - 1);
      DepthCovers(spans, y - 1);
      var before := covered * Range(x, y - 1);
      if y - 1 in covered {
        assert covered * Range(x, y) == before + {y - 1};
      } else {
        assert covered * Range(x, y) == before;
      }
    } else {
      assert covered * Range(x, y) == {};
    }
  }

  /** The overlap column counts, at every instant of the window, the kernels that run beyond the first. */
  lemma OverlapIsExcess(kernels: seq<Activity>, copies: seq<Span>, start: int, end: int)
    requires start <= end && KernelTrace(kernels)
    ensures RowOf(kernels, copies, start, end).overlap == ExcessSum(SpansOf(kernels), start, end)
  {
    SpansOfMember(kernels);
    assert Forward(SpansOf(kernels));
    ServiceIsDepth(SpansOf(kernels), start, end);
    DepthSplits(SpansOf(kernels), start, end);
  }

  // ----- counts and times -----

  /** The span runs at some instant of the window, or takes no time and lies strictly inside it. */
  ghost predicate Reaches(s: Span, start: int, end: int) {
    Range(s.start, s.stop) * Range(start, end) != {} || start < s.start == s.stop < end
  }

  lemma InWindowMeaning(s: Span, start: int, end: int)
    requires s.start <= s.stop && start < end
    ensures InWindow(s, start, end) <==> Reaches(s, start, end)
  {
    if InWindow(s, start, end) && s.start < s.stop {
      assert Max(s.start, start) in Range(s.start, s.stop) * Range(start, end);
    } else if !InWindow(s, start, end) {
      assert Range(s.start, s.stop) * Range(start, end) == {};
    }
  }

  /** Kernels of the trace that reach into the window. */
  ghost function ReachingCount(kernels: seq<Activity>, start: int, end: int): nat {
    if kernels == [] then 0
    else (if Reaches(kernels[0].span, start, end) then 1 else 0) + ReachingCount(kernels[1..], start, end)
  }

  lemma {:induction false} ActiveCount(kernels: seq<Activity>, start: int, end: int)
    requires start < end && AllForward(kernels)
    ensures |ActiveIn(kernels, start, end)| == ReachingCount(kernels, start, end)
  {
    if kernels != [] {
      assert kernels[0] in kernels;
      InWindowMeaning(kernels[0].span, start, end);
      ActiveCount(kernels[1..], start, end);
    }
  }

  /** Busy time, idle time and counted kernels of a row. */
  lemma RowCounts(kernels: seq<Activity>, copies: seq<Span>, start: int, end: int)
    requires start < end && AllForward(kernels)
    ensures var row, covered := RowOf(kernels, copies, start, end), Instants(SpansOf(kernels)) + Instants(copies);
            && row.busy == |covered * Range(start, end)| && row.idle == |Range(start, end) - covered|
            && row.kernelCount == ReachingCount(kernels, start, end)
  {
    ActiveCount(kernels, start, end);
  }

  // ----- the gaps of a row -----

  /** A kernel with the tag ends at the instant, or the tag is that of copies and one ends there. */
  ghost predicate EndsThere(kernels: seq<Activity>, copies: seq<Span>, at: int, tag: Label) {
    || (exists a :: a in kernels && a.tag == tag && a.span.stop == at)
    || (tag == Label("copies", "copy") && exists c :: c in copies && c.stop == at)
  }

  ghost predicate StartsThere(kernels: seq<Activity>, copies: seq<Span>, at: int, tag: Label) {
    || (exists a :: a in kernels && a.tag == tag && a.span.start == at)
    || (tag == Label("copies", "copy") && exists c :: c in copies && c.start == at)
  }

  /** `gap` is the reported form of an idle stretch of the window between the activities it names. */
  ghost predicate GapAt(gap: Gap, at: Span, kernels: seq<Activity>, copies: seq<Span>, start: int, end: int) {
    && start <= at.start < at.stop <= end && gap.duration == at.stop - at.start
    && (match gap.previous case None => at.start == start case Some(tag) => EndsThere(kernels, copies, at.start, tag))
    && (match gap.following case None => at.stop == end case Some(tag) => StartsThere(kernels, copies, at.stop, tag))
  }

  lemma {:induction false} CutFrom(copies: seq<Span>, start: int, end: int, c: Span)
    requires c in Clipped(copies, start, end)
    ensures exists o :: o in copies && InWindow(o, start, end) && c == Span(Max(o.start, start), Min(o.stop, end))
  {
    if c in Clipped(copies[1..], start, end) {
      CutFrom(copies[1..], start, end, c);
      var o :| o in copies[1..] && InWindow(o, start, end) && c == Span(Max(o.start, start), Min(o.stop, end));
      assert o in copies;
    } else {
      assert copies[0] in copies && InWindow(copies[0], start, end);
    }
  }

  lemma WindowActivity(kernels: seq<Activity>, copies: seq<Span>, start: int, end: int, a: Activity)
    requires a in ActiveIn(kernels, start, end) + CopyActivities(Clipped(copies, start, end))
    ensures a in kernels || (a.tag == Label("copies", "copy") && a.span in Clipped(copies, start, end))
  {
    ActiveInKeeps(kernels, start, end);
    if a in CopyActivities(Clipped(copies, start, end)) {
      var i :| 0 <= i < |Clipped(copies, start, end)| && CopyActivities(Clipped(copies, start, end))[i] == a;
    }
  }

  lemma SideFound(kernels: seq<Activity>, copies: seq<Span>, start: int, end: int, a: Activity)
    requires a in ActiveIn(kernels, start, end) + CopyActivities(Clipped(copies, start, end))
    ensures a.span.stop < end ==> EndsThere(kernels, copies, a.span.stop, a.tag)
    ensures start < a.span.start ==> StartsThere(kernels, copies, a.span.start, a.tag)
  {
    WindowActivity(kernels, copies, start, end, a);
    if a !in kernels {
      CutFrom(copies, start, end, a.span);
    }
  }

  /** Every gap of a row is an idle stretch of the window, with the activities that end and start it. */
  lemma RowGapsNamed(kernels: seq<Activity>, copies: seq<Span>, start: int, end: int, i: nat)
    requires start <= end && KernelTrace(kernels) && Forward(copies)
    requires i < |RowOf(kernels, copies, start, end).gaps|
    ensures exists at :: GapAt(RowOf(kernels, copies, start, end).gaps[i], at, kernels, copies, start, end)
  {
    var all := ActiveIn(kernels, start, end) + CopyActivities(Clipped(copies, start, end));
    TraceForward(kernels, copies, start, end);
    EdgesNamed(all, start, end);
    var e := Edges(all, start, end)[i];
    assert e in Edges(all, start, end);
    EdgeToGap(kernels, copies, all, e, start, end);
    assert RowOf(kernels, copies, start, end).gaps[i] == Gap(e.at.stop - e.at.start, e.previous, e.following);
  }

  lemma EdgeToGap(kernels: seq<Activity>, copies: seq<Span>, all: seq<Activity>, e: Edge, start: int, end: int)
    requires all == ActiveIn(kernels, start, end) + CopyActivities(Clipped(copies, start, end))
    requires EdgeSides(all, e, start, end)
    ensures GapAt(Gap(e.at.stop - e.at.start, e.previous, e.following), e.at, kernels, copies, start, end)
  {
    if e.previous.Some? {
      var a :| a in all && a.tag == e.previous.value && a.span.stop == e.at.start;
      SideFound(kernels, copies, start, end, a);
    }
    if e.following.Some? {
      var a :| a in all && a.tag == e.following.value && a.span.start == e.at.stop;
      SideFound(kernels, copies, start, end, a);
    }
  }

  // ----- the grouped columns -----

  /** Kernels with the key that reach into the window. */
  ghost function CallsWith(kernels: seq<Activity>, key: Key, k: string, start: int, end: int): set<int> {
    set i | 0 <= i < |kernels| && key(kernels[i]) == k && kernels[i].span.start < end && kernels[i].span.stop > start
  }

  lemma {:induction false} CallsCounted(kernels: seq<Activity>, key: Key, k: string, start: int, end: int)
    ensures |SpansWith(ActiveIn(kernels, start, end), key, k)| == |CallsWith(kernels, key, k, start, end)|
  {
    if kernels == [] {
      assert CallsWith(kernels, key, k, start, end) == {};
    } else {
      var n := |kernels| - 1;
      var before, last := kernels[..n], kernels[n];
      assert kernels == before + [last];
      CallsCounted(before, key, k, start, end);
      ActiveSnoc(before, last, start, end);
      if InWindow(last.span, start, end) {
        SpansWithSnoc(ActiveIn(before, start, end), last, key, k);
      } else {
        assert ActiveIn(kernels, start, end) == ActiveIn(before, start, end);
      }
      CallsNext(kernels, key, k, start, end);
    }
  }

  lemma CallsNext(kernels: seq<Activity>, key: Key, k: string, start: int, end: int)
    requires kernels != []
    ensures var n := |kernels| - 1;
            |CallsWith(kernels, key, k, start, end)| == |CallsWith(kernels[..n], key, k, start, end)|
              + (if key(kernels[n]) == k && InWindow(kernels[n].span, start, end) then 1 else 0)
  {
    var n := |kernels| - 1;
    var before := CallsWith(kernels[..n], key, k, start, end);
    if key(kernels[n]) == k && InWindow(kernels[n].span, start, end) {
      assert CallsWith(kernels, key, k, start, end) == before + {n};
    } else {
      assert CallsWith(kernels, key, k, start, end) == before;
    }
  }

  lemma SpansWithForward(kernels: seq<Activity>, key: Key, k: string)
    requires KernelTrace(kernels)
    ensures Forward(SpansWith(kernels, key, k))
  {
    forall s | s in SpansWith(kernels, key, k) ensures s.start <= s.stop {
      SpanSource(kernels, key, k, s);
    }
  }

  lemma {:induction false} SpanSource(kernels: seq<Activity>, key: Key, k: string, s: Span)
    requires s in SpansWith(kernels, key, k)
    ensures exists a :: a in kernels && a.span == s
  {
    var n := |kernels| - 1;
    assert kernels[n] in kernels;
    if s in SpansWith(kernels[..n], key, k) {
      SpanSource(kernels[..n], key, k, s);
    }
  }

  /** A call column holds the keys of the kernels that reach into the window, and how many of them have each key. */
  lemma CallColumn(kernels: seq<Activity>, key: Key, start: int, end: int, k: string, calls: map<string, int>)
    requires IsColumn(calls, kernels, key, start, end, Calls())
    ensures k in calls <==> CallsWith(kernels, key, k, start, end) != {}
    ensures k in calls ==> calls[k] == |CallsWith(kernels, key, k, start, end)|
  {
    var spans, places := SpansWith(ActiveIn(kernels, start, end), key, k), CallsWith(kernels, key, k, start, end);
    CallsCounted(kernels, key, k, start, end);
    assert k in calls ==> calls[k] == |spans|;
    assert spans != [] <==> places != {};
  }

  /** A service column holds the time in the window of each kernel of the key, overlaps counted each time. */
  lemma ServiceColumn(kernels: seq<Activity>, key: Key, start: int, end: int, k: string, service: map<string, int>)
    requires start <= end && KernelTrace(kernels) && IsColumn(service, kernels, key, start, end, ServiceIn(start, end))
    ensures k in service ==> service[k] == DepthSum(SpansWith(kernels, key, k), start, end)
  {
    var spans := SpansWith(ActiveIn(kernels, start, end), key, k);
    assert k in service ==> service[k] == Service(Clipped(spans, start, end));
    SpansWithActive(kernels, key, k, start, end);
    SpansWithForward(kernels, key, k);
    ServiceIsDepth(SpansWith(kernels, key, k), start, end);
  }

  /** Where the accounts close, a union column holds the time in the window during which some kernel of the key runs. */
  lemma UnionColumnValue(kernels: seq<Activity>, copies: seq<Span>, key: Key, start: int, end: int, k: string,
                         union: map<string, int>)
    requires CoverNonNegative(kernels, copies, start, end)
    requires IsColumn(union, kernels, key, start, end, SweptIn(start, end))
    ensures k in union ==> union[k] == UnionTime(kernels, key, k, start, end)
  {
    var spans := SpansWith(ActiveIn(kernels, start, end), key, k);
    assert k in union ==> union[k] == |Recorded(Clipped(spans, start, end))|;
    UnionColumnIsTime(kernels, copies, key, k, start, end);
  }

  // ----- grouping keys -----

  /** Kernels of known scopes share a family or kernel key exactly when they share the scope and the family or name. */
  lemma KeysSeparate(a: Activity, b: Activity, family: string -> string)
    requires a.tag.scope in KernelScopes && b.tag.scope in KernelScopes
    ensures FamilyKey(family)(a) == FamilyKey(family)(b) <==>
            a.tag.scope == b.tag.scope && family(a.tag.name) == family(b.tag.name)
    ensures KernelKey()(a) == KernelKey()(b) <==> a.tag == b.tag
  {
    KeySplits(a.tag.scope, family(a.tag.name), b.tag.scope, family(b.tag.name));
    KeySplits(a.tag.scope, a.tag.name, b.tag.scope, b.tag.name);
  }

  lemma KeySplits(s: string, x: string, t: string, y: string)
    requires s in KernelScopes && t in KernelScopes
    ensures s + ": " + x == t + ": " + y <==> s == t && x == y
  {
    var left, right := s + ": " + x, t + ": " + y;
    if left == right {
      assert left[0] == s[0] && right[0] == t[0];
      assert s == t;
      assert left[|s| + 2..] == x && right[|t| + 2..] == y;
    }
  }
}
