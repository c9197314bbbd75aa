/** The round ledger: a row per rank and common round window, and what the rows add up to. */
module RoundWindows {
  import opened Spans
  import opened RoundLedger
  import opened IdleFrontier
  import opened Options
  import E = ExclusiveActivity

  datatype Row = Row(busy: int, idle: int, overlap: int, kernelCount: nat, gaps: seq<Gap>, exclusive: E.Counter)

  const KernelScopes: seq<string> := ["target", "draft", "outside graphs"]
  const CopyScope: string := "copies"
  const CopyTag: Label := Label("copies", "copy")

  /** A kernel trace as it is loaded: known scopes, no kernel ends before it starts. */
  predicate KernelTrace(kernels: seq<Activity>) {
    AllForward(kernels) && forall k :: k in kernels ==> k.tag.scope in KernelScopes
  }

  // ----- the pieces of a row -----

  function ActiveIn(kernels: seq<Activity>, start: int, end: int): seq<Activity> {
    if kernels == [] then []
    else (if InWindow(kernels[0].span, start, end) then [kernels[0]] else []) + ActiveIn(kernels[1..], start, end)
  }

  function CopyActivities(copies: seq<Span>): (r: seq<Activity>)
    ensures |r| == |copies|
    ensures forall i :: 0 <= i < |r| ==> r[i] == Activity(copies[i], CopyTag)
  {
    seq(|copies|, i requires 0 <= i < |copies| => Activity(copies[i], CopyTag))
  }

  /** Appends a span to the entry of its scope, which is created on first use. */
  function AppendTo(groups: seq<E.Scope>, name: string, span: Span): seq<E.Scope> {
    if groups == [] then [E.Scope(name, [span])]
    else if groups[0].name == name then [E.Scope(name, groups[0].spans + [span])] + groups[1..]
    else [groups[0]] + AppendTo(groups[1..], name, span)
  }

  function Grouped(active: seq<Activity>): seq<E.Scope> {
    if active == [] then []
    else
      var last := active[|active| - 1];
      AppendTo(Grouped(active[..|active| - 1]), last.tag.scope, last.span)
  }

  function ScopesOf(active: seq<Activity>, copies: seq<Span>): seq<E.Scope> {
    Grouped(active) + [E.Scope(CopyScope, copies)]
  }

  // ----- grouping keeps every span under its own scope -----

  lemma {:induction false} AppendToAt(groups: seq<E.Scope>, name: string, span: Span, other: string, t: int)
    ensures E.ActiveAt(AppendTo(groups, name, span), other, t) <==>
            E.ActiveAt(groups, other, t) || (other == name && span.start <= t < span.stop)
  {
    assert t in Instants([span]) <==> span.start <= t < span.stop;
    if groups == [] {
      var g := E.Scope(name, [span]);
      assert AppendTo(groups, name, span) == [g];
      if other == name && span.start <= t < span.stop {
        assert g in [g];
      }
    } else {
      var head, tail := groups[0], groups[1..];
      ActiveSplit([head], tail, other, t);
      assert groups == [head] + tail;
      if head.name == name {
        var grown := E.Scope(name, head.spans + [span]);
        ActiveSplit([grown], tail, other, t);
        InstantsAppend(head.spans, [span]);
        ActiveOne(grown, other, t);
        ActiveOne(head, other, t);
      } else {
        AppendToAt(tail, name, span, other, t);
        ActiveSplit([head], AppendTo(tail, name, span), other, t);
      }
    }
  }

  lemma ActiveOne(s: E.Scope, name: string, t: int)
    ensures E.ActiveAt([s], name, t) <==> s.name == name && t in Instants(s.spans)
  {
    assert s in [s];
  }

  lemma ActiveSplit(xs: seq<E.Scope>, ys: seq<E.Scope>, name: string, t: int)
    ensures E.ActiveAt(xs + ys, name, t) <==> E.ActiveAt(xs, name, t) || E.ActiveAt(ys, name, t)
  {
    assert forall s :: s in xs + ys <==> s in xs || s in ys;
  }

  ghost predicate Runs(active: seq<Activity>, name: string, t: int) {
    exists a :: a in active && a.tag.scope == name && a.span.start <= t < a.span.stop
  }

  lemma {:induction false} GroupedAt(active: seq<Activity>, name: string, t: int)
    ensures E.ActiveAt(Grouped(active), name, t) <==> Runs(active, name, t)
  {
    if active != [] {
      var before, last := active[..|active| - 1], active[|active| - 1];
      assert active == before + [last] && last in active;
      GroupedAt(before, name, t);
      AppendToAt(Grouped(before), last.tag.scope, last.span, name, t);
    }
  }

  lemma {:induction false} AppendToKeeps(groups: seq<E.Scope>, name: string, span: Span)
    requires E.AllForward(groups) && span.start <= span.stop && name in KernelScopes
    requires forall g :: g in groups ==> g.name in KernelScopes
    ensures E.AllForward(AppendTo(groups, name, span))
    ensures forall g :: g in AppendTo(groups, name, span) ==> g.name in KernelScopes
  {
    if groups != [] {
      assert groups[0] in groups;
      if groups[0].name != name {
        AppendToKeeps(groups[1..], name, span);
      }
    }
  }

  lemma {:induction false} GroupedKeeps(active: seq<Activity>)
    requires KernelTrace(active)
    ensures E.AllForward(Grouped(active))
    ensures forall g :: g in Grouped(active) ==> g.name in KernelScopes
  {
    if active != [] {
      var before, last := active[..|active| - 1], active[|active| - 1];
      assert last in active;
      GroupedKeeps(before);
      AppendToKeeps(Grouped(before), last.tag.scope, last.span);
    }
  }

  lemma {:induction false} ActiveInKeeps(kernels: seq<Activity>, start: int, end: int)
    ensures forall k :: k in ActiveIn(kernels, start, end) <==> k in kernels && InWindow(k.span, start, end)
  {
    if kernels != [] {
      ActiveInKeeps(kernels[1..], start, end);
      assert kernels == [kernels[0]] + kernels[1..];
    }
  }

  /** Inside the window the owner of an instant does not depend on what lies outside it. */
  lemma OwnerLocal(kernels: seq<Activity>, copies: seq<Span>, start: int, end: int, t: int)
    requires start <= t < end
    ensures E.Owner(ScopesOf(ActiveIn(kernels, start, end), Clipped(copies, start, end)), t)
         == E.Owner(ScopesOf(kernels, copies), t)
  {
    var local := ScopesOf(ActiveIn(kernels, start, end), Clipped(copies, start, end));
    forall name ensures E.ActiveAt(local, name, t) <==> E.ActiveAt(ScopesOf(kernels, copies), name, t) {
      ActiveLocal(kernels, copies, start, end, name, t);
    }
    OwnerSame(E.Priority, local, ScopesOf(kernels, copies), t);
  }

  lemma ActiveLocal(kernels: seq<Activity>, copies: seq<Span>, start: int, end: int, name: string, t: int)
    requires start <= t < end
    ensures E.ActiveAt(ScopesOf(ActiveIn(kernels, start, end), Clipped(copies, start, end)), name, t) <==>
            E.ActiveAt(ScopesOf(kernels, copies), name, t)
  {
    var active, cut := ActiveIn(kernels, start, end), Clipped(copies, start, end);
    ScopesAt(active, cut, name, t);
    ScopesAt(kernels, copies, name, t);
    ClippedAt(copies, start, end, t);
    ActiveInKeeps(kernels, start, end);
  }

  lemma ScopesAt(active: seq<Activity>, copies: seq<Span>, name: string, t: int)
    ensures E.ActiveAt(ScopesOf(active, copies), name, t) <==>
            Runs(active, name, t) || (name == CopyScope && t in Instants(copies))
  {
    GroupedAt(active, name, t);
    ActiveSplit(Grouped(active), [E.Scope(CopyScope, copies)], name, t);
    ActiveOne(E.Scope(CopyScope, copies), name, t);
  }

  lemma {:induction false} OwnerSame(names: seq<string>, xs: seq<E.Scope>, ys: seq<E.Scope>, t: int)
    requires forall name :: E.ActiveAt(xs, name, t) <==> E.ActiveAt(ys, name, t)
    ensures E.OwnerAmong(names, xs, t) == E.OwnerAmong(names, ys, t)
  {
    if names != [] {
      OwnerSame(names[1..], xs, ys, t);
    }
  }

  // ----- one window -----

  ghost function Covered(kernels: seq<Activity>, copies: seq<Span>): set<int> {
    Instants(SpansOf(kernels)) + Instants(copies)
  }

  /** The covered-time sweep is blind to negative timestamps, so the ledger closes only without them. */
  ghost predicate CoverNonNegative(kernels: seq<Activity>, copies: seq<Span>, start: int, end: int) {
    AllNonNegative(Covered(kernels, copies) * Range(start, end))
  }

  ghost predicate AllNonNegative(instants: set<int>) {
    forall t :: t in instants ==> 0 <= t
  }

  lemma {:induction false} ClippedActive(kernels: seq<Activity>, start: int, end: int)
    ensures Clipped(SpansOf(ActiveIn(kernels, start, end)), start, end) == Clipped(SpansOf(kernels), start, end)
  {
    if kernels != [] {
      var k, rest := kernels[0], ActiveIn(kernels[1..], start, end);
      ClippedActive(kernels[1..], start, end);
      if InWindow(k.span, start, end) {
        assert ActiveIn(kernels, start, end) == [k] + rest;
        assert SpansOf([k] + rest) == [k.span] + SpansOf(rest) by { assert ([k] + rest)[1..] == rest; }
        assert ([k.span] + SpansOf(rest))[1..] == SpansOf(rest);
      } else {
        assert ActiveIn(kernels, start, end) == rest;
      }
      assert SpansOf(kernels)[1..] == SpansOf(kernels[1..]);
    }
  }

  lemma {:induction false} CopySpans(copies: seq<Span>)
    ensures SpansOf(CopyActivities(copies)) == copies
  {
    if copies != [] {
      CopySpans(copies[1..]);
      assert CopyActivities(copies)[1..] == CopyActivities(copies[1..]);
    }
  }

  lemma CutsAgree(a: set<int>, a': set<int>, b: set<int>, window: set<int>)
    requires a * window == a' * window
    ensures (a + b * window) * window == (a' + b) * window
    ensures a * window + b * window == (a' + b) * window
  {
    assert (a + b * window) * window == a * window + b * window;
    assert (a' + b) * window == a' * window + b * window;
  }

  lemma ActiveCut(kernels: seq<Activity>, start: int, end: int)
    ensures Instants(SpansOf(ActiveIn(kernels, start, end))) * Range(start, end)
         == Instants(SpansOf(kernels)) * Range(start, end)
         == Instants(Clipped(SpansOf(ActiveIn(kernels, start, end)), start, end))
  {
    ClippedActive(kernels, start, end);
    ClippedMeaning(SpansOf(kernels), start, end);
    ClippedMeaning(SpansOf(ActiveIn(kernels, start, end)), start, end);
  }

  lemma SeenInstants(active: seq<Activity>, cut: seq<Span>)
    ensures Instants(SpansOf(active + CopyActivities(cut))) == Instants(SpansOf(active)) + Instants(cut)
  {
    SpansOfAppend(active, CopyActivities(cut));
    CopySpans(cut);
    InstantsAppend(SpansOf(active), cut);
  }

  /** What the window sees of the trace: kernels unclipped, copies clipped, and both clipped. */
  lemma WindowCover(kernels: seq<Activity>, copies: seq<Span>, start: int, end: int)
    ensures var active, cut := ActiveIn(kernels, start, end), Clipped(copies, start, end);
            var window := Range(start, end);
            && Instants(SpansOf(active + CopyActivities(cut))) * window == Covered(kernels, copies) * window
            && Instants(Clipped(SpansOf(active), start, end) + cut) == Covered(kernels, copies) * window
  {
    var active, cut := ActiveIn(kernels, start, end), Clipped(copies, start, end);
    ActiveCut(kernels, start, end);
    ClippedMeaning(copies, start, end);
    SeenInstants(active, cut);
    InstantsAppend(Clipped(SpansOf(active), start, end), cut);
    CutsAgree(Instants(SpansOf(active)), Instants(SpansOf(kernels)), Instants(copies), Range(start, end));
  }

  lemma TraceForward(kernels: seq<Activity>, copies: seq<Span>, start: int, end: int)
    requires start <= end && KernelTrace(kernels) && Forward(copies)
    ensures var active, cut := ActiveIn(kernels, start, end), Clipped(copies, start, end);
            && KernelTrace(active) && AllForward(active + CopyActivities(cut))
            && E.AllForward(ScopesOf(active, cut))
            && forall s :: s in ScopesOf(active, cut) ==> s.name in E.Priority
  {
    var active, cut := ActiveIn(kernels, start, end), Clipped(copies, start, end);
    ActiveInKeeps(kernels, start, end);
    GroupedKeeps(active);
    forall a | a in CopyActivities(cut) ensures a.span.start <= a.span.stop {
      var i :| 0 <= i < |cut| && CopyActivities(cut)[i] == a;
      assert cut[i] in cut;
    }
    assert forall name :: name in KernelScopes ==> name in E.Priority;
  }

  function WindowGaps(kernels: seq<Activity>, copies: seq<Span>, start: int, end: int): seq<Gap> {
    Reported(Edges(ActiveIn(kernels, start, end) + CopyActivities(Clipped(copies, start, end)), start, end))
  }

  function WindowSpans(kernels: seq<Activity>, copies: seq<Span>, start: int, end: int): seq<Span> {
    Clipped(SpansOf(ActiveIn(kernels, start, end)), start, end) + Clipped(copies, start, end)
  }

  lemma SameInside(a: set<int>, b: set<int>, window: set<int>)
    requires a * window == b * window
    ensures window - a == window - b
  {
    assert forall t :: t in window ==> (t in a <==> t in a * window);
    assert forall t :: t in window ==> (t in b <==> t in b * window);
  }

  lemma RecordedAll(spans: seq<Span>)
    ensures |Recorded(spans)| == |Instants(spans)| <==> AllNonNegative(Instants(spans))
  {
    SubsetSize(Recorded(spans), Instants(spans));
    if AllNonNegative(Instants(spans)) {
      assert Recorded(spans) == Instants(spans);
    }
  }

  lemma GapsUncovered(kernels: seq<Activity>, copies: seq<Span>, start: int, end: int)
    requires start <= end && KernelTrace(kernels) && Forward(copies)
    ensures TotalDuration(WindowGaps(kernels, copies, start, end))
         == |Range(start, end) - Covered(kernels, copies)|
  {
    var seen := ActiveIn(kernels, start, end) + CopyActivities(Clipped(copies, start, end));
    WindowCover(kernels, copies, start, end);
    TraceForward(kernels, copies, start, end);
    IdleTotal(seen, start, end);
    SameInside(Instants(SpansOf(seen)), Covered(kernels, copies), Range(start, end));
  }

  /** The gap durations equal the window minus the swept busy time exactly when no covered instant is negative. */
  lemma LedgerCloses(kernels: seq<Activity>, copies: seq<Span>, start: int, end: int)
    requires start <= end && KernelTrace(kernels) && Forward(copies)
    ensures TotalDuration(WindowGaps(kernels, copies, start, end))
              == end - start - |Recorded(WindowSpans(kernels, copies, start, end))|
            <==> CoverNonNegative(kernels, copies, start, end)
  {
    var covered := Covered(kernels, copies);
    GapsUncovered(kernels, copies, start, end);
    WindowCover(kernels, copies, start, end);
    UncoveredSize(covered, start, end);
    RecordedAll(WindowSpans(kernels, copies, start, end));
  }

  lemma CreditsLocal(kernels: seq<Activity>, copies: seq<Span>, start: int, end: int, totals: E.Counter)
    requires start <= end && KernelTrace(kernels) && Forward(copies)
    requires E.Credits(totals, ScopesOf(ActiveIn(kernels, start, end), Clipped(copies, start, end)), start, end)
    ensures E.Credits(totals, ScopesOf(kernels, copies), start, end)
  {
    var local := ScopesOf(ActiveIn(kernels, start, end), Clipped(copies, start, end));
    var whole := ScopesOf(kernels, copies);
    forall t | start <= t < end ensures E.Owner(local, t) == E.Owner(whole, t) {
      OwnerLocal(kernels, copies, start, end, t);
    }
    CreditsSame(totals, local, whole, start, end);
  }

  /** The idle label owns exactly the uncovered instants. */
  lemma IdleOwned(kernels: seq<Activity>, copies: seq<Span>, start: int, end: int)
    requires KernelTrace(kernels)
    ensures E.Owned(ScopesOf(kernels, copies), E.Idle, start, end) == Range(start, end) - Covered(kernels, copies)
  {
    var whole := ScopesOf(kernels, copies);
    GroupedKeeps(kernels);
    assert forall name :: name in KernelScopes ==> name in E.Priority;
    E.IdleIsUncovered(whole, start, end);
    forall t ensures t in E.AllSpans(whole) <==> t in Covered(kernels, copies) {
      ScopesCover(kernels, copies, t);
    }
    assert Range(start, end) - E.AllSpans(whole) == Range(start, end) - Covered(kernels, copies);
  }

  lemma CreditsSame(totals: E.Counter, xs: seq<E.Scope>, ys: seq<E.Scope>, start: int, end: int)
    requires E.Credits(totals, xs, start, end)
    requires forall t :: start <= t < end ==> E.Owner(xs, t) == E.Owner(ys, t)
    ensures E.Credits(totals, ys, start, end)
  {
    assert E.Owners(xs, start, end) == E.Owners(ys, start, end);
    forall name ensures E.Owned(xs, name, start, end) == E.Owned(ys, name, start, end) {
    }
  }

  lemma ScopesCover(kernels: seq<Activity>, copies: seq<Span>, t: int)
    ensures t in E.AllSpans(ScopesOf(kernels, copies)) <==> t in Covered(kernels, copies)
  {
    var whole := ScopesOf(kernels, copies);
    E.AllSpansMeaning(whole, t);
    InstantsMeaning(SpansOf(kernels), t);
    SpansOfMember(kernels);
    if s :| s in whole && t in Instants(s.spans) {
      assert E.ActiveAt(whole, s.name, t);
      ScopesAt(kernels, copies, s.name, t);
    }
    if k :| k in kernels && k.span.start <= t < k.span.stop {
      ScopesAt(kernels, copies, k.tag.scope, t);
      assert Runs(kernels, k.tag.scope, t);
    } else if t in Instants(copies) {
      ScopesAt(kernels, copies, CopyScope, t);
    }
  }

  /** The credit of every label that owns an instant of the window, and of the idle label. */
  ghost function Credit(scopes: seq<E.Scope>, start: int, end: int): E.Counter {
    map name | name in {E.Idle} + E.Owners(scopes, start, end) :: |E.Owned(scopes, name, start, end)|
  }

  lemma CreditUnique(totals: E.Counter, scopes: seq<E.Scope>, start: int, end: int)
    requires E.Credits(totals, scopes, start, end)
    ensures totals == Credit(scopes, start, end)
  {
    forall name | name in totals ensures totals[name] == |E.Owned(scopes, name, start, end)| {
      assert E.Count(totals, name) == totals[name];
    }
  }

  /** The row of a window in terms of the instants its activities cover and own. */
  ghost function RowOf(kernels: seq<Activity>, copies: seq<Span>, start: int, end: int): Row {
    var window, covered := Range(start, end), Covered(kernels, copies);
    Row(|covered * window|,
        |window - covered|,
        Service(Clipped(SpansOf(kernels), start, end)) - |Instants(SpansOf(kernels)) * window|,
        |ActiveIn(kernels, start, end)|,
        WindowGaps(kernels, copies, start, end),
        Credit(ScopesOf(kernels, copies), start, end))
  }

  /** One kernel over two instants before time zero: the row's assertion fails in its window. */
  lemma NegativeWindowFails()
    ensures var kernels := [Activity(Span(-2, 0), Label("target", ""))];
            && KernelTrace(kernels)
            && TotalDuration(WindowGaps(kernels, [], -2, 0)) != 0 - -2 - |Recorded(WindowSpans(kernels, [], -2, 0))|
  {
    var kernels := [Activity(Span(-2, 0), Label("target", ""))];
    assert SpansOf(kernels)[0] == Span(-2, 0);
    CoveredBy(SpansOf(kernels), Span(-2, 0), -1);
    assert -1 in Covered(kernels, []) * Range(-2, 0);
    LedgerCloses(kernels, [], -2, 0);
  }

  /** The row of a window; `None` is the failed closing assertion. */
  method WindowRow(kernels: seq<Activity>, copies: seq<Span>, start: int, end: int) returns (r: Option<Row>)
    requires start <= end && KernelTrace(kernels) && Forward(copies)
    ensures r.Some? <==> CoverNonNegative(kernels, copies, start, end)
    ensures r.Some? ==> r.value == RowOf(kernels, copies, start, end)
  {
    var active := ActiveIn(kernels, start, end);
    var kernelSpans, copySpans := Clipped(SpansOf(active), start, end), Clipped(copies, start, end);
    var busy := UnionNs(kernelSpans + copySpans);
    var gaps := IdleEdges(active + CopyActivities(copySpans), start, end);
    assert gaps == WindowGaps(kernels, copies, start, end);
    assert busy == |Recorded(WindowSpans(kernels, copies, start, end))|;
    LedgerCloses(kernels, copies, start, end);
    if TotalDuration(gaps) != end - start - busy {
      return None;
    }
    var row := FilledRow(kernels, active, copies, start, end, busy, gaps);
    r := Some(row);
  }

  /** The remaining columns of a row whose busy and idle time close the window. */
  method FilledRow(ghost kernels: seq<Activity>, active: seq<Activity>, copies: seq<Span>, start: int, end: int,
                   busy: int, gaps: seq<Gap>)
    returns (row: Row)
    requires start <= end && KernelTrace(kernels) && Forward(copies) && active == ActiveIn(kernels, start, end)
    requires CoverNonNegative(kernels, copies, start, end)
    requires gaps == WindowGaps(kernels, copies, start, end) &&
             busy == |Recorded(WindowSpans(kernels, copies, start, end))|
    ensures row == RowOf(kernels, copies, start, end)
  {
    var spans := Clipped(SpansOf(active), start, end);
    var kernelBusy := UnionNs(spans);
    var exclusive := ExclusiveOf(kernels, active, copies, start, end);
    RowAssembled(kernels, copies, start, end, exclusive);
    row := Row(busy, end - start - busy, Service(spans) - kernelBusy, |active|, gaps, exclusive);
  }

  method ExclusiveOf(ghost kernels: seq<Activity>, active: seq<Activity>, copies: seq<Span>, start: int, end: int)
    returns (exclusive: E.Counter)
    requires start <= end && KernelTrace(kernels) && Forward(copies) && active == ActiveIn(kernels, start, end)
    ensures E.Credits(exclusive, ScopesOf(active, Clipped(copies, start, end)), start, end)
  {
    TraceForward(kernels, copies, start, end);
    exclusive := E.ExclusiveActivityNs(ScopesOf(active, Clipped(copies, start, end)), start, end);
  }

  /** The computed pieces are those of the row. */
  lemma RowAssembled(kernels: seq<Activity>, copies: seq<Span>, start: int, end: int, exclusive: E.Counter)
    requires start <= end && KernelTrace(kernels) && Forward(copies) && CoverNonNegative(kernels, copies, start, end)
    requires E.Credits(exclusive, ScopesOf(ActiveIn(kernels, start, end), Clipped(copies, start, end)), start, end)
    ensures var active := ActiveIn(kernels, start, end);
            var spans := Clipped(SpansOf(active), start, end);
            var busy := |Recorded(WindowSpans(kernels, copies, start, end))|;
            Row(busy, end - start - busy, Service(spans) - |Recorded(spans)|, |active|,
                WindowGaps(kernels, copies, start, end), exclusive)
              == RowOf(kernels, copies, start, end)
  {
    assert exclusive == Credit(ScopesOf(kernels, copies), start, end) by {
      CreditsLocal(kernels, copies, start, end, exclusive);
      CreditUnique(exclusive, ScopesOf(kernels, copies), start, end);
    }
    assert RowParts(kernels, copies, start, end) by {
      BusyAccount(kernels, copies, start, end);
      KernelAccount(kernels, copies, start, end);
    }
  }

  /** The swept times of a window are its covered time and the overlap of its kernels. */
  ghost predicate RowParts(kernels: seq<Activity>, copies: seq<Span>, start: int, end: int) {
    var row, swept := RowOf(kernels, copies, start, end), |Recorded(WindowSpans(kernels, copies, start, end))|;
    var spans := Clipped(SpansOf(ActiveIn(kernels, start, end)), start, end);
    row.busy == swept && row.idle == end - start - swept && row.overlap == Service(spans) - |Recorded(spans)|
  }

  lemma BusyAccount(kernels: seq<Activity>, copies: seq<Span>, start: int, end: int)
    requires start <= end && CoverNonNegative(kernels, copies, start, end)
    ensures |Recorded(WindowSpans(kernels, copies, start, end))| == |Covered(kernels, copies) * Range(start, end)|
    ensures |Covered(kernels, copies) * Range(start, end)| + |Range(start, end) - Covered(kernels, copies)|
         == end - start
  {
    WindowCover(kernels, copies, start, end);
    UncoveredSize(Covered(kernels, copies), start, end);
    RecordedAll(WindowSpans(kernels, copies, start, end));
  }

  lemma KernelAccount(kernels: seq<Activity>, copies: seq<Span>, start: int, end: int)
    requires CoverNonNegative(kernels, copies, start, end)
    ensures |Recorded(Clipped(SpansOf(ActiveIn(kernels, start, end)), start, end))|
         == |Instants(SpansOf(kernels)) * Range(start, end)|
    ensures Clipped(SpansOf(ActiveIn(kernels, start, end)), start, end) == Clipped(SpansOf(kernels), start, end)
  {
    ClippedActive(kernels, start, end);
    ActiveCut(kernels, start, end);
    PartNonNegative(Instants(SpansOf(kernels)), Instants(copies), Range(start, end));
    RecordedAll(Clipped(SpansOf(kernels), start, end));
  }

  lemma PartNonNegative(a: set<int>, b: set<int>, window: set<int>)
    requires AllNonNegative((a + b) * window)
    ensures AllNonNegative(a * window)
  {
    forall t | t in a * window ensures 0 <= t {
      assert t in (a + b) * window;
    }
  }

  /** The three sweeps agree on the idle time of a window, and busy, idle and credited time all close it. */
  lemma RowCloses(kernels: seq<Activity>, copies: seq<Span>, start: int, end: int)
    requires start <= end && KernelTrace(kernels) && Forward(copies)
    ensures var row := RowOf(kernels, copies, start, end);
            && row.idle == TotalDuration(row.gaps) == E.Count(row.exclusive, E.Idle)
            && row.busy + row.idle == end - start
            && E.SumOver(E.Priority + [E.Idle], row.exclusive) == end - start
            && 0 <= row.overlap
  {
    var scopes := ScopesOf(kernels, copies);
    GapsUncovered(kernels, copies, start, end);
    UncoveredSize(Covered(kernels, copies), start, end);
    CreditCredits(scopes, start, end);
    E.PartitionClosesWindow(Credit(scopes, start, end), scopes, start, end);
    IdleOwned(kernels, copies, start, end);
    OverlapNonNegative(kernels, start, end);
  }

  lemma CreditCredits(scopes: seq<E.Scope>, start: int, end: int)
    ensures E.Credits(Credit(scopes, start, end), scopes, start, end)
  {
    forall name | name !in Credit(scopes, start, end) ensures E.Owned(scopes, name, start, end) == {} {
      assert forall t :: t in E.Owned(scopes, name, start, end) ==> E.Owner(scopes, t) in E.Owners(scopes, start, end);
    }
  }

  lemma OverlapNonNegative(kernels: seq<Activity>, start: int, end: int)
    requires start <= end && KernelTrace(kernels)
    ensures |Instants(SpansOf(kernels)) * Range(start, end)| <= Service(Clipped(SpansOf(kernels), start, end))
  {
    SpansOfMember(kernels);
    assert Forward(SpansOf(kernels));
    ClippedMeaning(SpansOf(kernels), start, end);
    ServiceBoundsUnion(Clipped(SpansOf(kernels), start, end));
  }

  // ----- consecutive windows -----

  function Least(xs: seq<int>): (m: int)
    requires xs != []
    ensures m in xs && forall x :: x in xs ==> m <= x
  {
    if |xs| == 1 then xs[0] else assert xs == [xs[0]] + xs[1..]; Min(xs[0], Least(xs[1..]))
  }

  /** Window boundaries: the earliest entry of each replay ordinal over the ranks. */
  predicate BoundsAre(bounds: seq<int>, entries: seq<seq<int>>) {
    && |bounds| == |entries|
    && forall i :: 0 <= i < |entries| ==> bounds[i] in entries[i] && forall x :: x in entries[i] ==> bounds[i] <= x
  }

  method WindowBounds(entries: seq<seq<int>>) returns (bounds: seq<int>)
    requires forall i :: 0 <= i < |entries| ==> entries[i] != []
    ensures BoundsAre(bounds, entries)
  {
    bounds := [];
    for ordinal := 0 to |entries|
      invariant BoundsAre(bounds, entries[..ordinal])
    {
      bounds := bounds + [Least(entries[ordinal])];
    }
    assert entries[..|entries|] == entries;
  }

  /** What one rank recorded. */
  datatype Trace = Trace(kernels: seq<Activity>, copies: seq<Span>)

  predicate Traces(traces: seq<Trace>) {
    forall p :: 0 <= p < |traces| ==> KernelTrace(traces[p].kernels) && Forward(traces[p].copies)
  }

  ghost predicate Closes(t: Trace, start: int, end: int) {
    CoverNonNegative(t.kernels, t.copies, start, end)
  }

  ghost predicate IsRow(row: Row, t: Trace, start: int, end: int) {
    row == RowOf(t.kernels, t.copies, start, end)
  }

  /** Every rank's accounts close in the window. */
  ghost predicate RanksClose(traces: seq<Trace>, start: int, end: int) {
    forall p :: 0 <= p < |traces| ==> Closes(traces[p], start, end)
  }

  /** One row per rank. */
  ghost predicate RankRowsAre(rows: seq<Row>, traces: seq<Trace>, start: int, end: int) {
    |rows| == |traces| && forall p :: 0 <= p < |rows| ==> IsRow(rows[p], traces[p], start, end)
  }

  lemma RanksCloseNext(traces: seq<Trace>, start: int, end: int, p: nat)
    requires p < |traces| && RanksClose(traces[..p], start, end) && Closes(traces[p], start, end)
    ensures RanksClose(traces[..p + 1], start, end)
  {
    forall q | 0 <= q <= p ensures Closes(traces[q], start, end) {
      if q < p {
        assert traces[..p][q] == traces[q];
      }
    }
  }

  lemma RankRowsNext(rows: seq<Row>, row: Row, traces: seq<Trace>, start: int, end: int, p: nat)
    requires p < |traces| && RankRowsAre(rows, traces[..p], start, end) && IsRow(row, traces[p], start, end)
    ensures RankRowsAre(rows + [row], traces[..p + 1], start, end)
  {
    forall q | 0 <= q <= p ensures IsRow((rows + [row])[q], traces[q], start, end) {
      if q < p {
        assert IsRow(rows[q], traces[..p][q], start, end);
      }
    }
  }

  /** One rank's row in the window. */
  method RankRow(t: Trace, start: int, end: int) returns (r: Option<Row>)
    requires start <= end && KernelTrace(t.kernels) && Forward(t.copies)
    ensures r.Some? <==> Closes(t, start, end)
    ensures r.Some? ==> IsRow(r.value, t, start, end)
  {
    r := WindowRow(t.kernels, t.copies, start, end);
  }

  /** The rows of one window, rank by rank. `None` is a failed assertion of some rank. */
  method RankRows(traces: seq<Trace>, start: int, end: int) returns (r: Option<seq<Row>>)
    requires start <= end && Traces(traces)
    ensures r.Some? <==> RanksClose(traces, start, end)
    ensures r.Some? ==> RankRowsAre(r.value, traces, start, end)
  {
    var rows: seq<Row> := [];
    for p := 0 to |traces|
      invariant RanksClose(traces[..p], start, end) && RankRowsAre(rows, traces[..p], start, end)
    {
      var row := RankRow(traces[p], start, end);
      if row.None? {
        return None;
      }
      RanksCloseNext(traces, start, end, p);
      RankRowsNext(rows, row.value, traces, start, end, p);
      rows := rows + [row.value];
    }
    assert traces[..|traces|] == traces;
    r := Some(rows);
  }

  /** The common window of a replay ordinal advances and closes on every rank. */
  ghost predicate RoundCloses(traces: seq<Trace>, bounds: seq<int>, ordinal: nat)
    requires ordinal + 1 < |bounds|
  {
    bounds[ordinal] < bounds[ordinal + 1] && RanksClose(traces, bounds[ordinal], bounds[ordinal + 1])
  }

  method RoundRows(traces: seq<Trace>, bounds: seq<int>, ordinal: nat) returns (r: Option<seq<Row>>)
    requires ordinal + 1 < |bounds| && Traces(traces)
    ensures r.Some? <==> RoundCloses(traces, bounds, ordinal)
    ensures r.Some? ==> RankRowsAre(r.value, traces, bounds[ordinal], bounds[ordinal + 1])
  {
    if bounds[ordinal + 1] <= bounds[ordinal] {
      return None;
    }
    r := RankRows(traces, bounds[ordinal], bounds[ordinal + 1]);
  }

  /** Round `first + i` closes and `rounds[i]` holds its rows. */
  ghost predicate RoundIs(rounds: seq<seq<Row>>, traces: seq<Trace>, bounds: seq<int>, first: nat, i: nat)
    requires i < |rounds| && first + i + 1 < |bounds|
  {
    RoundCloses(traces, bounds, first + i) && RankRowsAre(rounds[i], traces, bounds[first + i], bounds[first + i + 1])
  }

  ghost predicate RoundsAre(rounds: seq<seq<Row>>, traces: seq<Trace>, bounds: seq<int>, first: nat)
    requires first + |rounds| < |bounds|
  {
    forall i :: 0 <= i < |rounds| ==> RoundIs(rounds, traces, bounds, first, i)
  }

  /** Each of the `n` rounds from `first` on closes. */
  ghost predicate RoundsClose(traces: seq<Trace>, bounds: seq<int>, first: nat, n: nat)
    requires first + n < |bounds|
  {
    forall o :: first <= o < first + n ==> RoundCloses(traces, bounds, o)
  }

  lemma RoundsNext(rounds: seq<seq<Row>>, rows: seq<Row>, traces: seq<Trace>, bounds: seq<int>, first: nat)
    requires first + |rounds| + 1 < |bounds| && RoundsAre(rounds, traces, bounds, first)
    requires RoundCloses(traces, bounds, first + |rounds|)
    requires RankRowsAre(rows, traces, bounds[first + |rounds|], bounds[first + |rounds| + 1])
    ensures RoundsAre(rounds + [rows], traces, bounds, first)
  {
    forall i | 0 <= i <= |rounds| ensures RoundIs(rounds + [rows], traces, bounds, first, i) {
      if i < |rounds| {
        assert RoundIs(rounds, traces, bounds, first, i);
      }
    }
  }

  lemma RoundsHaveClosed(rounds: seq<seq<Row>>, traces: seq<Trace>, bounds: seq<int>, first: nat)
    requires first + |rounds| < |bounds| && RoundsAre(rounds, traces, bounds, first)
    ensures RoundsClose(traces, bounds, first, |rounds|)
  {
    forall o | first <= o < first + |rounds| ensures RoundCloses(traces, bounds, o) {
      assert RoundIs(rounds, traces, bounds, first, o - first);
    }
  }

  lemma RoundFails(traces: seq<Trace>, bounds: seq<int>, first: nat, n: nat, i: nat)
    requires first + n < |bounds| && i < n && !RoundCloses(traces, bounds, first + i)
    ensures !RoundsClose(traces, bounds, first, n)
  {
  }

  /** Adds one round; `None` is a failed assertion in it. */
  method NextRound(rounds: seq<seq<Row>>, traces: seq<Trace>, bounds: seq<int>, first: nat)
    returns (r: Option<seq<seq<Row>>>)
    requires Traces(traces) && first + |rounds| + 1 < |bounds| && RoundsAre(rounds, traces, bounds, first)
    ensures r.None? ==> !RoundCloses(traces, bounds, first + |rounds|)
    ensures r.Some? ==> |r.value| == |rounds| + 1 && RoundsAre(r.value, traces, bounds, first)
  {
    var rows := RoundRows(traces, bounds, first + |rounds|);
    if rows.None? {
      return None;
    }
    RoundsNext(rounds, rows.value, traces, bounds, first);
    r := Some(rounds + [rows.value]);
  }

  /**
   * The ledger of the untrimmed rounds: for each round, the row of every rank over the common window from the
   * earliest entry of its replay ordinal to that of the next. `None` is a failed assertion: too few rounds, a
   * window that does not advance, or one in which the accounts of a rank do not close.
   */
  method Ledger(entries: seq<seq<int>>, traces: seq<Trace>, trim: nat)
    returns (r: Option<seq<seq<Row>>>, bounds: seq<int>)
    requires Traces(traces) && forall i :: 0 <= i < |entries| ==> entries[i] != []
    ensures BoundsAre(bounds, entries)
    ensures r.Some? <==> |entries| > 2 * trim + 2 && RoundsClose(traces, bounds, trim, |bounds| - 2 * trim - 1)
    ensures r.Some? ==> |r.value| == |bounds| - 2 * trim - 1 && RoundsAre(r.value, traces, bounds, trim)
  {
    bounds := WindowBounds(entries);
    if |entries| <= 2 * trim + 2 {
      return None, bounds;
    }
    var rounds: seq<seq<Row>> := [];
    for ordinal := trim to |bounds| - trim - 1
      invariant |rounds| == ordinal - trim && RoundsAre(rounds, traces, bounds, trim)
    {
      var next := NextRound(rounds, traces, bounds, trim);
      if next.None? {
        RoundFails(traces, bounds, trim, |bounds| - 2 * trim - 1, ordinal - trim);
        return None, bounds;
      }
      rounds := next.value;
    }
    RoundsHaveClosed(rounds, traces, bounds, trim);
    r := Some(rounds);
  }

  // ----- rows add up to the row of the whole span -----

  function Total(rows: seq<Row>, value: Row -> int): int {
    if rows == [] then 0 else Total(rows[..|rows| - 1], value) + value(rows[|rows| - 1])
  }

  function Busy(): Row -> int { (r: Row) => r.busy }

  function Idle(): Row -> int { (r: Row) => r.idle }

  function Overlapped(): Row -> int { (r: Row) => r.overlap }

  function Credited(name: string): Row -> int { (r: Row) => E.Count(r.exclusive, name) }

  /** Busy, idle and overlapped time and the credit of a label, over all rows. */
  ghost predicate AddUp(rows: seq<Row>, whole: Row, name: string) {
    && Total(rows, Busy()) == whole.busy && Total(rows, Idle()) == whole.idle
    && Total(rows, Overlapped()) == whole.overlap && Total(rows, Credited(name)) == E.Count(whole.exclusive, name)
  }

  ghost predicate Joins(whole: Row, left: Row, right: Row, name: string) {
    && whole.busy == left.busy + right.busy && whole.idle == left.idle + right.idle
    && whole.overlap == left.overlap + right.overlap
    && E.Count(whole.exclusive, name) == E.Count(left.exclusive, name) + E.Count(right.exclusive, name)
  }

  lemma AddUpNext(rows: seq<Row>, left: Row, right: Row, whole: Row, name: string)
    requires AddUp(rows, left, name) && Joins(whole, left, right, name)
    ensures AddUp(rows + [right], whole, name)
  {
    assert (rows + [right])[..|rows|] == rows;
  }

  lemma CutAdds(s: set<int>, x: int, y: int, z: int)
    requires x <= y <= z
    ensures |s * Range(x, z)| == |s * Range(x, y)| + |s * Range(y, z)|
    ensures |Range(x, z) - s| == |Range(x, y) - s| + |Range(y, z) - s|
  {
    assert s * Range(x, z) == s * Range(x, y) + s * Range(y, z);
    DisjointUnionSize(s * Range(x, y), s * Range(y, z));
    assert Range(x, z) - s == (Range(x, y) - s) + (Range(y, z) - s);
    DisjointUnionSize(Range(x, y) - s, Range(y, z) - s);
  }

  lemma OwnedAdds(scopes: seq<E.Scope>, name: string, x: int, y: int, z: int)
    requires x <= y <= z
    ensures |E.Owned(scopes, name, x, z)| == |E.Owned(scopes, name, x, y)| + |E.Owned(scopes, name, y, z)|
  {
    assert E.Owned(scopes, name, x, z) == E.Owned(scopes, name, x, y) + E.Owned(scopes, name, y, z);
    DisjointUnionSize(E.Owned(scopes, name, x, y), E.Owned(scopes, name, y, z));
  }

  lemma RowAdds(kernels: seq<Activity>, copies: seq<Span>, x: int, y: int, z: int)
    requires x <= y <= z && KernelTrace(kernels)
    ensures var (whole, left, right) :=
              (RowOf(kernels, copies, x, z), RowOf(kernels, copies, x, y), RowOf(kernels, copies, y, z));
            && whole.busy == left.busy + right.busy
            && whole.idle == left.idle + right.idle
            && whole.overlap == left.overlap + right.overlap
  {
    CutAdds(Covered(kernels, copies), x, y, z);
    CutAdds(Instants(SpansOf(kernels)), x, y, z);
    SpansOfMember(kernels);
    assert Forward(SpansOf(kernels));
    ServiceTiles(SpansOf(kernels), x, y, z);
  }

  lemma CreditAdds(kernels: seq<Activity>, copies: seq<Span>, name: string, x: int, y: int, z: int)
    requires x <= y <= z
    ensures E.Count(RowOf(kernels, copies, x, z).exclusive, name)
         == E.Count(RowOf(kernels, copies, x, y).exclusive, name)
             + E.Count(RowOf(kernels, copies, y, z).exclusive, name)
  {
    var scopes := ScopesOf(kernels, copies);
    CreditCredits(scopes, x, z);
    CreditCredits(scopes, x, y);
    CreditCredits(scopes, y, z);
    OwnedAdds(scopes, name, x, y, z);
  }

  lemma RowsJoin(kernels: seq<Activity>, copies: seq<Span>, x: int, y: int, z: int, name: string)
    requires x <= y <= z && KernelTrace(kernels)
    ensures Joins(RowOf(kernels, copies, x, z), RowOf(kernels, copies, x, y), RowOf(kernels, copies, y, z), name)
  {
    RowAdds(kernels, copies, x, y, z);
    CreditAdds(kernels, copies, name, x, y, z);
  }

  /** `rows[i]` is the ledger's row between `bounds[i]` and the next, later, bound. */
  ghost predicate RowAt(ledger: (int, int) -> Row, bounds: seq<int>, rows: seq<Row>, i: nat)
    requires i < |rows| && |bounds| == |rows| + 1
  {
    bounds[i] <= bounds[i + 1] && rows[i] == ledger(bounds[i], bounds[i + 1])
  }

  ghost predicate Additive(ledger: (int, int) -> Row, name: string) {
    forall x, y, z :: x <= y <= z ==> Joins(ledger(x, z), ledger(x, y), ledger(y, z), name)
  }

  lemma {:induction false} AdditiveTiles(ledger: (int, int) -> Row, bounds: seq<int>, rows: seq<Row>, name: string)
    requires Additive(ledger, name) && |bounds| == |rows| + 1
    requires forall i :: 0 <= i < |rows| ==> RowAt(ledger, bounds, rows, i)
    ensures bounds[0] <= bounds[|rows|] && AddUp(rows, ledger(bounds[0], bounds[|rows|]), name)
  {
    var n, x := |rows| - 1, bounds[0];
    if rows == [] {
      assert Joins(ledger(x, x), ledger(x, x), ledger(x, x), name);
    } else {
      var bounds', rows' := bounds[..n + 1], rows[..n];
      forall i | 0 <= i < n ensures RowAt(ledger, bounds', rows', i) {
        assert RowAt(ledger, bounds, rows, i);
      }
      AdditiveTiles(ledger, bounds', rows', name);
      assert RowAt(ledger, bounds, rows, n);
      AddUpNext(rows[..n], ledger(x, bounds[n]), rows[n], ledger(x, bounds[n + 1]), name);
      assert rows == rows[..n] + [rows[n]];
    }
  }

  /** `rows[i]` is the row of the window from `bounds[i]` to the next bound. */
  ghost predicate RowIs(kernels: seq<Activity>, copies: seq<Span>, bounds: seq<int>, rows: seq<Row>, i: nat)
    requires i < |rows| && |bounds| == |rows| + 1
  {
    bounds[i] <= bounds[i + 1] && rows[i] == RowOf(kernels, copies, bounds[i], bounds[i + 1])
  }

  /**
   * Over any run of advancing windows, also when kernels straddle the boundaries, the rows add up to the
   * one row of the whole span: busy, idle and overlap time and the credit of every label.
   */
  lemma RoundsTile(kernels: seq<Activity>, copies: seq<Span>, bounds: seq<int>, rows: seq<Row>, name: string)
    requires KernelTrace(kernels) && |bounds| == |rows| + 1
    requires forall i :: 0 <= i < |rows| ==> RowIs(kernels, copies, bounds, rows, i)
    ensures bounds[0] <= bounds[|rows|] && AddUp(rows, RowOf(kernels, copies, bounds[0], bounds[|rows|]), name)
  {
    var ledger := (x, y) => RowOf(kernels, copies, x, y);
    forall x, y, z | x <= y <= z ensures Joins(ledger(x, z), ledger(x, y), ledger(y, z), name) {
      RowsJoin(kernels, copies, x, y, z, name);
    }
    forall i | 0 <= i < |rows| ensures RowAt(ledger, bounds, rows, i) {
      assert RowIs(kernels, copies, bounds, rows, i);
    }
    AdditiveTiles(ledger, bounds, rows, name);
  }

  lemma SpansTile(kernels: seq<Activity>, copies: seq<Span>, bounds: seq<int>, rows: seq<Row>, name: string,
                  start: int, end: int)
    requires KernelTrace(kernels) && |bounds| == |rows| + 1 && bounds[0] == start && bounds[|rows|] == end
    requires forall i :: 0 <= i < |rows| ==> RowIs(kernels, copies, bounds, rows, i)
    ensures AddUp(rows, RowOf(kernels, copies, start, end), name)
  {
    RoundsTile(kernels, copies, bounds, rows, name);
  }

  function Column(rounds: seq<seq<Row>>, p: nat): (r: seq<Row>)
    requires forall i :: 0 <= i < |rounds| ==> p < |rounds[i]|
    ensures |r| == |rounds| && forall i :: 0 <= i < |r| ==> r[i] == rounds[i][p]
  {
    seq(|rounds|, i requires 0 <= i < |rounds| => rounds[i][p])
  }

  lemma RoundRowAt(rounds: seq<seq<Row>>, traces: seq<Trace>, bounds: seq<int>, first: nat, p: nat, i: nat)
    requires first + |rounds| < |bounds| && RoundsAre(rounds, traces, bounds, first) && p < |traces| && i < |rounds|
    ensures bounds[first + i] < bounds[first + i + 1] && |rounds[i]| == |traces|
    ensures rounds[i][p] == RowOf(traces[p].kernels, traces[p].copies, bounds[first + i], bounds[first + i + 1])
  {
    assert RoundIs(rounds, traces, bounds, first, i);
    assert IsRow(rounds[i][p], traces[p], bounds[first + i], bounds[first + i + 1]);
  }

  lemma ColumnRows(rounds: seq<seq<Row>>, traces: seq<Trace>, bounds: seq<int>, first: nat, p: nat)
    requires first + |rounds| < |bounds| && RoundsAre(rounds, traces, bounds, first) && p < |traces|
    ensures forall i :: 0 <= i < |rounds| ==> p < |rounds[i]|
    ensures var spans, rows := bounds[first..first + |rounds| + 1], Column(rounds, p);
            forall i :: 0 <= i < |rows| ==> RowIs(traces[p].kernels, traces[p].copies, spans, rows, i)
  {
    forall i | 0 <= i < |rounds| ensures p < |rounds[i]| {
      RoundRowAt(rounds, traces, bounds, first, p, i);
    }
    var spans, rows := bounds[first..first + |rounds| + 1], Column(rounds, p);
    forall i | 0 <= i < |rows| ensures RowIs(traces[p].kernels, traces[p].copies, spans, rows, i) {
      RoundRowAt(rounds, traces, bounds, first, p, i);
      assert spans[i] == bounds[first + i] && spans[i + 1] == bounds[first + i + 1];
    }
  }

  /** In a finished ledger every rank's rows add up to its row over the whole span of the rounds. */
  lemma LedgerTiles(rounds: seq<seq<Row>>, traces: seq<Trace>, bounds: seq<int>, first: nat, p: nat, name: string)
    requires first + |rounds| < |bounds| && RoundsAre(rounds, traces, bounds, first) && p < |traces| && Traces(traces)
    ensures forall i :: 0 <= i < |rounds| ==> p < |rounds[i]|
    ensures AddUp(Column(rounds, p),
                  RowOf(traces[p].kernels, traces[p].copies, bounds[first], bounds[first + |rounds|]), name)
  {
    ColumnRows(rounds, traces, bounds, first, p);
    var spans, rows := bounds[first..first + |rounds| + 1], Column(rounds, p);
    SpansTile(traces[p].kernels, traces[p].copies, spans, rows, name, bounds[first], bounds[first + |rounds|]);
  }
}
