/** The grouped columns of a ledger row: union time by scope and family, service and calls by kernel. */
module WindowColumns {
  import opened Spans
  import opened RoundLedger
  import opened IdleFrontier
  import opened RoundWindows
  import E = ExclusiveActivity

  type Key = Activity -> string

  datatype Columns = Columns(scopeUnion: map<string, int>, familyUnion: map<string, int>,
                             service: map<string, int>, calls: map<string, int>)

  function ScopeKey(): Key { (a: Activity) => a.tag.scope }

  function FamilyKey(family: string -> string): Key { (a: Activity) => a.tag.scope + ": " + family(a.tag.name) }

  function KernelKey(): Key { (a: Activity) => a.tag.scope + ": " + a.tag.name }

  // ----- grouping -----

  /** The spans of the activities with one key, in order. */
  function SpansWith(active: seq<Activity>, key: Key, k: string): seq<Span> {
    if active == [] then []
    else
      var last := active[|active| - 1];
      SpansWith(active[..|active| - 1], key, k) + (if key(last) == k then [last.span] else [])
  }

  /** The dictionary holds exactly the keys that occur, each with its spans. */
  ghost predicate Groups(m: map<string, seq<Span>>, active: seq<Activity>, key: Key) {
    && (forall k :: k in m <==> SpansWith(active, key, k) != [])
    && forall k :: k in m ==> m[k] == SpansWith(active, key, k)
  }

  method GroupSpans(active: seq<Activity>, key: Key) returns (m: map<string, seq<Span>>)
    ensures Groups(m, active, key)
  {
    m := map[];
    for i := 0 to |active|
      invariant Groups(m, active[..i], key)
    {
      var k := key(active[i]);
      assert active[..i + 1][..i] == active[..i];
      m := m[k := (if k in m then m[k] else []) + [active[i].span]];
    }
    assert active[..|active|] == active;
  }

  function Mapped(m: map<string, seq<Span>>, f: seq<Span> -> int): (r: map<string, int>)
    ensures r.Keys == m.Keys && forall k :: k in m ==> r[k] == f(m[k])
  {
    map k | k in m :: f(m[k])
  }

  /** A column over the kernels that reach into the window: its keys and the value of each. */
  ghost predicate IsColumn(column: map<string, int>, kernels: seq<Activity>, key: Key, start: int, end: int,
                           value: seq<Span> -> int)
  {
    var active := ActiveIn(kernels, start, end);
    && (forall k :: k in column <==> SpansWith(active, key, k) != [])
    && forall k :: k in column ==> column[k] == value(SpansWith(active, key, k))
  }

  ghost function SweptIn(start: int, end: int): seq<Span> -> int {
    spans => |Recorded(Clipped(spans, start, end))|
  }

  function ServiceIn(start: int, end: int): seq<Span> -> int {
    (spans: seq<Span>) => Service(Clipped(spans, start, end))
  }

  function Calls(): seq<Span> -> int {
    (spans: seq<Span>) => |spans|
  }

  method UnionColumn(kernels: seq<Activity>, key: Key, start: int, end: int) returns (column: map<string, int>)
    ensures IsColumn(column, kernels, key, start, end, SweptIn(start, end))
  {
    var groups := GroupSpans(ActiveIn(kernels, start, end), key);
    column := UnionOfGroups(groups, start, end);
    ColumnOf(column, groups, kernels, key, start, end, SweptIn(start, end));
  }

  method UnionOfGroups(groups: map<string, seq<Span>>, start: int, end: int) returns (column: map<string, int>)
    ensures column.Keys == groups.Keys
    ensures forall k :: k in column ==> column[k] == |Recorded(Clipped(groups[k], start, end))|
  {
    var left := groups.Keys;
    column := map[];
    while left != {}
      invariant left <= groups.Keys && column.Keys == groups.Keys - left
      invariant forall k :: k in column ==> column[k] == |Recorded(Clipped(groups[k], start, end))|
      decreases |left|
    {
      var k :| k in left;
      var total := UnionNs(Clipped(groups[k], start, end));
      column, left := column[k := total], left - {k};
    }
  }

  lemma ColumnOf(column: map<string, int>, groups: map<string, seq<Span>>, kernels: seq<Activity>, key: Key,
                 start: int, end: int, value: seq<Span> -> int)
    requires Groups(groups, ActiveIn(kernels, start, end), key)
    requires column.Keys == groups.Keys && forall k :: k in column ==> column[k] == value(groups[k])
    ensures IsColumn(column, kernels, key, start, end, value)
  {
  }

  method ComputeColumns(kernels: seq<Activity>, family: string -> string, start: int, end: int) returns (c: Columns)
    ensures IsColumn(c.scopeUnion, kernels, ScopeKey(), start, end, SweptIn(start, end))
    ensures IsColumn(c.familyUnion, kernels, FamilyKey(family), start, end, SweptIn(start, end))
    ensures IsColumn(c.service, kernels, KernelKey(), start, end, ServiceIn(start, end))
    ensures IsColumn(c.calls, kernels, KernelKey(), start, end, Calls())
  {
    var scopeUnion := UnionColumn(kernels, ScopeKey(), start, end);
    var familyUnion := UnionColumn(kernels, FamilyKey(family), start, end);
    var service, calls := KernelColumns(kernels, start, end);
    c := Columns(scopeUnion, familyUnion, service, calls);
  }

  method KernelColumns(kernels: seq<Activity>, start: int, end: int)
    returns (service: map<string, int>, calls: map<string, int>)
    ensures IsColumn(service, kernels, KernelKey(), start, end, ServiceIn(start, end))
    ensures IsColumn(calls, kernels, KernelKey(), start, end, Calls())
  {
    var byName := GroupSpans(ActiveIn(kernels, start, end), KernelKey());
    service, calls := Mapped(byName, ServiceIn(start, end)), Mapped(byName, Calls());
    ColumnOf(service, byName, kernels, KernelKey(), start, end, ServiceIn(start, end));
    ColumnOf(calls, byName, kernels, KernelKey(), start, end, Calls());
  }

  // ----- what the columns mean -----

  lemma {:induction false} SpansWithActive(kernels: seq<Activity>, key: Key, k: string, start: int, end: int)
    ensures Clipped(SpansWith(ActiveIn(kernels, start, end), key, k), start, end)
         == Clipped(SpansWith(kernels, key, k), start, end)
  {
    if kernels != [] {
      var before, last := kernels[..|kernels| - 1], kernels[|kernels| - 1];
      var active := ActiveIn(before, start, end);
      assert kernels == before + [last];
      SpansWithActive(before, key, k, start, end);
      ActiveSnoc(before, last, start, end);
      ClippedWith(before, last, key, k, start, end);
      if InWindow(last.span, start, end) {
        ClippedWith(active, last, key, k, start, end);
      } else {
        assert ActiveIn(kernels, start, end) == active;
      }
    }
  }

  /** The part of a span inside the window, if any. */
  function Cut(s: Span, start: int, end: int): seq<Span> {
    if InWindow(s, start, end) then [Span(Max(s.start, start), Min(s.stop, end))] else []
  }

  lemma ClippedWith(active: seq<Activity>, last: Activity, key: Key, k: string, start: int, end: int)
    ensures Clipped(SpansWith(active + [last], key, k), start, end)
         == Clipped(SpansWith(active, key, k), start, end) + (if key(last) == k then Cut(last.span, start, end) else [])
  {
    SpansWithSnoc(active, last, key, k);
    if key(last) == k {
      ClippedSnoc(SpansWith(active, key, k), last.span, start, end);
    } else {
      assert SpansWith(active + [last], key, k) == SpansWith(active, key, k);
    }
  }

  lemma SpansWithSnoc(active: seq<Activity>, last: Activity, key: Key, k: string)
    ensures SpansWith(active + [last], key, k)
         == SpansWith(active, key, k) + (if key(last) == k then [last.span] else [])
  {
    assert (active + [last])[..|active|] == active;
  }

  lemma {:induction false} ActiveSnoc(kernels: seq<Activity>, last: Activity, start: int, end: int)
    ensures ActiveIn(kernels + [last], start, end)
         == ActiveIn(kernels, start, end) + (if InWindow(last.span, start, end) then [last] else [])
  {
    if kernels != [] {
      ActiveSnoc(kernels[1..], last, start, end);
      assert (kernels + [last])[1..] == kernels[1..] + [last];
    } else {
      assert kernels + [last] == [last] && [last][1..] == [];
    }
  }

  lemma {:induction false} ClippedSnoc(spans: seq<Span>, last: Span, start: int, end: int)
    ensures Clipped(spans + [last], start, end)
         == Clipped(spans, start, end) + Cut(last, start, end)
  {
    if spans != [] {
      ClippedSnoc(spans[1..], last, start, end);
      assert (spans + [last])[1..] == spans[1..] + [last];
    } else {
      assert spans + [last] == [last] && [last][1..] == [];
    }
  }

  /** Time in the window during which some kernel with the key runs. */
  ghost function UnionTime(kernels: seq<Activity>, key: Key, k: string, start: int, end: int): nat {
    |Instants(SpansWith(kernels, key, k)) * Range(start, end)|
  }

  lemma {:induction false} SpansWithAt(kernels: seq<Activity>, key: Key, k: string, t: int)
    ensures t in Instants(SpansWith(kernels, key, k)) <==>
            exists a :: a in kernels && key(a) == k && a.span.start <= t < a.span.stop
  {
    if kernels != [] {
      var before, last := kernels[..|kernels| - 1], kernels[|kernels| - 1];
      assert kernels == before + [last] && last in kernels;
      SpansWithAt(before, key, k, t);
      InstantsAppend(SpansWith(before, key, k), if key(last) == k then [last.span] else []);
      assert t in Instants([last.span]) <==> last.span.start <= t < last.span.stop;
    }
  }

  /** Where the accounts of the window close, the union columns are times, whatever the key. */
  lemma UnionColumnIsTime(kernels: seq<Activity>, copies: seq<Span>, key: Key, k: string, start: int, end: int)
    requires CoverNonNegative(kernels, copies, start, end)
    ensures |Recorded(Clipped(SpansWith(ActiveIn(kernels, start, end), key, k), start, end))|
         == UnionTime(kernels, key, k, start, end)
  {
    var spans := Clipped(SpansWith(kernels, key, k), start, end);
    SpansWithActive(kernels, key, k, start, end);
    ClippedMeaning(SpansWith(kernels, key, k), start, end);
    forall t | t in Instants(spans) ensures 0 <= t {
      SpansWithAt(kernels, key, k, t);
      var a :| a in kernels && key(a) == k && a.span.start <= t < a.span.stop;
      SpansOfMember(kernels);
      CoveredBy(SpansOf(kernels), a.span, t);
      assert t in Covered(kernels, copies) * Range(start, end);
    }
    RecordedAll(spans);
  }

  // ----- exclusive credit against union time -----

  /** Only an active label owns an instant. */
  lemma {:induction false} OwnerActive(names: seq<string>, scopes: seq<E.Scope>, t: int)
    requires E.OwnerAmong(names, scopes, t) in names && E.Idle !in names
    ensures E.ActiveAt(scopes, E.OwnerAmong(names, scopes, t), t)
  {
    if names != [] && !E.ActiveAt(scopes, names[0], t) {
      OwnerLater(names, scopes, t);
      OwnerActive(names[1..], scopes, t);
    }
  }

  lemma OwnerLater(names: seq<string>, scopes: seq<E.Scope>, t: int)
    requires names != [] && !E.ActiveAt(scopes, names[0], t) && E.OwnerAmong(names, scopes, t) in names &&
             E.Idle !in names
    ensures E.OwnerAmong(names[1..], scopes, t) in names[1..]
  {
    E.OwnerListed(names[1..], scopes, t);
    assert names == [names[0]] + names[1..];
  }

  lemma ScopeRuns(kernels: seq<Activity>, copies: seq<Span>, scope: string, t: int)
    requires scope != CopyScope
    ensures E.ActiveAt(ScopesOf(kernels, copies), scope, t) <==> t in Instants(SpansWith(kernels, ScopeKey(), scope))
  {
    ScopesAt(kernels, copies, scope, t);
    SpansWithAt(kernels, ScopeKey(), scope, t);
    if Runs(kernels, scope, t) {
      var a :| a in kernels && a.tag.scope == scope && a.span.start <= t < a.span.stop;
      assert ScopeKey()(a) == scope;
    }
  }

  lemma OwnedInUnion(kernels: seq<Activity>, copies: seq<Span>, scope: string, start: int, end: int)
    requires scope in KernelScopes
    ensures E.Owned(ScopesOf(kernels, copies), scope, start, end)
         <= Instants(SpansWith(kernels, ScopeKey(), scope)) * Range(start, end)
  {
    var scopes := ScopesOf(kernels, copies);
    forall t | t in E.Owned(scopes, scope, start, end) ensures t in Instants(SpansWith(kernels, ScopeKey(), scope)) {
      OwnerActive(E.Priority, scopes, t);
      ScopeRuns(kernels, copies, scope, t);
    }
  }

  /** Overlap only takes credit away: no scope is credited more than its own union time. */
  lemma CreditWithinUnion(kernels: seq<Activity>, copies: seq<Span>, scope: string, start: int, end: int)
    requires scope in KernelScopes
    ensures E.Count(RowOf(kernels, copies, start, end).exclusive, scope)
         <= UnionTime(kernels, ScopeKey(), scope, start, end)
  {
    CreditCredits(ScopesOf(kernels, copies), start, end);
    OwnedInUnion(kernels, copies, scope, start, end);
    SubsetSize(E.Owned(ScopesOf(kernels, copies), scope, start, end),
               Instants(SpansWith(kernels, ScopeKey(), scope)) * Range(start, end));
  }

  /** The label of highest priority is credited its whole union time. */
  lemma TargetCreditIsUnion(kernels: seq<Activity>, copies: seq<Span>, start: int, end: int)
    ensures E.Count(RowOf(kernels, copies, start, end).exclusive, "target")
         == UnionTime(kernels, ScopeKey(), "target", start, end)
  {
    var scopes := ScopesOf(kernels, copies);
    CreditCredits(scopes, start, end);
    forall t ensures t in E.Owned(scopes, "target", start, end) <==>
                     t in Instants(SpansWith(kernels, ScopeKey(), "target")) * Range(start, end)
    {
      TargetOwns(scopes, t);
      ScopeRuns(kernels, copies, "target", t);
    }
    assert E.Owned(scopes, "target", start, end)
        == Instants(SpansWith(kernels, ScopeKey(), "target")) * Range(start, end);
  }

  lemma TargetOwns(scopes: seq<E.Scope>, t: int)
    ensures E.Owner(scopes, t) == "target" <==> E.ActiveAt(scopes, "target", t)
  {
    assert E.Priority[0] == "target" && "target" !in E.Priority[1..] + [E.Idle];
    E.OwnerListed(E.Priority[1..], scopes, t);
  }

  // ----- service and calls are conserved -----

  function SumOver(keys: seq<string>, column: string -> int): int {
    if keys == [] then 0 else SumOver(keys[..|keys| - 1], column) + column(keys[|keys| - 1])
  }

  predicate EachOnce(keys: seq<string>) {
    forall i, j :: 0 <= i < j < |keys| ==> keys[i] != keys[j]
  }

  lemma {:induction false} SumBump(keys: seq<string>, f: string -> int, g: string -> int, k: string, d: int)
    requires EachOnce(keys) && forall x :: x in keys ==> g(x) == f(x) + (if x == k then d else 0)
    ensures SumOver(keys, g) == SumOver(keys, f) + (if k in keys then d else 0)
  {
    if keys != [] {
      var n := |keys| - 1;
      assert keys == keys[..n] + [keys[n]] && keys[n] in keys;
      SumBump(keys[..n], f, g, k, d);
    }
  }

  lemma {:induction false} SumZero(keys: seq<string>, f: string -> int)
    requires forall x :: x in keys ==> f(x) == 0
    ensures SumOver(keys, f) == 0
  {
    if keys != [] {
      assert keys[|keys| - 1] in keys;
      SumZero(keys[..|keys| - 1], f);
    }
  }

  function CallsOf(active: seq<Activity>, key: Key): string -> int {
    k => |SpansWith(active, key, k)|
  }

  function ServiceOf(active: seq<Activity>, key: Key, start: int, end: int): string -> int {
    k => Service(Clipped(SpansWith(active, key, k), start, end))
  }

  /** Whatever the key, calls by key add up to the kernels. */
  lemma {:induction false} CallsConserve(active: seq<Activity>, key: Key, keys: seq<string>)
    requires EachOnce(keys) && forall a :: a in active ==> key(a) in keys
    ensures SumOver(keys, CallsOf(active, key)) == |active|
  {
    if active == [] {
      SumZero(keys, CallsOf(active, key));
    } else {
      var before, last := active[..|active| - 1], active[|active| - 1];
      assert last in active;
      CallsConserve(before, key, keys);
      SumBump(keys, CallsOf(before, key), CallsOf(active, key), key(last), 1);
    }
  }

  /** Whatever the key, clipped service by key adds up to the clipped service of all kernels. */
  lemma {:induction false} ServiceConserve(active: seq<Activity>, key: Key, keys: seq<string>, start: int, end: int)
    requires EachOnce(keys) && forall a :: a in active ==> key(a) in keys
    ensures SumOver(keys, ServiceOf(active, key, start, end)) == Service(Clipped(SpansOf(active), start, end))
  {
    if active == [] {
      SumZero(keys, ServiceOf(active, key, start, end));
    } else {
      var before, last := active[..|active| - 1], active[|active| - 1];
      var cut := Service(Cut(last.span, start, end));
      assert active == before + [last] && last in active;
      ServiceConserve(before, key, keys, start, end);
      forall k ensures ServiceOf(active, key, start, end)(k)
                    == ServiceOf(before, key, start, end)(k) + (if k == key(last) then cut else 0)
      {
        ServiceNext(before, last, key, k, start, end);
      }
      SumBump(keys, ServiceOf(before, key, start, end), ServiceOf(active, key, start, end), key(last), cut);
      TotalServiceNext(before, last, start, end);
    }
  }

  lemma ServiceNext(before: seq<Activity>, last: Activity, key: Key, k: string, start: int, end: int)
    ensures ServiceOf(before + [last], key, start, end)(k)
         == ServiceOf(before, key, start, end)(k) + (if k == key(last) then Service(Cut(last.span, start, end)) else 0)
  {
    ClippedWith(before, last, key, k, start, end);
    ServiceAppend(Clipped(SpansWith(before, key, k), start, end),
                  if key(last) == k then Cut(last.span, start, end) else []);
  }

  lemma TotalServiceNext(before: seq<Activity>, last: Activity, start: int, end: int)
    ensures Service(Clipped(SpansOf(before + [last]), start, end))
         == Service(Clipped(SpansOf(before), start, end)) + Service(Cut(last.span, start, end))
  {
    SpansOfAppend(before, [last]);
    assert SpansOf([last]) == [last.span];
    ClippedSnoc(SpansOf(before), last.span, start, end);
    ServiceAppend(Clipped(SpansOf(before), start, end), Cut(last.span, start, end));
  }
}
