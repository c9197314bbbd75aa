/** The prioritised partition of a window: every instant is credited to one label. */
module ExclusiveActivity {
  import opened Spans
  import opened Sorting
  import opened RoundLedger

  type Counter = map<string, int>

  const Idle: string := "no activity"
  const Priority: seq<string> := ["target", "draft", "outside graphs", "copies"]

  /** One entry of the scope dictionary: a label and its spans. */
  datatype Scope = Scope(name: string, spans: seq<Span>)

  datatype Tagged = Tagged(name: string, span: Span)

  function Count(c: Counter, name: string): int {
    if name in c then c[name] else 0
  }

  function Add(c: Counter, name: string, n: int): Counter {
    c[name := Count(c, name) + n]
  }

  /** Entry-wise sum, as a counter update performs it. */
  function Merge(c: Counter, d: Counter): (r: Counter)
    ensures forall name :: Count(r, name) == Count(c, name) + Count(d, name)
  {
    map name | name in c.Keys + d.Keys :: Count(c, name) + Count(d, name)
  }

  /** The first label of `names` whose counter is not zero, else the idle label. */
  function FirstActive(names: seq<string>, active: Counter): string {
    if names == [] then Idle
    else if Count(active, names[0]) != 0 then names[0]
    else FirstActive(names[1..], active)
  }

  // ----- the meaning: who owns an instant -----

  ghost predicate ActiveAt(scopes: seq<Scope>, name: string, t: int) {
    exists s :: s in scopes && s.name == name && t in Instants(s.spans)
  }

  ghost function OwnerAmong(names: seq<string>, scopes: seq<Scope>, t: int): string {
    if names == [] then Idle
    else if ActiveAt(scopes, names[0], t) then names[0]
    else OwnerAmong(names[1..], scopes, t)
  }

  /** The active label of highest priority, or the idle label when none is active. */
  ghost function Owner(scopes: seq<Scope>, t: int): string {
    OwnerAmong(Priority, scopes, t)
  }

  ghost function Owned(scopes: seq<Scope>, name: string, start: int, end: int): set<int> {
    set t | t in Range(start, end) && Owner(scopes, t) == name
  }

  predicate AllForward(scopes: seq<Scope>) {
    forall s :: s in scopes ==> Forward(s.spans)
  }

  // ----- counting events -----

  function Tag(name: string, spans: seq<Span>): (r: seq<Tagged>)
    ensures |r| == |spans|
    ensures forall i :: 0 <= i < |r| ==> r[i] == Tagged(name, spans[i])
  {
    seq(|spans|, i requires 0 <= i < |spans| => Tagged(name, spans[i]))
  }

  function Events(scopes: seq<Scope>, start: int, end: int): seq<Tagged> {
    if scopes == [] then []
    else
      var last := scopes[|scopes| - 1];
      Events(scopes[..|scopes| - 1], start, end) + Tag(last.name, Clipped(last.spans, start, end))
  }

  function One(b: bool): int { if b then 1 else 0 }

  /** Openings minus closings of `name` at exactly time `at`. */
  function Delta(events: seq<Tagged>, name: string, at: int): int {
    if events == [] then 0
    else
      var e := events[|events| - 1];
      Delta(events[..|events| - 1], name, at)
      + (if e.name == name then One(e.span.start == at) - One(e.span.stop == at) else 0)
  }

  /** Openings minus closings of `name` at or before time `at`. */
  function Net(events: seq<Tagged>, name: string, at: int): int {
    if events == [] then 0
    else
      var e := events[|events| - 1];
      Net(events[..|events| - 1], name, at)
      + (if e.name == name then One(e.span.start <= at) - One(e.span.stop <= at) else 0)
  }

  ghost predicate Quiet(events: seq<Tagged>, x: int, y: int) {
    forall e :: e in events ==> !(x < e.span.start < y) && !(x < e.span.stop < y)
  }

  lemma {:induction false} NetStep(events: seq<Tagged>, name: string, x: int, y: int)
    requires x < y && Quiet(events, x, y)
    ensures Net(events, name, y) == Net(events, name, x) + Delta(events, name, y)
  {
    if events != [] {
      assert events[|events| - 1] in events;
      NetStep(events[..|events| - 1], name, x, y);
    }
  }

  lemma {:induction false} NetConstant(events: seq<Tagged>, name: string, x: int, t: int, y: int)
    requires x <= t < y && Quiet(events, x, y)
    ensures Net(events, name, t) == Net(events, name, x)
  {
    if events != [] {
      assert events[|events| - 1] in events;
      NetConstant(events[..|events| - 1], name, x, t, y);
    }
  }

  ghost predicate Open(events: seq<Tagged>, name: string, t: int) {
    exists e :: e in events && e.name == name && e.span.start <= t < e.span.stop
  }

  ghost predicate EventsForward(events: seq<Tagged>) {
    forall e :: e in events ==> e.span.start <= e.span.stop
  }

  /** The counter of a label is positive exactly while one of its spans is open. */
  lemma {:induction false} NetPositive(events: seq<Tagged>, name: string, t: int)
    requires EventsForward(events)
    ensures 0 <= Net(events, name, t)
    ensures 0 < Net(events, name, t) <==> Open(events, name, t)
  {
    if events != [] {
      var before, e := events[..|events| - 1], events[|events| - 1];
      assert events == before + [e] && e in events;
      NetPositive(before, name, t);
    }
  }

  lemma {:induction false} EventsOpen(scopes: seq<Scope>, start: int, end: int, name: string, t: int)
    ensures Open(Events(scopes, start, end), name, t) <==> ActiveAt(scopes, name, t) && start <= t < end
  {
    if scopes != [] {
      var before, last := scopes[..|scopes| - 1], scopes[|scopes| - 1];
      var tagged := Tag(last.name, Clipped(last.spans, start, end));
      EventsOpen(before, start, end, name, t);
      assert scopes == before + [last];
      TaggedOpen(last, start, end, name, t);
      assert ActiveAt(scopes, name, t) <==>
        ActiveAt(before, name, t) || (last.name == name && t in Instants(last.spans));
      assert Open(Events(scopes, start, end), name, t) <==>
             Open(Events(before, start, end), name, t) || Open(tagged, name, t);
    }
  }

  lemma TaggedOpen(s: Scope, start: int, end: int, name: string, t: int)
    ensures Open(Tag(s.name, Clipped(s.spans, start, end)), name, t) <==>
            s.name == name && t in Instants(s.spans) && start <= t < end
  {
    var cut := Clipped(s.spans, start, end);
    ClippedAt(s.spans, start, end, t);
    InstantsMeaning(cut, t);
    if s.name == name && Covers(cut, t) {
      var c :| c in cut && c.start <= t < c.stop;
      var i :| 0 <= i < |cut| && cut[i] == c;
      assert Tag(s.name, cut)[i] == Tagged(name, c);
    }
  }

  lemma {:induction false} EventsBounded(scopes: seq<Scope>, start: int, end: int)
    requires start <= end && AllForward(scopes)
    ensures EventsForward(Events(scopes, start, end))
    ensures forall e :: e in Events(scopes, start, end) ==> start <= e.span.start && e.span.stop <= end
  {
    if scopes != [] {
      EventsBounded(scopes[..|scopes| - 1], start, end);
      assert scopes[|scopes| - 1] in scopes;
    }
  }

  // ----- the sweep over change points -----

  type Points = map<int, Counter>

  function At(points: Points, at: int): Counter {
    if at in points then points[at] else map[]
  }

  function Bump(points: Points, at: int, name: string, n: int): Points {
    points[at := Add(At(points, at), name, n)]
  }

  /** The points hold the window ends and every event end, with the changes due at each. */
  ghost predicate Records(points: Points, events: seq<Tagged>, start: int, end: int) {
    PointsCover(points.Keys, events, start, end) && forall at :: ChangesAt(At(points, at), events, at)
  }

  ghost predicate PointsCover(keys: set<int>, events: seq<Tagged>, start: int, end: int) {
    && start in keys && end in keys
    && (forall at :: at in keys ==> start <= at <= end)
    && (forall e :: e in events ==> e.span.start in keys && e.span.stop in keys)
  }

  ghost predicate ChangesAt(changes: Counter, events: seq<Tagged>, at: int) {
    forall name :: Count(changes, name) == Delta(events, name, at)
  }

  lemma RecordsNext(points: Points, events: seq<Tagged>, e: Tagged, start: int, end: int)
    requires Records(points, events, start, end)
    requires start <= e.span.start <= e.span.stop <= end
    ensures Records(Bump(Bump(points, e.span.start, e.name, 1), e.span.stop, e.name, -1), events + [e], start, end)
  {
    var after := Bump(Bump(points, e.span.start, e.name, 1), e.span.stop, e.name, -1);
    assert (events + [e])[..|events|] == events;
    forall at, name ensures Count(At(after, at), name) == Delta(events + [e], name, at) {
      assert ChangesAt(At(points, at), events, at);
    }
  }

  method AddSpans(points: Points, ghost events: seq<Tagged>, name: string, cut: seq<Span>, start: int, end: int)
    returns (r: Points)
    requires Records(points, events, start, end)
    requires forall s :: s in cut ==> start <= s.start <= s.stop <= end
    ensures Records(r, events + Tag(name, cut), start, end)
  {
    r := points;
    ghost var tagged := Tag(name, cut);
    assert events + tagged[..0] == events;
    for j := 0 to |cut|
      invariant Records(r, events + tagged[..j], start, end)
    {
      assert cut[j] in cut;
      RecordsNext(r, events + tagged[..j], tagged[j], start, end);
      r := Bump(r, cut[j].start, name, 1);
      r := Bump(r, cut[j].stop, name, -1);
      assert events + tagged[..j + 1] == events + tagged[..j] + [tagged[j]];
    }
    assert tagged[..|cut|] == tagged;
  }

  method CollectPoints(scopes: seq<Scope>, start: int, end: int) returns (points: Points)
    requires start <= end && AllForward(scopes)
    ensures Records(points, Events(scopes, start, end), start, end)
  {
    points := map[start := map[], end := map[]];
    for i := 0 to |scopes|
      invariant Records(points, Events(scopes[..i], start, end), start, end)
    {
      assert scopes[i] in scopes;
      var cut := Clipped(scopes[i].spans, start, end);
      points := AddSpans(points, Events(scopes[..i], start, end), scopes[i].name, cut, start, end);
      assert scopes[..i + 1][..i] == scopes[..i];
    }
    assert scopes[..|scopes|] == scopes;
  }

  /** The running counters after all changes up to time `at`. */
  ghost predicate CountsAt(active: Counter, events: seq<Tagged>, at: int) {
    forall name :: Count(active, name) == Net(events, name, at)
  }

  lemma {:induction false} NetBefore(events: seq<Tagged>, name: string, at: int)
    requires forall e :: e in events ==> at < e.span.start <= e.span.stop
    ensures Net(events, name, at) == 0
  {
    if events != [] {
      assert events[|events| - 1] in events;
      NetBefore(events[..|events| - 1], name, at);
    }
  }

  lemma {:induction false} FirstActiveIsOwner(names: seq<string>, active: Counter, scopes: seq<Scope>, t: int)
    requires forall name :: Count(active, name) != 0 <==> ActiveAt(scopes, name, t)
    ensures FirstActive(names, active) == OwnerAmong(names, scopes, t)
  {
    if names != [] {
      FirstActiveIsOwner(names[1..], active, scopes, t);
    }
  }

  lemma {:induction false} NoneActive(names: seq<string>, active: Counter)
    requires forall name :: Count(active, name) == 0
    ensures FirstActive(names, active) == Idle
  {
    if names != [] {
      NoneActive(names[1..], active);
    }
  }

  /** Between two change points the label read off the counters owns every instant. */
  lemma OwnerBetween(scopes: seq<Scope>, start: int, end: int, active: Counter, x: int, t: int, y: int)
    requires start <= x <= t < y <= end && AllForward(scopes)
    requires Quiet(Events(scopes, start, end), x, y) && CountsAt(active, Events(scopes, start, end), x)
    ensures Owner(scopes, t) == FirstActive(Priority, active)
  {
    var events := Events(scopes, start, end);
    EventsBounded(scopes, start, end);
    forall name ensures Count(active, name) != 0 <==> ActiveAt(scopes, name, t) {
      NetConstant(events, name, x, t, y);
      NetPositive(events, name, t);
      EventsOpen(scopes, start, end, name, t);
    }
    FirstActiveIsOwner(Priority, active, scopes, t);
  }

  ghost function Owners(scopes: seq<Scope>, start: int, end: int): set<string> {
    set t | t in Range(start, end) :: Owner(scopes, t)
  }

  /** Totals credit each label with exactly the instants it owns from `start` up to `at`. */
  ghost predicate Credits(totals: Counter, scopes: seq<Scope>, start: int, at: int) {
    && totals.Keys == {Idle} + Owners(scopes, start, at)
    && forall name :: Count(totals, name) == |Owned(scopes, name, start, at)|
  }

  lemma CreditsNext(totals: Counter, scopes: seq<Scope>, name: string, start: int, x: int, y: int)
    requires start <= x < y && Credits(totals, scopes, start, x)
    requires forall t :: x <= t < y ==> Owner(scopes, t) == name
    ensures Credits(Add(totals, name, y - x), scopes, start, y)
  {
    var after := Add(totals, name, y - x);
    forall other ensures Count(after, other) == |Owned(scopes, other, start, y)| {
      OwnedNext(scopes, other, name, start, x, y);
    }
    OwnersNext(scopes, name, start, x, y);
    assert after.Keys == totals.Keys + {name};
  }

  lemma OwnersNext(scopes: seq<Scope>, name: string, start: int, x: int, y: int)
    requires start <= x < y
    requires forall t :: x <= t < y ==> Owner(scopes, t) == name
    ensures Owners(scopes, start, y) == Owners(scopes, start, x) + {name}
  {
    assert Owner(scopes, x) == name && x in Range(start, y);
    forall t | t in Range(start, y) ensures Owner(scopes, t) in Owners(scopes, start, x) + {name} {
      if t < x {
        assert t in Range(start, x);
      }
    }
    forall t | t in Range(start, x) ensures Owner(scopes, t) in Owners(scopes, start, y) {
      assert t in Range(start, y);
    }
  }

  lemma OwnedNext(scopes: seq<Scope>, other: string, name: string, start: int, x: int, y: int)
    requires start <= x < y
    requires forall t :: x <= t < y ==> Owner(scopes, t) == name
    ensures |Owned(scopes, other, start, y)|
         == |Owned(scopes, other, start, x)| + (if other == name then y - x else 0)
  {
    if other == name {
      assert Owned(scopes, other, start, y) == Owned(scopes, other, start, x) + Range(x, y);
      DisjointUnionSize(Owned(scopes, other, start, x), Range(x, y));
    } else {
      assert Owned(scopes, other, start, y) == Owned(scopes, other, start, x);
    }
  }

  /** State of the sweep after the change points `keys[..k]`. */
  ghost predicate SweptKeys(keys: seq<int>, k: nat, scopes: seq<Scope>, start: int, end: int,
                            active: Counter, totals: Counter, previous: int)
    requires k <= |keys|
  {
    if k == 0 then active == map[] && totals == map[] && previous == start
    else (
      && previous == keys[k - 1]
      && CountsAt(active, Events(scopes, start, end), previous)
      && Credits(totals, scopes, start, previous))
  }

  /** Strictly ascending keys from `start` to `end` that include every event end. */
  ghost predicate KeysOf(keys: seq<int>, events: seq<Tagged>, start: int, end: int) {
    && keys != [] && keys[0] == start && keys[|keys| - 1] == end
    && (forall i, j :: 0 <= i < j < |keys| ==> keys[i] < keys[j])
    && (forall e :: e in events ==> e.span.start in keys && e.span.stop in keys)
  }

  lemma AscendingEnds(keys: seq<int>, start: int, end: int)
    requires forall i, j :: 0 <= i < j < |keys| ==> keys[i] < keys[j]
    requires start in keys && end in keys
    requires forall x :: x in keys ==> start <= x <= end
    ensures keys[0] == start && keys[|keys| - 1] == end
  {
    assert keys[0] in keys && keys[|keys| - 1] in keys;
  }

  lemma PointsToKeys(keys: set<int>, events: seq<Tagged>, start: int, end: int)
    requires PointsCover(keys, events, start, end)
    ensures KeysOf(Ascending(keys), events, start, end)
  {
    AscendingEnds(Ascending(keys), start, end);
  }

  lemma PointChanges(points: Points, events: seq<Tagged>, start: int, end: int, at: int)
    requires Records(points, events, start, end) && at in points.Keys
    ensures ChangesAt(points[at], events, at)
  {
    assert At(points, at) == points[at];
  }

  lemma KeysQuiet(keys: seq<int>, events: seq<Tagged>, start: int, end: int, k: nat)
    requires KeysOf(keys, events, start, end) && 0 < k < |keys|
    ensures Quiet(events, keys[k - 1], keys[k])
  {
    forall x | x in keys ensures !(keys[k - 1] < x < keys[k]) {
      var i :| 0 <= i < |keys| && keys[i] == x;
    }
  }

  lemma CountsNext(events: seq<Tagged>, active: Counter, changes: Counter, x: int, at: int)
    requires CountsAt(active, events, x) && ChangesAt(changes, events, at)
    requires x < at && Quiet(events, x, at)
    ensures CountsAt(Merge(active, changes), events, at)
  {
    forall name ensures Count(Merge(active, changes), name) == Net(events, name, at) {
      NetStep(events, name, x, at);
    }
  }

  lemma FirstKey(scopes: seq<Scope>, start: int, end: int, changes: Counter)
    requires start <= end && AllForward(scopes)
    requires ChangesAt(changes, Events(scopes, start, end), start)
    ensures FirstActive(Priority, map[]) == Idle
    ensures CountsAt(Merge(map[], changes), Events(scopes, start, end), start)
    ensures Credits(map[Idle := 0], scopes, start, start)
  {
    var events := Events(scopes, start, end);
    EventsBounded(scopes, start, end);
    NoneActive(Priority, map[]);
    var x := start - 1;
    forall name ensures Net(events, name, x) == 0 {
      NetBefore(events, name, x);
    }
    CountsNext(events, map[], changes, x, start);
    assert Owners(scopes, start, start) == {};
    assert forall name :: Owned(scopes, name, start, start) == {};
  }

  lemma LaterKey(keys: seq<int>, k: nat, scopes: seq<Scope>, start: int, end: int, active: Counter, totals: Counter)
    requires start <= end && AllForward(scopes)
    requires 0 < k < |keys| && KeysOf(keys, Events(scopes, start, end), start, end)
    requires CountsAt(active, Events(scopes, start, end), keys[k - 1]) && Credits(totals, scopes, start, keys[k - 1])
    ensures Credits(Add(totals, FirstActive(Priority, active), keys[k] - keys[k - 1]), scopes, start, keys[k])
  {
    var previous, at := keys[k - 1], keys[k];
    KeysQuiet(keys, Events(scopes, start, end), start, end, k);
    forall t | previous <= t < at ensures Owner(scopes, t) == FirstActive(Priority, active) {
      OwnerBetween(scopes, start, end, active, previous, t, at);
    }
    CreditsNext(totals, scopes, FirstActive(Priority, active), start, previous, at);
  }

  lemma SweepNext(keys: seq<int>, k: nat, scopes: seq<Scope>, start: int, end: int,
                  active: Counter, totals: Counter, previous: int, changes: Counter)
    requires start <= end && AllForward(scopes)
    requires k < |keys| && KeysOf(keys, Events(scopes, start, end), start, end)
    requires SweptKeys(keys, k, scopes, start, end, active, totals, previous)
    requires ChangesAt(changes, Events(scopes, start, end), keys[k])
    ensures SweptKeys(keys, k + 1, scopes, start, end, Merge(active, changes),
                      Add(totals, FirstActive(Priority, active), keys[k] - previous), keys[k])
  {
    if k == 0 {
      FirstKey(scopes, start, end, changes);
      assert Add(map[], Idle, 0) == map[Idle := 0];
    } else {
      LaterKey(keys, k, scopes, start, end, active, totals);
      KeysQuiet(keys, Events(scopes, start, end), start, end, k);
      CountsNext(Events(scopes, start, end), active, changes, previous, keys[k]);
    }
  }

  /** At each key the points hold the changes due there. */
  ghost predicate Changes(points: Points, keys: seq<int>, events: seq<Tagged>) {
    forall k :: 0 <= k < |keys| ==> keys[k] in points && ChangesAt(points[keys[k]], events, keys[k])
  }

  method SweepPoints(points: Points, keys: seq<int>, scopes: seq<Scope>, start: int, end: int) returns (totals: Counter)
    requires start <= end && AllForward(scopes) && KeysOf(keys, Events(scopes, start, end), start, end)
    requires Changes(points, keys, Events(scopes, start, end))
    ensures Credits(totals, scopes, start, end)
  {
    var active: Counter := map[];
    totals := map[];
    var previous := start;
    for k := 0 to |keys|
      invariant SweptKeys(keys, k, scopes, start, end, active, totals, previous)
    {
      var at := keys[k];
      SweepNext(keys, k, scopes, start, end, active, totals, previous, points[at]);
      var name := FirstActive(Priority, active);
      totals := Add(totals, name, at - previous);
      active := Merge(active, points[at]);
      previous := at;
    }
  }

  /** The sweep credits every label with the instants it owns and reports those that own one, and the idle label. */
  method ExclusiveActivityNs(scopes: seq<Scope>, start: int, end: int) returns (totals: Counter)
    requires start <= end && AllForward(scopes)
    ensures Credits(totals, scopes, start, end)
  {
    var points := CollectPoints(scopes, start, end);
    var keys := Ascending(points.Keys);
    ghost var events := Events(scopes, start, end);
    PointsToKeys(points.Keys, events, start, end);
    forall k | 0 <= k < |keys| ensures keys[k] in points && ChangesAt(points[keys[k]], events, keys[k]) {
      assert keys[k] in keys;
      PointChanges(points, events, start, end, keys[k]);
    }
    totals := SweepPoints(points, keys, scopes, start, end);
  }

  // ----- what the partition says -----

  function SumOver(names: seq<string>, c: Counter): int {
    if names == [] then 0 else Count(c, names[0]) + SumOver(names[1..], c)
  }

  lemma {:induction false} OwnerListed(names: seq<string>, scopes: seq<Scope>, t: int)
    ensures OwnerAmong(names, scopes, t) in names + [Idle]
  {
    if names != [] {
      OwnerListed(names[1..], scopes, t);
    }
  }

  /** The instants of a window owned by one of `names`. */
  ghost function OwnedBy(names: seq<string>, scopes: seq<Scope>, start: int, end: int): set<int> {
    set t | t in Range(start, end) && Owner(scopes, t) in names
  }

  lemma OwnedBySplit(names: seq<string>, scopes: seq<Scope>, start: int, end: int)
    requires names != [] && names[0] !in names[1..]
    ensures |OwnedBy(names, scopes, start, end)|
         == |Owned(scopes, names[0], start, end)| + |OwnedBy(names[1..], scopes, start, end)|
  {
    var one, rest := Owned(scopes, names[0], start, end), OwnedBy(names[1..], scopes, start, end);
    assert names == [names[0]] + names[1..];
    assert OwnedBy(names, scopes, start, end) == one + rest;
    DisjointUnionSize(one, rest);
  }

  lemma {:induction false} PartsSum(names: seq<string>, totals: Counter, scopes: seq<Scope>, start: int, end: int)
    requires Credits(totals, scopes, start, end)
    requires forall i, j :: 0 <= i < j < |names| ==> names[i] != names[j]
    ensures SumOver(names, totals) == |OwnedBy(names, scopes, start, end)|
  {
    if names == [] {
      assert OwnedBy(names, scopes, start, end) == {};
    } else {
      PartsSum(names[1..], totals, scopes, start, end);
      OwnedBySplit(names, scopes, start, end);
    }
  }

  /** The closing assertion of the sweep: the reported parts add up to the window. */
  lemma PartitionClosesWindow(totals: Counter, scopes: seq<Scope>, start: int, end: int)
    requires start <= end && Credits(totals, scopes, start, end)
    ensures totals.Keys <= (set name | name in Priority + [Idle])
    ensures SumOver(Priority + [Idle], totals) == end - start
  {
    forall t ensures Owner(scopes, t) in Priority + [Idle] {
      OwnerListed(Priority, scopes, t);
    }
    PartsSum(Priority + [Idle], totals, scopes, start, end);
    assert OwnedBy(Priority + [Idle], scopes, start, end) == Range(start, end);
  }

  ghost function AllSpans(scopes: seq<Scope>): set<int> {
    if scopes == [] then {} else Instants(scopes[0].spans) + AllSpans(scopes[1..])
  }

  lemma {:induction false} AllSpansMeaning(scopes: seq<Scope>, t: int)
    ensures t in AllSpans(scopes) <==> exists s :: s in scopes && t in Instants(s.spans)
  {
    if scopes != [] {
      AllSpansMeaning(scopes[1..], t);
      assert forall s :: s in scopes <==> s == scopes[0] || s in scopes[1..];
    }
  }

  lemma {:induction false} IdleOwner(names: seq<string>, scopes: seq<Scope>, t: int)
    requires Idle !in names
    ensures OwnerAmong(names, scopes, t) == Idle <==> forall name :: name in names ==> !ActiveAt(scopes, name, t)
  {
    if names != [] {
      IdleOwner(names[1..], scopes, t);
      assert names == [names[0]] + names[1..];
      assert names[0] in names;
    }
  }

  /** With only known labels, "no activity" is credited exactly the instants that nothing covers. */
  lemma IdleIsUncovered(scopes: seq<Scope>, start: int, end: int)
    requires forall s :: s in scopes ==> s.name in Priority
    ensures Owned(scopes, Idle, start, end) == Range(start, end) - AllSpans(scopes)
  {
    forall t ensures Owner(scopes, t) == Idle <==> t !in AllSpans(scopes) {
      IdleOwner(Priority, scopes, t);
      AllSpansMeaning(scopes, t);
      if s :| s in scopes && t in Instants(s.spans) {
        assert ActiveAt(scopes, s.name, t);
      }
    }
  }
}
