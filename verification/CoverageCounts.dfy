/**
 * What the coverage counters count, stated on the recorded tokens and on the tail as it stands when a token is judged.
 */
module CoverageCounts {
  import opened Sorting
  import opened RecencyTail
  import D = DraftCoverage
  import A = AlignmentCoverage

  // ----- counting -----

  /** How many of the first `n` positions satisfy `p`. */
  ghost function Count(n: nat, p: int -> bool): nat {
    |set i | 0 <= i < n && p(i)|
  }

  lemma CountNext(n: nat, p: int -> bool)
    ensures Count(n + 1, p) == Count(n, p) + (if p(n) then 1 else 0)
  {
    var before, after := set i | 0 <= i < n && p(i), set i | 0 <= i < n + 1 && p(i);
    if p(n) {
      assert after == before + {n};
    } else {
      assert after == before;
    }
  }

  lemma CountNone(p: int -> bool)
    ensures Count(0, p) == 0
  {
    var none := set i | 0 <= i < 0 && p(i);
    assert none == {};
  }

  /** The ids a judge accepts: the base and what the tail holds after the insertions. */
  function Active(base: set<int>, capacity: nat, inserted: seq<int>): set<int> {
    base + Elements(InsertAll([], base, capacity, inserted))
  }

  lemma ActiveIsRecent(base: set<int>, capacity: nat, inserted: seq<int>, token: int)
    ensures token in Active(base, capacity, inserted) <==> token in base || Recent(base, capacity, inserted, token)
  {
    InTailIffRecent(base, capacity, inserted, token);
  }

  // ----- coverage of model output -----

  /** The ids active when output position `i` is judged. */
  function ActiveAt(base: set<int>, capacity: nat, seed: seq<int>, r: D.Record, i: int): set<int> {
    if 0 <= i <= |r.output| then Active(base, capacity, seed + (r.prompt + r.output[..i])) else {}
  }

  function TokenAt(r: D.Record, i: int): int {
    if 0 <= i < |r.output| then r.output[i] else 0
  }

  predicate Seen(r: D.Record, i: int) {
    0 <= i < |r.output| && r.output[i] in r.output[..i]
  }

  function InBase(base: set<int>, r: D.Record): int -> bool {
    i => TokenAt(r, i) in base
  }

  function IsActive(base: set<int>, capacity: nat, seed: seq<int>, r: D.Record): int -> bool {
    i => TokenAt(r, i) in ActiveAt(base, capacity, seed, r, i)
  }

  function MissedFirst(base: set<int>, capacity: nat, seed: seq<int>, r: D.Record): int -> bool {
    i => TokenAt(r, i) !in ActiveAt(base, capacity, seed, r, i) && !Seen(r, i)
  }

  function MissedAgain(base: set<int>, capacity: nat, seed: seq<int>, r: D.Record): int -> bool {
    i => TokenAt(r, i) !in ActiveAt(base, capacity, seed, r, i) && Seen(r, i)
  }

  /** The counters of one record's first `n` output tokens, as numbers of positions. */
  ghost predicate Counted(c: D.Coverage, before: D.Coverage, base: set<int>, capacity: nat, seed: seq<int>,
                          r: D.Record, n: nat)
  {
    && c.samples == before.samples && c.tokens == before.tokens + n
    && c.baseHits == before.baseHits + Count(n, InBase(base, r))
    && c.activeHits == before.activeHits + Count(n, IsActive(base, capacity, seed, r))
    && c.coldMisses == before.coldMisses + Count(n, MissedFirst(base, capacity, seed, r))
    && c.repeatMisses == before.repeatMisses + Count(n, MissedAgain(base, capacity, seed, r))
  }

  lemma CountsStep(base: set<int>, capacity: nat, seed: seq<int>, r: D.Record, n: nat, c: D.Coverage, rows: nat,
                   before: D.Coverage)
    requires n < |r.output| && Counted(c, before, base, capacity, seed, r, n)
    ensures Counted(D.Score(c, D.OutcomeAt(base, capacity, seed, r, n), rows), before, base, capacity, seed, r, n + 1)
  {
    CountNext(n, InBase(base, r));
    CountNext(n, IsActive(base, capacity, seed, r));
    CountNext(n, MissedFirst(base, capacity, seed, r));
    CountNext(n, MissedAgain(base, capacity, seed, r));
    ActiveIsRecent(base, capacity, D.History(seed, r, n), r.output[n]);
  }

  lemma RecordCountedNext(before: D.Coverage, base: set<int>, capacity: nat, seed: seq<int>, r: D.Record, n: nat)
    requires 0 < n <= |r.output|
    requires Counted(D.ScoreRecord(before, base, capacity, seed, r, n - 1), before, base, capacity, seed, r, n - 1)
    ensures Counted(D.ScoreRecord(before, base, capacity, seed, r, n), before, base, capacity, seed, r, n)
  {
    var c, rows := D.ScoreRecord(before, base, capacity, seed, r, n - 1),
                   Least(capacity, |Distinct(base, D.History(seed, r, n))|);
    CountsStep(base, capacity, seed, r, n - 1, c, rows, before);
    ScoreRecordNext(before, base, capacity, seed, r, n, c, rows);
  }

  lemma {:induction false} RecordCounted(before: D.Coverage, base: set<int>, capacity: nat, seed: seq<int>, r: D.Record,
                                         n: nat)
    requires n <= |r.output|
    ensures Counted(D.ScoreRecord(before, base, capacity, seed, r, n), before, base, capacity, seed, r, n)
  {
    if n == 0 {
      CountsNone(before, base, capacity, seed, r);
    } else {
      RecordCounted(before, base, capacity, seed, r, n - 1);
      RecordCountedNext(before, base, capacity, seed, r, n);
    }
  }

  lemma ScoreRecordNext(before: D.Coverage, base: set<int>, capacity: nat, seed: seq<int>, r: D.Record, n: nat,
                        c: D.Coverage, rows: nat)
    requires 0 < n <= |r.output| && c == D.ScoreRecord(before, base, capacity, seed, r, n - 1)
    requires rows == Least(capacity, |Distinct(base, D.History(seed, r, n))|)
    ensures D.ScoreRecord(before, base, capacity, seed, r, n)
         == D.Score(c, D.OutcomeAt(base, capacity, seed, r, n - 1), rows)
  {
  }

  lemma CountsNone(c: D.Coverage, base: set<int>, capacity: nat, seed: seq<int>, r: D.Record)
    ensures Counted(c, c, base, capacity, seed, r, 0)
  {
    CountNone(InBase(base, r));
    CountNone(IsActive(base, capacity, seed, r));
    CountNone(MissedFirst(base, capacity, seed, r));
    CountNone(MissedAgain(base, capacity, seed, r));
  }

  /** A number of positions summed over the records. */
  ghost function OverRecords(records: seq<D.Record>, p: D.Record -> (int -> bool)): nat {
    if records == [] then 0
    else
      var r := records[|records| - 1];
      OverRecords(records[..|records| - 1], p) + Count(|r.output|, p(r))
  }

  function Lengths(records: seq<D.Record>): nat {
    if records == [] then 0 else Lengths(records[..|records| - 1]) + |records[|records| - 1].output|
  }

  /**
   * Base hits are the output tokens in the base, active hits those in the base or in the tail at that point, cold
   * misses the others that the record had not yet produced, repeat misses those it had.
   */
  lemma {:induction false} OutputCountersMeaning(base: set<int>, capacity: nat, seed: seq<int>, records: seq<D.Record>)
    ensures var c := D.ScoreAll(base, capacity, seed, records);
            && c.samples == |records| && c.tokens == Lengths(records)
            && c.baseHits == OverRecords(records, r => InBase(base, r))
            && c.activeHits == OverRecords(records, r => IsActive(base, capacity, seed, r))
            && c.coldMisses == OverRecords(records, r => MissedFirst(base, capacity, seed, r))
            && c.repeatMisses == OverRecords(records, r => MissedAgain(base, capacity, seed, r))
  {
    if records != [] {
      var before, r := records[..|records| - 1], records[|records| - 1];
      OutputCountersMeaning(base, capacity, seed, before);
      var c := D.ScoreAll(base, capacity, seed, before);
      RecordCounted(c.(samples := c.samples + 1), base, capacity, seed, r, |r.output|);
    }
  }

  // ----- the largest tail -----

  /** Rows of the tail after output position `i - 1` of a record. */
  function TailRows(base: set<int>, capacity: nat, seed: seq<int>, r: D.Record, i: int): nat {
    if 0 <= i <= |r.output| then |InsertAll([], base, capacity, seed + (r.prompt + r.output[..i]))| else 0
  }

  ghost predicate AtPeak(base: set<int>, capacity: nat, seed: seq<int>, r: D.Record, i: int, rows: nat) {
    1 <= i <= |r.output| && TailRows(base, capacity, seed, r, i) == rows
  }

  lemma {:induction false} RecordPeak(before: D.Coverage, base: set<int>, capacity: nat, seed: seq<int>, r: D.Record,
                                      n: nat)
    requires n <= |r.output|
    ensures var peak := D.ScoreRecord(before, base, capacity, seed, r, n).peakRows;
            && before.peakRows <= peak
            && (forall i :: 1 <= i <= n ==> TailRows(base, capacity, seed, r, i) <= peak)
            && (peak == before.peakRows || exists i :: AtPeak(base, capacity, seed, r, i, peak))
  {
    if n > 0 {
      RecordPeak(before, base, capacity, seed, r, n - 1);
      TailSize(base, capacity, D.History(seed, r, n));
      var rows := TailRows(base, capacity, seed, r, n);
      assert AtPeak(base, capacity, seed, r, n, rows);
    }
  }

  /** The peak is the largest tail seen after any output token, zero when there is none. */
  lemma {:induction false} PeakMeaning(base: set<int>, capacity: nat, seed: seq<int>, records: seq<D.Record>)
    ensures var peak := D.ScoreAll(base, capacity, seed, records).peakRows;
            && (forall r, i :: r in records && 1 <= i <= |r.output| ==> TailRows(base, capacity, seed, r, i) <= peak)
            && (peak == 0 || exists r, i :: r in records && AtPeak(base, capacity, seed, r, i, peak))
  {
    if records != [] {
      var before, r := records[..|records| - 1], records[|records| - 1];
      assert records == before + [r];
      PeakMeaning(base, capacity, seed, before);
      var c := D.ScoreAll(base, capacity, seed, before);
      RecordPeak(c.(samples := c.samples + 1), base, capacity, seed, r, |r.output|);
      var peak := D.ScoreAll(base, capacity, seed, records).peakRows;
      if peak == c.peakRows && peak != 0 {
        var q, i :| q in before && AtPeak(base, capacity, seed, q, i, peak);
        assert q in records;
      } else if peak != c.peakRows {
        var i :| AtPeak(base, capacity, seed, r, i, peak);
        assert r in records;
      }
    }
  }

  // ----- coverage of recorded drafts -----

  function IdAt(topk: seq<A.Entry>, i: int): int {
    if 0 <= i < |topk| then topk[i].id else 0
  }

  function EntryIn(topk: seq<A.Entry>, active: set<int>): int -> bool {
    i => IdAt(topk, i) in active
  }

  function SampleIn(sampled: seq<int>, active: set<int>): int -> bool {
    i => 0 <= i < |sampled| && sampled[i] in active
  }

  /** Probability of the entries whose ids are active. */
  function MassIn(topk: seq<A.Entry>, active: set<int>): real {
    if topk == [] then 0.0
    else
      var last := topk[|topk| - 1];
      MassIn(topk[..|topk| - 1], active) + (if last.id in active then last.probability else 0.0)
  }

  function Mass(topk: seq<A.Entry>): real {
    if topk == [] then 0.0 else Mass(topk[..|topk| - 1]) + topk[|topk| - 1].probability
  }

  /** The ids active when the `i`-th step is judged: after the seed and everything inserted by earlier steps. */
  function ActiveBefore(base: set<int>, capacity: nat, seed: seq<int>, p: A.Policy, prompt: seq<int>,
                        steps: seq<A.Step>): set<int>
  {
    Active(base, capacity, seed + A.Stream(p, prompt, steps))
  }

  lemma SameCount(n: nat, p: int -> bool, q: int -> bool)
    requires forall i :: 0 <= i < n ==> p(i) == q(i)
    ensures Count(n, p) == Count(n, q)
  {
    var a, b := set i | 0 <= i < n && p(i), set i | 0 <= i < n && q(i);
    assert a == b;
  }

  lemma {:induction false} TopkCounted(t: A.Totals, base: set<int>, capacity: nat, history: seq<int>,
                                       topk: seq<A.Entry>)
    ensures var r, active := A.ScoreTopk(t, base, capacity, history, topk), Active(base, capacity, history);
            && r.entries == t.entries + |topk| && r.mass == t.mass + Mass(topk)
            && r.hits == t.hits + Count(|topk|, EntryIn(topk, active))
            && r.coveredMass == t.coveredMass + MassIn(topk, active)
            && r.sampled == t.sampled && r.sampledHits == t.sampledHits
  {
    var active := Active(base, capacity, history);
    if topk == [] {
      CountNone(EntryIn(topk, active));
    } else {
      var n := |topk| - 1;
      TopkCounted(t, base, capacity, history, topk[..n]);
      ActiveIsRecent(base, capacity, history, topk[n].id);
      SameCount(n, EntryIn(topk[..n], active), EntryIn(topk, active));
      CountNext(n, EntryIn(topk, active));
    }
  }

  lemma {:induction false} SampledCounted(t: A.Totals, base: set<int>, capacity: nat, history: seq<int>,
                                          sampled: seq<int>)
    ensures var r, active := A.ScoreSampled(t, base, capacity, history, sampled), Active(base, capacity, history);
            && r.sampled == t.sampled + |sampled|
            && r.sampledHits == t.sampledHits + Count(|sampled|, SampleIn(sampled, active))
            && r.entries == t.entries && r.hits == t.hits && r.mass == t.mass && r.coveredMass == t.coveredMass
  {
    var active := Active(base, capacity, history);
    if sampled == [] {
      CountNone(SampleIn(sampled, active));
    } else {
      var n := |sampled| - 1;
      SampledCounted(t, base, capacity, history, sampled[..n]);
      ActiveIsRecent(base, capacity, history, sampled[n]);
      SameCount(n, SampleIn(sampled[..n], active), SampleIn(sampled, active));
      CountNext(n, SampleIn(sampled, active));
    }
  }

  /** The totals of the steps, each judged against what is active before it. */
  ghost function Counts(base: set<int>, capacity: nat, seed: seq<int>, p: A.Policy, prompt: seq<int>,
                        steps: seq<A.Step>): A.Totals
  {
    if steps == [] then A.Totals(0, 0, 0.0, 0.0, 0, 0)
    else
      var before, step := steps[..|steps| - 1], steps[|steps| - 1];
      var t, active := Counts(base, capacity, seed, p, prompt, before),
                       ActiveBefore(base, capacity, seed, p, prompt, before);
      A.Totals(t.entries + |step.topk|, t.hits + Count(|step.topk|, EntryIn(step.topk, active)),
               t.mass + Mass(step.topk), t.coveredMass + MassIn(step.topk, active),
               t.sampled + |step.sampled|, t.sampledHits + Count(|step.sampled|, SampleIn(step.sampled, active)))
  }

  /**
   * Hits are the top-k entries, and sampled hits the samples, whose id is in the base or in the tail as the earlier
   * steps left it; covered mass is the probability of those entries.
   */
  lemma {:induction false} AlignmentCountersMeaning(base: set<int>, capacity: nat, seed: seq<int>, p: A.Policy,
                                                    prompt: seq<int>, steps: seq<A.Step>)
    ensures A.ScoreSteps(base, capacity, seed, p, prompt, steps) == Counts(base, capacity, seed, p, prompt, steps)
  {
    if steps != [] {
      var before, step := steps[..|steps| - 1], steps[|steps| - 1];
      AlignmentCountersMeaning(base, capacity, seed, p, prompt, before);
      var t, history := A.ScoreSteps(base, capacity, seed, p, prompt, before), seed + A.Stream(p, prompt, before);
      TopkCounted(t, base, capacity, history, step.topk);
      SampledCounted(A.ScoreTopk(t, base, capacity, history, step.topk), base, capacity, history, step.sampled);
    }
  }

  // ----- what is inserted -----

  lemma {:induction false} KeepsNonNegative(s: seq<int>)
    requires forall x :: x in s ==> x >= 0
    ensures A.NonNegative(s) == s
  {
    if s != [] {
      assert s == [s[0]] + s[1..] && s[0] in s;
      forall x | x in s[1..] ensures x >= 0 {
        assert x in s;
      }
      KeepsNonNegative(s[1..]);
    }
  }

  lemma {:induction false} DropsNegative(a: seq<int>, x: int, b: seq<int>)
    requires x < 0
    ensures A.NonNegative(a + [x] + b) == A.NonNegative(a + b)
  {
    if a == [] {
      assert a + [x] + b == [x] + b && a + b == b && ([x] + b)[1..] == b;
    } else {
      DropsNegative(a[1..], x, b);
      assert (a + [x] + b)[1..] == a[1..] + [x] + b && (a + b)[1..] == a[1..] + b;
    }
  }

  /** With real ids a step inserts the valid prefix of its output, then its candidates, each if the policy says so. */
  lemma InsertedMeaning(p: A.Policy, step: A.Step)
    requires 0 <= step.validCount <= |step.output| && forall x :: x in step.output ==> x >= 0
    ensures A.Inserted(p, step)
         == (if p.updateOutput then step.output[..step.validCount] else [])
            + (if p.useCandidates then step.candidates else [])
  {
    var valid := step.output[..step.validCount];
    forall x | x in valid ensures x >= 0 {
      assert x in step.output;
    }
    KeepsNonNegative(valid);
  }

  /** A placeholder in the valid prefix is as if it were not there. */
  lemma PlaceholdersIgnored(p: A.Policy, step: A.Step, a: seq<int>, x: int, b: seq<int>, rest: seq<int>)
    requires x < 0 && step.output == a + [x] + b + rest && step.validCount == |a| + 1 + |b|
    ensures A.Inserted(p, step) == A.Inserted(p, step.(output := a + b + rest, validCount := |a| + |b|))
  {
    assert A.Prefix(step.output, step.validCount) == a + [x] + b;
    assert A.Prefix(a + b + rest, |a| + |b|) == a + b;
    DropsNegative(a, x, b);
  }

  /** Everything inserted is the seed prompt, if any, and then what the steps insert, in order. */
  lemma StreamAppends(p: A.Policy, prompt: seq<int>, steps: seq<A.Step>, step: A.Step)
    ensures A.Stream(p, prompt, []) == if p.seedPrompt then prompt else []
    ensures A.Stream(p, prompt, steps + [step]) == A.Stream(p, prompt, steps) + A.Inserted(p, step)
  {
    assert (steps + [step])[..|steps|] == steps;
  }

  /** The base is the first part of the ranking and the seed the part after it, as far as the ranking goes. */
  lemma SlicesMeaning(ranking: seq<int>, baseSize: nat, tailSize: nat)
    ensures BaseOf(ranking, baseSize) == Elements(if baseSize <= |ranking| then ranking[..baseSize] else ranking)
    ensures SeedOf(ranking, baseSize, tailSize)
         == if baseSize + tailSize <= |ranking| then ranking[baseSize..baseSize + tailSize]
            else if baseSize <= |ranking| then ranking[baseSize..]
            else []
  {
  }
}
