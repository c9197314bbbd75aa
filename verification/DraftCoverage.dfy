/** Coverage of model output by a static vocabulary base plus a recency tail. */
module DraftCoverage {
  import opened RecencyTail
  import opened Sorting

  datatype Record = Record(prompt: seq<int>, output: seq<int>)

  datatype Outcome = BaseHit | TailHit | ColdMiss | RepeatMiss

  datatype Coverage = Coverage(samples: nat, tokens: nat, baseHits: nat, activeHits: nat,
                               coldMisses: nat, repeatMisses: nat, peakRows: nat)

  const NoCoverage: Coverage := Coverage(0, 0, 0, 0, 0, 0, 0)

  function Most(a: nat, b: nat): nat { if a < b then b else a }

  // ----- what each output token is worth -----

  /** Tokens inserted before output position `i`: the seed, the prompt and the earlier output. */
  function History(seed: seq<int>, r: Record, i: nat): seq<int>
    requires i <= |r.output|
  {
    seed + (r.prompt + r.output[..i])
  }

  function OutcomeAt(base: set<int>, capacity: nat, seed: seq<int>, r: Record, i: nat): Outcome
    requires i < |r.output|
  {
    var token := r.output[i];
    if token in base then BaseHit
    else if Recent(base, capacity, History(seed, r, i), token) then TailHit
    else if token in r.output[..i] then RepeatMiss
    else ColdMiss
  }

  function Score(c: Coverage, o: Outcome, rows: nat): Coverage {
    c.(tokens := c.tokens + 1,
       baseHits := c.baseHits + (if o.BaseHit? then 1 else 0),
       activeHits := c.activeHits + (if o.BaseHit? || o.TailHit? then 1 else 0),
       coldMisses := c.coldMisses + (if o.ColdMiss? then 1 else 0),
       repeatMisses := c.repeatMisses + (if o.RepeatMiss? then 1 else 0),
       peakRows := Most(c.peakRows, rows))
  }

  /** Scores the first `n` output tokens of a record on top of `c`. */
  function ScoreRecord(c: Coverage, base: set<int>, capacity: nat, seed: seq<int>, r: Record, n: nat): Coverage
    requires n <= |r.output|
  {
    if n == 0 then c
    else Score(ScoreRecord(c, base, capacity, seed, r, n - 1),
               OutcomeAt(base, capacity, seed, r, n - 1),
               Least(capacity, |Distinct(base, History(seed, r, n))|))
  }

  function ScoreAll(base: set<int>, capacity: nat, seed: seq<int>, records: seq<Record>): Coverage {
    if records == [] then NoCoverage
    else
      var r := records[|records| - 1];
      var before := ScoreAll(base, capacity, seed, records[..|records| - 1]);
      ScoreRecord(before.(samples := before.samples + 1), base, capacity, seed, r, |r.output|)
  }

  // ----- the evaluation loop -----

  /** The counters after one output token, judged against the tail and the tokens seen before. */
  method CountToken(c: Coverage, base: set<int>, tail: Tail, seen: set<int>, token: int) returns (result: Coverage)
    ensures result == Score(c, Judge(base, token in tail.ids, token in seen, token), c.peakRows)
  {
    result := c.(tokens := c.tokens + 1);
    if token in base {
      result := result.(baseHits := result.baseHits + 1, activeHits := result.activeHits + 1);
    } else if token in tail.ids {
      result := result.(activeHits := result.activeHits + 1);
    } else if token in seen {
      result := result.(repeatMisses := result.repeatMisses + 1);
    } else {
      result := result.(coldMisses := result.coldMisses + 1);
    }
  }

  function Judge(base: set<int>, inTail: bool, seen: bool, token: int): Outcome {
    if token in base then BaseHit else if inTail then TailHit else if seen then RepeatMiss else ColdMiss
  }

  lemma JudgeIsOutcome(base: set<int>, capacity: nat, seed: seq<int>, r: Record, i: nat, ids: seq<int>, seen: set<int>)
    requires i < |r.output| && ids == InsertAll([], base, capacity, History(seed, r, i))
    requires seen == Distinct(base, r.output[..i])
    ensures Judge(base, r.output[i] in ids, r.output[i] in seen, r.output[i]) == OutcomeAt(base, capacity, seed, r, i)
  {
    InTailIffRecent(base, capacity, History(seed, r, i), r.output[i]);
  }

  lemma TailNext(base: set<int>, capacity: nat, seed: seq<int>, r: Record, i: nat, ids: seq<int>)
    requires i < |r.output| && ids == InsertAll([], base, capacity, History(seed, r, i))
    ensures InsertAll(ids, base, capacity, [r.output[i]]) == InsertAll([], base, capacity, History(seed, r, i + 1))
    ensures |InsertAll([], base, capacity, History(seed, r, i + 1))|
         == Least(capacity, |Distinct(base, History(seed, r, i + 1))|)
  {
    HistoryNext(seed, r, i);
    InsertAppend([], base, capacity, History(seed, r, i), [r.output[i]]);
    TailSize(base, capacity, History(seed, r, i + 1));
  }

  lemma TailFirst(base: set<int>, capacity: nat, seed: seq<int>, r: Record)
    ensures InsertAll(InsertAll([], base, capacity, seed), base, capacity, r.prompt)
         == InsertAll([], base, capacity, History(seed, r, 0))
  {
    InsertAppend([], base, capacity, seed, r.prompt);
    assert r.prompt + r.output[..0] == r.prompt;
  }

  lemma SeenNext(base: set<int>, output: seq<int>, i: nat)
    requires i < |output|
    ensures Distinct(base, output[..i + 1])
         == Distinct(base, output[..i]) + (if output[i] in base then {} else {output[i]})
  {
    assert output[..i + 1] == output[..i] + [output[i]];
  }

  /** State of the loop before output position `i`. */
  ghost predicate ScoredTo(c: Coverage, base: set<int>, capacity: nat, seed: seq<int>, r: Record, i: nat,
                           ids: seq<int>, seen: set<int>, result: Coverage)
    requires i <= |r.output|
  {
    && ids == InsertAll([], base, capacity, History(seed, r, i))
    && seen == Distinct(base, r.output[..i])
    && result == ScoreRecord(c, base, capacity, seed, r, i)
  }

  lemma ScoredNext(c: Coverage, base: set<int>, capacity: nat, seed: seq<int>, r: Record, i: nat,
                   ids: seq<int>, seen: set<int>, result: Coverage)
    requires i < |r.output| && ScoredTo(c, base, capacity, seed, r, i, ids, seen, result)
    ensures var token := r.output[i];
            var ids' := InsertAll(ids, base, capacity, [token]);
            ScoredTo(c, base, capacity, seed, r, i + 1, ids', if token in base then seen else seen + {token},
                     Score(result, Judge(base, token in ids, token in seen, token), |ids'|))
  {
    JudgeIsOutcome(base, capacity, seed, r, i, ids, seen);
    SeenNext(base, r.output, i);
    TailNext(base, capacity, seed, r, i, ids);
  }

  /** One iteration: count the token, remember it, insert it and note the size of the tail. */
  method Advance(ghost c: Coverage, base: set<int>, ghost seed: seq<int>, r: Record, i: nat,
                 tail: Tail, seen: set<int>, before: Coverage)
    returns (seen': set<int>, after: Coverage)
    requires i < |r.output| && tail.base == base
    requires ScoredTo(c, base, tail.capacity, seed, r, i, tail.ids, seen, before)
    modifies tail
    ensures ScoredTo(c, base, tail.capacity, seed, r, i + 1, tail.ids, seen', after)
  {
    var token := r.output[i];
    ScoredNext(c, base, tail.capacity, seed, r, i, tail.ids, seen, before);
    after := CountToken(before, base, tail, seen, token);
    seen' := if token in base then seen else seen + {token};
    tail.Insert([token]);
    after := after.(peakRows := Most(after.peakRows, |tail.ids|));
  }

  method ScoreOne(c: Coverage, base: set<int>, capacity: nat, seed: seq<int>, r: Record) returns (result: Coverage)
    ensures result == ScoreRecord(c, base, capacity, seed, r, |r.output|)
  {
    result := c;
    var tail := new Tail(capacity, base, seed);
    tail.Insert(r.prompt);
    TailFirst(base, capacity, seed, r);
    var seen: set<int> := {};
    for i := 0 to |r.output|
      invariant tail.base == base && tail.capacity == capacity
      invariant ScoredTo(c, base, capacity, seed, r, i, tail.ids, seen, result)
    {
      seen, result := Advance(c, base, seed, r, i, tail, seen, result);
    }
  }

  lemma HistoryNext(seed: seq<int>, r: Record, i: nat)
    requires i < |r.output|
    ensures History(seed, r, i + 1) == History(seed, r, i) + [r.output[i]]
  {
  }

  /** Every counter is the number of output tokens with that outcome, judged by recency alone. */
  method OutputCoverage(records: seq<Record>, ranking: seq<int>, baseSize: nat, tailSize: nat)
    returns (result: Coverage)
    ensures result == ScoreAll(BaseOf(ranking, baseSize), tailSize, SeedOf(ranking, baseSize, tailSize), records)
  {
    var base, seed := BaseOf(ranking, baseSize), SeedOf(ranking, baseSize, tailSize);
    result := NoCoverage;
    for i := 0 to |records|
      invariant result == ScoreAll(base, tailSize, seed, records[..i])
    {
      assert records[..i + 1][..i] == records[..i];
      result := ScoreOne(result.(samples := result.samples + 1), base, tailSize, seed, records[i]);
    }
    assert records[..|records|] == records;
  }

  // ----- what the counters satisfy -----

  ghost predicate Balanced(c: Coverage) {
    c.activeHits + c.coldMisses + c.repeatMisses == c.tokens && c.baseHits <= c.activeHits
  }

  lemma {:induction false} RecordBalanced(c: Coverage, base: set<int>, capacity: nat, seed: seq<int>, r: Record, n: nat)
    requires n <= |r.output| && Balanced(c)
    ensures Balanced(ScoreRecord(c, base, capacity, seed, r, n))
    ensures ScoreRecord(c, base, capacity, seed, r, n).tokens == c.tokens + n
  {
    if n > 0 {
      RecordBalanced(c, base, capacity, seed, r, n - 1);
    }
  }

  /** Hits and the two kinds of miss partition the tokens. */
  lemma {:induction false} HitsAndMissesPartition(base: set<int>, capacity: nat, seed: seq<int>, records: seq<Record>)
    ensures Balanced(ScoreAll(base, capacity, seed, records))
  {
    if records != [] {
      var before := ScoreAll(base, capacity, seed, records[..|records| - 1]);
      HitsAndMissesPartition(base, capacity, seed, records[..|records| - 1]);
      var r := records[|records| - 1];
      RecordBalanced(before.(samples := before.samples + 1), base, capacity, seed, r, |r.output|);
    }
  }

  /** A token is a cold miss at most once per record. */
  lemma ColdMissOnce(base: set<int>, capacity: nat, seed: seq<int>, r: Record, i: nat, j: nat)
    requires i < j < |r.output| && r.output[i] == r.output[j]
    ensures OutcomeAt(base, capacity, seed, r, j) != ColdMiss
  {
    assert r.output[..j][i] == r.output[j];
  }

  /** A repeat miss means at least `capacity` distinct other tokens since the last use. */
  lemma RepeatMissWasEvicted(base: set<int>, capacity: nat, seed: seq<int>, r: Record, j: nat)
    requires j < |r.output| && OutcomeAt(base, capacity, seed, r, j) == RepeatMiss
    ensures var token, history := r.output[j], History(seed, r, j);
            token in history && capacity <= |Since(base, history, token) - {token}|
  {
    var token, history := r.output[j], History(seed, r, j);
    assert token in history;
    assert token !in history[LastUse(history, token) + 1..];
    assert Since(base, history, token) - {token} == Since(base, history, token);
  }

  // ----- larger tails cover more -----

  ghost predicate AtMost(a: Coverage, b: Coverage) {
    && a.samples == b.samples && a.tokens == b.tokens && a.baseHits == b.baseHits
    && a.activeHits <= b.activeHits && a.peakRows <= b.peakRows
  }

  lemma OutcomeMonotone(ranking: seq<int>, baseSize: nat, small: nat, large: nat, r: Record, i: nat)
    requires NoDup(ranking) && small <= large && i < |r.output|
    ensures var base := BaseOf(ranking, baseSize);
            var a := OutcomeAt(base, small, SeedOf(ranking, baseSize, small), r, i);
            var b := OutcomeAt(base, large, SeedOf(ranking, baseSize, large), r, i);
            (a.BaseHit? <==> b.BaseHit?) && (a.TailHit? ==> b.TailHit?)
  {
    var token, tokens := r.output[i], r.prompt + r.output[..i];
    if Recent(BaseOf(ranking, baseSize), small, SeedOf(ranking, baseSize, small) + tokens, token) {
      RecentMonotone(ranking, baseSize, small, large, tokens, token);
    }
  }

  lemma RowsMonotone(ranking: seq<int>, baseSize: nat, small: nat, large: nat, tokens: seq<int>)
    requires NoDup(ranking) && small <= large
    ensures var base := BaseOf(ranking, baseSize);
            Least(small, |Distinct(base, SeedOf(ranking, baseSize, small) + tokens)|)
              <= Least(large, |Distinct(base, SeedOf(ranking, baseSize, large) + tokens)|)
  {
    var base := BaseOf(ranking, baseSize);
    var a, b := SeedOf(ranking, baseSize, small) + tokens, SeedOf(ranking, baseSize, large) + tokens;
    TailInclusion(ranking, baseSize, small, large, tokens);
    TailSize(base, small, a);
    TailSize(base, large, b);
    SubsequenceLength(InsertAll([], base, small, a), InsertAll([], base, large, b));
  }

  lemma {:induction false} SubsequenceLength(a: seq<int>, b: seq<int>)
    requires Subsequence(a, b)
    ensures |a| <= |b|
  {
    if a != [] {
      SubsequenceLength(if a[0] == b[0] then a[1..] else a, b[1..]);
    }
  }

  lemma ScoreMonotone(a: Coverage, b: Coverage, x: Outcome, y: Outcome, m: nat, n: nat)
    requires AtMost(a, b) && m <= n && (x.BaseHit? <==> y.BaseHit?) && (x.TailHit? ==> y.TailHit?)
    ensures AtMost(Score(a, x, m), Score(b, y, n))
  {
  }

  lemma {:induction false} RecordMonotone(ranking: seq<int>, baseSize: nat, small: nat, large: nat, r: Record, n: nat,
                                          a: Coverage, b: Coverage)
    requires NoDup(ranking) && small <= large && n <= |r.output| && AtMost(a, b)
    ensures AtMost(ScoreRecord(a, BaseOf(ranking, baseSize), small, SeedOf(ranking, baseSize, small), r, n),
                   ScoreRecord(b, BaseOf(ranking, baseSize), large, SeedOf(ranking, baseSize, large), r, n))
  {
    if n > 0 {
      RecordMonotone(ranking, baseSize, small, large, r, n - 1, a, b);
      OutcomeMonotone(ranking, baseSize, small, large, r, n - 1);
      RowsMonotone(ranking, baseSize, small, large, r.prompt + r.output[..n]);
      var base, x, y := BaseOf(ranking, baseSize), SeedOf(ranking, baseSize, small), SeedOf(ranking, baseSize, large);
      ScoreMonotone(ScoreRecord(a, base, small, x, r, n - 1), ScoreRecord(b, base, large, y, r, n - 1),
                    OutcomeAt(base, small, x, r, n - 1), OutcomeAt(base, large, y, r, n - 1),
                    Least(small, |Distinct(base, History(x, r, n))|), Least(large, |Distinct(base, History(y, r, n))|));
    }
  }

  /** Active coverage never falls as the tail grows, from the base-only size zero upwards. */
  lemma {:induction false} CoverageMonotone(ranking: seq<int>, baseSize: nat, small: nat, large: nat,
                                            records: seq<Record>)
    requires NoDup(ranking) && small <= large
    ensures AtMost(ScoreAll(BaseOf(ranking, baseSize), small, SeedOf(ranking, baseSize, small), records),
                   ScoreAll(BaseOf(ranking, baseSize), large, SeedOf(ranking, baseSize, large), records))
  {
    if records != [] {
      var before, r := records[..|records| - 1], records[|records| - 1];
      CoverageMonotone(ranking, baseSize, small, large, before);
      var a := ScoreAll(BaseOf(ranking, baseSize), small, SeedOf(ranking, baseSize, small), before);
      var b := ScoreAll(BaseOf(ranking, baseSize), large, SeedOf(ranking, baseSize, large), before);
      RecordMonotone(ranking, baseSize, small, large, r, |r.output|,
                     a.(samples := a.samples + 1), b.(samples := b.samples + 1));
    }
  }
}
