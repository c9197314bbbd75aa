/** Coverage of recorded draft candidates by the base and tail, step by step, without feedback from the tail. */
module AlignmentCoverage {
  import opened RecencyTail
  import opened Sorting

  datatype Entry = Entry(id: int, probability: real)

  /** One recorded step: drafted top-k entries, sampled drafts, observed output and previous candidates. */
  datatype Step = Step(topk: seq<Entry>, sampled: seq<int>, output: seq<int>, validCount: int, candidates: seq<int>)

  datatype Policy = Policy(seedPrompt: bool, updateOutput: bool, useCandidates: bool)

  datatype Totals = Totals(entries: nat, hits: nat, mass: real, coveredMass: real, sampled: nat, sampledHits: nat)

  const NoTotals: Totals := Totals(0, 0, 0.0, 0.0, 0, 0)

  // ----- what a step inserts -----

  function Prefix(s: seq<int>, n: int): seq<int> {
    if n >= 0 then s[..Least(n, |s|)] else if |s| + n >= 0 then s[..|s| + n] else []
  }

  function NonNegative(s: seq<int>): seq<int> {
    if s == [] then [] else (if s[0] >= 0 then [s[0]] else []) + NonNegative(s[1..])
  }

  function Observed(p: Policy, step: Step): seq<int> {
    if p.updateOutput then NonNegative(Prefix(step.output, step.validCount)) else []
  }

  function Inserted(p: Policy, step: Step): seq<int> {
    Observed(p, step) + (if p.useCandidates then step.candidates else [])
  }

  /** Everything inserted after the seed and before the next step; it does not depend on the tail. */
  function Stream(p: Policy, prompt: seq<int>, steps: seq<Step>): seq<int> {
    if steps == [] then if p.seedPrompt then prompt else []
    else Stream(p, prompt, steps[..|steps| - 1]) + Inserted(p, steps[|steps| - 1])
  }

  // ----- what a step scores -----

  predicate Hit(base: set<int>, capacity: nat, history: seq<int>, token: int) {
    token in base || Recent(base, capacity, history, token)
  }

  function ScoreTopk(t: Totals, base: set<int>, capacity: nat, history: seq<int>, topk: seq<Entry>): Totals {
    if topk == [] then t
    else
      var before, e := ScoreTopk(t, base, capacity, history, topk[..|topk| - 1]), topk[|topk| - 1];
      var hit := Hit(base, capacity, history, e.id);
      before.(entries := before.entries + 1, mass := before.mass + e.probability,
              hits := before.hits + (if hit then 1 else 0),
              coveredMass := before.coveredMass + (if hit then e.probability else 0.0))
  }

  function ScoreSampled(t: Totals, base: set<int>, capacity: nat, history: seq<int>, sampled: seq<int>): Totals {
    if sampled == [] then t
    else
      var before := ScoreSampled(t, base, capacity, history, sampled[..|sampled| - 1]);
      before.(sampled := before.sampled + 1,
              sampledHits := before.sampledHits
                             + (if Hit(base, capacity, history, sampled[|sampled| - 1]) then 1 else 0))
  }

  function ScoreStep(t: Totals, base: set<int>, capacity: nat, history: seq<int>, step: Step): Totals {
    ScoreSampled(ScoreTopk(t, base, capacity, history, step.topk), base, capacity, history, step.sampled)
  }

  function ScoreSteps(base: set<int>, capacity: nat, seed: seq<int>, p: Policy, prompt: seq<int>,
                      steps: seq<Step>): Totals {
    if steps == [] then NoTotals
    else
      var before := steps[..|steps| - 1];
      ScoreStep(ScoreSteps(base, capacity, seed, p, prompt, before), base, capacity,
                seed + Stream(p, prompt, before), steps[|steps| - 1])
  }

  // ----- the evaluation loop -----

  method CountStep(t: Totals, tail: Tail, ghost history: seq<int>, step: Step) returns (r: Totals)
    requires tail.ids == InsertAll([], tail.base, tail.capacity, history)
    ensures r == ScoreStep(t, tail.base, tail.capacity, history, step)
  {
    r := t;
    for i := 0 to |step.topk|
      invariant r == ScoreTopk(t, tail.base, tail.capacity, history, step.topk[..i])
    {
      var e := step.topk[i];
      assert step.topk[..i + 1][..i] == step.topk[..i];
      InTailIffRecent(tail.base, tail.capacity, history, e.id);
      var hit := e.id in tail.base || e.id in tail.ids;
      r := r.(entries := r.entries + 1, mass := r.mass + e.probability);
      if hit {
        r := r.(hits := r.hits + 1, coveredMass := r.coveredMass + e.probability);
      }
    }
    assert step.topk[..|step.topk|] == step.topk;
    ghost var scored := r;
    for i := 0 to |step.sampled|
      invariant r == ScoreSampled(scored, tail.base, tail.capacity, history, step.sampled[..i])
    {
      var token := step.sampled[i];
      assert step.sampled[..i + 1][..i] == step.sampled[..i];
      InTailIffRecent(tail.base, tail.capacity, history, token);
      var hit := token in tail.base || token in tail.ids;
      r := r.(sampled := r.sampled + 1, sampledHits := r.sampledHits + (if hit then 1 else 0));
    }
    assert step.sampled[..|step.sampled|] == step.sampled;
  }

  /** Feeds the tail what the policy takes from a step. */
  method Feed(tail: Tail, ghost history: seq<int>, p: Policy, step: Step)
    requires tail.ids == InsertAll([], tail.base, tail.capacity, history)
    modifies tail
    ensures tail.ids == InsertAll([], tail.base, tail.capacity, history + Inserted(p, step))
  {
    StepInserts(tail.base, tail.capacity, history, p, step);
    if p.updateOutput {
      tail.Insert(NonNegative(Prefix(step.output, step.validCount)));
    }
    if p.useCandidates {
      tail.Insert(step.candidates);
    }
  }

  method SeedTail(base: set<int>, capacity: nat, seed: seq<int>, p: Policy, prompt: seq<int>) returns (tail: Tail)
    ensures fresh(tail) && tail.base == base && tail.capacity == capacity
    ensures tail.ids == InsertAll([], base, capacity, seed + Stream(p, prompt, []))
  {
    tail := new Tail(capacity, base, seed);
    assert seed + [] == seed;
    if p.seedPrompt {
      InsertAppend([], base, capacity, seed, prompt);
      tail.Insert(prompt);
    }
  }

  lemma StreamNext(seed: seq<int>, p: Policy, prompt: seq<int>, steps: seq<Step>, i: nat)
    requires i < |steps|
    ensures seed + Stream(p, prompt, steps[..i + 1]) == seed + Stream(p, prompt, steps[..i]) + Inserted(p, steps[i])
  {
    var before, added := Stream(p, prompt, steps[..i]), Inserted(p, steps[i]);
    assert Stream(p, prompt, steps[..i + 1]) == before + added by {
      assert steps[..i + 1][..i] == steps[..i];
    }
    Reassociate(seed, before, added);
  }

  lemma Reassociate(a: seq<int>, b: seq<int>, c: seq<int>)
    ensures a + (b + c) == a + b + c
  {
  }

  lemma StepNext(base: set<int>, capacity: nat, seed: seq<int>, p: Policy, prompt: seq<int>, steps: seq<Step>, i: nat)
    requires i < |steps|
    ensures var history := seed + Stream(p, prompt, steps[..i]);
            ScoreSteps(base, capacity, seed, p, prompt, steps[..i + 1])
              == ScoreStep(ScoreSteps(base, capacity, seed, p, prompt, steps[..i]), base, capacity, history, steps[i])
  {
    assert steps[..i + 1][..i] == steps[..i];
  }

  method AlignmentCoverage(steps: seq<Step>, prompt: seq<int>, ranking: seq<int>, baseSize: nat, tailSize: nat,
                           p: Policy)
    returns (r: Totals)
    ensures r == ScoreSteps(BaseOf(ranking, baseSize), tailSize, SeedOf(ranking, baseSize, tailSize), p, prompt, steps)
  {
    var base, seed := BaseOf(ranking, baseSize), SeedOf(ranking, baseSize, tailSize);
    var tail := SeedTail(base, tailSize, seed, p, prompt);
    r := NoTotals;
    assert steps[..0] == [];
    for i := 0 to |steps|
      invariant tail.base == base && tail.capacity == tailSize
      invariant tail.ids == InsertAll([], base, tailSize, seed + Stream(p, prompt, steps[..i]))
      invariant r == ScoreSteps(base, tailSize, seed, p, prompt, steps[..i])
    {
      ghost var history := seed + Stream(p, prompt, steps[..i]);
      r := CountStep(r, tail, history, steps[i]);
      Feed(tail, history, p, steps[i]);
      StreamNext(seed, p, prompt, steps, i);
      StepNext(base, tailSize, seed, p, prompt, steps, i);
    }
    assert steps[..|steps|] == steps;
  }

  lemma StepInserts(base: set<int>, capacity: nat, history: seq<int>, p: Policy, step: Step)
    ensures var observed := InsertAll(InsertAll([], base, capacity, history), base, capacity, Observed(p, step));
            InsertAll(observed, base, capacity, if p.useCandidates then step.candidates else [])
              == InsertAll([], base, capacity, history + Inserted(p, step))
  {
    var rest := if p.useCandidates then step.candidates else [];
    InsertAppend([], base, capacity, history, Observed(p, step));
    InsertAppend([], base, capacity, history + Observed(p, step), rest);
    assert history + Observed(p, step) + rest == history + Inserted(p, step);
  }

  // ----- larger tails cover more -----

  ghost predicate AtMost(a: Totals, b: Totals) {
    && a.entries == b.entries && a.mass == b.mass && a.sampled == b.sampled
    && a.hits <= b.hits && a.coveredMass <= b.coveredMass && a.sampledHits <= b.sampledHits
  }

  ghost predicate Probabilities(steps: seq<Step>) {
    forall s :: s in steps ==> forall e :: e in s.topk ==> e.probability >= 0.0
  }

  /** Whatever the one configuration hits, the other hits too. */
  ghost predicate HitsMore(base: set<int>, small: nat, h: seq<int>, large: nat, k: seq<int>) {
    forall token :: Hit(base, small, h, token) ==> Hit(base, large, k, token)
  }

  lemma {:induction false} TopkMonotone(a: Totals, b: Totals, base: set<int>, small: nat, h: seq<int>,
                                        large: nat, k: seq<int>, topk: seq<Entry>)
    requires AtMost(a, b) && HitsMore(base, small, h, large, k)
    requires forall e :: e in topk ==> e.probability >= 0.0
    ensures AtMost(ScoreTopk(a, base, small, h, topk), ScoreTopk(b, base, large, k, topk))
  {
    if topk != [] {
      assert topk[|topk| - 1] in topk;
      TopkMonotone(a, b, base, small, h, large, k, topk[..|topk| - 1]);
    }
  }

  lemma {:induction false} SampledMonotone(a: Totals, b: Totals, base: set<int>, small: nat, h: seq<int>,
                                           large: nat, k: seq<int>, sampled: seq<int>)
    requires AtMost(a, b) && HitsMore(base, small, h, large, k)
    ensures AtMost(ScoreSampled(a, base, small, h, sampled), ScoreSampled(b, base, large, k, sampled))
  {
    if sampled != [] {
      SampledMonotone(a, b, base, small, h, large, k, sampled[..|sampled| - 1]);
    }
  }

  lemma StepMonotone(a: Totals, b: Totals, base: set<int>, small: nat, h: seq<int>, large: nat, k: seq<int>, step: Step)
    requires AtMost(a, b) && HitsMore(base, small, h, large, k)
    requires forall e :: e in step.topk ==> e.probability >= 0.0
    ensures AtMost(ScoreStep(a, base, small, h, step), ScoreStep(b, base, large, k, step))
  {
    TopkMonotone(a, b, base, small, h, large, k, step.topk);
    SampledMonotone(ScoreTopk(a, base, small, h, step.topk), ScoreTopk(b, base, large, k, step.topk),
                    base, small, h, large, k, step.sampled);
  }

  /** Top-k, top-k-mass and sampled coverage never fall as the tail grows, under every insertion policy. */
  lemma {:induction false} CoverageMonotone(ranking: seq<int>, baseSize: nat, small: nat, large: nat,
                                            p: Policy, prompt: seq<int>, steps: seq<Step>)
    requires NoDup(ranking) && small <= large && Probabilities(steps)
    ensures var base := BaseOf(ranking, baseSize);
            AtMost(ScoreSteps(base, small, SeedOf(ranking, baseSize, small), p, prompt, steps),
                   ScoreSteps(base, large, SeedOf(ranking, baseSize, large), p, prompt, steps))
  {
    if steps != [] {
      var base := BaseOf(ranking, baseSize);
      var a, b := SeedOf(ranking, baseSize, small), SeedOf(ranking, baseSize, large);
      var before, step := steps[..|steps| - 1], steps[|steps| - 1];
      assert step in steps;
      CoverageMonotone(ranking, baseSize, small, large, p, prompt, before);
      var tokens := Stream(p, prompt, before);
      forall token | Hit(base, small, a + tokens, token) ensures Hit(base, large, b + tokens, token) {
        if token !in base {
          RecentMonotone(ranking, baseSize, small, large, tokens, token);
        }
      }
      StepMonotone(ScoreSteps(base, small, a, p, prompt, before), ScoreSteps(base, large, b, p, prompt, before),
                   base, small, a + tokens, large, b + tokens, step);
    }
  }

  /** The base-only report, whatever its policy, bounds every tail size and policy from below. */
  lemma {:induction false} BaseOnlyIsLeast(base: set<int>, seed: seq<int>, capacity: nat, p: Policy, q: Policy,
                                           prompt: seq<int>, steps: seq<Step>)
    requires Probabilities(steps)
    ensures AtMost(ScoreSteps(base, 0, [], p, prompt, steps), ScoreSteps(base, capacity, seed, q, prompt, steps))
  {
    if steps != [] {
      var before, step := steps[..|steps| - 1], steps[|steps| - 1];
      assert step in steps;
      BaseOnlyIsLeast(base, seed, capacity, p, q, prompt, before);
      StepMonotone(ScoreSteps(base, 0, [], p, prompt, before), ScoreSteps(base, capacity, seed, q, prompt, before),
                   base, 0, [] + Stream(p, prompt, before), capacity, seed + Stream(q, prompt, before), step);
    }
  }
}
