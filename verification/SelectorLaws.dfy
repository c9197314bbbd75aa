/**
 * Laws of the selector evaluation, stated on the recorded logits, scales and probabilities: what overlap, support,
 * the completion proxy, target rows and proposals are, and how they respond to a change of configuration.
 */
module SelectorLaws {
  import opened RealSums
  import opened Nucleus
  import opened SelectorChain
  import opened SelectorAlignment
  import opened Options

  // ----- overlap -----

  /** The proposal's probabilities at the positions that hold `id`, zero elsewhere. */
  function Held(ids: seq<int>, probs: seq<real>, id: int): (r: seq<real>)
    requires |ids| == |probs|
    ensures |r| == |ids| && forall j :: 0 <= j < |r| ==> r[j] == if ids[j] == id then probs[j] else 0.0
  {
    seq(|ids|, j requires 0 <= j < |ids| => if ids[j] == id then probs[j] else 0.0)
  }

  lemma {:induction false} MassIsHeld(ids: seq<int>, probs: seq<real>, id: int)
    requires |ids| == |probs|
    ensures MassOn(ids, probs, id) == Sum(Held(ids, probs, id))
  {
    if ids != [] {
      var n := |ids| - 1;
      MassIsHeld(ids[..n], probs[..n], id);
      assert Held(ids, probs, id)[..n] == Held(ids[..n], probs[..n], id);
    }
  }

  /** By how much each target entry exceeds the proposal on its id. */
  function Shortfalls(targetIds: seq<int>, target: seq<real>, ids: seq<int>, probs: seq<real>): (r: seq<real>)
    requires |targetIds| == |target| && |ids| == |probs|
    ensures |r| == |target|
    ensures forall i :: 0 <= i < |r| ==>
              var short := target[i] - Sum(Held(ids, probs, targetIds[i]));
              r[i] == if short > 0.0 then short else 0.0
  {
    seq(|target|, i requires 0 <= i < |target| =>
          var short := target[i] - Sum(Held(ids, probs, targetIds[i]));
          if short > 0.0 then short else 0.0)
  }

  /** Overlap is the target mass less what the proposal falls short of it. */
  lemma {:induction false} OverlapPlusShortfall(targetIds: seq<int>, target: seq<real>, ids: seq<int>, probs: seq<real>)
    requires |targetIds| == |target| && |ids| == |probs|
    ensures Overlap(targetIds, target, ids, probs) + Sum(Shortfalls(targetIds, target, ids, probs)) == Sum(target)
  {
    if target != [] {
      var n := |target| - 1;
      OverlapPlusShortfall(targetIds[..n], target[..n], ids, probs);
      MassIsHeld(ids, probs, targetIds[n]);
      assert Shortfalls(targetIds, target, ids, probs)[..n] == Shortfalls(targetIds[..n], target[..n], ids, probs);
    }
  }

  lemma {:induction false} NoneShort(s: seq<real>)
    requires AllNonNegative(s)
    ensures Sum(s) == 0.0 <==> forall i :: 0 <= i < |s| ==> s[i] == 0.0
  {
    if s != [] {
      var n := |s| - 1;
      NoneShort(s[..n]);
      SumNonNegative(s[..n]);
      assert s == s[..n] + [s[n]];
    }
  }

  /** Overlap is the whole target mass exactly when no target entry exceeds the proposal on its id. */
  lemma OverlapFullIff(targetIds: seq<int>, target: seq<real>, ids: seq<int>, probs: seq<real>)
    requires |targetIds| == |target| && |ids| == |probs|
    ensures Overlap(targetIds, target, ids, probs) == Sum(target) <==>
            forall i :: 0 <= i < |target| ==> target[i] <= Sum(Held(ids, probs, targetIds[i]))
  {
    var short := Shortfalls(targetIds, target, ids, probs);
    OverlapPlusShortfall(targetIds, target, ids, probs);
    NoneShort(short);
    if forall i :: 0 <= i < |short| ==> short[i] == 0.0 {
      forall i | 0 <= i < |target| ensures target[i] <= Sum(Held(ids, probs, targetIds[i])) {
        assert short[i] == 0.0;
      }
    }
  }

  predicate NoneTwice(ids: seq<int>) {
    forall i, j :: 0 <= i < j < |ids| ==> ids[i] != ids[j]
  }

  /** The proposal mass on each target id. */
  function Masses(targetIds: seq<int>, ids: seq<int>, probs: seq<real>): (r: seq<real>)
    requires |ids| == |probs|
    ensures |r| == |targetIds| && forall i :: 0 <= i < |r| ==> r[i] == MassOn(ids, probs, targetIds[i])
  {
    seq(|targetIds|, i requires 0 <= i < |targetIds| => MassOn(ids, probs, targetIds[i]))
  }

  lemma {:induction false} OverlapBelowMasses(targetIds: seq<int>, target: seq<real>, ids: seq<int>, probs: seq<real>)
    requires |targetIds| == |target| && |ids| == |probs|
    ensures Overlap(targetIds, target, ids, probs) <= Sum(Masses(targetIds, ids, probs))
  {
    if target != [] {
      var n := |target| - 1;
      OverlapBelowMasses(targetIds[..n], target[..n], ids, probs);
      assert Masses(targetIds, ids, probs)[..n] == Masses(targetIds[..n], ids, probs);
    }
  }

  /** One proposal entry adds to the mass of at most one of several distinct ids. */
  lemma {:induction false} MassesNext(targetIds: seq<int>, ids: seq<int>, probs: seq<real>)
    requires |ids| == |probs| && ids != [] && NoneTwice(targetIds)
    ensures var n := |ids| - 1;
            Sum(Masses(targetIds, ids, probs))
              == Sum(Masses(targetIds, ids[..n], probs[..n])) + (if ids[n] in targetIds then probs[n] else 0.0)
  {
    if targetIds != [] {
      var n, t := |ids| - 1, |targetIds| - 1;
      MassesNext(targetIds[..t], ids, probs);
      assert Masses(targetIds, ids, probs)[..t] == Masses(targetIds[..t], ids, probs);
      assert Masses(targetIds, ids[..n], probs[..n])[..t] == Masses(targetIds[..t], ids[..n], probs[..n]);
      assert targetIds == targetIds[..t] + [targetIds[t]];
    }
  }

  lemma {:induction false} MassesBelowTotal(targetIds: seq<int>, ids: seq<int>, probs: seq<real>)
    requires |ids| == |probs| && NoneTwice(targetIds) && AllNonNegative(probs)
    ensures Sum(Masses(targetIds, ids, probs)) <= Sum(probs)
  {
    if ids == [] {
      SumZero(Masses(targetIds, ids, probs));
    } else {
      var n := |ids| - 1;
      MassesBelowTotal(targetIds, ids[..n], probs[..n]);
      MassesNext(targetIds, ids, probs);
    }
  }

  /** With distinct target ids overlap never exceeds the proposal's own mass. */
  lemma OverlapWithinProposal(targetIds: seq<int>, target: seq<real>, ids: seq<int>, probs: seq<real>)
    requires |targetIds| == |target| && |ids| == |probs| && NoneTwice(targetIds) && AllNonNegative(probs)
    ensures Overlap(targetIds, target, ids, probs) <= Sum(probs)
  {
    OverlapBelowMasses(targetIds, target, ids, probs);
    MassesBelowTotal(targetIds, ids, probs);
  }

  // ----- support -----

  /** No supported target entry exceeds the proposal on its id. */
  predicate SupportedMet(targetIds: seq<int>, target: seq<real>, ids: seq<int>, probs: seq<real>)
    requires |targetIds| == |target| && |ids| == |probs|
  {
    forall i :: 0 <= i < |target| && targetIds[i] in ids ==> target[i] <= MassOn(ids, probs, targetIds[i])
  }

  lemma SupportedMetNext(targetIds: seq<int>, target: seq<real>, ids: seq<int>, probs: seq<real>)
    requires |targetIds| == |target| && |ids| == |probs| && target != []
    ensures var n := |target| - 1;
            SupportedMet(targetIds, target, ids, probs) <==>
            SupportedMet(targetIds[..n], target[..n], ids, probs)
            && (targetIds[n] in ids ==> target[n] <= MassOn(ids, probs, targetIds[n]))
  {
    var n := |target| - 1;
    if SupportedMet(targetIds[..n], target[..n], ids, probs) {
      forall i | 0 <= i < n && targetIds[i] in ids ensures target[i] <= MassOn(ids, probs, targetIds[i]) {
        assert targetIds[..n][i] in ids;
      }
    }
    if SupportedMet(targetIds, target, ids, probs) {
      forall i | 0 <= i < n && targetIds[..n][i] in ids
        ensures target[..n][i] <= MassOn(ids, probs, targetIds[..n][i])
      {
        assert targetIds[i] in ids;
      }
    }
  }

  /** Support is the overlap of a proposal that meets every supported target entry, and of no other. */
  lemma {:induction false} SupportAttainedIff(targetIds: seq<int>, target: seq<real>, ids: seq<int>, probs: seq<real>)
    requires |targetIds| == |target| && |ids| == |probs| && AllNonNegative(target) && AllNonNegative(probs)
    ensures Overlap(targetIds, target, ids, probs) == SupportMass(targetIds, target, ids) <==>
            SupportedMet(targetIds, target, ids, probs)
  {
    if target != [] {
      var n := |target| - 1;
      SupportAttainedIff(targetIds[..n], target[..n], ids, probs);
      OverlapWithinSupport(targetIds[..n], target[..n], ids, probs);
      MassOnBounds(ids, probs, targetIds[n]);
      SupportedMetNext(targetIds, target, ids, probs);
    }
  }

  /** The support proxy averages, by step, the target mass on that step's candidates. */
  lemma MeanSupportMeaning(num: Numerics, records: seq<Record>, n: nat, k: nat, m: nat, step: nat, supports: seq<real>)
    requires Sound(num) && records != [] && AllShaped(records, n, k, m) && step < n && |supports| == |records|
    requires forall i :: 0 <= i < |records| ==>
               && Shaped(records[i], n, k, m)
               && supports[i] == SupportMass(records[i].targetIds[step], TargetRow(num, records[i], n, k, m, step),
                                             records[i].candidateIds[step])
    ensures MeanSupports(num, records, n, k, m)[step] == Ratio(Sum(supports), |records| as real)
  {
    assert SupportColumn(num, records, n, k, m, step) == supports;
  }

  // ----- the completion proxy -----

  lemma {:induction false} ProductHead(x: real, xs: seq<real>)
    ensures Product([x] + xs) == Times(x, Product(xs))
  {
    if xs == [] {
      assert [x] + xs == [x] && [x][..0] == [];
    } else {
      var n := |xs| - 1;
      ProductHead(x, xs[..n]);
      assert ([x] + xs)[..n + 1] == [x] + xs[..n];
      TimesAssociates(x, Product(xs[..n]), xs[n]);
    }
  }

  /** The expected length: one, and if the first position succeeds, the expected length of the rest. */
  lemma {:induction false} ProxyUnrolls(x: real, xs: seq<real>)
    ensures Proxy([x] + xs) == 1.0 + Times(x, Proxy(xs)) && Proxy([]) == 1.0
  {
    if xs == [] {
      assert [x] + xs == [x] && [x][..0] == [];
    } else {
      var n := |xs| - 1;
      ProxyUnrolls(x, xs[..n]);
      assert ([x] + xs)[..n + 1] == [x] + xs[..n];
      ProductHead(x, xs);
      TimesSpreads(Proxy(xs[..n]), Product(xs), x);
    }
  }

  // ----- target rows -----

  /** A target row is the compact softmax of its own step's logits over the record's temperature and threshold. */
  lemma TargetRowMeaning(num: Numerics, r: Record, n: nat, k: nat, m: nat, step: nat, weights: seq<real>)
    requires Sound(num) && Shaped(r, n, k, m) && step < n && |weights| == m
    requires forall j :: 0 <= j < m ==> weights[j] == num.exp(Ratio(r.targetLogits[step][j], r.temperature))
    ensures AllPositive(weights) && KeptMass(weights, r.topP) > 0.0
    ensures TargetRow(num, r, n, k, m, step) == Compact(weights, r.topP)
  {
    var logits := Divided(r.targetLogits[step], r.temperature);
    CompactDefined(num, logits, r.topP);
    assert weights == Exps(num, logits);
  }

  // ----- proposals -----

  /** What the source computes for a lattice entry before the exponential. */
  function Logit(r: Record, c: Config, unary: real, lattice: real): real
    requires r.temperature > 0.0 && c.temperatureScale > 0.0
  {
    TimesPositive(r.temperature, c.temperatureScale);
    Ratio(Times(c.unaryScale, unary) + Times(c.edgeScale, lattice - unary), Times(r.temperature, c.temperatureScale))
  }

  /** Every weight of the transformed lattice, from the recorded scores and the scales of the configuration. */
  lemma LatticeWeightAt(num: Numerics, r: Record, c: Config, n: nat, k: nat, m: nat, step: nat, i: nat, j: nat)
    requires Sound(num) && Shaped(r, n, k, m) && Usable(c) && step < n && i < k && j < k
    ensures LatticeWeights(num, r, c, n, k, m)[step][i][j]
         == num.exp(Logit(r, c, r.unary[step][j], r.lattice[step][i][j]))
  {
    var row := WeightRow(num, r, c, r.unary[step], r.lattice[step][i]);
    assert row[j] == num.exp(ScoreRow(r, c, r.unary[step], r.lattice[step][i])[j]);
  }

  /**
   * A chain proposal is the compact distribution of the transformed weight of each candidate after its predecessor,
   * times the candidate's message raised to the message exponent.
   */
  lemma ChainProposalMeaning(num: Numerics, r: Record, c: Config, n: nat, k: nat, m: nat, step: nat, weights: seq<real>)
    requires Sound(num) && Shaped(r, n, k, m) && Usable(c) && step < n && |weights| == k
    requires !c.useCached && c.greedyMix == 0.0 && RecordPath(r, n, k, m).Some?
    requires var w, from := LatticeWeights(num, r, c, n, k, m), RecordPath(r, n, k, m).value[step];
             forall j :: 0 <= j < k ==>
               weights[j] == Times(num.exp(Logit(r, c, r.unary[step][j], r.lattice[step][from][j])),
                                   num.power(Message(w, k, step)[j], c.futureBeta))
    ensures AllPositive(weights) && KeptMass(weights, c.topP) > 0.0
    ensures Proposals(num, r, c, n, k, m).Some?
    ensures Proposals(num, r, c, n, k, m).value[step] == Compact(weights, c.topP)
  {
    var w, from := LatticeWeights(num, r, c, n, k, m), RecordPath(r, n, k, m).value[step];
    var tilted := Tilted(num, Message(w, k, step), c.futureBeta);
    forall j | 0 <= j < k ensures weights[j] == Products(w[step][from], tilted)[j] {
      LatticeWeightAt(num, r, c, n, k, m, step, from, j);
    }
    assert weights == Products(w[step][from], tilted);
    ProductsPositive(w[step][from], tilted);
    CompactIsDistribution(weights, c.topP);
  }

  /** A cached proposal is the compact softmax of the logits realised at its own step. */
  lemma CachedProposalMeaning(num: Numerics, r: Record, c: Config, n: nat, k: nat, m: nat, step: nat,
                              weights: seq<real>)
    requires Sound(num) && Shaped(r, n, k, m) && Usable(c) && step < n && |weights| == k
    requires c.useCached && c.greedyMix == 0.0
    requires forall j :: 0 <= j < k ==> weights[j] == num.exp(r.realized[step][j])
    ensures AllPositive(weights) && KeptMass(weights, c.topP) > 0.0
    ensures Proposals(num, r, c, n, k, m).Some?
    ensures Proposals(num, r, c, n, k, m).value[step] == Compact(weights, c.topP)
  {
    CompactDefined(num, r.realized[step], c.topP);
    assert weights == Exps(num, r.realized[step]);
  }

  /** `j` is the first position of the largest entry. */
  predicate FirstLargest(row: seq<real>, j: nat) {
    j < |row| && forall i :: 0 <= i < |row| ==> row[i] <= row[j] && (i < j ==> row[i] < row[j])
  }

  lemma {:induction false} ArgMaxFirst(row: seq<real>)
    requires row != []
    ensures FirstLargest(row, ArgMax(row))
  {
    var n := |row| - 1;
    if n > 0 {
      ArgMaxFirst(row[..n]);
      assert row == row[..n] + [row[n]];
      forall i | 0 <= i < |row|
        ensures row[i] <= row[ArgMax(row)] && (i < ArgMax(row) ==> row[i] < row[ArgMax(row)])
      {
        if i < n {
          assert row[..n][i] <= row[..n][ArgMax(row[..n])];
        }
      }
    }
  }

  lemma FirstLargestUnique(row: seq<real>, i: nat, j: nat)
    requires FirstLargest(row, j)
    ensures FirstLargest(row, i) <==> i == j
  {
    if FirstLargest(row, i) {
      assert row[i] <= row[j] && row[j] <= row[i];
    }
  }

  /** Mixing shrinks every entry by the share it moves to the first largest one. */
  lemma MixedAt(row: seq<real>, mix: real, j: nat)
    requires j < |row|
    ensures Mixed(row, mix)[j] == Times(1.0 - mix, row[j]) + (if FirstLargest(row, j) then mix else 0.0)
  {
    ArgMaxFirst(row);
    FirstLargestUnique(row, j, ArgMax(row));
  }

  /** The greedy share acts on the proposals of the same configuration without it. */
  lemma ProposalsMix(num: Numerics, r: Record, c: Config, n: nat, k: nat, m: nat, step: nat, j: nat)
    requires Sound(num) && Shaped(r, n, k, m) && Usable(c) && step < n && j < k
    requires Proposals(num, r, c, n, k, m).Some?
    ensures Proposals(num, r, c.(greedyMix := 0.0), n, k, m).Some?
    ensures var plain := Proposals(num, r, c.(greedyMix := 0.0), n, k, m).value[step];
            Proposals(num, r, c, n, k, m).value[step][j]
              == Times(1.0 - c.greedyMix, plain[j]) + (if FirstLargest(plain, j) then c.greedyMix else 0.0)
  {
    PlainIgnoresMix(num, r, c, n, k, m);
    ProposalsArePlain(num, r, c.(greedyMix := 0.0), n, k, m);
    ProposalsArePlain(num, r, c, n, k, m);
    MixedRowAt(PlainRows(num, r, c, n, k, m).value, c.greedyMix, k, step, j);
  }

  /** The proposals of a configuration from its rows before mixing. */
  lemma ProposalsArePlain(num: Numerics, r: Record, c: Config, n: nat, k: nat, m: nat)
    requires Sound(num) && Shaped(r, n, k, m) && Usable(c) && PlainRows(num, r, c, n, k, m).Some?
    requires 0.0 <= c.greedyMix <= 1.0
    ensures var plain := PlainRows(num, r, c, n, k, m).value;
            Proposals(num, r, c, n, k, m)
              == Some(if c.greedyMix == 0.0 then plain else MixedRows(plain, c.greedyMix, k))
  {
  }

  lemma MixedRowAt(plain: seq<seq<real>>, mix: real, k: nat, step: nat, j: nat)
    requires 0 < k && 0.0 <= mix <= 1.0 && Distributions(plain, k) && step < |plain| && j < k
    ensures |plain[step]| == k && |(if mix == 0.0 then plain else MixedRows(plain, mix, k))[step]| == k
    ensures (if mix == 0.0 then plain else MixedRows(plain, mix, k))[step][j]
         == Times(1.0 - mix, plain[step][j]) + (if FirstLargest(plain[step], j) then mix else 0.0)
  {
    assert Distribution(plain[step], k);
    MixedAt(plain[step], mix, j);
    if mix == 0.0 {
      UnitTimes(plain[step][j]);
    }
  }

  lemma UnitTimes(x: real)
    ensures Times(1.0, x) == x
  {
  }

  lemma PlainIgnoresMix(num: Numerics, r: Record, c: Config, n: nat, k: nat, m: nat)
    requires Sound(num) && Shaped(r, n, k, m) && Usable(c)
    ensures PlainRows(num, r, c, n, k, m) == PlainRows(num, r, c.(greedyMix := 0.0), n, k, m)
  {
    var c' := c.(greedyMix := 0.0);
    SameWeights(num, r, c, c', n, k, m);
    SameRows(num, r, c, c', n, k, m);
  }

  // ----- scales -----

  /** Both configurations score every lattice entry of the record alike. */
  ghost predicate ScoreAlike(r: Record, c: Config, c': Config)
    requires r.temperature > 0.0 && Usable(c) && Usable(c')
  {
    forall unary, lattice :: Logit(r, c, unary, lattice) == Logit(r, c', unary, lattice)
  }

  lemma SameWeights(num: Numerics, r: Record, c: Config, c': Config, n: nat, k: nat, m: nat)
    requires Sound(num) && Shaped(r, n, k, m) && Usable(c) && Usable(c') && ScoreAlike(r, c, c')
    ensures LatticeWeights(num, r, c, n, k, m) == LatticeWeights(num, r, c', n, k, m)
  {
    var w, w' := LatticeWeights(num, r, c, n, k, m), LatticeWeights(num, r, c', n, k, m);
    forall s | 0 <= s < n ensures w[s] == w'[s] {
      forall i | 0 <= i < k ensures w[s][i] == w'[s][i] {
        forall j | 0 <= j < k ensures w[s][i][j] == w'[s][i][j] {
          LatticeWeightAt(num, r, c, n, k, m, s, i, j);
          LatticeWeightAt(num, r, c', n, k, m, s, i, j);
        }
      }
    }
  }

  lemma SameRows(num: Numerics, r: Record, c: Config, c': Config, n: nat, k: nat, m: nat)
    requires Sound(num) && Shaped(r, n, k, m) && Usable(c) && Usable(c')
    requires LatticeWeights(num, r, c, n, k, m) == LatticeWeights(num, r, c', n, k, m)
    requires c.topP == c'.topP && c.futureBeta == c'.futureBeta && c.useCached == c'.useCached
    ensures PlainRows(num, r, c, n, k, m) == PlainRows(num, r, c', n, k, m)
  {
    if c.useCached {
      SameCachedRows(num, r.realized, c, c', k, n);
    } else if RecordPath(r, n, k, m).Some? {
      SameChainRows(num, LatticeWeights(num, r, c, n, k, m), k, c, c', RecordPath(r, n, k, m).value, n);
    }
  }

  lemma SameCachedRows(num: Numerics, logits: seq<seq<real>>, c: Config, c': Config, k: nat, n: nat)
    requires Sound(num) && Usable(c) && Usable(c') && 0 < k && n <= |logits| && Rows(logits, |logits|, k)
    requires c.topP == c'.topP
    ensures CachedRows(num, logits, c, k, n) == CachedRows(num, logits, c', k, n)
  {
    forall s | 0 <= s < n ensures CachedRows(num, logits, c, k, n)[s] == CachedRows(num, logits, c', k, n)[s] {
      assert CachedRow(num, logits[s], c) == CachedRow(num, logits[s], c');
    }
  }

  lemma SameChainRows(num: Numerics, w: Lattice, k: nat, c: Config, c': Config, path: seq<nat>, n: nat)
    requires Sound(num) && Chain(w, k) && Usable(c) && Usable(c') && n <= |w| && n <= |path|
    requires c.topP == c'.topP && c.futureBeta == c'.futureBeta
    requires forall s :: 0 <= s < |path| ==> path[s] < k
    ensures ChainRows(num, w, k, c, path, n) == ChainRows(num, w, k, c', path, n)
  {
    forall s | 0 <= s < n ensures ChainRows(num, w, k, c, path, n)[s] == ChainRows(num, w, k, c', path, n)[s] {
      assert ChainRow(num, w, k, c, s, path[s]) == ChainRow(num, w, k, c', s, path[s]);
    }
  }

  function Rescaled(c: Config, f: real): Config {
    c.(temperatureScale := Times(f, c.temperatureScale), unaryScale := Times(f, c.unaryScale),
       edgeScale := Times(f, c.edgeScale))
  }

  lemma LogitHomogeneous(r: Record, c: Config, f: real, unary: real, lattice: real)
    requires r.temperature > 0.0 && c.temperatureScale > 0.0 && f > 0.0
    ensures Rescaled(c, f).temperatureScale > 0.0
    ensures Logit(r, Rescaled(c, f), unary, lattice) == Logit(r, c, unary, lattice)
  {
    TimesPositive(f, c.temperatureScale);
    TimesPositive(r.temperature, c.temperatureScale);
    var top, bottom := Times(c.unaryScale, unary) + Times(c.edgeScale, lattice - unary),
                       Times(r.temperature, c.temperatureScale);
    TimesAssociates(f, c.unaryScale, unary);
    TimesAssociates(f, c.edgeScale, lattice - unary);
    TimesSpreads(Times(c.unaryScale, unary), Times(c.edgeScale, lattice - unary), f);
    Exchange(r.temperature, f, c.temperatureScale);
    CommonFactor(f, top, bottom);
  }

  lemma Exchange(x: real, y: real, z: real)
    ensures Times(x, Times(y, z)) == Times(y, Times(x, z))
  {
  }

  lemma CommonFactor(f: real, x: real, y: real)
    requires f > 0.0 && y > 0.0
    ensures Times(f, y) > 0.0 && Ratio(Times(f, x), Times(f, y)) == Ratio(x, y)
  {
    TimesPositive(f, y);
    var q := Ratio(x, y);
    assert q * y == x;
    Exchange(f, q, y);
    FactorOf(q, Times(f, y));
  }

  /** Scaling the temperature and both scores by one positive factor changes no proposal. */
  lemma ProposalsHomogeneous(num: Numerics, r: Record, c: Config, n: nat, k: nat, m: nat, f: real)
    requires Sound(num) && Shaped(r, n, k, m) && Usable(c) && f > 0.0
    ensures Usable(Rescaled(c, f))
    ensures Proposals(num, r, Rescaled(c, f), n, k, m) == Proposals(num, r, c, n, k, m)
  {
    TimesPositive(f, c.temperatureScale);
    var c' := Rescaled(c, f);
    forall unary, lattice ensures Logit(r, c', unary, lattice) == Logit(r, c, unary, lattice) {
      LogitHomogeneous(r, c, f, unary, lattice);
    }
    SameWeights(num, r, c', c, n, k, m);
    SameRows(num, r, c', c, n, k, m);
  }

  lemma LogitUnary(r: Record, c: Config, unary: real, lattice: real)
    requires r.temperature > 0.0 && c.temperatureScale > 0.0 && c.edgeScale == 0.0
    ensures Times(r.temperature, c.temperatureScale) > 0.0
    ensures Logit(r, c, unary, lattice) == Ratio(Times(c.unaryScale, unary), Times(r.temperature, c.temperatureScale))
  {
    TimesPositive(r.temperature, c.temperatureScale);
    ZeroTimes(lattice - unary);
  }

  lemma ZeroTimes(x: real)
    ensures Times(0.0, x) == 0.0
  {
  }

  lemma LogitLattice(r: Record, c: Config, unary: real, lattice: real)
    requires r.temperature > 0.0 && c.temperatureScale > 0.0 && c.edgeScale == c.unaryScale
    ensures Times(r.temperature, c.temperatureScale) > 0.0
    ensures Logit(r, c, unary, lattice) == Ratio(Times(c.unaryScale, lattice), Times(r.temperature, c.temperatureScale))
  {
    TimesPositive(r.temperature, c.temperatureScale);
    TimesSpreads(unary, lattice - unary, c.unaryScale);
  }

  /** Without messages a proposal is the compact softmax of its transformed scores. */
  lemma NoMessageProposal(num: Numerics, r: Record, c: Config, n: nat, k: nat, m: nat, step: nat, weights: seq<real>)
    requires Sound(num) && Shaped(r, n, k, m) && Usable(c) && step < n && |weights| == k
    requires !c.useCached && c.greedyMix == 0.0 && c.futureBeta == 0.0 && RecordPath(r, n, k, m).Some?
    requires forall j :: 0 <= j < k ==>
               var from := RecordPath(r, n, k, m).value[step];
               weights[j] == num.exp(Logit(r, c, r.unary[step][j], r.lattice[step][from][j]))
    ensures AllPositive(weights) && KeptMass(weights, c.topP) > 0.0
    ensures Proposals(num, r, c, n, k, m).Some?
    ensures Proposals(num, r, c, n, k, m).value[step] == Compact(weights, c.topP)
  {
    var w, from := LatticeWeights(num, r, c, n, k, m), RecordPath(r, n, k, m).value[step];
    forall j | 0 <= j < k
      ensures weights[j] == Times(num.exp(Logit(r, c, r.unary[step][j], r.lattice[step][from][j])),
                                  num.power(Message(w, k, step)[j], c.futureBeta))
    {
      PowerZero(num, Message(w, k, step)[j]);
      TimesUnit(weights[j]);
    }
    ChainProposalMeaning(num, r, c, n, k, m, step, weights);
  }

  lemma TimesUnit(x: real)
    ensures Times(x, 1.0) == x
  {
  }

  /**
   * Without messages and edges a proposal is the compact softmax of the scaled unary logits: neither the predecessor
   * nor the lattice matters.
   */
  lemma UnaryProposal(num: Numerics, r: Record, c: Config, n: nat, k: nat, m: nat, step: nat, weights: seq<real>)
    requires Sound(num) && Shaped(r, n, k, m) && Usable(c) && step < n && |weights| == k
    requires !c.useCached && c.greedyMix == 0.0 && c.futureBeta == 0.0 && c.edgeScale == 0.0
    requires RecordPath(r, n, k, m).Some? && Times(r.temperature, c.temperatureScale) > 0.0
    requires forall j :: 0 <= j < k ==>
               weights[j] == num.exp(Ratio(Times(c.unaryScale, r.unary[step][j]),
                                           Times(r.temperature, c.temperatureScale)))
    ensures AllPositive(weights) && KeptMass(weights, c.topP) > 0.0
    ensures Proposals(num, r, c, n, k, m).Some?
    ensures Proposals(num, r, c, n, k, m).value[step] == Compact(weights, c.topP)
  {
    var from := RecordPath(r, n, k, m).value[step];
    forall j | 0 <= j < k
      ensures weights[j] == num.exp(Logit(r, c, r.unary[step][j], r.lattice[step][from][j]))
    {
      LogitUnary(r, c, r.unary[step][j], r.lattice[step][from][j]);
    }
    NoMessageProposal(num, r, c, n, k, m, step, weights);
  }

  /** Without messages and with equal scales a proposal is the compact softmax of the scaled lattice row. */
  lemma LatticeProposal(num: Numerics, r: Record, c: Config, n: nat, k: nat, m: nat, step: nat, weights: seq<real>)
    requires Sound(num) && Shaped(r, n, k, m) && Usable(c) && step < n && |weights| == k
    requires !c.useCached && c.greedyMix == 0.0 && c.futureBeta == 0.0 && c.edgeScale == c.unaryScale
    requires RecordPath(r, n, k, m).Some? && Times(r.temperature, c.temperatureScale) > 0.0
    requires forall j :: 0 <= j < k ==>
               var score := r.lattice[step][RecordPath(r, n, k, m).value[step]][j];
               weights[j] == num.exp(Ratio(Times(c.unaryScale, score), Times(r.temperature, c.temperatureScale)))
    ensures AllPositive(weights) && KeptMass(weights, c.topP) > 0.0
    ensures Proposals(num, r, c, n, k, m).Some?
    ensures Proposals(num, r, c, n, k, m).value[step] == Compact(weights, c.topP)
  {
    var from := RecordPath(r, n, k, m).value[step];
    forall j | 0 <= j < k
      ensures weights[j] == num.exp(Logit(r, c, r.unary[step][j], r.lattice[step][from][j]))
    {
      LogitLattice(r, c, r.unary[step][j], r.lattice[step][from][j]);
    }
    NoMessageProposal(num, r, c, n, k, m, step, weights);
  }
}
