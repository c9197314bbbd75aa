/**
 * Attention over keys split by interleaved ownership and merged by log-sum-exp weights. Scores are kept as
 * positive weights: a shard's base-2 log-sum is carried as the sum itself, and an empty shard's as zero.
 */
module SplitAttention {
  import opened RealSums
  import opened IntegerFacts

  function Lookup(s: seq<real>, i: int): real {
    if 0 <= i < |s| then s[i] else 0.0
  }

  /** Sum over the selected ids; `-1` marks an unused column. */
  function SumIds(ids: seq<int>, f: int -> real): real {
    if ids == [] then 0.0
    else SumIds(ids[..|ids| - 1], f) + (if ids[|ids| - 1] >= 0 then f(ids[|ids| - 1]) else 0.0)
  }

  function KeyWeight(w: seq<real>): int -> real {
    t => Lookup(w, t)
  }

  function WeightedValue(w: seq<real>, v: seq<real>): int -> real {
    t => Times(Lookup(w, t), Lookup(v, t))
  }

  /** Total weight of the selected keys. */
  function Mass(ids: seq<int>, w: seq<real>): real {
    SumIds(ids, KeyWeight(w))
  }

  function Numerator(ids: seq<int>, w: seq<real>, v: seq<real>): real {
    SumIds(ids, WeightedValue(w, v))
  }

  /** Softmax attention over the selected keys, zero when nothing is selected. */
  function Attend(ids: seq<int>, w: seq<real>, v: seq<real>): real {
    if Mass(ids, w) > 0.0 then Ratio(Numerator(ids, w, v), Mass(ids, w)) else 0.0
  }

  // ----- ownership -----

  function Owner(world: nat, interleave: nat, t: nat): nat
    requires world > 0 && interleave > 0
  {
    (t / interleave) % world
  }

  function LocalOf(world: nat, interleave: nat, t: nat): nat
    requires world > 0 && interleave > 0
  {
    BlockPositive(world, interleave);
    t / (world * interleave) * interleave + t % interleave
  }

  function GlobalOf(world: nat, interleave: nat, rank: nat, l: nat): int
    requires world > 0 && interleave > 0
  {
    l / interleave * (world * interleave) + rank * interleave + l % interleave
  }

  lemma BlockPositive(a: nat, b: nat)
    requires a > 0 && b > 0
    ensures a * b > 0
  {
  }

  /** Every id is its block, its place among the ranks and its place within the interleave. */
  lemma Decompose(world: nat, interleave: nat, t: nat) returns (block: nat, place: nat, offset: nat)
    requires world > 0 && interleave > 0
    ensures place == Owner(world, interleave, t) < world && offset == t % interleave < interleave
    ensures t == block * (world * interleave) + place * interleave + offset
    ensures world * interleave > 0 && t / (world * interleave) == block
  {
    var unit := t / interleave;
    block, place, offset := unit / world, unit % world, t % interleave;
    QuotientBounds(t, interleave);
    QuotientBounds(unit, world);
    Regroup(block, world, place, interleave);
    Compose(world, interleave, block, place, offset);
  }

  /** The parts of an id determine it, its owner and its block. */
  lemma Compose(world: nat, interleave: nat, block: nat, place: nat, offset: nat)
    requires place < world && offset < interleave
    ensures world * interleave > 0
    ensures var t := block * (world * interleave) + place * interleave + offset;
            && t >= 0 && t / (world * interleave) == block
            && Owner(world, interleave, t) == place && t % interleave == offset
  {
    BlockPositive(world, interleave);
    Grow(0, block, world * interleave);
    Grow(0, place, interleave);
    var t := block * (world * interleave) + place * interleave + offset;
    assert place * interleave + interleave <= world * interleave by {
      assert (place + 1) * interleave == place * interleave + interleave;
      Grow(place + 1, world, interleave);
    }
    QuotientUnique(t, world * interleave, block, place * interleave + offset);
    Regroup(block, world, place, interleave);
    Grow(0, block, world);
    QuotientUnique(t, interleave, block * world + place, offset);
    QuotientUnique(block * world + place, world, block, place);
  }

  lemma Regroup(block: nat, world: nat, place: nat, interleave: nat)
    ensures (block * world + place) * interleave == block * (world * interleave) + place * interleave
  {
  }

  /** The owner finds a key again at its local index. */
  lemma LocalRoundTrip(world: nat, interleave: nat, t: nat)
    requires world > 0 && interleave > 0
    ensures GlobalOf(world, interleave, Owner(world, interleave, t), LocalOf(world, interleave, t)) == t
  {
    var block, place, offset := Decompose(world, interleave, t);
    QuotientUnique(block * interleave + offset, interleave, block, offset);
  }

  lemma LocalInRange(world: nat, interleave: nat, t: nat, blocks: nat)
    requires world > 0 && interleave > 0 && t < blocks * (world * interleave)
    ensures LocalOf(world, interleave, t) < blocks * interleave
  {
    var block, place, offset := Decompose(world, interleave, t);
    if blocks <= block {
      Grow(blocks, block, world * interleave);
      assert false;
    }
    assert (block + 1) * interleave == block * interleave + interleave;
    Grow(block + 1, blocks, interleave);
  }

  // ----- localisation -----

  /** The ids a rank owns, as local indices in their original order. */
  function OwnedLocals(ids: seq<int>, world: nat, interleave: nat, rank: nat): (r: seq<int>)
    requires world > 0 && interleave > 0
    ensures |r| <= |ids|
  {
    if ids == [] then []
    else
      var before, t := OwnedLocals(ids[..|ids| - 1], world, interleave, rank), ids[|ids| - 1];
      if t >= 0 && Owner(world, interleave, t) == rank then before + [LocalOf(world, interleave, t)] else before
  }

  function Unused(n: nat): (r: seq<int>)
    ensures |r| == n && forall i :: 0 <= i < n ==> r[i] == -1
  {
    seq(n, i => -1)
  }

  /** Compacts the owned ids to the front of a row of the same width. */
  function Localize(ids: seq<int>, world: nat, interleave: nat, rank: nat): (r: seq<int>)
    requires world > 0 && interleave > 0
    ensures |r| == |ids|
  {
    var owned := OwnedLocals(ids, world, interleave, rank);
    owned + Unused(|ids| - |owned|)
  }

  /** What a rank stores: the keys of its interleaved slices, in order. */
  function LocalCache(s: seq<real>, world: nat, interleave: nat, rank: nat, blocks: nat): (r: seq<real>)
    requires world > 0 && interleave > 0
    ensures |r| == blocks * interleave
    ensures forall l :: 0 <= l < |r| ==> r[l] == Lookup(s, GlobalOf(world, interleave, rank, l))
  {
    seq(blocks * interleave, l requires 0 <= l => Lookup(s, GlobalOf(world, interleave, rank, l)))
  }

  lemma {:induction false} SumUnused(ids: seq<int>, n: nat, f: int -> real)
    ensures SumIds(ids + Unused(n), f) == SumIds(ids, f)
  {
    if n == 0 {
      assert ids + Unused(n) == ids;
    } else {
      SumUnused(ids, n - 1, f);
      assert (ids + Unused(n))[..|ids| + n - 1] == ids + Unused(n - 1);
    }
  }

  /** Cutting the row after the last owned id loses nothing. */
  lemma SumLocalized(ids: seq<int>, world: nat, interleave: nat, rank: nat, width: nat, f: int -> real)
    requires world > 0 && interleave > 0
    requires |OwnedLocals(ids, world, interleave, rank)| <= width <= |ids|
    ensures SumIds(Localize(ids, world, interleave, rank)[..width], f)
         == SumIds(OwnedLocals(ids, world, interleave, rank), f)
  {
    var owned := OwnedLocals(ids, world, interleave, rank);
    assert Localize(ids, world, interleave, rank)[..width] == owned + Unused(width - |owned|);
    SumUnused(owned, width - |owned|, f);
  }

  /** Sum over the ids a rank owns, in global terms. */
  function OwnedSum(ids: seq<int>, world: nat, interleave: nat, rank: nat, f: int -> real): real
    requires world > 0 && interleave > 0
  {
    if ids == [] then 0.0
    else
      var t := ids[|ids| - 1];
      OwnedSum(ids[..|ids| - 1], world, interleave, rank, f)
      + (if t >= 0 && Owner(world, interleave, t) == rank then f(t) else 0.0)
  }

  predicate InCache(ids: seq<int>, size: nat) {
    forall i :: 0 <= i < |ids| ==> -1 <= ids[i] < size
  }

  /** `g` at the local index of an owned id is `f` at the id. */
  ghost predicate Mirrors(f: int -> real, g: int -> real, world: nat, interleave: nat, rank: nat, size: nat)
    requires world > 0 && interleave > 0
  {
    forall t :: 0 <= t < size && Owner(world, interleave, t) == rank ==> g(LocalOf(world, interleave, t)) == f(t)
  }

  lemma {:induction false} LocalSum(ids: seq<int>, world: nat, interleave: nat, rank: nat,
                                    f: int -> real, g: int -> real, size: nat)
    requires world > 0 && interleave > 0 && InCache(ids, size) && Mirrors(f, g, world, interleave, rank, size)
    ensures SumIds(OwnedLocals(ids, world, interleave, rank), g) == OwnedSum(ids, world, interleave, rank, f)
  {
    if ids != [] {
      var before, t := ids[..|ids| - 1], ids[|ids| - 1];
      LocalSum(before, world, interleave, rank, f, g, size);
      var owned := OwnedLocals(before, world, interleave, rank);
      if t >= 0 && Owner(world, interleave, t) == rank {
        assert (owned + [LocalOf(world, interleave, t)])[..|owned|] == owned;
      }
    }
  }

  lemma CacheMirrors(s: seq<real>, world: nat, interleave: nat, rank: nat, blocks: nat, t: nat)
    requires world > 0 && interleave > 0 && t < blocks * (world * interleave) && Owner(world, interleave, t) == rank
    ensures Lookup(LocalCache(s, world, interleave, rank, blocks), LocalOf(world, interleave, t)) == Lookup(s, t)
  {
    LocalRoundTrip(world, interleave, t);
    LocalInRange(world, interleave, t, blocks);
  }

  /** A rank's partial sums over its local cache and localised ids are those of the keys it owns. */
  lemma PartialSums(ids: seq<int>, w: seq<real>, v: seq<real>, world: nat, interleave: nat, rank: nat, blocks: nat,
                    width: nat)
    requires world > 0 && interleave > 0 && InCache(ids, blocks * (world * interleave))
    requires |OwnedLocals(ids, world, interleave, rank)| <= width <= |ids|
    ensures var w' := LocalCache(w, world, interleave, rank, blocks);
            var v' := LocalCache(v, world, interleave, rank, blocks);
            var local := Localize(ids, world, interleave, rank)[..width];
            && Mass(local, w') == OwnedSum(ids, world, interleave, rank, KeyWeight(w))
            && Numerator(local, w', v') == OwnedSum(ids, world, interleave, rank, WeightedValue(w, v))
  {
    var w', v' := LocalCache(w, world, interleave, rank, blocks), LocalCache(v, world, interleave, rank, blocks);
    var size := blocks * (world * interleave);
    forall t | 0 <= t < size && Owner(world, interleave, t) == rank
      ensures KeyWeight(w')(LocalOf(world, interleave, t)) == KeyWeight(w)(t)
      ensures WeightedValue(w', v')(LocalOf(world, interleave, t)) == WeightedValue(w, v)(t)
    {
      CacheMirrors(w, world, interleave, rank, blocks, t);
      CacheMirrors(v, world, interleave, rank, blocks, t);
    }
    LocalSum(ids, world, interleave, rank, KeyWeight(w), KeyWeight(w'), size);
    LocalSum(ids, world, interleave, rank, WeightedValue(w, v), WeightedValue(w', v'), size);
    SumLocalized(ids, world, interleave, rank, width, KeyWeight(w'));
    SumLocalized(ids, world, interleave, rank, width, WeightedValue(w', v'));
  }

  // ----- the shards partition the keys -----

  function ShardSum(ids: seq<int>, world: nat, interleave: nat, ranks: nat, f: int -> real): real
    requires world > 0 && interleave > 0
  {
    if ranks == 0 then 0.0
    else ShardSum(ids, world, interleave, ranks - 1, f) + OwnedSum(ids, world, interleave, ranks - 1, f)
  }

  lemma {:induction false} ShardSumNext(ids: seq<int>, world: nat, interleave: nat, ranks: nat, f: int -> real)
    requires world > 0 && interleave > 0 && ids != []
    ensures var before, t := ids[..|ids| - 1], ids[|ids| - 1];
            ShardSum(ids, world, interleave, ranks, f)
              == ShardSum(before, world, interleave, ranks, f)
                 + (if t >= 0 && Owner(world, interleave, t) < ranks then f(t) else 0.0)
  {
    if ranks > 0 {
      ShardSumNext(ids, world, interleave, ranks - 1, f);
    }
  }

  lemma {:induction false} ShardSumNone(world: nat, interleave: nat, ranks: nat, f: int -> real)
    requires world > 0 && interleave > 0
    ensures ShardSum([], world, interleave, ranks, f) == 0.0
  {
    if ranks > 0 {
      ShardSumNone(world, interleave, ranks - 1, f);
    }
  }

  /** Whatever is summed, the shards together sum it over every selected key once. */
  lemma {:induction false} ShardsPartition(ids: seq<int>, world: nat, interleave: nat, f: int -> real)
    requires world > 0 && interleave > 0
    ensures ShardSum(ids, world, interleave, world, f) == SumIds(ids, f)
  {
    if ids == [] {
      ShardSumNone(world, interleave, world, f);
    } else {
      ShardsPartition(ids[..|ids| - 1], world, interleave, f);
      ShardSumNext(ids, world, interleave, world, f);
    }
  }

  // ----- the merge -----

  function Normalised(numerator: real, mass: real): real {
    if mass > 0.0 then Ratio(numerator, mass) else 0.0
  }

  /** Weight of a shard in the merge; with no mass anywhere the undefined weight is replaced by zero. */
  function MergeWeight(mass: real, total: real): real {
    if total > 0.0 then Ratio(mass, total) else 0.0
  }

  /** Outputs times merge weights, over the shards. */
  function Merged(outputs: seq<real>, masses: seq<real>, total: real): real
    requires |outputs| == |masses|
  {
    if outputs == [] then 0.0
    else
      var n := |outputs| - 1;
      Merged(outputs[..n], masses[..n], total) + Times(outputs[n], MergeWeight(masses[n], total))
  }

  lemma {:induction false} OwnedSumSign(ids: seq<int>, world: nat, interleave: nat, rank: nat, w: seq<real>,
                                        v: seq<real>)
    requires world > 0 && interleave > 0 && AllPositive(w)
    ensures OwnedSum(ids, world, interleave, rank, KeyWeight(w)) >= 0.0
    ensures OwnedSum(ids, world, interleave, rank, KeyWeight(w)) == 0.0 ==>
            OwnedSum(ids, world, interleave, rank, WeightedValue(w, v)) == 0.0
  {
    if ids != [] {
      var t := ids[|ids| - 1];
      OwnedSumSign(ids[..|ids| - 1], world, interleave, rank, w, v);
      if Lookup(w, t) == 0.0 {
        assert Times(Lookup(w, t), Lookup(v, t)) == 0.0;
      }
    }
  }

  lemma ShareCancels(numerator: real, mass: real, total: real)
    requires mass >= 0.0 && total > 0.0 && (mass == 0.0 ==> numerator == 0.0)
    ensures Times(Normalised(numerator, mass), MergeWeight(mass, total)) == Ratio(numerator, total)
  {
    if mass > 0.0 {
      var c := Ratio(1.0, total);
      ScaleOf(mass, total);
      ScaleOf(numerator, total);
      TimesCancels(numerator, mass, c);
    } else {
      ZeroRatio(total);
    }
  }

  lemma ScaleOf(x: real, total: real)
    requires total != 0.0
    ensures Ratio(x, total) == Times(x, Ratio(1.0, total))
  {
  }

  /** The first `ranks` shards' normalised outputs and masses. */
  ghost predicate Partials(outputs: seq<real>, masses: seq<real>, ids: seq<int>, w: seq<real>, v: seq<real>,
                           world: nat, interleave: nat)
    requires world > 0 && interleave > 0
  {
    && |outputs| == |masses|
    && forall r :: 0 <= r < |masses| ==> PartialAt(outputs, masses, ids, w, v, world, interleave, r)
  }

  ghost predicate PartialAt(outputs: seq<real>, masses: seq<real>, ids: seq<int>, w: seq<real>, v: seq<real>,
                            world: nat, interleave: nat, r: nat)
    requires world > 0 && interleave > 0 && r < |outputs| == |masses|
  {
    && masses[r] == OwnedSum(ids, world, interleave, r, KeyWeight(w))
    && outputs[r] == Normalised(OwnedSum(ids, world, interleave, r, WeightedValue(w, v)), masses[r])
  }

  lemma {:induction false} MassesSum(outputs: seq<real>, masses: seq<real>, ids: seq<int>, w: seq<real>, v: seq<real>,
                                     world: nat, interleave: nat)
    requires world > 0 && interleave > 0 && Partials(outputs, masses, ids, w, v, world, interleave)
    ensures Sum(masses) == ShardSum(ids, world, interleave, |masses|, KeyWeight(w))
  {
    if masses != [] {
      var n := |masses| - 1;
      PartialsPrefix(outputs, masses, ids, w, v, world, interleave);
      MassesSum(outputs[..n], masses[..n], ids, w, v, world, interleave);
      assert PartialAt(outputs, masses, ids, w, v, world, interleave, n);
    }
  }

  lemma PartialsPrefix(outputs: seq<real>, masses: seq<real>, ids: seq<int>, w: seq<real>, v: seq<real>,
                       world: nat, interleave: nat)
    requires world > 0 && interleave > 0 && masses != [] && Partials(outputs, masses, ids, w, v, world, interleave)
    ensures Partials(outputs[..|masses| - 1], masses[..|masses| - 1], ids, w, v, world, interleave)
  {
    var n := |masses| - 1;
    forall r | 0 <= r < n ensures PartialAt(outputs[..n], masses[..n], ids, w, v, world, interleave, r) {
      assert PartialAt(outputs, masses, ids, w, v, world, interleave, r);
    }
  }

  lemma {:induction false} MergeSums(outputs: seq<real>, masses: seq<real>, ids: seq<int>, w: seq<real>, v: seq<real>,
                                     world: nat, interleave: nat, total: real)
    requires world > 0 && interleave > 0 && AllPositive(w) && total > 0.0
    requires Partials(outputs, masses, ids, w, v, world, interleave)
    ensures Merged(outputs, masses, total)
         == Ratio(ShardSum(ids, world, interleave, |masses|, WeightedValue(w, v)), total)
  {
    if masses == [] {
      ZeroRatio(total);
    } else {
      var n := |masses| - 1;
      PartialsPrefix(outputs, masses, ids, w, v, world, interleave);
      MergeSums(outputs[..n], masses[..n], ids, w, v, world, interleave, total);
      assert PartialAt(outputs, masses, ids, w, v, world, interleave, n);
      OwnedSumSign(ids, world, interleave, n, w, v);
      var own := OwnedSum(ids, world, interleave, n, WeightedValue(w, v));
      ShareCancels(own, masses[n], total);
      RatioAdds(ShardSum(ids, world, interleave, n, WeightedValue(w, v)), own, total);
    }
  }

  lemma {:induction false} MergeNothing(outputs: seq<real>, masses: seq<real>, total: real)
    requires |outputs| == |masses| && total <= 0.0
    ensures Merged(outputs, masses, total) == 0.0
  {
    if outputs != [] {
      MergeNothing(outputs[..|outputs| - 1], masses[..|masses| - 1], total);
    }
  }

  /** Merging all shards reproduces unsharded attention, also when shards, or all of them, are empty. */
  lemma MergeIsAttention(outputs: seq<real>, masses: seq<real>, ids: seq<int>, w: seq<real>, v: seq<real>,
                         world: nat, interleave: nat)
    requires world > 0 && interleave > 0 && AllPositive(w) && |masses| == world
    requires Partials(outputs, masses, ids, w, v, world, interleave)
    ensures Merged(outputs, masses, Sum(masses)) == Attend(ids, w, v)
  {
    MassesSum(outputs, masses, ids, w, v, world, interleave);
    ShardsPartition(ids, world, interleave, KeyWeight(w));
    ShardsPartition(ids, world, interleave, WeightedValue(w, v));
    if Sum(masses) > 0.0 {
      MergeSums(outputs, masses, ids, w, v, world, interleave, Sum(masses));
    } else {
      MergeNothing(outputs, masses, Sum(masses));
    }
  }

  function OwnedCount(ids: seq<int>, world: nat, interleave: nat, rank: nat): nat
    requires world > 0 && interleave > 0
  {
    |OwnedLocals(ids, world, interleave, rank)|
  }

  /** No rank owns more than `width` of the ids. */
  predicate OwnedWithin(ids: seq<int>, world: nat, interleave: nat, width: nat)
    requires world > 0 && interleave > 0
  {
    forall r :: 0 <= r < world ==> OwnedCount(ids, world, interleave, r) <= width
  }

  /** Attends per shard on local caches and localised ids, then merges. */
  method ShardedAttention(ids: seq<int>, w: seq<real>, v: seq<real>, world: nat, interleave: nat, blocks: nat,
                          width: nat)
    returns (result: real)
    requires world > 0 && interleave > 0 && AllPositive(w) && InCache(ids, blocks * (world * interleave))
    requires width <= |ids| && OwnedWithin(ids, world, interleave, width)
    ensures result == Attend(ids, w, v)
  {
    var outputs: seq<real>, masses: seq<real> := [], [];
    for rank := 0 to world
      invariant |masses| == rank && Partials(outputs, masses, ids, w, v, world, interleave)
    {
      var w', v' := LocalCache(w, world, interleave, rank, blocks), LocalCache(v, world, interleave, rank, blocks);
      var local := Localize(ids, world, interleave, rank)[..width];
      assert OwnedCount(ids, world, interleave, rank) <= width;
      PartialSums(ids, w, v, world, interleave, rank, blocks, width);
      PartialsNext(outputs, masses, ids, w, v, world, interleave, Attend(local, w', v'), Mass(local, w'));
      outputs, masses := outputs + [Attend(local, w', v')], masses + [Mass(local, w')];
    }
    MergeIsAttention(outputs, masses, ids, w, v, world, interleave);
    result := Merged(outputs, masses, Sum(masses));
  }

  lemma PartialsNext(outputs: seq<real>, masses: seq<real>, ids: seq<int>, w: seq<real>, v: seq<real>,
                     world: nat, interleave: nat, output: real, mass: real)
    requires world > 0 && interleave > 0 && Partials(outputs, masses, ids, w, v, world, interleave)
    requires mass == OwnedSum(ids, world, interleave, |masses|, KeyWeight(w))
    requires output == Normalised(OwnedSum(ids, world, interleave, |masses|, WeightedValue(w, v)), mass)
    ensures Partials(outputs + [output], masses + [mass], ids, w, v, world, interleave)
  {
    forall r | 0 <= r <= |masses|
      ensures PartialAt(outputs + [output], masses + [mass], ids, w, v, world, interleave, r)
    {
      if r < |masses| {
        assert PartialAt(outputs, masses, ids, w, v, world, interleave, r);
      }
    }
  }

  // ----- the local selection width -----

  /** `count` consecutive positions. */
  function Run(start: nat, count: nat): (r: seq<int>)
    ensures |r| == count && forall i :: 0 <= i < count ==> r[i] == start + i
  {
    seq(count, i => start + i)
  }

  lemma {:induction false} OwnedAppend(a: seq<int>, b: seq<int>, world: nat, interleave: nat, rank: nat)
    requires world > 0 && interleave > 0
    ensures OwnedCount(a + b, world, interleave, rank)
         == OwnedCount(a, world, interleave, rank) + OwnedCount(b, world, interleave, rank)
  {
    if b == [] {
      assert a + b == a;
    } else {
      OwnedAppend(a, b[..|b| - 1], world, interleave, rank);
      assert (a + b)[..|a + b| - 1] == a + b[..|b| - 1];
    }
  }

  lemma {:induction false} OwnedUnused(n: nat, world: nat, interleave: nat, rank: nat)
    requires world > 0 && interleave > 0
    ensures OwnedCount(Unused(n), world, interleave, rank) == 0
  {
    if n > 0 {
      OwnedUnused(n - 1, world, interleave, rank);
      assert Unused(n)[..n - 1] == Unused(n - 1);
    }
  }

  /** How much of the first `count` positions of a block falls to a rank. */
  function Share(count: nat, interleave: nat, rank: nat): nat {
    if count <= rank * interleave then 0
    else if count <= rank * interleave + interleave then count - rank * interleave
    else interleave
  }

  lemma {:induction false} OwnedInBlock(block: nat, count: nat, world: nat, interleave: nat, rank: nat)
    requires world > 0 && interleave > 0 && rank < world && count <= world * interleave &&
             block * (world * interleave) >= 0
    ensures OwnedCount(Run(block * (world * interleave), count), world, interleave, rank)
         == Share(count, interleave, rank)
  {
    var start := block * (world * interleave);
    if count == 0 {
      Grow(0, rank, interleave);
    } else {
      OwnedInBlock(block, count - 1, world, interleave, rank);
      assert Run(start, count)[..count - 1] == Run(start, count - 1);
      OwnerInBlock(block, count - 1, world, interleave, rank);
    }
  }

  lemma OwnerInBlock(block: nat, i: nat, world: nat, interleave: nat, rank: nat)
    requires world > 0 && interleave > 0 && i < world * interleave && block * (world * interleave) >= 0
    ensures Owner(world, interleave, block * (world * interleave) + i) == rank
        <==> rank * interleave <= i < rank * interleave + interleave
  {
    var place, offset := i / interleave, i % interleave;
    assert i == place * interleave + offset;
    if world <= place {
      Grow(world, place, interleave);
      assert false;
    }
    Compose(world, interleave, block, place, offset);
    assert (rank + 1) * interleave == rank * interleave + interleave;
    assert (place + 1) * interleave == place * interleave + interleave;
    if place < rank {
      Grow(place + 1, rank, interleave);
    } else if rank < place {
      Grow(rank + 1, place, interleave);
    }
  }

  lemma RunSplits(start: nat, a: nat, b: nat)
    ensures Run(start, a + b) == Run(start, a) + Run(start + a, b)
  {
  }

  /** Whole blocks split evenly over the ranks. */
  lemma {:induction false} OwnedInBlocks(block: nat, blocks: nat, world: nat, interleave: nat, rank: nat,
                                         start: nat, length: nat)
    requires world > 0 && interleave > 0 && rank < world
    requires start == block * (world * interleave) && length == blocks * (world * interleave)
    ensures OwnedCount(Run(start, length), world, interleave, rank) == blocks * interleave
  {
    if blocks == 0 {
      assert Run(start, 0) == [];
    } else {
      var size := world * interleave;
      var before := BlockStep(block, blocks, size);
      OwnedInBlocks(block, blocks - 1, world, interleave, rank, start, before);
      LastBlock(block + blocks - 1, world, interleave, rank, start + before);
      RunSplits(start, before, size);
      OwnedAppend(Run(start, before), Run(start + before, size), world, interleave, rank);
      OneMore(blocks - 1, interleave);
    }
  }

  lemma BlockStep(block: nat, blocks: nat, size: nat) returns (before: nat)
    requires blocks > 0
    ensures before == (blocks - 1) * size && blocks * size == before + size
    ensures (block + blocks - 1) * size == block * size + before
  {
    Grow(0, blocks - 1, size);
    before := (blocks - 1) * size;
    OneMore(blocks - 1, size);
    ProductSplits(block, blocks - 1, size);
  }

  lemma LastBlock(block: nat, world: nat, interleave: nat, rank: nat, start: nat)
    requires world > 0 && interleave > 0 && rank < world && start == block * (world * interleave)
    ensures world * interleave > 0
    ensures OwnedCount(Run(start, world * interleave), world, interleave, rank) == interleave
  {
    BlockPositive(world, interleave);
    OwnedInBlock(block, world * interleave, world, interleave, rank);
    FullShare(world, interleave, rank);
  }

  lemma FullShare(world: nat, interleave: nat, rank: nat)
    requires rank < world && interleave > 0
    ensures Share(world * interleave, interleave, rank) == interleave
  {
    assert (rank + 1) * interleave == rank * interleave + interleave;
    Grow(rank + 1, world, interleave);
  }

  /** Complete groups of `ratio` consecutive positions, in any order. */
  function GroupIds(groups: seq<nat>, ratio: nat): seq<int>
  {
    if groups == [] then []
    else GroupIds(groups[..|groups| - 1], ratio) + Run(groups[|groups| - 1] * ratio, ratio)
  }

  /** A group of `ratio` positions gives every rank the same number of whole interleaves. */
  predicate DividesEvenly(ratio: nat, world: nat, interleave: nat)
    requires interleave > 0 && world > 0
  {
    BlockPositive(interleave, world);
    ratio % (interleave * world) == 0
  }

  /** One share of a group for each group that may be selected, and one for the open group. */
  function ShareBound(topk: nat, ratio: nat, world: nat): nat
    requires ratio > 0 && world > 0
  {
    Product(Quotient(topk, ratio) + 1, Quotient(ratio, world))
  }

  /** The localised columns kept: every column when the groups do not divide evenly over the ranks. */
  function SelectionWidth(topk: nat, ratio: nat, world: nat, interleave: nat, full: nat): nat
    requires ratio > 0 && interleave > 0
  {
    if world <= 1 || !DividesEvenly(ratio, world, interleave) then full
    else
      var bound := ShareBound(topk, ratio, world);
      if full <= bound then full else bound
  }

  /** A group that divides evenly gives every rank the same number of positions. */
  lemma GroupSplitsEvenly(group: nat, ratio: nat, world: nat, interleave: nat, rank: nat)
    requires world > 0 && interleave > 0 && rank < world
    requires interleave * world > 0 && ratio % (interleave * world) == 0 && group * ratio >= 0
    ensures OwnedCount(Run(group * ratio, ratio), world, interleave, rank) == ratio / world
  {
    var m := GroupBlocks(group, ratio, world, interleave);
    OwnedInBlocks(group * m, m, world, interleave, rank, group * ratio, ratio);
  }

  /** A group is a whole number of blocks, starting at a block. */
  lemma GroupBlocks(group: nat, ratio: nat, world: nat, interleave: nat) returns (m: nat)
    requires world > 0 && interleave > 0
    requires interleave * world > 0 && ratio % (interleave * world) == 0
    ensures ratio == m * (world * interleave) && ratio / world == m * interleave
    ensures group * m >= 0 && group * ratio == (group * m) * (world * interleave)
  {
    m := ratio / (interleave * world);
    assert interleave * world == world * interleave;
    Reassociate(m, world, interleave);
    Grow(0, m, interleave);
    QuotientUnique(ratio, world, m * interleave, 0);
    Grow(0, group, m);
    Triple(group, m, world * interleave);
  }

  lemma Reassociate(m: nat, world: nat, interleave: nat)
    ensures m * (world * interleave) == (m * interleave) * world
  {
  }

  lemma Triple(a: nat, b: nat, c: nat)
    ensures a * (b * c) == (a * b) * c
  {
  }

  lemma TailFits(group: nat, tail: nat, ratio: nat, world: nat, interleave: nat, rank: nat)
    requires world > 0 && interleave > 0 && rank < world && tail <= ratio
    requires interleave * world > 0 && ratio % (interleave * world) == 0 && group * ratio >= 0
    ensures OwnedCount(Run(group * ratio, tail), world, interleave, rank) <= ratio / world
  {
    GroupSplitsEvenly(group, ratio, world, interleave, rank);
    var start := group * ratio;
    assert Run(start, ratio) == Run(start, tail) + Run(start + tail, ratio - tail);
    OwnedAppend(Run(start, tail), Run(start + tail, ratio - tail), world, interleave, rank);
  }

  lemma {:induction false} GroupsSplitEvenly(groups: seq<nat>, ratio: nat, world: nat, interleave: nat, rank: nat,
                                             each: nat)
    requires world > 0 && interleave > 0 && rank < world
    requires interleave * world > 0 && ratio % (interleave * world) == 0 && each == ratio / world
    ensures OwnedCount(GroupIds(groups, ratio), world, interleave, rank) == |groups| * each
  {
    if groups != [] {
      var n := |groups| - 1;
      var before, last := GroupIds(groups[..n], ratio), groups[n] * ratio;
      GroupsSplitEvenly(groups[..n], ratio, world, interleave, rank, each);
      assert OwnedCount(Run(last, ratio), world, interleave, rank) == each by {
        GroupSplitsEvenly(groups[n], ratio, world, interleave, rank);
      }
      OwnedAppend(before, Run(last, ratio), world, interleave, rank);
      OneMore(n, each);
    }
  }

  /** Complete groups, the causal tail of the open group, then unused columns. */
  function Selection(groups: seq<nat>, open: nat, tail: nat, unused: nat, ratio: nat): seq<int> {
    Grow(0, open, ratio);
    GroupIds(groups, ratio) + Run(open * ratio, tail) + Unused(unused)
  }

  lemma SelectionOwned(groups: seq<nat>, open: nat, tail: nat, unused: nat, ratio: nat, world: nat, interleave: nat,
                       rank: nat)
    requires interleave > 0 && rank < world && tail <= ratio && DividesEvenly(ratio, world, interleave)
    ensures OwnedCount(Selection(groups, open, tail, unused, ratio), world, interleave, rank)
         <= Product(|groups| + 1, ratio / world)
  {
    var rows, end := GroupIds(groups, ratio), Run(open * ratio, tail);
    BlockPositive(interleave, world);
    Grow(0, open, ratio);
    GroupsSplitEvenly(groups, ratio, world, interleave, rank, ratio / world);
    TailFits(open, tail, ratio, world, interleave, rank);
    OwnedAppend(rows, end, world, interleave, rank);
    OwnedAppend(rows + end, Unused(unused), world, interleave, rank);
    OwnedUnused(unused, world, interleave, rank);
    OneMore(|groups|, ratio / world);
  }

  /** Every selection keeps all its owned ids within the selection width, on every rank. */
  lemma SelectionWidthSuffices(groups: seq<nat>, open: nat, tail: nat, unused: nat, topk: nat, ratio: nat,
                               world: nat, interleave: nat, rank: nat)
    requires ratio > 0 && interleave > 0 && rank < world && |groups| <= topk / ratio && tail <= ratio
    ensures var ids := Selection(groups, open, tail, unused, ratio);
            OwnedCount(ids, world, interleave, rank) <= SelectionWidth(topk, ratio, world, interleave, |ids|) <= |ids|
  {
    if world > 1 && DividesEvenly(ratio, world, interleave) {
      SelectionOwned(groups, open, tail, unused, ratio, world, interleave, rank);
      Grow(|groups| + 1, topk / ratio + 1, ratio / world);
    }
  }

  /** Two ranks, 2048 selected positions in groups of four and 2051 columns keep 1026 localised columns. */
  lemma ProductionWidth()
    ensures SelectionWidth(2048, 4, 2, 1, 2051) == 1026
  {
  }

  /** Sharded attention over a selection, cut to the selection width, is unsharded attention. */
  method AttendSelection(groups: seq<nat>, open: nat, tail: nat, unused: nat, topk: nat, ratio: nat,
                         w: seq<real>, v: seq<real>, world: nat, interleave: nat, blocks: nat) returns (result: real)
    requires ratio > 0 && interleave > 0 && world > 0 && |groups| <= topk / ratio && tail <= ratio && AllPositive(w)
    requires InCache(Selection(groups, open, tail, unused, ratio), blocks * (world * interleave))
    ensures result == Attend(Selection(groups, open, tail, unused, ratio), w, v)
  {
    var ids := Selection(groups, open, tail, unused, ratio);
    var width := SelectionWidth(topk, ratio, world, interleave, |ids|);
    WidthCovers(groups, open, tail, unused, topk, ratio, world, interleave, ids);
    result := ShardedAttention(ids, w, v, world, interleave, blocks, width);
  }

  lemma WidthCovers(groups: seq<nat>, open: nat, tail: nat, unused: nat, topk: nat, ratio: nat,
                    world: nat, interleave: nat, ids: seq<int>)
    requires ratio > 0 && interleave > 0 && world > 0 && |groups| <= topk / ratio && tail <= ratio
    requires ids == Selection(groups, open, tail, unused, ratio)
    ensures SelectionWidth(topk, ratio, world, interleave, |ids|) <= |ids|
    ensures OwnedWithin(ids, world, interleave, SelectionWidth(topk, ratio, world, interleave, |ids|))
  {
    SelectionWidthSuffices(groups, open, tail, unused, topk, ratio, world, interleave, 0);
    forall r | 0 <= r < world
      ensures OwnedCount(ids, world, interleave, r) <= SelectionWidth(topk, ratio, world, interleave, |ids|)
    {
      SelectionWidthSuffices(groups, open, tail, unused, topk, ratio, world, interleave, r);
    }
  }

  // ----- causal rows -----

  /** Columns up to the query position hold their own number; later columns are unused. */
  function CausalRow(position: nat, width: nat): (r: seq<int>)
    ensures |r| == width && forall i :: 0 <= i < width ==> r[i] == if i <= position then i else -1
  {
    seq(width, i => if i <= position then i else -1)
  }

  /** Keys a causal row selects. */
  function Visible(position: nat, width: nat): (n: nat)
    ensures n <= width
  {
    if position < width then position + 1 else width
  }

  function FirstGroups(n: nat): (r: seq<nat>)
    ensures |r| == n && forall i :: 0 <= i < n ==> r[i] == i
  {
    seq(n, i requires 0 <= i => i)
  }

  lemma {:induction false} FirstGroupIds(n: nat, ratio: nat)
    requires n * ratio >= 0
    ensures GroupIds(FirstGroups(n), ratio) == Run(0, n * ratio)
  {
    if n > 0 {
      Grow(0, n - 1, ratio);
      OneMore(n - 1, ratio);
      FirstGroupIds(n - 1, ratio);
      assert FirstGroups(n)[..n - 1] == FirstGroups(n - 1);
    }
  }

  /** A causal row is complete groups, the tail of the open group, and unused columns. */
  lemma CausalIsSelection(position: nat, width: nat, ratio: nat)
    requires ratio > 0
    ensures var n := Visible(position, width);
            CausalRow(position, width) == Selection(FirstGroups(n / ratio), n / ratio, n % ratio, width - n, ratio)
  {
    var n := Visible(position, width);
    var groups := n / ratio;
    QuotientBounds(n, ratio);
    Grow(0, groups, ratio);
    FirstGroupIds(groups, ratio);
    RunSplits(0, groups * ratio, n % ratio);
    CausalSplits(position, width);
  }

  lemma CausalSplits(position: nat, width: nat)
    ensures var n := Visible(position, width); CausalRow(position, width) == Run(0, n) + Unused(width - n)
  {
  }

  /** Unused columns change nothing. */
  lemma CausalIsDense(position: nat, width: nat, w: seq<real>, v: seq<real>)
    ensures Attend(CausalRow(position, width), w, v) == Attend(Run(0, Visible(position, width)), w, v)
  {
    var n := Visible(position, width);
    CausalSplits(position, width);
    SumUnused(Run(0, n), width - n, KeyWeight(w));
    SumUnused(Run(0, n), width - n, WeightedValue(w, v));
  }

  /**
   * Two ranks and 1026 of 2051 localised columns: every causal row whose keys are cached gets dense attention up
   * to its position. The cache may hold fewer keys than the row has columns.
   */
  method AttendCausal(position: nat, w: seq<real>, v: seq<real>, blocks: nat) returns (result: real)
    requires AllPositive(w) && Visible(position, 2051) <= 2 * blocks
    ensures result == Attend(Run(0, Visible(position, 2051)), w, v)
  {
    CausalWithin(position);
    CausalIsDense(position, 2051, w, v);
    result := ShardedAttention(CausalRow(position, 2051), w, v, 2, 1, blocks, 1026);
  }

  lemma CausalWithin(position: nat)
    ensures OwnedWithin(CausalRow(position, 2051), 2, 1, 1026)
  {
    var n := Visible(position, 2051);
    CausalIsSelection(position, 2051, 4);
    ProductionWidth();
    WidthCovers(FirstGroups(n / 4), n / 4, n % 4, 2051 - n, 2048, 4, 2, 1, CausalRow(position, 2051));
  }

  // ----- what attention and localisation are -----

  /** The entries of `s` at the selected ids, in order. */
  function Picked(s: seq<real>, ids: seq<int>): seq<real> {
    if ids == [] then []
    else
      var n := |ids| - 1;
      Picked(s, ids[..n]) + (if 0 <= ids[n] < |s| then [s[ids[n]]] else [])
  }

  function Weighted(w: seq<real>, v: seq<real>): (r: seq<real>)
    requires |w| == |v|
    ensures |r| == |w| && forall i :: 0 <= i < |r| ==> r[i] == Times(w[i], v[i])
  {
    seq(|w|, i requires 0 <= i < |w| => Times(w[i], v[i]))
  }

  lemma {:induction false} PickedSums(ids: seq<int>, w: seq<real>, v: seq<real>)
    requires |w| == |v| && InCache(ids, |w|)
    ensures |Picked(w, ids)| == |Picked(v, ids)|
    ensures Mass(ids, w) == Sum(Picked(w, ids))
    ensures Numerator(ids, w, v) == Sum(Weighted(Picked(w, ids), Picked(v, ids)))
  {
    if ids != [] {
      var n := |ids| - 1;
      var a, b := Picked(w, ids[..n]), Picked(v, ids[..n]);
      PickedSums(ids[..n], w, v);
      PickStep(w, ids);
      PickStep(v, ids);
      if ids[n] >= 0 {
        PickedNext(a, b, w[ids[n]], v[ids[n]]);
      }
    }
  }

  lemma PickStep(s: seq<real>, ids: seq<int>)
    requires ids != [] && InCache(ids, |s|)
    ensures var n := |ids| - 1;
            Picked(s, ids) == if ids[n] >= 0 then Picked(s, ids[..n]) + [s[ids[n]]] else Picked(s, ids[..n])
  {
  }

  lemma PickedNext(a: seq<real>, b: seq<real>, x: real, y: real)
    requires |a| == |b|
    ensures Sum(a + [x]) == Sum(a) + x && Sum(Weighted(a + [x], b + [y])) == Sum(Weighted(a, b)) + Times(x, y)
  {
    SumSnoc(a, x);
    WeightedSnoc(a, b, x, y);
    SumSnoc(Weighted(a, b), Times(x, y));
  }

  lemma WeightedSnoc(a: seq<real>, b: seq<real>, x: real, y: real)
    requires |a| == |b|
    ensures Weighted(a + [x], b + [y]) == Weighted(a, b) + [Times(x, y)]
  {
    var left, right := Weighted(a + [x], b + [y]), Weighted(a, b) + [Times(x, y)];
    forall i | 0 <= i < |left| ensures left[i] == right[i] {
      assert i < |a| ==> (a + [x])[i] == a[i] && (b + [y])[i] == b[i];
    }
  }

  lemma {:induction false} PickedPositive(ids: seq<int>, w: seq<real>)
    requires AllPositive(w)
    ensures AllPositive(Picked(w, ids))
  {
    if ids != [] {
      PickedPositive(ids[..|ids| - 1], w);
    }
  }

  /** Attention is the average of the selected values by their weights, and zero when nothing is selected. */
  lemma AttendIsAverage(ids: seq<int>, w: seq<real>, v: seq<real>)
    requires |w| == |v| && InCache(ids, |w|) && AllPositive(w)
    ensures |Picked(w, ids)| == |Picked(v, ids)|
    ensures Picked(w, ids) == [] ==> Attend(ids, w, v) == 0.0
    ensures Picked(w, ids) != [] ==>
              && Sum(Picked(w, ids)) > 0.0
              && Attend(ids, w, v) == Ratio(Sum(Weighted(Picked(w, ids), Picked(v, ids))), Sum(Picked(w, ids)))
  {
    PickedSums(ids, w, v);
    PickedPositive(ids, w);
    if Picked(w, ids) != [] {
      SumPositive(Picked(w, ids));
    }
  }

  lemma {:induction false} PickedRun(s: seq<real>, n: nat)
    requires n <= |s|
    ensures Picked(s, Run(0, n)) == s[..n]
  {
    if n > 0 {
      PickedRun(s, n - 1);
      assert Run(0, n)[..n - 1] == Run(0, n - 1);
    }
  }

  /** Dense attention over the first `n` keys. */
  lemma DenseAttention(n: nat, w: seq<real>, v: seq<real>)
    requires 0 < n <= |w| && |w| == |v| && AllPositive(w)
    ensures Sum(w[..n]) > 0.0
    ensures Attend(Run(0, n), w, v) == Ratio(Sum(Weighted(w[..n], v[..n])), Sum(w[..n]))
  {
    PickedRun(w, n);
    PickedRun(v, n);
    AttendIsAverage(Run(0, n), w, v);
  }

  /** The ids a rank owns, in order. */
  function OwnedIds(ids: seq<int>, world: nat, interleave: nat, rank: nat): seq<int>
    requires world > 0 && interleave > 0
  {
    if ids == [] then []
    else
      var n := |ids| - 1;
      OwnedIds(ids[..n], world, interleave, rank)
      + (if ids[n] >= 0 && Owner(world, interleave, ids[n]) == rank then [ids[n]] else [])
  }

  lemma {:induction false} OwnedLocalsAre(ids: seq<int>, world: nat, interleave: nat, rank: nat)
    requires world > 0 && interleave > 0
    ensures var locals, owned := OwnedLocals(ids, world, interleave, rank), OwnedIds(ids, world, interleave, rank);
            && |locals| == |owned|
            && forall j :: 0 <= j < |locals| ==>
                 locals[j] >= 0 && GlobalOf(world, interleave, rank, locals[j]) == owned[j]
  {
    if ids != [] {
      var n := |ids| - 1;
      OwnedLocalsAre(ids[..n], world, interleave, rank);
      if ids[n] >= 0 && Owner(world, interleave, ids[n]) == rank {
        LocalRoundTrip(world, interleave, ids[n]);
      }
    }
  }

  /** A localised row holds, in order, the local places of the ids its rank owns, and then unused columns. */
  lemma LocalizeMeaning(ids: seq<int>, world: nat, interleave: nat, rank: nat, j: nat)
    requires world > 0 && interleave > 0 && j < |ids|
    ensures var row, owned := Localize(ids, world, interleave, rank), OwnedIds(ids, world, interleave, rank);
            && |row| == |ids| && |owned| <= |ids|
            && (j < |owned| ==> row[j] >= 0 && GlobalOf(world, interleave, rank, row[j]) == owned[j])
            && (j >= |owned| ==> row[j] == -1)
  {
    OwnedLocalsAre(ids, world, interleave, rank);
  }

  /** The width is needed: a full selection with a complete open group fills it on every rank. */
  lemma SelectionWidthIsTight(groups: seq<nat>, open: nat, unused: nat, topk: nat, ratio: nat, world: nat,
                              interleave: nat, rank: nat)
    requires ratio > 0 && interleave > 0 && rank < world && world > 1 && DividesEvenly(ratio, world, interleave)
    requires |groups| == topk / ratio
    ensures var ids := Selection(groups, open, ratio, unused, ratio);
            OwnedCount(ids, world, interleave, rank) == SelectionWidth(topk, ratio, world, interleave, |ids|)
  {
    var ids := Selection(groups, open, ratio, unused, ratio);
    FullSelectionOwned(groups, open, unused, ratio, world, interleave, rank);
    assert OwnedCount(ids, world, interleave, rank) <= |ids|;
  }

  lemma FullSelectionOwned(groups: seq<nat>, open: nat, unused: nat, ratio: nat, world: nat, interleave: nat, rank: nat)
    requires interleave > 0 && rank < world && DividesEvenly(ratio, world, interleave)
    ensures OwnedCount(Selection(groups, open, ratio, unused, ratio), world, interleave, rank)
         == Product(|groups| + 1, Quotient(ratio, world))
  {
    var rows, end := GroupIds(groups, ratio), Run(open * ratio, ratio);
    BlockPositive(interleave, world);
    Grow(0, open, ratio);
    GroupsSplitEvenly(groups, ratio, world, interleave, rank, ratio / world);
    GroupSplitsEvenly(open, ratio, world, interleave, rank);
    OwnedAppend(rows, end, world, interleave, rank);
    OwnedAppend(rows + end, Unused(unused), world, interleave, rank);
    OwnedUnused(unused, world, interleave, rank);
    OneMore(|groups|, ratio / world);
  }
}
