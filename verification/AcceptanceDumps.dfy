/** Acceptance of drafted tokens per round, and the per-position rates summed back into tokens per round. */
module AcceptanceDumps {
  import opened RealSums

  const PLACEHOLDER := -1

  /** One verification round as dumped. */
  datatype Payload = Payload(draft: seq<int>, output: seq<int>, valid: int)

  datatype Row = Row(accepted: nat, valid: int, draft: nat)

  datatype Finish = AllAcceptBonus | RejectOrRecover | Other

  /** Both sides carry the same token at every position below `n`, and none is a placeholder. */
  predicate AgreesTo(draft: seq<int>, output: seq<int>, n: nat) {
    n <= |draft| && n <= |output| && forall i :: 0 <= i < n ==> output[i] == draft[i] != PLACEHOLDER
  }

  method StepAcceptance(p: Payload) returns (row: Row)
    ensures Records(p, row)
  {
    var accepted := 0;
    while accepted < |p.draft|
      invariant AgreesTo(p.draft, p.output, accepted)
    {
      if accepted >= |p.output| {
        break;
      }
      if p.output[accepted] == PLACEHOLDER {
        break;
      }
      if p.output[accepted] != p.draft[accepted] {
        break;
      }
      accepted := accepted + 1;
    }
    row := Row(accepted, p.valid, |p.draft|);
  }

  /** `row` records `p`: its draft length, its valid count and the longest agreement of its two sides. */
  predicate Records(p: Payload, row: Row) {
    && row.valid == p.valid && row.draft == |p.draft|
    && AgreesTo(p.draft, p.output, row.accepted) && !AgreesTo(p.draft, p.output, row.accepted + 1)
  }

  method StepRows(payloads: seq<Payload>) returns (rows: seq<Row>)
    ensures |rows| == |payloads| && Plausible(rows)
    ensures forall i :: 0 <= i < |rows| ==> Records(payloads[i], rows[i])
  {
    rows := [];
    for i := 0 to |payloads|
      invariant |rows| == i && Plausible(rows)
      invariant forall k :: 0 <= k < i ==> Records(payloads[k], rows[k])
    {
      var row := StepAcceptance(payloads[i]);
      rows := rows + [row];
    }
  }

  /** With real draft ids, acceptance is the longest common prefix. */
  lemma AcceptedIsCommonPrefix(draft: seq<int>, output: seq<int>, n: nat)
    requires forall i :: 0 <= i < |draft| ==> draft[i] >= 0
    ensures AgreesTo(draft, output, n) <==> n <= |draft| && n <= |output| && draft[..n] == output[..n]
  {
    if n <= |draft| && n <= |output| && draft[..n] == output[..n] {
      forall i | 0 <= i < n ensures output[i] == draft[i] != PLACEHOLDER {
        assert draft[..n][i] == output[..n][i];
      }
    }
  }

  function FinishOf(r: Row): Finish {
    if r.accepted == r.draft && r.valid == r.draft + 1 then AllAcceptBonus
    else if r.valid == r.accepted + 1 then RejectOrRecover
    else Other
  }

  /** A round is irregular exactly when it does not emit its accepted drafts plus one token. */
  lemma OtherMeansIrregular(r: Row)
    ensures FinishOf(r) == Other <==> r.valid != r.accepted + 1
    ensures FinishOf(r) == AllAcceptBonus <==> r.valid == r.accepted + 1 && r.accepted == r.draft
  {
  }

  // ----- per-position rates -----

  /** Rounds that drafted a token at `pos`. */
  function Samples(rows: seq<Row>, pos: nat): nat {
    if rows == [] then 0
    else Samples(rows[..|rows| - 1], pos) + (if pos < rows[|rows| - 1].draft then 1 else 0)
  }

  /** Rounds that accepted a token at `pos`. */
  function Hits(rows: seq<Row>, pos: nat): nat {
    if rows == [] then 0
    else Hits(rows[..|rows| - 1], pos) + (if pos < rows[|rows| - 1].accepted then 1 else 0)
  }

  function AcceptedTotal(rows: seq<Row>): nat {
    if rows == [] then 0 else AcceptedTotal(rows[..|rows| - 1]) + rows[|rows| - 1].accepted
  }

  function ValidTotal(rows: seq<Row>): int {
    if rows == [] then 0 else ValidTotal(rows[..|rows| - 1]) + rows[|rows| - 1].valid
  }

  /** One past the last drafted position. */
  function Width(rows: seq<Row>): (n: nat)
    ensures forall i :: 0 <= i < |rows| ==> rows[i].draft <= n
    ensures n == 0 || exists i :: 0 <= i < |rows| && rows[i].draft == n
  {
    if rows == [] then 0
    else
      var before := Width(rows[..|rows| - 1]);
      if before < rows[|rows| - 1].draft then rows[|rows| - 1].draft else before
  }

  predicate Plausible(rows: seq<Row>) {
    forall i :: 0 <= i < |rows| ==> rows[i].accepted <= rows[i].draft
  }

  /** Every accepted position is drafted in every round. */
  predicate AcceptedEverywhereDrafted(rows: seq<Row>) {
    forall i, j :: 0 <= i < |rows| && 0 <= j < |rows| ==> rows[i].accepted <= rows[j].draft
  }

  lemma {:induction false} SamplesFull(rows: seq<Row>, pos: nat)
    ensures Samples(rows, pos) <= |rows|
    ensures Samples(rows, pos) == |rows| <==> forall i :: 0 <= i < |rows| ==> pos < rows[i].draft
  {
    if rows != [] {
      var n := |rows| - 1;
      SamplesFull(rows[..n], pos);
      assert rows == rows[..n] + [rows[n]];
    }
  }

  lemma {:induction false} SamplesNone(rows: seq<Row>, pos: nat)
    ensures Samples(rows, pos) == 0 <==> forall i :: 0 <= i < |rows| ==> rows[i].draft <= pos
  {
    if rows != [] {
      var n := |rows| - 1;
      SamplesNone(rows[..n], pos);
      assert rows == rows[..n] + [rows[n]];
    }
  }

  lemma {:induction false} NoHits(rows: seq<Row>, pos: nat)
    ensures Hits(rows, pos) == 0 <==> forall i :: 0 <= i < |rows| ==> rows[i].accepted <= pos
  {
    if rows != [] {
      var n := |rows| - 1;
      NoHits(rows[..n], pos);
      assert rows == rows[..n] + [rows[n]];
    }
  }

  /** Hits over the first `width` positions. */
  function HitsTo(rows: seq<Row>, width: nat): nat {
    if width == 0 then 0 else HitsTo(rows, width - 1) + Hits(rows, width - 1)
  }

  lemma {:induction false} HitsToNext(rows: seq<Row>, width: nat)
    requires rows != []
    ensures var last := rows[|rows| - 1].accepted;
            HitsTo(rows, width) == HitsTo(rows[..|rows| - 1], width) + (if last <= width then last else width)
  {
    if width > 0 {
      HitsToNext(rows, width - 1);
    }
  }

  lemma {:induction false} HitsToNone(width: nat)
    ensures HitsTo([], width) == 0
  {
    if width > 0 {
      HitsToNone(width - 1);
    }
  }

  /** Counting accepted tokens by position or by round gives the same number. */
  lemma {:induction false} HitsCountAccepted(rows: seq<Row>, width: nat)
    requires forall i :: 0 <= i < |rows| ==> rows[i].accepted <= width
    ensures HitsTo(rows, width) == AcceptedTotal(rows)
  {
    if rows == [] {
      HitsToNone(width);
    } else {
      HitsCountAccepted(rows[..|rows| - 1], width);
      HitsToNext(rows, width);
    }
  }

  function PrefixRate(rows: seq<Row>, pos: nat): real {
    if Samples(rows, pos) == 0 then 0.0 else Ratio(Hits(rows, pos) as real, Samples(rows, pos) as real)
  }

  function PrefixRates(rows: seq<Row>, width: nat): real {
    if width == 0 then 0.0 else PrefixRates(rows, width - 1) + PrefixRate(rows, width - 1)
  }

  function MeanAccepted(rows: seq<Row>): real
    requires rows != []
  {
    Ratio(AcceptedTotal(rows) as real, |rows| as real)
  }

  function MeanOutput(rows: seq<Row>): real
    requires rows != []
  {
    Ratio(ValidTotal(rows) as real, |rows| as real)
  }

  /** Tokens per round as estimated from the per-position rates. */
  method TokensFromRates(rows: seq<Row>) returns (estimate: real)
    requires Plausible(rows)
    ensures estimate == 1.0 + PrefixRates(rows, Width(rows))
  {
    var rates := 0.0;
    for pos := 0 to Width(rows)
      invariant rates == PrefixRates(rows, pos)
    {
      var samples: nat, hits: nat := 0, 0;
      for i := 0 to |rows|
        invariant samples == Samples(rows[..i], pos) && hits == Hits(rows[..i], pos)
      {
        assert rows[..i + 1][..i] == rows[..i];
        if pos < rows[i].draft {
          samples := samples + 1;
          if pos < rows[i].accepted {
            hits := hits + 1;
          }
        }
      }
      assert rows[..|rows|] == rows;
      if samples > 0 {
        rates := rates + Ratio(hits as real, samples as real);
      }
    }
    estimate := 1.0 + rates;
  }

  // ----- rates as counts -----

  ghost function Drafted(rows: seq<Row>, pos: nat): set<int> {
    set i | 0 <= i < |rows| && pos < rows[i].draft
  }

  ghost function Accepted(rows: seq<Row>, pos: nat): set<int> {
    set i | 0 <= i < |rows| && pos < rows[i].accepted
  }

  lemma {:induction false} SamplesAreRounds(rows: seq<Row>, pos: nat)
    ensures Samples(rows, pos) == |Drafted(rows, pos)|
  {
    if rows == [] {
      assert Drafted(rows, pos) == {};
    } else {
      var n := |rows| - 1;
      var before := Drafted(rows[..n], pos);
      SamplesAreRounds(rows[..n], pos);
      assert Drafted(rows, pos) == if pos < rows[n].draft then before + {n} else before;
    }
  }

  lemma {:induction false} HitsAreRounds(rows: seq<Row>, pos: nat)
    ensures Hits(rows, pos) == |Accepted(rows, pos)|
  {
    if rows == [] {
      assert Accepted(rows, pos) == {};
    } else {
      var n := |rows| - 1;
      var before := Accepted(rows[..n], pos);
      HitsAreRounds(rows[..n], pos);
      assert Accepted(rows, pos) == if pos < rows[n].accepted then before + {n} else before;
    }
  }

  /** The rate at a drafted position is the share of the rounds that drafted it which accepted it. */
  lemma RateMeaning(rows: seq<Row>, pos: nat)
    requires Drafted(rows, pos) != {}
    ensures PrefixRate(rows, pos) == Ratio(|Accepted(rows, pos)| as real, |Drafted(rows, pos)| as real)
  {
    SamplesAreRounds(rows, pos);
    HitsAreRounds(rows, pos);
  }

  // ----- rates against means -----

  lemma RatioOverMore(hits: real, samples: real, rounds: real)
    requires 0.0 <= hits && 0.0 < samples <= rounds
    ensures Ratio(hits, samples) >= Ratio(hits, rounds)
    ensures Ratio(hits, samples) == Ratio(hits, rounds) <==> hits == 0.0 || samples == rounds
  {
    var a, b := Ratio(hits, samples), Ratio(hits, rounds);
    assert a * samples == hits && b * rounds == hits;
    if hits > 0.0 && samples < rounds {
      RatioDrops(a, b, samples, rounds);
    } else if hits == 0.0 {
      ZeroRatio(samples);
      ZeroRatio(rounds);
    }
  }

  lemma RatioDrops(a: real, b: real, samples: real, rounds: real)
    requires 0.0 < samples < rounds && a * samples == b * rounds > 0.0
    ensures a > b
  {
    if b <= 0.0 {
      ProductNotPositive(b, rounds);
      assert false;
    }
    if a <= b {
      ProductMonotone(a, b, samples);
      ProductStrict(b, samples, rounds);
      assert false;
    }
  }

  lemma ProductNotPositive(b: real, y: real)
    requires b <= 0.0 && y > 0.0
    ensures b * y <= 0.0
  {
  }

  lemma ProductMonotone(a: real, b: real, y: real)
    requires a <= b && y > 0.0
    ensures a * y <= b * y
  {
  }

  lemma ProductStrict(b: real, x: real, y: real)
    requires x < y && b > 0.0
    ensures b * x < b * y
  {
  }

  /** At this position no rate is inflated by rounds that drafted fewer tokens. */
  predicate PositionExact(rows: seq<Row>, pos: nat) {
    Hits(rows, pos) == 0 || Samples(rows, pos) == |rows|
  }

  predicate PositionsExact(rows: seq<Row>, width: nat) {
    forall pos: nat :: pos < width ==> PositionExact(rows, pos)
  }

  lemma DraftedSomewhere(rows: seq<Row>, pos: nat)
    requires pos < Width(rows)
    ensures 0 < Samples(rows, pos) <= |rows|
  {
    SamplesFull(rows, pos);
    SamplesNone(rows, pos);
  }

  lemma {:induction false} RatesCoverMean(rows: seq<Row>, width: nat)
    requires rows != [] && width <= Width(rows)
    ensures PrefixRates(rows, width) >= Ratio(HitsTo(rows, width) as real, |rows| as real)
    ensures PrefixRates(rows, width) == Ratio(HitsTo(rows, width) as real, |rows| as real) <==>
            PositionsExact(rows, width)
  {
    var rounds := |rows| as real;
    if width == 0 {
      ZeroRatio(rounds);
    } else {
      var pos := width - 1;
      RatesCoverMean(rows, pos);
      DraftedSomewhere(rows, pos);
      RatioOverMore(Hits(rows, pos) as real, Samples(rows, pos) as real, rounds);
      RatioAdds(HitsTo(rows, pos) as real, Hits(rows, pos) as real, rounds);
      ExactNext(rows, pos);
    }
  }

  lemma ExactNext(rows: seq<Row>, pos: nat)
    ensures PositionsExact(rows, pos + 1) <==> PositionsExact(rows, pos) && PositionExact(rows, pos)
  {
  }

  lemma ExactPositions(rows: seq<Row>)
    requires Plausible(rows)
    ensures PositionsExact(rows, Width(rows)) <==> AcceptedEverywhereDrafted(rows)
  {
    if PositionsExact(rows, Width(rows)) {
      forall i, j | 0 <= i < |rows| && 0 <= j < |rows| ensures rows[i].accepted <= rows[j].draft {
        var pos := rows[j].draft;
        NoHits(rows, pos);
        SamplesFull(rows, pos);
        assert pos < Width(rows) ==> PositionExact(rows, pos);
      }
    }
    if AcceptedEverywhereDrafted(rows) {
      forall pos: nat | pos < Width(rows) ensures PositionExact(rows, pos) {
        NoHits(rows, pos);
        SamplesFull(rows, pos);
      }
    }
  }

  /**
   * The rate estimate never falls below one plus the mean of accepted drafts, and meets it exactly when every
   * accepted position is drafted in every round.
   */
  lemma RatesMeetMeanIff(rows: seq<Row>)
    requires rows != [] && Plausible(rows)
    ensures 1.0 + PrefixRates(rows, Width(rows)) >= 1.0 + MeanAccepted(rows)
    ensures 1.0 + PrefixRates(rows, Width(rows)) == 1.0 + MeanAccepted(rows) <==> AcceptedEverywhereDrafted(rows)
  {
    RatesCoverMean(rows, Width(rows));
    HitsCountAccepted(rows, Width(rows));
    ExactPositions(rows);
  }

  lemma {:induction false} RegularTotal(rows: seq<Row>)
    requires forall i :: 0 <= i < |rows| ==> FinishOf(rows[i]) != Other
    ensures ValidTotal(rows) == AcceptedTotal(rows) + |rows|
  {
    if rows != [] {
      RegularTotal(rows[..|rows| - 1]);
    }
  }

  lemma RegularMean(rows: seq<Row>)
    requires rows != [] && forall i :: 0 <= i < |rows| ==> FinishOf(rows[i]) != Other
    ensures MeanOutput(rows) == 1.0 + MeanAccepted(rows)
  {
    RegularTotal(rows);
    var rounds := |rows| as real;
    RatioAdds(AcceptedTotal(rows) as real, rounds, rounds);
    SelfRatio(rounds);
  }

  /** Equal draft lengths and no irregular round: rates, accepted drafts and output tokens tell the same story. */
  lemma SameLengthRoundsAgree(rows: seq<Row>, length: nat)
    requires rows != [] && Plausible(rows)
    requires forall i :: 0 <= i < |rows| ==> rows[i].draft == length && FinishOf(rows[i]) != Other
    ensures 1.0 + PrefixRates(rows, Width(rows)) == 1.0 + MeanAccepted(rows) == MeanOutput(rows)
  {
    RatesMeetMeanIff(rows);
    RegularMean(rows);
  }

  /** Draft lengths one and two: the estimate overstates the mean. */
  lemma MixedLengthsOverstate()
    ensures var rows := [Row(0, 1, 1), Row(2, 3, 2)];
            Plausible(rows) && FinishOf(rows[0]) != Other && FinishOf(rows[1]) != Other
            && 1.0 + PrefixRates(rows, Width(rows)) > MeanOutput(rows)
  {
    var rows := [Row(0, 1, 1), Row(2, 3, 2)];
    assert rows[..1] == [Row(0, 1, 1)];
    RatesMeetMeanIff(rows);
    assert rows[1].accepted > rows[0].draft;
    RegularMean(rows);
  }
}
