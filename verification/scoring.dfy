/** The scoring engine: the weighted sum of unit toxicities over the
    selected constituents, the clamp to 10, the width of the result bar and
    the colour band, plus the submit step that refuses to score unless the
    percentages add up to 100. */
module Scoring {
  import opened Wrappers
  import opened ToxicityTable
  import opened Selection

  /** One selected particle: an element, a concentration level and the
      percentage of the device it makes up. */
  datatype Constituent = Constituent(element: string, concentration: real, percentage: real)

  /** The colour of the result bar, from least to most toxic. */
  datatype Band = Green | YellowGreen | Yellow | Orange | Red

  /** The outcome of one calculation: the unclamped score, the clamped
      score, its band, and every (element, concentration) pair that had no
      data, in input order. */
  datatype ScoreResult = ScoreResult(
    final: real,
    normalized: real,
    band: Band,
    missing: seq<(string, real)>)

  /** Submitting either stops at the percentage gate or yields a score. */
  datatype Outcome = Stopped | Scored(result: ScoreResult)

  const MaxScore: real := 10.0

  /** Every constituent names an element of the table (the element input
      only offers the table's keys). */
  predicate Known(table: Table, cs: seq<Constituent>)
  {
    forall c :: c in cs ==> c.element in table
  }

  /** Every constituent's percentage is in the accepted range. */
  predicate PercentagesInRange(cs: seq<Constituent>)
  {
    forall c :: c in cs ==> ValidPercentage(c.percentage)
  }

  function Percentages(cs: seq<Constituent>): (ps: seq<real>)
    ensures |ps| == |cs|
    ensures forall i :: 0 <= i < |cs| ==> ps[i] == cs[i].percentage
  {
    if |cs| == 0 then [] else [cs[0].percentage] + Percentages(cs[1..])
  }

  /** True when the table has no value for the constituent's pair. */
  predicate NoData(table: Table, c: Constituent)
    requires c.element in table
  {
    Lookup(table, c.element, c.concentration).None?
  }

  /** What one constituent adds to the score: its unit toxicity weighted by
      its share of the device, or nothing when there is no data. */
  function Contribution(table: Table, c: Constituent): (r: real)
    requires c.element in table
    ensures NoData(table, c) ==> r == 0.0
  {
    match Lookup(table, c.element, c.concentration)
    case Some(t) => t * (c.percentage / 100.0)
    case None => 0.0
  }

  /** The final toxicity: the sum of all contributions, starting from 0,
      so an empty selection scores 0. */
  function WeightedSum(table: Table, cs: seq<Constituent>): (r: real)
    requires Known(table, cs)
    ensures |cs| == 0 ==> r == 0.0
  {
    if |cs| == 0 then 0.0 else Contribution(table, cs[0]) + WeightedSum(table, cs[1..])
  }

  /** The pairs reported as having no data, in input order, one per
      constituent without data. */
  function MissingPairs(table: Table, cs: seq<Constituent>): (r: seq<(string, real)>)
    requires Known(table, cs)
    ensures |r| <= |cs|
  {
    if |cs| == 0 then []
    else
      var rest := MissingPairs(table, cs[1..]);
      assert forall c :: c in cs[1..] ==> c in cs;
      if NoData(table, cs[0]) then [(cs[0].element, cs[0].concentration)] + rest else rest
  }

  /** The reported pairs are exactly the pairs of the constituents that
      have no data. */
  lemma {:induction false} MissingPairsExact(table: Table, cs: seq<Constituent>)
    requires Known(table, cs)
    ensures forall c :: c in cs && NoData(table, c) ==> (c.element, c.concentration) in MissingPairs(table, cs)
    ensures forall k :: k in MissingPairs(table, cs) ==> k.0 in table && k.1 !in table[k.0]
    ensures forall k :: k in MissingPairs(table, cs) ==>
      exists c :: c in cs && c.element == k.0 && c.concentration == k.1
  {
    if |cs| > 0 {
      assert forall c :: c in cs[1..] ==> c in cs;
      assert forall c :: c in cs ==> c == cs[0] || c in cs[1..];
      MissingPairsExact(table, cs[1..]);
    }
  }

  /** The clamp: the smaller of the score and 10. Only the upper end is
      clamped. */
  function Normalize(final: real): (r: real)
    ensures r <= final && r <= MaxScore
    ensures r == final || r == MaxScore
  {
    if MaxScore < final then MaxScore else final
  }

  /** Width of the result bar, in percent of its container: a clamped
      score fills between none and all of it, and all of it exactly at 10. */
  function BarWidth(normalized: real): (w: real)
    ensures 0.0 <= normalized <= MaxScore ==> 0.0 <= w <= 100.0
    ensures w == 100.0 <==> normalized == MaxScore
  {
    normalized * 10.0
  }

  /** The bar colour, assigned by a chain of strict comparisons in which a
      later passing test overrides an earlier one. */
  function ColourBand(x: real): (b: Band)
    ensures x <= 2.0 <==> b == Green
    ensures 2.0 < x <= 4.0 <==> b == YellowGreen
    ensures 4.0 < x <= 6.0 <==> b == Yellow
    ensures 6.0 < x <= 8.0 <==> b == Orange
    ensures 8.0 < x <==> b == Red
  {
    var b := Green;
    var b := if x > 2.0 then YellowGreen else b;
    var b := if x > 4.0 then Yellow else b;
    var b := if x > 6.0 then Orange else b;
    var b := if x > 8.0 then Red else b;
    b
  }

  /** Position of a band in the order green < ... < red. */
  function Rank(b: Band): nat
  {
    match b
    case Green => 0
    case YellowGreen => 1
    case Yellow => 2
    case Orange => 3
    case Red => 4
  }

  /** The result shown for a given final score. */
  function Classify(final: real, missing: seq<(string, real)>): (r: ScoreResult)
    ensures r.final == final && r.missing == missing
    ensures r.normalized <= MaxScore
    ensures final <= MaxScore ==> r.normalized == final
    ensures final > MaxScore ==> r.normalized == MaxScore
    ensures r.band == ColourBand(r.normalized)
  {
    var n := Normalize(final);
    ScoreResult(final, n, ColourBand(n), missing)
  }

  // ---------------------------------------------------------------------
  // The calculation as the calculator performs it: one pass over the inputs.
  // ---------------------------------------------------------------------

  /** Walks the constituents in order, adding each one's weighted unit
      toxicity and recording each pair without data; a missing pair does not
      stop the walk. */
  method Calculate(table: Table, cs: seq<Constituent>) returns (final: real, missing: seq<(string, real)>)
    requires Known(table, cs)
    ensures final == WeightedSum(table, cs)
    ensures missing == MissingPairs(table, cs)
  {
    final := 0.0;
    missing := [];
    var i := 0;
    while i < |cs|
      invariant 0 <= i <= |cs|
      invariant Known(table, cs[..i])
      invariant final == WeightedSum(table, cs[..i])
      invariant missing == MissingPairs(table, cs[..i])
    {
      var c := cs[i];
      assert cs[..i + 1] == cs[..i] + [c];
      AppendConstituent(table, cs[..i], c);
      var toxicity := Lookup(table, c.element, c.concentration);
      if toxicity.Some? {
        final := final + toxicity.value * (c.percentage / 100.0);
      } else {
        missing := missing + [(c.element, c.concentration)];
      }
      i := i + 1;
    }
    assert cs[..i] == cs;
  }

  /** Submitting a selection: stop unless the percentages add up to exactly
      100, otherwise calculate and classify. */
  method Submit(table: Table, cs: seq<Constituent>) returns (r: Outcome)
    requires Known(table, cs)
    ensures r.Stopped? <==> !PassesGate(Percentages(cs))
    ensures r.Scored? ==> r.result.final == WeightedSum(table, cs)
    ensures r.Scored? ==> r.result.missing == MissingPairs(table, cs)
    ensures r.Scored? ==> r.result.normalized == Normalize(r.result.final)
    ensures r.Scored? ==> r.result.band == ColourBand(r.result.normalized)
  {
    if Sum(Percentages(cs)) != 100.0 {
      return Stopped;
    }
    var final, missing := Calculate(table, cs);
    r := Scored(Classify(final, missing));
  }

  // ---------------------------------------------------------------------
  // Properties of the score.
  // ---------------------------------------------------------------------

  /** Every constituent of the tail is a constituent of the whole. */
  lemma TailMembers(cs: seq<Constituent>)
    requires |cs| > 0
    ensures forall c :: c in cs[1..] ==> c in cs
  {
  }

  lemma KnownConcat(table: Table, a: seq<Constituent>, b: seq<Constituent>)
    requires Known(table, a) && Known(table, b)
    ensures Known(table, a + b)
  {
  }

  /** The score of a concatenation is the sum of the scores of its parts. */
  lemma {:induction false} ConcatConstituents(table: Table, a: seq<Constituent>, b: seq<Constituent>)
    requires Known(table, a) && Known(table, b)
    ensures Known(table, a + b)
    ensures WeightedSum(table, a + b) == WeightedSum(table, a) + WeightedSum(table, b)
  {
    KnownConcat(table, a, b);
    if |a| > 0 {
      assert (a + b)[0] == a[0];
      assert (a + b)[1..] == a[1..] + b;
      assert forall c :: c in a[1..] ==> c in a;
      ConcatConstituents(table, a[1..], b);
    } else {
      assert a + b == b;
    }
  }

  /** The missing list of a concatenation is the concatenation of the
      missing lists of its parts. */
  lemma {:induction false} ConcatMissing(table: Table, a: seq<Constituent>, b: seq<Constituent>)
    requires Known(table, a) && Known(table, b)
    ensures Known(table, a + b)
    ensures MissingPairs(table, a + b) == MissingPairs(table, a) + MissingPairs(table, b)
  {
    KnownConcat(table, a, b);
    if |a| > 0 {
      assert (a + b)[0] == a[0];
      assert (a + b)[1..] == a[1..] + b;
      assert forall c :: c in a[1..] ==> c in a;
      ConcatMissing(table, a[1..], b);
    } else {
      assert a + b == b;
    }
  }

  /** Appending a constituent adds exactly its own contribution, and
      extends the missing list only when it has no data. */
  lemma AppendConstituent(table: Table, cs: seq<Constituent>, c: Constituent)
    requires Known(table, cs) && c.element in table
    ensures Known(table, cs + [c])
    ensures WeightedSum(table, cs + [c]) == WeightedSum(table, cs) + Contribution(table, c)
    ensures NoData(table, c) ==> MissingPairs(table, cs + [c]) == MissingPairs(table, cs) + [(c.element, c.concentration)]
    ensures !NoData(table, c) ==> MissingPairs(table, cs + [c]) == MissingPairs(table, cs)
  {
    ConcatConstituents(table, cs, [c]);
    ConcatMissing(table, cs, [c]);
  }

  /** The score splits around any one constituent. */
  lemma SplitAround(table: Table, cs: seq<Constituent>, i: nat)
    requires Known(table, cs) && i < |cs|
    ensures Known(table, cs[..i]) && Known(table, cs[i + 1..])
    ensures WeightedSum(table, cs) ==
      WeightedSum(table, cs[..i]) + Contribution(table, cs[i]) + WeightedSum(table, cs[i + 1..])
  {
    assert cs == cs[..i] + ([cs[i]] + cs[i + 1..]);
    assert forall c :: c in cs[..i] ==> c in cs;
    assert forall c :: c in cs[i + 1..] ==> c in cs;
    ConcatConstituents(table, [cs[i]], cs[i + 1..]);
    ConcatConstituents(table, cs[..i], [cs[i]] + cs[i + 1..]);
  }

  /** A constituent without data leaves the score exactly as if it had
      not been entered. */
  lemma MissingContributesNothing(table: Table, cs: seq<Constituent>, i: nat)
    requires Known(table, cs) && i < |cs|
    requires NoData(table, cs[i])
    ensures Known(table, cs[..i] + cs[i + 1..])
    ensures WeightedSum(table, cs[..i] + cs[i + 1..]) == WeightedSum(table, cs)
  {
    SplitAround(table, cs, i);
    ConcatConstituents(table, cs[..i], cs[i + 1..]);
  }

  /** Replacing one constituent changes the score by the difference of
      the two contributions. */
  lemma ReplaceConstituent(table: Table, cs: seq<Constituent>, i: nat, c': Constituent)
    requires Known(table, cs) && i < |cs| && c'.element in table
    ensures Known(table, cs[i := c'])
    ensures WeightedSum(table, cs[i := c']) ==
      WeightedSum(table, cs) - Contribution(table, cs[i]) + Contribution(table, c')
  {
    var cs' := cs[i := c'];
    assert Known(table, cs') by {
      assert forall c :: c in cs' ==> c == c' || c in cs;
    }
    SplitAround(table, cs, i);
    SplitAround(table, cs', i);
    assert cs'[..i] == cs[..i] && cs'[i + 1..] == cs[i + 1..];
  }

  /** The score is linear in each percentage: changing one constituent's
      percentage by d changes the score by its unit toxicity times d/100,
      and not at all when that constituent has no data. */
  lemma PercentageLinearity(table: Table, cs: seq<Constituent>, i: nat, p: real)
    requires Known(table, cs) && i < |cs|
    ensures Known(table, cs[i := cs[i].(percentage := p)])
    ensures NoData(table, cs[i]) ==>
      WeightedSum(table, cs[i := cs[i].(percentage := p)]) == WeightedSum(table, cs)
    ensures !NoData(table, cs[i]) ==>
      WeightedSum(table, cs[i := cs[i].(percentage := p)]) ==
      WeightedSum(table, cs) + table[cs[i].element][cs[i].concentration] * ((p - cs[i].percentage) / 100.0)
  {
    var c' := cs[i].(percentage := p);
    ReplaceConstituent(table, cs, i, c');
    ContributionShift(table, cs[i], p);
    if NoData(table, cs[i]) {
      assert Contribution(table, c') == Contribution(table, cs[i]);
    } else {
      var d := table[cs[i].element][cs[i].concentration] * ((p - cs[i].percentage) / 100.0);
      assert Contribution(table, c') == Contribution(table, cs[i]) + d;
    }
  }

  /** Changing a constituent's percentage from p to p' changes its
      contribution by its unit toxicity times (p' - p)/100. */
  lemma ContributionShift(table: Table, c: Constituent, p: real)
    requires c.element in table
    ensures NoData(table, c) ==> Contribution(table, c.(percentage := p)) == Contribution(table, c)
    ensures !NoData(table, c) ==>
      Contribution(table, c.(percentage := p)) ==
      Contribution(table, c) + table[c.element][c.concentration] * ((p - c.percentage) / 100.0)
  {
    if !NoData(table, c) {
      var t := table[c.element][c.concentration];
      ScaleDifference(t, p, c.percentage);
    }
  }

  /** A selection in which no pair has data scores 0. */
  lemma {:induction false} NoDataScoresZero(table: Table, cs: seq<Constituent>)
    requires Known(table, cs)
    requires forall c :: c in cs ==> NoData(table, c)
    ensures WeightedSum(table, cs) == 0.0
  {
    if |cs| > 0 {
      TailMembers(cs);
      NoDataScoresZero(table, cs[1..]);
    }
  }

  /** With non-negative table values and percentages the score is
      non-negative. */
  lemma {:induction false} FinalNonNegative(table: Table, cs: seq<Constituent>)
    requires Known(table, cs) && NonNegative(table) && PercentagesInRange(cs)
    ensures WeightedSum(table, cs) >= 0.0
  {
    if |cs| > 0 {
      TailMembers(cs);
      FinalNonNegative(table, cs[1..]);
      ContributionNonNegative(table, cs[0]);
    }
  }

  /** One constituent with a non-negative percentage adds a non-negative
      amount to a non-negative table's score. */
  lemma ContributionNonNegative(table: Table, c: Constituent)
    requires c.element in table && NonNegative(table) && c.percentage >= 0.0
    ensures Contribution(table, c) >= 0.0
  {
    match Lookup(table, c.element, c.concentration)
    case Some(t) =>
      assert t >= 0.0;
      ShareMonotone(0.0, t, c.percentage);
      ShareOfZero(c.percentage);
    case None =>
  }

  /** One constituent adds at most m times its share when no unit
      toxicity exceeds m. */
  lemma ContributionBounded(table: Table, c: Constituent, m: real)
    requires c.element in table && c.percentage >= 0.0
    requires forall e, k :: e in table && k in table[e] ==> table[e][k] <= m
    requires m >= 0.0
    ensures Contribution(table, c) <= m * (c.percentage / 100.0)
  {
    match Lookup(table, c.element, c.concentration)
    case Some(t) =>
      assert t <= m;
      ShareMonotone(t, m, c.percentage);
    case None =>
      ShareMonotone(0.0, m, c.percentage);
      ShareOfZero(c.percentage);
  }

  /** The largest score a selection could reach if every pair had unit
      toxicity m: the sum of m times each share. */
  function MaxContributions(cs: seq<Constituent>, m: real): real
  {
    if |cs| == 0 then 0.0 else m * (cs[0].percentage / 100.0) + MaxContributions(cs[1..], m)
  }

  /** Scoring with a uniform unit toxicity m gives m times the total
      percentage over 100. */
  lemma {:induction false} MaxContributionsTotal(cs: seq<Constituent>, m: real)
    ensures MaxContributions(cs, m) == m * (Sum(Percentages(cs)) / 100.0)
  {
    if |cs| > 0 {
      MaxContributionsTotal(cs[1..], m);
      TotalPercentageStep(cs);
      ShareSplits(m, cs[0].percentage, Sum(Percentages(cs[1..])));
    }
  }

  /** When every unit toxicity is at most m, each constituent contributes
      at most m times its share. */
  lemma {:induction false} FinalBoundedByContributions(table: Table, cs: seq<Constituent>, m: real)
    requires Known(table, cs) && PercentagesInRange(cs)
    requires m >= 0.0
    requires forall e, k :: e in table && k in table[e] ==> table[e][k] <= m
    ensures WeightedSum(table, cs) <= MaxContributions(cs, m)
  {
    if |cs| > 0 {
      TailMembers(cs);
      FinalBoundedByContributions(table, cs[1..], m);
      ContributionBounded(table, cs[0], m);
      assert WeightedSum(table, cs) == Contribution(table, cs[0]) + WeightedSum(table, cs[1..]);
      assert MaxContributions(cs, m) == m * (cs[0].percentage / 100.0) + MaxContributions(cs[1..], m);
    }
  }

  /** When every unit toxicity is at most m, the score is at most m times
      the total percentage over 100; with the gate passed, at most m. */
  lemma FinalBoundedByMax(table: Table, cs: seq<Constituent>, m: real)
    requires Known(table, cs) && PercentagesInRange(cs)
    requires m >= 0.0
    requires forall e, k :: e in table && k in table[e] ==> table[e][k] <= m
    ensures WeightedSum(table, cs) <= m * (Sum(Percentages(cs)) / 100.0)
  {
    FinalBoundedByContributions(table, cs, m);
    MaxContributionsTotal(cs, m);
  }

  /** The total percentage is the first percentage plus the rest's total. */
  lemma TotalPercentageStep(cs: seq<Constituent>)
    requires |cs| > 0
    ensures Sum(Percentages(cs)) == cs[0].percentage + Sum(Percentages(cs[1..]))
  {
    assert Percentages(cs)[1..] == Percentages(cs[1..]);
  }

  /** A mixture that passes the gate scores at most the largest unit
      toxicity. */
  lemma GatedFinalAtMostMax(table: Table, cs: seq<Constituent>, m: real)
    requires Known(table, cs) && PercentagesInRange(cs) && PassesGate(Percentages(cs))
    requires m >= 0.0
    requires forall e, k :: e in table && k in table[e] ==> table[e][k] <= m
    ensures WeightedSum(table, cs) <= m
  {
    FinalBoundedByMax(table, cs, m);
  }

  lemma ScaleDifference(t: real, p: real, q: real)
    ensures t * (p / 100.0) - t * (q / 100.0) == t * ((p - q) / 100.0)
  {
  }

  lemma ShareSplits(m: real, a: real, b: real)
    ensures m * ((a + b) / 100.0) == m * (a / 100.0) + m * (b / 100.0)
  {
  }


  lemma ShareOfZero(p: real)
    ensures 0.0 * (p / 100.0) == 0.0
  {
  }

  lemma ShareMonotone(t: real, m: real, p: real)
    requires t <= m && p >= 0.0
    ensures t * (p / 100.0) <= m * (p / 100.0)
  {
  }

  /** With valid inputs the clamped score lies in [0, 10] and the bar width
      in [0, 100]. */
  lemma ScoreBounds(table: Table, cs: seq<Constituent>)
    requires Known(table, cs) && NonNegative(table) && PercentagesInRange(cs)
    ensures 0.0 <= Normalize(WeightedSum(table, cs)) <= MaxScore
    ensures 0.0 <= BarWidth(Normalize(WeightedSum(table, cs))) <= 100.0
  {
    FinalNonNegative(table, cs);
  }

  /** Clamping twice is clamping once. */
  lemma NormalizeIdempotent(final: real)
    ensures Normalize(Normalize(final)) == Normalize(final)
  {
  }

  /** The band never goes down as the clamped score goes up. */
  lemma BandMonotone(a: real, b: real)
    requires a <= b
    ensures Rank(ColourBand(a)) <= Rank(ColourBand(b))
  {
  }

  /** The band boundaries: exactly 2 is still green, just above 2 is not. */
  lemma BandBoundaries()
    ensures ColourBand(2.0) == Green
    ensures ColourBand(2.01) == YellowGreen
    ensures ColourBand(8.0) == Orange
    ensures ColourBand(Normalize(15.0)) == Red
    ensures Normalize(10.0) == 10.0 && Normalize(15.0) == 10.0
  {
  }

  /** Every constituent uses an element and a level the inputs offer. */
  predicate Selectable(cs: seq<Constituent>)
  {
    forall c :: c in cs ==> c.element in Elements && c.concentration in ConcentrationValues
  }

  /** With the literal table, nothing a user can select is ever reported as
      missing, and the score is non-negative. */
  lemma SelectableNeverMissing(cs: seq<Constituent>)
    requires Selectable(cs) && PercentagesInRange(cs)
    ensures Known(ToxicityData, cs)
    ensures MissingPairs(ToxicityData, cs) == []
    ensures WeightedSum(ToxicityData, cs) >= 0.0
  {
    ElementsAreTableKeys();
    assert Known(ToxicityData, cs) by {
      forall c | c in cs
        ensures c.element in ToxicityData
      {
        assert c.element in set e | e in Elements;
      }
    }
    var r := MissingPairs(ToxicityData, cs);
    MissingPairsExact(ToxicityData, cs);
    if r != [] {
      var k := r[0];
      assert k in r;
      var c :| c in cs && c.element == k.0 && c.concentration == k.1;
      SelectableLookupSucceeds(c.element, c.concentration);
      assert false;
    }
    TableIsNonNegative();
    FinalNonNegative(ToxicityData, cs);
  }

  /** The most toxic single selection of the literal table saturates the
      clamp and lands in the red band. */
  lemma LiteralTableExample()
    ensures var cs := [Constituent("Element3", 250.0, 100.0)];
            Known(ToxicityData, cs) && WeightedSum(ToxicityData, cs) == 153.6 &&
            Normalize(WeightedSum(ToxicityData, cs)) == MaxScore &&
            ColourBand(Normalize(WeightedSum(ToxicityData, cs))) == Red
  {
  }

  /** A half-and-half mixture on a two-element table scores the mean of
      the two unit toxicities. */
  lemma TwoElementExample()
    ensures var table := map["E1" := map[1.0 := 2.0], "E2" := map[1.0 := 4.0]];
            var cs := [Constituent("E1", 1.0, 50.0), Constituent("E2", 1.0, 50.0)];
            Known(table, cs) && WeightedSum(table, cs) == 3.0 &&
            ColourBand(Normalize(WeightedSum(table, cs))) == YellowGreen &&
            MissingPairs(table, cs) == []
  {
  }
}
