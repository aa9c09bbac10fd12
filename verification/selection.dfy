/** The input side of the calculator: how many particles may be entered,
    the range of a percentage, the percentages a fresh selection starts
    with, and the gate that lets a calculation proceed only when the
    percentages add up to exactly 100. Values are exact reals, not floats. */
module Selection {
  import opened Wrappers

  const MinParticles: nat := 1
  const MaxParticles: nat := 10

  /** The particle-count input accepts 1 to 10; any accepted count has
      default percentages that pass the gate. */
  function ValidCount(n: int): (ok: bool)
    ensures ok ==> n >= 1 && PassesGate(DefaultPercentages(n))
  {
    MinParticles <= n <= MaxParticles
  }

  /** A percentage input accepts 0 to 100, both included, so the share it
      weights a unit toxicity by is a fraction between 0 and 1. */
  function ValidPercentage(p: real): (ok: bool)
    ensures ok ==> 0.0 <= p / 100.0 <= 1.0
  {
    0.0 <= p <= 100.0
  }

  /** The sum of a list of percentages. */
  function Sum(ps: seq<real>): real
  {
    if |ps| == 0 then 0.0 else ps[0] + Sum(ps[1..])
  }

  predicate AllZero(ps: seq<real>)
  {
    forall i :: 0 <= i < |ps| ==> ps[i] == 0.0
  }

  lemma {:induction false} SumOfZeros(ps: seq<real>)
    requires AllZero(ps)
    ensures Sum(ps) == 0.0
  {
    if |ps| > 0 {
      SumOfZeros(ps[1..]);
    }
  }

  /** The percentages a selection of `n` particles starts with: a list of
      `n` zeros whose first entry is then set to 100. */
  function DefaultPercentages(n: nat): (r: seq<real>)
    requires n >= 1
    ensures |r| == n
    ensures r[0] == 100.0
    ensures forall i :: 1 <= i < n ==> r[i] == 0.0
    ensures forall i :: 0 <= i < n ==> ValidPercentage(r[i])
    ensures Sum(r) == 100.0
  {
    var zeros := seq(n, _ => 0.0);
    var r := zeros[0 := 100.0];
    SumOfZeros(r[1..]);
    r
  }

  /** The percentages kept across re-runs of the page: the stored list is
      kept when there is one of the requested length, and otherwise
      replaced by the defaults for that length. */
  function SyncPercentages(stored: Option<seq<real>>, n: nat): (r: seq<real>)
    requires n >= 1
    ensures |r| == n
    ensures stored.Some? && |stored.value| == n ==> r == stored.value
    ensures stored.None? || |stored.value| != n ==> r == DefaultPercentages(n)
    ensures stored.None? || |stored.value| != n ==> PassesGate(r)
  {
    if stored.None? || |stored.value| != n then DefaultPercentages(n) else stored.value
  }

  /** A calculation proceeds only when the percentages add up to exactly
      100; in particular an empty selection never proceeds. */
  function PassesGate(ps: seq<real>): (ok: bool)
    ensures ok ==> |ps| >= 1
  {
    Sum(ps) == 100.0
  }

  /** Synchronising twice with the same count changes nothing further. */
  lemma SyncIsStable(stored: Option<seq<real>>, n: nat)
    requires n >= 1
    ensures SyncPercentages(Some(SyncPercentages(stored, n)), n) == SyncPercentages(stored, n)
  {
  }

  /** A fresh selection of any allowed size passes the gate. */
  lemma DefaultsPassGate(n: nat)
    requires ValidCount(n)
    ensures PassesGate(DefaultPercentages(n))
  {
  }

  /** The gate uses exact equality: no tolerance either side of 100. */
  lemma GateIsExact()
    ensures !PassesGate([99.9])
    ensures !PassesGate([100.1])
    ensures !PassesGate([50.0, 49.9])
    ensures PassesGate([100.0])
    ensures PassesGate([33.3, 33.3, 33.4])
    ensures PassesGate([0.1, 66.6, 33.3])
  {
  }
}
