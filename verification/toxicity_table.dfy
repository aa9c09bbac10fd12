/** The hard-coded toxicity table of the calculator and the lookup into it.
    A table maps an element name to a map from concentration level to the
    unit toxicity of that element at that level. */
module ToxicityTable {
  import opened Wrappers

  type Table = map<string, map<real, real>>

  /** The concentration levels offered for selection, in the order shown. */
  const ConcentrationValues: seq<real> :=
    [0.49, 0.98, 1.95, 3.91, 7.81, 15.63, 31.25, 62.5, 125.0, 250.0]

  /** The element names offered for selection, in the table's key order. */
  const Elements: seq<string> := ["Element1", "Element2", "Element3"]

  /** The literal table of the calculator. */
  const ToxicityData: Table := map[
    "Element1" := map[0.49 := 0.1, 0.98 := 0.2, 1.95 := 0.4, 3.91 := 0.8, 7.81 := 1.6,
                      15.63 := 3.2, 31.25 := 6.4, 62.5 := 12.8, 125.0 := 25.6, 250.0 := 51.2],
    "Element2" := map[0.49 := 0.05, 0.98 := 0.1, 1.95 := 0.2, 3.91 := 0.4, 7.81 := 0.8,
                      15.63 := 1.6, 31.25 := 3.2, 62.5 := 6.4, 125.0 := 12.8, 250.0 := 25.6],
    "Element3" := map[0.49 := 0.3, 0.98 := 0.6, 1.95 := 1.2, 3.91 := 2.4, 7.81 := 4.8,
                      15.63 := 9.6, 31.25 := 19.2, 62.5 := 38.4, 125.0 := 76.8, 250.0 := 153.6]
  ]

  /** Every element has exactly the given concentration levels as keys. */
  predicate Rectangular(table: Table, levels: seq<real>)
  {
    forall e :: e in table ==> table[e].Keys == set c | c in levels
  }

  /** No stored unit toxicity is negative. */
  predicate NonNegative(table: Table)
  {
    forall e, c :: e in table && c in table[e] ==> table[e][c] >= 0.0
  }

  /** Strictly ascending, hence also free of duplicates. */
  predicate StrictlyAscending(s: seq<real>)
  {
    forall i, j :: 0 <= i < j < |s| ==> s[i] < s[j]
  }

  /** The unit toxicity of `element` at `concentration`, or None where the
      calculator answers with its "No data available" sentinel. An element
      that is not a key of the table makes the calculator raise, so callers must only
      pass known elements. */
  function Lookup(table: Table, element: string, concentration: real): (r: Option<real>)
    requires element in table
    ensures r.Some? <==> concentration in table[element]
    ensures r.Some? ==> r.value == table[element][concentration]
  {
    if concentration in table[element] then Some(table[element][concentration]) else None
  }

  /** The literal table is rectangular over the selectable levels. */
  lemma TableIsRectangular()
    ensures Rectangular(ToxicityData, ConcentrationValues)
  {
  }

  /** The literal table holds no negative toxicity. */
  lemma TableIsNonNegative()
    ensures NonNegative(ToxicityData)
  {
  }

  /** The selectable elements are exactly the table's keys, each once. */
  lemma ElementsAreTableKeys()
    ensures (set e | e in Elements) == ToxicityData.Keys
    ensures |Elements| == |ToxicityData|
  {
  }

  /** The selectable levels are listed in strictly ascending order. */
  lemma ConcentrationsAscending()
    ensures StrictlyAscending(ConcentrationValues)
  {
  }

  /** Any pair a user can select looks up successfully, with a
      non-negative value. */
  lemma SelectableLookupSucceeds(element: string, concentration: real)
    requires element in Elements
    requires concentration in ConcentrationValues
    ensures element in ToxicityData
    ensures Lookup(ToxicityData, element, concentration).Some?
    ensures Lookup(ToxicityData, element, concentration).value >= 0.0
  {
    ElementsAreTableKeys();
    TableIsRectangular();
    TableIsNonNegative();
    assert concentration in set c | c in ConcentrationValues;
  }
}
