/** The nuclide dataset: one record per nuclide symbol, each holding an ordered
    list of energy levels (index 0 is the ground state), plus the half-life
    unit table shared by the filters and the classifier. */
module Nuclides {
  import opened Common

  /** An uncertainty annotation, tagged by its "type" field. Numbers that are
      only ever printed are kept in their textual form. */
  datatype Uncertainty =
    | Asymmetric(upperLimit: string, lowerLimit: string)
    | Approximation
    | Limit(limitType: string, isInclusive: bool)
    | Plain(value: string)  // every other type, read through its "value" field

  /** A half-life is the marker STABLE or a number with a unit; `nds` is the
      pre-formatted text the compact table shows. */
  datatype HalfLife =
    | Stable
    | Timed(value: real, unit: string, uncertainty: Uncertainty, nds: string)

  datatype MassExcess = MassExcess(value: real, unit: string, uncertainty: Uncertainty, nds: string)

  /** One decay mode; `value` is the branch ratio in percent, absent when unknown. */
  datatype DecayMode = DecayMode(mode: string, value: Option<real>, uncertainty: Uncertainty)

  datatype DecayModes = DecayModes(observed: seq<DecayMode>, predicted: seq<DecayMode>)

  datatype Energy = Energy(value: string, unit: string)

  datatype Level = Level(
    energy: Energy,
    spinParity: Option<string>,
    massExcess: Option<MassExcess>,
    halflife: Option<HalfLife>,
    decayModes: Option<DecayModes>)

  datatype Nuclide = Nuclide(name: string, z: int, n: int, a: int, levels: seq<Level>)

  /** The observed decay modes of a level, none when it has no decay-mode block. */
  function ObservedOf(l: Level): seq<DecayMode> {
    if l.decayModes.Some? then l.decayModes.value.observed else []
  }

  /** The dataset dict as its sequence of (symbol, record) items, in insertion order. */
  type Dataset = seq<(string, Nuclide)>

  /** What the code silently relies on but never checks: symbols are distinct
      and every mass number is Z + N. */
  ghost predicate WellFormed(d: Dataset) {
    && DistinctKeys(d)
    && forall i :: 0 <= i < |d| ==> d[i].1.a == d[i].1.z + d[i].1.n
  }

  /** Any sub-dataset of a well-formed dataset is well formed. */
  lemma SubseqWellFormed(r: Dataset, d: Dataset)
    requires Subseq(r, d) && WellFormed(d)
    ensures WellFormed(r)
  {
    SubseqDistinct(r, d);
    SubseqMembers(r, d);
    forall i | 0 <= i < |r|
      ensures r[i].1.a == r[i].1.z + r[i].1.n
    {
      assert r[i] in d;
    }
  }

  /** Seconds per half-life unit; a year is the Julian year. */
  const HalfLifeUnits: map<string, real> := map[
    "fs" := 0.000000000000001,
    "ps" := 0.000000000001,
    "ns" := 0.000000001,
    "us" := 0.000001,
    "ms" := 0.001,
    "s" := 1.0,
    "m" := 60.0,
    "h" := 3600.0,
    "d" := 86400.0,
    "y" := 31557600.0,
    "ky" := 31557600.0 * 1000.0,
    "My" := 31557600.0 * 1000000.0,
    "Gy" := 31557600.0 * 1000000000.0]

  /** A half-life in seconds, or None when the unit is not in the table (the
      "special unit" case, which the callers treat separately). */
  function ToSeconds(value: real, unit: string): (r: Option<real>)
    ensures r.None? <==> unit !in HalfLifeUnits
    ensures r.Some? ==> r.value / HalfLifeUnits[unit] == value
  {
    UnitsPositive();
    if unit in HalfLifeUnits then Some(value * HalfLifeUnits[unit]) else None
  }

  /** Every unit is a positive number of seconds, growing along the table. */
  lemma UnitsPositive()
    ensures forall u :: u in HalfLifeUnits ==> HalfLifeUnits[u] > 0.0
    ensures HalfLifeUnits["fs"] < HalfLifeUnits["ps"] < HalfLifeUnits["ns"] < HalfLifeUnits["us"]
      < HalfLifeUnits["ms"] < HalfLifeUnits["s"] < HalfLifeUnits["m"] < HalfLifeUnits["h"]
      < HalfLifeUnits["d"] < HalfLifeUnits["y"] < HalfLifeUnits["ky"] < HalfLifeUnits["My"]
      < HalfLifeUnits["Gy"]
  {
  }

  /** Converting to seconds keeps the order of two values given in the same unit. */
  lemma ToSecondsMonotone(v1: real, v2: real, unit: string)
    requires unit in HalfLifeUnits
    ensures v1 < v2 <==> ToSeconds(v1, unit).value < ToSeconds(v2, unit).value
  {
    UnitsPositive();
    var f := HalfLifeUnits[unit];
    if v1 < v2 {
      assert (v2 - v1) * f > 0.0;
    } else {
      assert (v1 - v2) * f >= 0.0;
    }
  }
}
