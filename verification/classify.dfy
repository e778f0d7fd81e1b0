/** The two chart classifiers: every nuclide gets a half-life bucket and a
    dominant decay mode, both read from its ground state (level 0). */
module Classify {
  import opened Common
  import opened Nuclides
  import opened Ranking

  /** Upper bounds (exclusive, in seconds) of the half-life buckets. */
  const Thresholds: seq<real> := [
    0.0000001, 0.000001, 0.00001, 0.0001, 0.001, 0.01, 0.1, 1.0,
    10.0, 100.0, 1000.0, 10000.0, 100000.0, 10000000.0, 10000000000.0,
    1000000000000000.0]

  /** The bucket labels: label i covers [Thresholds[i-1], Thresholds[i]). */
  const BucketLabels: seq<string> := [
    "l100ns", "100ns", "1us", "10us", "100us", "1ms", "10ms", "100ms",
    "1s", "10s", "100s", "1ks", "10ks", "100ks", "10Ms", "1e10s", "1e15s"]

  /** Every label the half-life classifier can produce. */
  const HalfLifeClassLabels: set<string> := set l | l in BucketLabels + ["ST", "SU", "UN"]

  /** The special labels are not bucket labels. */
  lemma SpecialLabelsDistinct()
    ensures "ST" !in BucketLabels && "SU" !in BucketLabels && "UN" !in BucketLabels
  {
  }

  /** The first threshold at or after `k` that `sec` lies below. */
  function BucketFrom(sec: real, k: nat): (i: nat)
    requires k <= |Thresholds|
    ensures k <= i <= |Thresholds|
    ensures forall j :: k <= j < i ==> Thresholds[j] <= sec
    ensures i < |Thresholds| ==> sec < Thresholds[i]
    decreases |Thresholds| - k
  {
    if k == |Thresholds| || sec < Thresholds[k] then k else BucketFrom(sec, k + 1)
  }

  /** The bucket of a half-life in seconds: below every threshold before it and
      not below its own. */
  function BucketIndex(sec: real): (i: nat)
    ensures i < |BucketLabels|
    ensures forall j :: 0 <= j < i ==> Thresholds[j] <= sec
    ensures i < |Thresholds| ==> sec < Thresholds[i]
  {
    BucketFrom(sec, 0)
  }

  /** The bucket is the only index with that property. */
  lemma BucketUnique(sec: real, i: nat)
    requires i <= |Thresholds|
    requires forall j :: 0 <= j < i ==> Thresholds[j] <= sec
    requires i < |Thresholds| ==> sec < Thresholds[i]
    ensures BucketIndex(sec) == i
  {
  }

  /** Longer half-lives never fall in an earlier bucket. */
  lemma BucketMonotone(s1: real, s2: real)
    requires s1 <= s2
    ensures BucketIndex(s1) <= BucketIndex(s2)
  {
  }

  /** The bucket chain as the classifier spells it out. */
  function BucketLabel(sec: real): string {
    if sec < 0.0000001 then "l100ns"
    else if sec < 0.000001 then "100ns"
    else if sec < 0.00001 then "1us"
    else if sec < 0.0001 then "10us"
    else if sec < 0.001 then "100us"
    else if sec < 0.01 then "1ms"
    else if sec < 0.1 then "10ms"
    else if sec < 1.0 then "100ms"
    else if sec < 10.0 then "1s"
    else if sec < 100.0 then "10s"
    else if sec < 1000.0 then "100s"
    else if sec < 10000.0 then "1ks"
    else if sec < 100000.0 then "10ks"
    else if sec < 10000000.0 then "100ks"
    else if sec < 10000000000.0 then "10Ms"
    else if sec < 1000000000000000.0 then "1e10s"
    else "1e15s"
  }

  lemma ThresholdValues()
    ensures var t := Thresholds;
      && t[0] == 0.0000001 && t[1] == 0.000001 && t[2] == 0.00001 && t[3] == 0.0001
      && t[4] == 0.001 && t[5] == 0.01 && t[6] == 0.1 && t[7] == 1.0
      && t[8] == 10.0 && t[9] == 100.0 && t[10] == 1000.0 && t[11] == 10000.0
      && t[12] == 100000.0 && t[13] == 10000000.0 && t[14] == 10000000000.0
      && t[15] == 1000000000000000.0
  {
  }

  /** The spelled-out chain agrees with the threshold table. */
  lemma BucketLabelByTable(sec: real)
    ensures BucketLabel(sec) == BucketLabels[BucketIndex(sec)]
  {
    var i := BucketIndex(sec);
    var t := Thresholds;
    ThresholdValues();
    if i < 16 {
      assert sec < t[i];
    }
    if i > 0 {
      assert t[i - 1] <= sec;
    }
  }

  /** The half-life class of a nuclide from its ground state: UN without data,
      ST when stable, SU for a unit outside the table, else its bucket. */
  function HalfLifeClass(nuc: Nuclide): (r: string)
    ensures r in HalfLifeClassLabels
  {
    if |nuc.levels| == 0 then "UN"
    else
      match nuc.levels[0].halflife
      case None => "UN"
      case Some(Stable) => "ST"
      case Some(Timed(v, u, _, _)) =>
        match ToSeconds(v, u)
        case None => "SU"
        case Some(sec) =>
          BucketLabelByTable(sec);
          assert BucketLabels[BucketIndex(sec)] in BucketLabels + ["ST", "SU", "UN"];
          BucketLabel(sec)
  }

  /** Each class names one situation of the ground state, and a timed half-life
      in a known unit lands in the bucket of its value in seconds. */
  lemma HalfLifeClassMeaning(nuc: Nuclide)
    ensures HalfLifeClass(nuc) == "UN" <==> |nuc.levels| == 0 || nuc.levels[0].halflife.None?
    ensures HalfLifeClass(nuc) == "ST" <==> |nuc.levels| > 0 && nuc.levels[0].halflife == Some(Stable)
    ensures HalfLifeClass(nuc) == "SU" <==>
      |nuc.levels| > 0 && nuc.levels[0].halflife.Some? && nuc.levels[0].halflife.value.Timed?
      && nuc.levels[0].halflife.value.unit !in HalfLifeUnits
    ensures (&& |nuc.levels| > 0 && nuc.levels[0].halflife.Some? && nuc.levels[0].halflife.value.Timed?
             && nuc.levels[0].halflife.value.unit in HalfLifeUnits) ==>
      var h := nuc.levels[0].halflife.value;
      HalfLifeClass(nuc) == BucketLabels[BucketIndex(ToSeconds(h.value, h.unit).value)]
  {
    SpecialLabelsDistinct();
    if |nuc.levels| > 0 && nuc.levels[0].halflife.Some? && nuc.levels[0].halflife.value.Timed? {
      var h := nuc.levels[0].halflife.value;
      if h.unit in HalfLifeUnits {
        BucketLabelByTable(ToSeconds(h.value, h.unit).value);
      }
    }
  }

  /** The decay-mode class of a nuclide from its ground state: the name of the
      first mode of the as-written ranking of observed then predicted modes;
      STABLE for a stable ground state without decay modes; UNKNOWN otherwise. */
  function DecayModeClass(nuc: Nuclide): string {
    if |nuc.levels| == 0 then "UNKNOWN"
    else
      var g := nuc.levels[0];
      match g.decayModes
      case None => if g.halflife == Some(Stable) then "STABLE" else "UNKNOWN"
      case Some(dm) =>
        var modes := dm.observed + dm.predicted;
        if |modes| == 0 then "UNKNOWN" else RankedAsWritten(modes)[0].mode
  }

  /** The decay-mode class is the name of the largest quantified mode (the
      first listed among equals), or of the first listed mode when none has a
      branch ratio; the name-keyed lookup of the program does not change it. */
  lemma DecayModeClassMeaning(nuc: Nuclide)
    requires |nuc.levels| > 0 && nuc.levels[0].decayModes.Some?
    requires var dm := nuc.levels[0].decayModes.value; |dm.observed + dm.predicted| > 0
    ensures var dm := nuc.levels[0].decayModes.value;
      var modes := dm.observed + dm.predicted;
      var q := Select(modes, IsQuantified);
      && DecayModeClass(nuc) == Ranked(modes)[0].mode
      && DecayModeClass(nuc) == (if |q| > 0 then q[FirstMaxIndex(q)].mode else modes[0].mode)
  {
    var dm := nuc.levels[0].decayModes.value;
    var modes := dm.observed + dm.predicted;
    AsWrittenSameNames(modes);
    RankedHead(modes);
  }

  /** The largest quantified mode dominates: when some mode has a branch ratio,
      the class is the name of a quantified mode no other quantified mode beats. */
  lemma DecayModeClassDominant(nuc: Nuclide)
    requires |nuc.levels| > 0 && nuc.levels[0].decayModes.Some?
    requires var dm := nuc.levels[0].decayModes.value;
      exists m :: m in dm.observed + dm.predicted && IsQuantified(m)
    ensures var dm := nuc.levels[0].decayModes.value;
      var modes := dm.observed + dm.predicted;
      exists m :: && m in modes && IsQuantified(m) && m.mode == DecayModeClass(nuc)
                  && forall m' :: m' in modes && IsQuantified(m') ==> Ratio(m') <= Ratio(m)
  {
    var dm := nuc.levels[0].decayModes.value;
    var modes := dm.observed + dm.predicted;
    var q := Select(modes, IsQuantified);
    var w :| w in modes && IsQuantified(w);
    assert w in q;
    DecayModeClassMeaning(nuc);
    var m := q[FirstMaxIndex(q)];
    assert m in q;
    forall m' | m' in modes && IsQuantified(m')
      ensures Ratio(m') <= Ratio(m)
    {
      assert m' in q;
      var j :| 0 <= j < |q| && q[j] == m';
    }
  }

  /** A STABLE class means a stable ground state without decay-mode data,
      unless some listed decay mode is itself named STABLE. */
  lemma DecayModeClassStable(nuc: Nuclide)
    requires !ListsModeNamed(nuc, "STABLE")
    ensures DecayModeClass(nuc) == "STABLE" <==>
      |nuc.levels| > 0 && nuc.levels[0].decayModes.None? && nuc.levels[0].halflife == Some(Stable)
  {
    if |nuc.levels| > 0 && nuc.levels[0].decayModes.Some? {
      var dm := nuc.levels[0].decayModes.value;
      var modes := dm.observed + dm.predicted;
      if |modes| > 0 {
        AsWrittenSameNames(modes);
        var r := Ranked(modes);
        assert r[0] in multiset(modes);
        assert r[0] in modes;
      }
    }
  }

  /** An UNKNOWN class means no levels, a non-stable ground state without
      decay-mode data, or an empty mode list, unless some listed decay mode is
      itself named UNKNOWN. */
  lemma DecayModeClassUnknown(nuc: Nuclide)
    requires !ListsModeNamed(nuc, "UNKNOWN")
    ensures DecayModeClass(nuc) == "UNKNOWN" <==>
      || |nuc.levels| == 0
      || (nuc.levels[0].decayModes.None? && nuc.levels[0].halflife != Some(Stable))
      || (nuc.levels[0].decayModes.Some? &&
          |nuc.levels[0].decayModes.value.observed + nuc.levels[0].decayModes.value.predicted| == 0)
  {
    if |nuc.levels| > 0 && nuc.levels[0].decayModes.Some? {
      var dm := nuc.levels[0].decayModes.value;
      var modes := dm.observed + dm.predicted;
      if |modes| > 0 {
        AsWrittenSameNames(modes);
        var r := Ranked(modes);
        assert r[0] in multiset(modes);
        assert r[0] in modes;
      }
    }
  }

  /** The ground state lists a decay mode called `name`. */
  ghost predicate ListsModeNamed(nuc: Nuclide, name: string) {
    && |nuc.levels| > 0
    && nuc.levels[0].decayModes.Some?
    && exists m :: m in nuc.levels[0].decayModes.value.observed + nuc.levels[0].decayModes.value.predicted && m.mode == name
  }

  /** One classified entry: coordinates and class label. */
  datatype Classified = Classified(z: int, n: int, kind: string)

  /** Classifies every nuclide of the dataset by half-life, in dataset order. */
  method ClassifyHalfLives(d: Dataset) returns (out: seq<Classified>)
    ensures |out| == |d|
    ensures forall i :: 0 <= i < |d| ==>
      out[i] == Classified(d[i].1.z, d[i].1.n, HalfLifeClass(d[i].1)) && out[i].kind in HalfLifeClassLabels
  {
    out := [];
    var k := 0;
    while k < |d|
      invariant 0 <= k <= |d|
      invariant |out| == k
      invariant forall i :: 0 <= i < k ==> out[i] == Classified(d[i].1.z, d[i].1.n, HalfLifeClass(d[i].1))
    {
      var nuc := d[k].1;
      out := out + [Classified(nuc.z, nuc.n, HalfLifeClass(nuc))];
      k := k + 1;
    }
    forall i | 0 <= i < |d|
      ensures out[i].kind in HalfLifeClassLabels
    {
      assert out[i].kind == HalfLifeClass(d[i].1);
    }
  }

  /** Classifies every nuclide of the dataset by dominant decay mode, in dataset order. */
  method ClassifyDecayModes(d: Dataset) returns (out: seq<Classified>)
    ensures |out| == |d|
    ensures forall i :: 0 <= i < |d| ==> out[i] == Classified(d[i].1.z, d[i].1.n, DecayModeClass(d[i].1))
  {
    out := [];
    var k := 0;
    while k < |d|
      invariant 0 <= k <= |d|
      invariant |out| == k
      invariant forall i :: 0 <= i < k ==> out[i] == Classified(d[i].1.z, d[i].1.n, DecayModeClass(d[i].1))
    {
      var nuc := d[k].1;
      out := out + [Classified(nuc.z, nuc.n, DecayModeClass(nuc))];
      k := k + 1;
    }
  }
}
