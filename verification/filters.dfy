/** The three composable filters over the dataset: Z/N/A bounds with parity,
    half-life range, and decay-mode membership. Each returns the sub-dict of
    the entries it keeps, in the input order. */
module Filters {
  import opened Common
  import opened Nuclides

  // ---------------------------------------------------------------------------
  // Z/N/A bounds and parity

  /** Constraints on one of Z, N, A: inclusive optional limits, and a parity
      index (1 = odd only, 2 = even only, anything else unconstrained). */
  datatype Bounds = Bounds(min: Option<int>, max: Option<int>, parity: int)

  datatype ZnaQuery = ZnaQuery(z: Bounds, n: Bounds, a: Bounds)

  /** `x` meets every supplied limit and its parity constraint. Python's `%`
      floors and Dafny's is Euclidean; for the divisor 2 both give 0 or 1. */
  predicate Within(x: int, b: Bounds) {
    && (b.min.None? || x >= b.min.value)
    && (b.max.None? || x <= b.max.value)
    && (b.parity == 1 ==> x % 2 == 1)
    && (b.parity == 2 ==> x % 2 == 0)
  }

  predicate PassesZNA(nuc: Nuclide, q: ZnaQuery) {
    Within(nuc.z, q.z) && Within(nuc.n, q.n) && Within(nuc.a, q.a)
  }

  /** The Z/N/A filter keeps exactly the records meeting all nine constraints,
      values unchanged, in the input order. */
  function FilterZNA(d: Dataset, q: ZnaQuery): (r: Dataset)
    ensures forall e :: e in r <==> e in d && PassesZNA(e.1, q)
    ensures Subseq(r, d)
  {
    Select(d, (e: (string, Nuclide)) => PassesZNA(e.1, q))
  }

  /** `b1` constrains at least as much as `b2`. */
  predicate Tighter(b1: Bounds, b2: Bounds) {
    && (b2.min.None? || (b1.min.Some? && b1.min.value >= b2.min.value))
    && (b2.max.None? || (b1.max.Some? && b1.max.value <= b2.max.value))
    && (b2.parity == b1.parity || (b2.parity != 1 && b2.parity != 2))
  }

  /** Tightening any bound or adding a parity constraint never adds a result. */
  lemma FilterZNAMonotone(d: Dataset, q1: ZnaQuery, q2: ZnaQuery)
    requires Tighter(q1.z, q2.z) && Tighter(q1.n, q2.n) && Tighter(q1.a, q2.a)
    ensures Subseq(FilterZNA(d, q1), FilterZNA(d, q2))
    ensures |FilterZNA(d, q1)| <= |FilterZNA(d, q2)|
  {
    SelectMonotone(d, (e: (string, Nuclide)) => PassesZNA(e.1, q1), (e: (string, Nuclide)) => PassesZNA(e.1, q2));
  }

  // ---------------------------------------------------------------------------
  // Half-life

  /** What one level decides while the levels are scanned in order. */
  datatype Step = Continue | Keep | Stop

  /** Level `j` is the first level that decides, and it decides to keep. */
  ghost predicate KeptAt(levels: seq<Level>, step: Level -> Step, j: int) {
    && 0 <= j < |levels|
    && step(levels[j]) == Keep
    && forall i :: 0 <= i < j ==> step(levels[i]) == Continue
  }

  /** The `for level in levels` loop with its `break`s: the first level that
      does not say Continue decides. */
  function Scan(levels: seq<Level>, step: Level -> Step): (kept: bool)
    ensures kept <==> exists j :: KeptAt(levels, step, j)
  {
    if |levels| == 0 then false
    else
      match step(levels[0])
      case Keep =>
        assert KeptAt(levels, step, 0);
        true
      case Stop => false
      case Continue =>
        var kept := Scan(levels[1..], step);
        assert kept ==> exists j :: KeptAt(levels, step, j) by {
          if kept {
            var j :| KeptAt(levels[1..], step, j);
            assert KeptAt(levels, step, j + 1);
          }
        }
        assert (exists j :: KeptAt(levels, step, j)) ==> kept by {
          if exists j :: KeptAt(levels, step, j) {
            var j :| KeptAt(levels, step, j);
            assert KeptAt(levels[1..], step, j - 1);
          }
        }
        kept
  }

  /** When no level can stop the scan, it keeps iff some level says Keep. */
  lemma {:induction false} ScanWithoutStop(levels: seq<Level>, step: Level -> Step)
    requires forall l :: step(l) != Stop
    ensures Scan(levels, step) <==> exists j :: 0 <= j < |levels| && step(levels[j]) == Keep
  {
    if |levels| > 0 && step(levels[0]) != Keep {
      ScanWithoutStop(levels[1..], step);
      if exists j :: 0 <= j < |levels| && step(levels[j]) == Keep {
        var j :| 0 <= j < |levels| && step(levels[j]) == Keep;
        assert levels[1..][j - 1] == levels[j];
      }
    }
  }

  /** Both bounds unset: a STABLE level keeps, every other level goes on. */
  function StableStep(l: Level): Step {
    if l.halflife == Some(Stable) then Keep else Continue
  }

  /** Lower bound only: STABLE keeps, an unknown unit stops the scan, a
      half-life strictly above `lo` seconds keeps. */
  function AboveStep(lo: real): Level -> Step {
    (l: Level) =>
      match l.halflife
      case None => Continue
      case Some(Stable) => Keep
      case Some(Timed(v, u, _, _)) =>
        match ToSeconds(v, u)
        case None => Stop
        case Some(sec) => if sec > lo then Keep else Continue
  }

  /** Both bounds set: STABLE is passed over, an unknown unit stops the scan,
      a half-life strictly between `lo` and `hi` seconds keeps. */
  function BetweenStep(lo: real, hi: real): Level -> Step {
    (l: Level) =>
      match l.halflife
      case None => Continue
      case Some(Stable) => Continue
      case Some(Timed(v, u, _, _)) =>
        match ToSeconds(v, u)
        case None => Stop
        case Some(sec) => if lo < sec < hi then Keep else Continue
  }

  /** Some level of the nuclide is STABLE. */
  ghost predicate HasStableLevel(nuc: Nuclide) {
    exists j :: 0 <= j < |nuc.levels| && nuc.levels[j].halflife == Some(Stable)
  }

  /** The half-life filter. Its four argument shapes: no bounds keeps nuclides
      with a STABLE level; only an upper bound keeps nothing; a lower bound,
      with or without an upper one, scans the levels with the matching step. */
  function FilterHalflife(d: Dataset, lo: Option<real>, hi: Option<real>): (r: Dataset)
    ensures Subseq(r, d)
    ensures lo.None? && hi.None? ==> forall e :: e in r <==> e in d && HasStableLevel(e.1)
    ensures lo.None? && hi.Some? ==> r == []
    ensures lo.Some? && hi.None? ==>
      forall e :: e in r <==> e in d && Scan(e.1.levels, AboveStep(lo.value))
    ensures lo.Some? && hi.Some? ==>
      forall e :: e in r <==> e in d && Scan(e.1.levels, BetweenStep(lo.value, hi.value))
  {
    match (lo, hi)
    case (None, None) =>
      var r := Select(d, (e: (string, Nuclide)) => Scan(e.1.levels, StableStep));
      forall e | e in d
        ensures Scan(e.1.levels, StableStep) <==> HasStableLevel(e.1)
      {
        ScanWithoutStop(e.1.levels, StableStep);
      }
      r
    case (None, Some(_)) => []
    case (Some(l), None) => Select(d, (e: (string, Nuclide)) => Scan(e.1.levels, AboveStep(l)))
    case (Some(l), Some(h)) => Select(d, (e: (string, Nuclide)) => Scan(e.1.levels, BetweenStep(l, h)))
  }

  /** The level's half-life in seconds, when it has one in a known unit. */
  ghost function SecondsOf(l: Level): Option<real> {
    match l.halflife
    case Some(Timed(v, u, _, _)) => ToSeconds(v, u)
    case _ => None
  }

  /** Level `l` meets a lower bound `lo`: STABLE, or longer in a known unit. */
  ghost predicate MeetsAbove(l: Level, lo: real) {
    l.halflife == Some(Stable) || (SecondsOf(l).Some? && SecondsOf(l).value > lo)
  }

  /** Level `l` lets the lower-bound scan go on: no half-life, or not longer
      than `lo` in a known unit. */
  ghost predicate PassesOverAbove(l: Level, lo: real) {
    l.halflife.None? || (SecondsOf(l).Some? && SecondsOf(l).value <= lo)
  }

  /** Level `j` is the first to meet the lower bound, all earlier levels passing over. */
  ghost predicate FirstAbove(ls: seq<Level>, lo: real, j: int) {
    && 0 <= j < |ls|
    && MeetsAbove(ls[j], lo)
    && forall i :: 0 <= i < j ==> PassesOverAbove(ls[i], lo)
  }

  /** With only a lower bound, a nuclide is kept iff some level is STABLE or
      longer than `lo` seconds and every level before it has no half-life or
      one of at most `lo` seconds in a known unit: a level in an unknown unit
      ends the scan without a match. */
  lemma FilterHalflifeAbove(d: Dataset, lo: real, e: (string, Nuclide))
    ensures e in FilterHalflife(d, Some(lo), None) <==>
      e in d && exists j :: FirstAbove(e.1.levels, lo, j)
  {
    var ls := e.1.levels;
    assert forall l :: AboveStep(lo)(l) == Keep <==> MeetsAbove(l, lo);
    assert forall l :: AboveStep(lo)(l) == Continue <==> PassesOverAbove(l, lo);
    assert forall j :: KeptAt(ls, AboveStep(lo), j) <==> FirstAbove(ls, lo, j);
  }

  /** Level `l` lies strictly between the bounds, in a known unit. */
  ghost predicate MeetsBetween(l: Level, lo: real, hi: real) {
    SecondsOf(l).Some? && lo < SecondsOf(l).value < hi
  }

  /** Level `l` lets the two-bound scan go on: no half-life, STABLE, or outside
      the bounds in a known unit. */
  ghost predicate PassesOverBetween(l: Level, lo: real, hi: real) {
    || l.halflife.None?
    || l.halflife == Some(Stable)
    || (SecondsOf(l).Some? && !(lo < SecondsOf(l).value < hi))
  }

  ghost predicate FirstBetween(ls: seq<Level>, lo: real, hi: real, j: int) {
    && 0 <= j < |ls|
    && MeetsBetween(ls[j], lo, hi)
    && forall i :: 0 <= i < j ==> PassesOverBetween(ls[i], lo, hi)
  }

  /** With both bounds, a nuclide is kept iff some level lies strictly between
      them and every level before it is STABLE, has no half-life, or lies
      outside them in a known unit. */
  lemma FilterHalflifeBetween(d: Dataset, lo: real, hi: real, e: (string, Nuclide))
    ensures e in FilterHalflife(d, Some(lo), Some(hi)) <==>
      e in d && exists j :: FirstBetween(e.1.levels, lo, hi, j)
  {
    var ls := e.1.levels;
    assert forall l :: BetweenStep(lo, hi)(l) == Keep <==> MeetsBetween(l, lo, hi);
    assert forall l :: BetweenStep(lo, hi)(l) == Continue <==> PassesOverBetween(l, lo, hi);
    assert forall j :: KeptAt(ls, BetweenStep(lo, hi), j) <==> FirstBetween(ls, lo, hi, j);
  }

  // ---------------------------------------------------------------------------
  // Decay modes

  ghost predicate NoDuplicates(s: seq<string>) {
    forall i, j :: 0 <= i < j < |s| ==> s[i] != s[j]
  }

  /** Append the labels of `modes` that are not yet in `acc`, in order. */
  function AddLabels(acc: seq<string>, modes: seq<DecayMode>): (r: seq<string>)
    ensures forall m :: m in r <==> m in acc || exists dm :: dm in modes && dm.mode == m
    ensures NoDuplicates(acc) ==> NoDuplicates(r)
    decreases |modes|
  {
    if |modes| == 0 then acc
    else
      var next := if modes[0].mode in acc then acc else acc + [modes[0].mode];
      var r := AddLabels(next, modes[1..]);
      assert forall dm :: dm in modes <==> dm == modes[0] || dm in modes[1..];
      r
  }

  /** Level `l` observes a decay mode labelled `m`. */
  ghost predicate Observes(l: Level, m: string) {
    exists dm :: dm in ObservedOf(l) && dm.mode == m
  }

  /** The distinct observed labels over all levels, in first-seen order. */
  function CollectLabels(acc: seq<string>, levels: seq<Level>): (r: seq<string>)
    ensures forall m :: m in r <==> m in acc || exists i :: 0 <= i < |levels| && Observes(levels[i], m)
    ensures NoDuplicates(acc) ==> NoDuplicates(r)
    decreases |levels|
  {
    if |levels| == 0 then acc
    else
      var r := CollectLabels(AddLabels(acc, ObservedOf(levels[0])), levels[1..]);
      assert forall m :: (exists i :: 0 <= i < |levels| && Observes(levels[i], m)) <==>
        Observes(levels[0], m) || exists i :: 0 <= i < |levels[1..]| && Observes(levels[1..][i], m) by {
        forall m | exists i :: 0 <= i < |levels| && Observes(levels[i], m)
          ensures Observes(levels[0], m) || exists i :: 0 <= i < |levels[1..]| && Observes(levels[1..][i], m)
        {
          var i :| 0 <= i < |levels| && Observes(levels[i], m);
          if i > 0 {
            assert levels[1..][i - 1] == levels[i];
          }
        }
      }
      r
  }

  /** The one data-entry variant the filter repairs: "β⁻" is read as "B-". */
  function Canonical(m: string): string {
    if m == "β⁻" then "B-" else m
  }

  /** The observed labels of a nuclide after the repair. */
  function PresentLabels(nuc: Nuclide): (r: seq<string>)
    ensures forall m :: m in r <==> ObservesCanonical(nuc, m)
  {
    var labels := CollectLabels([], nuc.levels);
    var r := seq(|labels|, i requires 0 <= i < |labels| => Canonical(labels[i]));
    assert forall m :: m in r <==> exists x :: x in labels && Canonical(x) == m by {
      forall m | exists x :: x in labels && Canonical(x) == m
        ensures m in r
      {
        var x :| x in labels && Canonical(x) == m;
        var i :| 0 <= i < |labels| && labels[i] == x;
        assert r[i] == m;
      }
    }
    r
  }

  /** Some level observes a mode whose repaired label is `m`. */
  ghost predicate ObservesCanonical(nuc: Nuclide, m: string) {
    exists i, dm :: 0 <= i < |nuc.levels| && dm in ObservedOf(nuc.levels[i]) && Canonical(dm.mode) == m
  }

  /** The per-nuclide test: 1 = every requested label present, 2 = at least
      one, anything else = none kept. Predicted modes play no part. */
  function DecayKeep(nuc: Nuclide, idx: int, requested: seq<string>): bool {
    var present := PresentLabels(nuc);
    if idx == 1 then forall m :: m in requested ==> m in present
    else if idx == 2 then exists m :: m in requested && m in present
    else false
  }

  /** The decay-mode filter: require-all or require-any over the repaired
      observed labels of all levels. */
  function FilterDecayModes(d: Dataset, idx: int, requested: seq<string>): (r: Dataset)
    ensures Subseq(r, d)
    ensures idx == 1 ==>
      forall e :: e in r <==> e in d && forall m :: m in requested ==> ObservesCanonical(e.1, m)
    ensures idx == 2 ==>
      forall e :: e in r <==> e in d && exists m :: m in requested && ObservesCanonical(e.1, m)
    ensures idx != 1 && idx != 2 ==> r == []
  {
    var r := Select(d, (e: (string, Nuclide)) => DecayKeep(e.1, idx, requested));
    assert |r| > 0 ==> r[0] in r;
    r
  }
}
