/** The two tabular projections of one nuclide record: the full table (one
    row per level and observed decay mode) used for export and the detailed
    preview, and the compact table (one row per level, decay modes nested). */
module Flatten {
  import opened Common
  import opened Nuclides

  /** A half-life uncertainty as the full table prints it: "+u -l" for an
      asymmetric one, "≈" for an approximation, one of ≥ > ≤ < for a limit
      (nothing for a limit of unknown direction), else the number itself. */
  function UncertaintyText(u: Uncertainty): (r: Option<string>)
  {
    match u
    case Asymmetric(up, lo) => Some("+" + up + " -" + lo)
    case Approximation => Some("≈")
    case Limit(t, incl) =>
      if t == "lower" then Some(if incl then "≥" else ">")
      else if t == "upper" then Some(if incl then "≤" else "<")
      else None
    case Plain(v) => Some(v)
  }

  /** A limit of known direction is recovered from its symbol: no two limits
      print alike, and none prints like an approximation. */
  lemma LimitSymbolsDistinct(t1: string, i1: bool, t2: string, i2: bool)
    requires t1 in {"lower", "upper"} && t2 in {"lower", "upper"}
    ensures UncertaintyText(Limit(t1, i1)) == UncertaintyText(Limit(t2, i2)) <==> t1 == t2 && i1 == i2
    ensures UncertaintyText(Limit(t1, i1)) != UncertaintyText(Approximation)
    ensures UncertaintyText(Limit(t1, i1)).Some?
  {
  }

  /** One row of the full table. As in the program, the column headed "Mass
      Excess" holds the unit and the one headed "Mass Excess unit" holds the
      value, and the mass-excess uncertainty is the raw annotation. */
  datatype FullRow = FullRow(
    nuclide: string, z: int, n: int, a: int,
    energy: string, energyUnit: string,
    spinParity: Option<string>,
    massExcess: Option<string>, massExcessUnit: Option<real>, massExcessUncertainty: Option<Uncertainty>,
    halflife: Option<real>, halflifeUnit: Option<string>, halflifeUncertainty: Option<string>,
    decayMode: Option<string>, branchRatio: Option<real>)

  /** The full row of level `l` carrying the decay-mode pair (`mode`, `ratio`). */
  function RowOf(nuc: Nuclide, l: Level, mode: Option<string>, ratio: Option<real>): FullRow {
    var me := l.massExcess;
    var (hl, hlUnit, hlUnc) :=
      match l.halflife
      case Some(Timed(v, u, unc, _)) => (Some(v), Some(u), UncertaintyText(unc))
      case _ => (None, None, None);
    FullRow(
      nuc.name, nuc.z, nuc.n, nuc.a,
      l.energy.value, l.energy.unit,
      l.spinParity,
      if me.Some? then Some(me.value.unit) else None,
      if me.Some? then Some(me.value.value) else None,
      if me.Some? then Some(me.value.uncertainty) else None,
      hl, hlUnit, hlUnc,
      mode, ratio)
  }

  /** A STABLE level leaves the three half-life columns empty rather than
      printing the marker; a timed one fills value and unit. */
  lemma RowOfHalflife(nuc: Nuclide, l: Level, mode: Option<string>, ratio: Option<real>)
    ensures var row := RowOf(nuc, l, mode, ratio);
      && (l.halflife == Some(Stable) ==> row.halflife.None? && row.halflifeUnit.None? && row.halflifeUncertainty.None?)
      && (l.halflife.Some? && l.halflife.value.Timed? ==>
            row.halflife == Some(l.halflife.value.value) && row.halflifeUnit == Some(l.halflife.value.unit))
  {
  }

  /** The rows one level contributes: one per observed decay mode, or a single
      row with an empty decay-mode pair when there are none. */
  function LevelRows(nuc: Nuclide, l: Level): (rows: seq<FullRow>)
    ensures |rows| == RowCount(l)
    ensures forall row :: row in rows ==> row.nuclide == nuc.name && row.z == nuc.z && row.n == nuc.n && row.a == nuc.a
    ensures |ObservedOf(l)| == 0 ==> rows == [RowOf(nuc, l, None, None)]
    ensures |ObservedOf(l)| > 0 ==> forall i :: 0 <= i < |rows| ==>
      rows[i] == RowOf(nuc, l, Some(ObservedOf(l)[i].mode), ObservedOf(l)[i].value)
  {
    var obs := ObservedOf(l);
    if |obs| == 0 then [RowOf(nuc, l, None, None)]
    else seq(|obs|, i requires 0 <= i < |obs| => RowOf(nuc, l, Some(obs[i].mode), obs[i].value))
  }

  /** How many full rows a level yields: max(1, number of observed modes). */
  function RowCount(l: Level): nat {
    if |ObservedOf(l)| == 0 then 1 else |ObservedOf(l)|
  }

  function TotalRows(levels: seq<Level>): nat {
    if |levels| == 0 then 0 else RowCount(levels[0]) + TotalRows(levels[1..])
  }

  function FullRowsOf(nuc: Nuclide, levels: seq<Level>): (rows: seq<FullRow>)
    ensures |rows| == TotalRows(levels)
    ensures forall row :: row in rows ==> row.nuclide == nuc.name && row.z == nuc.z && row.n == nuc.n && row.a == nuc.a
  {
    if |levels| == 0 then [] else LevelRows(nuc, levels[0]) + FullRowsOf(nuc, levels[1..])
  }

  /** The full table of a record, level by level. */
  function FullRows(nuc: Nuclide): (rows: seq<FullRow>)
    ensures |rows| == TotalRows(nuc.levels)
    ensures forall row :: row in rows ==> row.nuclide == nuc.name && row.z == nuc.z && row.n == nuc.n && row.a == nuc.a
  {
    FullRowsOf(nuc, nuc.levels)
  }

  /** One row of the compact table. */
  datatype CompactRow = CompactRow(
    energy: string,
    spinParity: Option<string>,
    massExcess: Option<string>,
    halflife: Option<string>,
    decayModes: Option<seq<(string, Option<real>)>>)

  /** The compact text of a timed half-life; never the STABLE marker, since it
      holds a space. */
  function TimedText(nds: string, unit: string): (t: string)
    ensures t != "STABLE"
    ensures |t| == |nds| + 1 + |unit| && t[|nds|] == ' '
    ensures t[..|nds|] == nds && t[|nds| + 1..] == unit
  {
    var t := nds + " " + unit;
    assert t[|nds|] == ' ';
    assert |t| == 6 ==> t != "STABLE" by {
      if |t| == 6 {
        assert forall k :: 0 <= k < 6 ==> "STABLE"[k] != ' ';
      }
    }
    t
  }

  function CompactRowOf(l: Level): CompactRow {
    var obs := ObservedOf(l);
    CompactRow(
      l.energy.value + " " + l.energy.unit,
      l.spinParity,
      if l.massExcess.Some? then Some(l.massExcess.value.nds + " " + l.massExcess.value.unit) else None,
      match l.halflife
      case None => None
      case Some(Stable) => Some("STABLE")
      case Some(Timed(_, u, _, nds)) => Some(TimedText(nds, u)),
      if |obs| == 0 then None
      else Some(seq(|obs|, i requires 0 <= i < |obs| => (obs[i].mode, obs[i].value))))
  }

  /** The compact table: exactly one row per level. The literal "STABLE" appears
      in the half-life column exactly for STABLE levels, and the nested decay
      table is absent exactly when the full table shows an empty pair. */
  function CompactRows(nuc: Nuclide): (rows: seq<CompactRow>)
    ensures |rows| == |nuc.levels|
    ensures forall i :: 0 <= i < |rows| ==>
      && rows[i].spinParity == nuc.levels[i].spinParity
      && (rows[i].halflife == Some("STABLE") <==> nuc.levels[i].halflife == Some(Stable))
      && (rows[i].halflife.None? <==> nuc.levels[i].halflife.None?)
      && (rows[i].decayModes.None? <==> |ObservedOf(nuc.levels[i])| == 0)
      && (rows[i].decayModes.Some? ==> |rows[i].decayModes.value| == |ObservedOf(nuc.levels[i])|)
  {
    CompactRowsOf(nuc.levels)
  }

  function CompactRowsOf(levels: seq<Level>): (rows: seq<CompactRow>)
    ensures |rows| == |levels|
    ensures forall i :: 0 <= i < |rows| ==> rows[i] == CompactRowOf(levels[i])
  {
    if |levels| == 0 then [] else [CompactRowOf(levels[0])] + CompactRowsOf(levels[1..])
  }

  /** What the two tables share for one (level, decay mode) line. */
  datatype Line = Line(energy: string, spinParity: Option<string>, decayMode: Option<string>, branchRatio: Option<real>)

  function FullLine(row: FullRow): Line {
    Line(row.energy + " " + row.energyUnit, row.spinParity, row.decayMode, row.branchRatio)
  }

  function FullLines(rows: seq<FullRow>): (r: seq<Line>)
    ensures |r| == |rows|
  {
    if |rows| == 0 then [] else [FullLine(rows[0])] + FullLines(rows[1..])
  }

  /** A compact row opened out: one line per nested decay mode, or one line
      with an empty pair. */
  function CompactLines(row: CompactRow): seq<Line> {
    match row.decayModes
    case None => [Line(row.energy, row.spinParity, None, None)]
    case Some(t) => seq(|t|, i requires 0 <= i < |t| => Line(row.energy, row.spinParity, Some(t[i].0), t[i].1))
  }

  function ExpandCompact(rows: seq<CompactRow>): seq<Line> {
    if |rows| == 0 then [] else CompactLines(rows[0]) + ExpandCompact(rows[1..])
  }

  lemma {:induction false} FullLinesAppend(a: seq<FullRow>, b: seq<FullRow>)
    ensures FullLines(a + b) == FullLines(a) + FullLines(b)
  {
    if |a| == 0 {
      assert a + b == b;
    } else {
      assert (a + b)[1..] == a[1..] + b;
      assert (a + b)[0] == a[0];
      FullLinesAppend(a[1..], b);
      assert FullLines(a + b) == [FullLine(a[0])] + (FullLines(a[1..]) + FullLines(b));
    }
  }

  lemma {:induction false} FullLinesOfLevel(nuc: Nuclide, l: Level)
    ensures FullLines(LevelRows(nuc, l)) == CompactLines(CompactRowOf(l))
  {
    var rows := LevelRows(nuc, l);
    var lines := FullLines(rows);
    var expected := CompactLines(CompactRowOf(l));
    FullLinesIndex(rows);
    assert |lines| == |expected|;
    forall i | 0 <= i < |lines|
      ensures lines[i] == expected[i]
    {
    }
  }

  lemma {:induction false} FullLinesIndex(rows: seq<FullRow>)
    ensures forall i :: 0 <= i < |rows| ==> FullLines(rows)[i] == FullLine(rows[i])
  {
    if |rows| > 0 {
      FullLinesIndex(rows[1..]);
    }
  }

  /** The two tables list the same (energy, spin-parity, decay mode, branch
      ratio) lines in the same order once the compact table's nested decay
      tables are opened out. In particular the full table has as many rows as
      the compact one has nested entries, counting an absent table as one. */
  lemma {:induction false} FullMatchesCompact(nuc: Nuclide)
    ensures FullLines(FullRows(nuc)) == ExpandCompact(CompactRows(nuc))
  {
    FullMatchesCompactFrom(nuc, nuc.levels);
  }

  lemma {:induction false} FullMatchesCompactFrom(nuc: Nuclide, levels: seq<Level>)
    ensures FullLines(FullRowsOf(nuc, levels)) == ExpandCompact(CompactRowsOf(levels))
  {
    if |levels| > 0 {
      FullMatchesCompactFrom(nuc, levels[1..]);
      FullLinesAppend(LevelRows(nuc, levels[0]), FullRowsOf(nuc, levels[1..]));
      FullLinesOfLevel(nuc, levels[0]);
      var c := CompactRowsOf(levels);
      assert c[0] == CompactRowOf(levels[0]) && c[1..] == CompactRowsOf(levels[1..]);
    }
  }

  // ---------------------------------------------------------------------------
  // The flatteners as the program writes them: both read the "value" key of
  // every observed decay mode, which raises KeyError for a mode without a
  // branch ratio. The functions above give such a mode an empty ratio.

  /** Some level of the record observes a decay mode without a branch ratio. */
  ghost predicate MissingRatio(levels: seq<Level>) {
    exists i, dm :: 0 <= i < |levels| && dm in ObservedOf(levels[i]) && dm.value.None?
  }

  function ModeRowsAsWritten(nuc: Nuclide, l: Level, modes: seq<DecayMode>): (r: Result<seq<FullRow>, PyError>)
    ensures r.Failure? <==> exists dm :: dm in modes && dm.value.None?
    ensures r.Failure? ==> r.error == KeyError("value")
    ensures r.Success? ==> r.value == seq(|modes|, i requires 0 <= i < |modes| => RowOf(nuc, l, Some(modes[i].mode), modes[i].value))
  {
    if |modes| == 0 then Success([])
    else if modes[0].value.None? then Failure(KeyError("value"))
    else
      match ModeRowsAsWritten(nuc, l, modes[1..])
      case Failure(e) => Failure(e)
      case Success(rest) =>
        var row := RowOf(nuc, l, Some(modes[0].mode), Some(modes[0].value.value));
        assert forall dm :: dm in modes ==> dm == modes[0] || dm in modes[1..];
        Success([row] + rest)
  }

  function FullRowsOfAsWritten(nuc: Nuclide, levels: seq<Level>): Result<seq<FullRow>, PyError> {
    if |levels| == 0 then Success([])
    else
      var l := levels[0];
      var here := if |ObservedOf(l)| == 0 then Success([RowOf(nuc, l, None, None)])
                  else ModeRowsAsWritten(nuc, l, ObservedOf(l));
      match here
      case Failure(e) => Failure(e)
      case Success(rows) =>
        match FullRowsOfAsWritten(nuc, levels[1..])
        case Failure(e) => Failure(e)
        case Success(rest) => Success(rows + rest)
  }

  /** The full flattener as written. */
  function FullRowsAsWritten(nuc: Nuclide): Result<seq<FullRow>, PyError> {
    FullRowsOfAsWritten(nuc, nuc.levels)
  }

  /** As written, the full flattener raises KeyError exactly when some observed
      mode lacks a branch ratio, and otherwise agrees with `FullRows`. */
  lemma {:induction false} FullRowsAsWrittenFails(nuc: Nuclide)
    ensures FullRowsAsWritten(nuc) ==
      if MissingRatio(nuc.levels) then Failure(KeyError("value")) else Success(FullRows(nuc))
  {
    FullRowsAsWrittenFrom(nuc, nuc.levels);
  }

  lemma {:induction false} FullRowsAsWrittenFrom(nuc: Nuclide, levels: seq<Level>)
    ensures FullRowsOfAsWritten(nuc, levels) ==
      if MissingRatio(levels) then Failure(KeyError("value")) else Success(FullRowsOf(nuc, levels))
  {
    if |levels| > 0 {
      FullRowsAsWrittenFrom(nuc, levels[1..]);
      MissingRatioSplit(levels);
    }
  }

  lemma MissingRatioSplit(levels: seq<Level>)
    requires |levels| > 0
    ensures MissingRatio(levels) <==>
      (exists dm :: dm in ObservedOf(levels[0]) && dm.value.None?) || MissingRatio(levels[1..])
  {
    if MissingRatio(levels) {
      var i, dm :| 0 <= i < |levels| && dm in ObservedOf(levels[i]) && dm.value.None?;
      if i > 0 {
        assert levels[1..][i - 1] == levels[i];
      }
    }
    if MissingRatio(levels[1..]) {
      var i, dm :| 0 <= i < |levels[1..]| && dm in ObservedOf(levels[1..][i]) && dm.value.None?;
      assert levels[i + 1] == levels[1..][i];
    }
  }

  /** The compact flattener as written: the same KeyError. */
  function CompactRowsAsWritten(nuc: Nuclide): (r: Result<seq<CompactRow>, PyError>)
  {
    CompactRowsOfAsWritten(nuc.levels)
  }

  function CompactRowsOfAsWritten(levels: seq<Level>): Result<seq<CompactRow>, PyError> {
    if |levels| == 0 then Success([])
    else if exists dm :: dm in ObservedOf(levels[0]) && dm.value.None? then Failure(KeyError("value"))
    else
      match CompactRowsOfAsWritten(levels[1..])
      case Failure(e) => Failure(e)
      case Success(rest) => Success([CompactRowOf(levels[0])] + rest)
  }

  /** As written, the compact flattener raises KeyError exactly when some
      observed mode lacks a branch ratio, and otherwise agrees with `CompactRows`. */
  lemma {:induction false} CompactRowsAsWrittenFails(nuc: Nuclide)
    ensures CompactRowsAsWritten(nuc) ==
      if MissingRatio(nuc.levels) then Failure(KeyError("value")) else Success(CompactRows(nuc))
  {
    CompactRowsAsWrittenFrom(nuc.levels);
  }

  lemma {:induction false} CompactRowsAsWrittenFrom(levels: seq<Level>)
    ensures CompactRowsOfAsWritten(levels) ==
      if MissingRatio(levels) then Failure(KeyError("value")) else Success(CompactRowsOf(levels))
  {
    if |levels| > 0 {
      CompactRowsAsWrittenFrom(levels[1..]);
      MissingRatioSplit(levels);
    }
  }
}
