/** The detail text drawn into each chart cell: the ground-state half-life
    and up to three decay modes, ranked by branch ratio. How a number is
    printed is a parameter (`hlFmt` for half-lives, `ratioFmt` for branch
    ratios). */
module CellText {
  import opened Common
  import opened Nuclides
  import opened Ranking
  import opened Chart
  import opened Classify

  /** The half-life line of a cell: empty without data, STABLE, or the value
      with its unit, minutes spelled "min". */
  function HalfLifeText(nuc: Nuclide, hlFmt: real -> string): string {
    if |nuc.levels| == 0 then ""
    else
      match nuc.levels[0].halflife
      case None => ""
      case Some(Stable) => "STABLE"
      case Some(Timed(v, u, _, _)) => hlFmt(v) + (if u == "m" then " min" else " " + u)
  }

  /** The half-life line names the unit of a timed ground state after the value. */
  lemma HalfLifeTextUnit(nuc: Nuclide, hlFmt: real -> string)
    requires |nuc.levels| > 0 && nuc.levels[0].halflife.Some? && nuc.levels[0].halflife.value.Timed?
    ensures var h := nuc.levels[0].halflife.value;
      var suffix := if h.unit == "m" then " min" else " " + h.unit;
      && |suffix| <= |HalfLifeText(nuc, hlFmt)|
      && HalfLifeText(nuc, hlFmt) == hlFmt(h.value) + suffix
      && HalfLifeText(nuc, hlFmt)[|HalfLifeText(nuc, hlFmt)| - |suffix|..] == suffix
  {
  }

  /** The relation sign of a branch ratio: " = " for a plain value, one of
      ≥ > ≤ < for a limit, and nothing for a limit of unknown direction. */
  function Relation(u: Uncertainty): Option<string> {
    match u
    case Limit(t, incl) =>
      if t == "lower" then Some(if incl then " ≥ " else " > ")
      else if t == "upper" then Some(if incl then " ≤ " else " < ")
      else None
    case _ => Some(" = ")
  }

  /** One decay-mode line: the mode, then " ?" without a ratio, or the relation
      and the ratio in percent. A limit of unknown direction shows the mode alone. */
  function DecayLine(m: DecayMode, ratioFmt: real -> string): (line: string)
    ensures |m.mode| <= |line| && line[..|m.mode|] == m.mode
  {
    match m.value
    case None => m.mode + " ?"
    case Some(v) =>
      match Relation(m.uncertainty)
      case None => m.mode
      case Some(rel) => m.mode + rel + ratioFmt(v) + "%"
  }

  /** A line ends in '%' exactly when it shows a ratio, and ends in '?' when
      the ratio is unknown. */
  lemma DecayLineShape(m: DecayMode, ratioFmt: real -> string)
    ensures var line := DecayLine(m, ratioFmt);
      && (m.value.Some? && Relation(m.uncertainty).Some? ==> |line| > 0 && line[|line| - 1] == '%')
      && (m.value.None? ==> line == m.mode + " ?")
      && (m.value.Some? && Relation(m.uncertainty).None? ==> line == m.mode)
  {
  }

  /** The modes listed at the ground state, observed then predicted. */
  function GroundModes(nuc: Nuclide): seq<DecayMode> {
    if |nuc.levels| == 0 || nuc.levels[0].decayModes.None? then []
    else nuc.levels[0].decayModes.value.observed + nuc.levels[0].decayModes.value.predicted
  }

  function Lines(ms: seq<DecayMode>, ratioFmt: real -> string): (r: seq<string>)
    ensures |r| == |ms|
    ensures forall i :: 0 <= i < |ms| ==> r[i] == DecayLine(ms[i], ratioFmt)
  {
    if |ms| == 0 then [] else [DecayLine(ms[0], ratioFmt)] + Lines(ms[1..], ratioFmt)
  }

  /** The decay-mode lines of a cell, in the corrected ranking. */
  function CellLines(nuc: Nuclide, ratioFmt: real -> string): (r: seq<string>)
    ensures |r| == |GroundModes(nuc)|
  {
    Lines(Ranked(GroundModes(nuc)), ratioFmt)
  }

  /** The decay-mode lines of a cell as the program builds them, through the
      name-keyed lookup. */
  function CellLinesAsWritten(nuc: Nuclide, ratioFmt: real -> string): (r: seq<string>)
    ensures |r| == |GroundModes(nuc)|
  {
    Lines(RankedAsWritten(GroundModes(nuc)), ratioFmt)
  }

  /** Every listed decay mode gets one line of its own in the corrected text,
      larger ratios first. */
  lemma CellLinesComplete(nuc: Nuclide, ratioFmt: real -> string)
    ensures forall m :: m in GroundModes(nuc) ==> DecayLine(m, ratioFmt) in CellLines(nuc, ratioFmt)
    ensures forall i, j :: 0 <= i < j < |Select(GroundModes(nuc), IsQuantified)| ==>
      Ratio(Ranked(GroundModes(nuc))[i]) >= Ratio(Ranked(GroundModes(nuc))[j])
  {
    var ms := GroundModes(nuc);
    var r := Ranked(ms);
    var k := |Select(ms, IsQuantified)|;
    forall m | m in ms
      ensures DecayLine(m, ratioFmt) in CellLines(nuc, ratioFmt)
    {
      assert m in multiset(r);
      var i :| 0 <= i < |r| && r[i] == m;
      assert CellLines(nuc, ratioFmt)[i] == DecayLine(m, ratioFmt);
    }
    forall i, j | 0 <= i < j < k
      ensures Ratio(r[i]) >= Ratio(r[j])
    {
      assert r[..k][i] == r[i] && r[..k][j] == r[j];
    }
  }

  /** As written, a mode listed twice with two ratios (the larger first) prints
      the smaller ratio twice and never the larger one. */
  lemma CellLinesAsWrittenRepeat(nuc: Nuclide, ratioFmt: real -> string, a: DecayMode, b: DecayMode)
    requires GroundModes(nuc) == [a, b]
    requires a.mode == b.mode && IsQuantified(a) && IsQuantified(b) && Ratio(a) > Ratio(b)
    ensures CellLinesAsWritten(nuc, ratioFmt) == [DecayLine(b, ratioFmt), DecayLine(b, ratioFmt)]
    ensures CellLines(nuc, ratioFmt) == [DecayLine(a, ratioFmt), DecayLine(b, ratioFmt)]
  {
    var ms := GroundModes(nuc);
    AsWrittenLosesEntry(a, b);
    LinesPair(b, b, ratioFmt);
    LinesPair(a, b, ratioFmt);
  }

  lemma LinesPair(x: DecayMode, y: DecayMode, ratioFmt: real -> string)
    ensures Lines([x, y], ratioFmt) == [DecayLine(x, ratioFmt), DecayLine(y, ratioFmt)]
  {
  }

  /** Joins lines, each preceded by a line break. */
  function JoinLines(lines: seq<string>): string {
    if |lines| == 0 then "" else "\n" + lines[0] + JoinLines(lines[1..])
  }

  /** The cell text as the program assembles it: the half-life line, a break,
      then all decay lines when there are at most three, else the first three. */
  function DetailText(hlt: string, lines: seq<string>): string {
    if |lines| == 0 then hlt + "\n"
    else if |lines| <= 3 then hlt + "\n" + JoinLines(lines)
    else hlt + "\n" + JoinLines(lines[..3])
  }

  /** Counts the line breaks of a string. */
  function Breaks(s: string): nat {
    if |s| == 0 then 0 else (if s[0] == '\n' then 1 else 0) + Breaks(s[1..])
  }

  lemma {:induction false} BreaksAppend(a: string, b: string)
    ensures Breaks(a + b) == Breaks(a) + Breaks(b)
  {
    if |a| == 0 {
      assert a + b == b;
    } else {
      assert (a + b)[0] == a[0];
      assert (a + b)[1..] == a[1..] + b;
      BreaksAppend(a[1..], b);
    }
  }

  lemma {:induction false} JoinLinesBreaks(lines: seq<string>)
    requires forall l :: l in lines ==> Breaks(l) == 0
    ensures Breaks(JoinLines(lines)) == |lines|
  {
    if |lines| > 0 {
      JoinLinesBreaks(lines[1..]);
      BreaksAppend("\n" + lines[0], JoinLines(lines[1..]));
      BreaksAppend("\n", lines[0]);
    }
  }

  /** The cell shows the half-life line and the first min(3, n) decay lines:
      with lines free of breaks, the text has exactly one break more than the
      decay lines it shows. */
  lemma DetailTextShowsThree(hlt: string, lines: seq<string>)
    ensures var shown := if |lines| <= 3 then lines else lines[..3];
      DetailText(hlt, lines) == hlt + "\n" + JoinLines(shown)
    ensures Breaks(hlt) == 0 && (forall l :: l in lines ==> Breaks(l) == 0) ==>
      Breaks(DetailText(hlt, lines)) == 1 + (if |lines| <= 3 then |lines| else 3)
  {
    var shown := if |lines| <= 3 then lines else lines[..3];
    if Breaks(hlt) == 0 && forall l :: l in lines ==> Breaks(l) == 0 {
      assert forall l :: l in shown ==> l in lines;
      JoinLinesBreaks(shown);
      BreaksAppend(hlt + "\n", JoinLines(shown));
      BreaksAppend(hlt, "\n");
    }
  }

  /** The text of one cell on the half-life or decay-mode chart. */
  datatype Cell = Cell(x: int, y: int, text: string)

  predicate InAreaEntry(area: Area, e: (string, Nuclide)) {
    area.Contains(e.1.z, e.1.n)
  }

  function InAreaTest(area: Area): ((string, Nuclide)) -> bool {
    e => InAreaEntry(area, e)
  }

  /** The cell of one nuclide: its grid position and its detail text. */
  function CellOf(nuc: Nuclide, area: Area, hlFmt: real -> string, ratioFmt: real -> string): Cell {
    Cell(nuc.n - area.nMin, nuc.z - area.zMin, DetailText(HalfLifeText(nuc, hlFmt), CellLines(nuc, ratioFmt)))
  }

  function CellsOf(entries: seq<(string, Nuclide)>, area: Area, hlFmt: real -> string, ratioFmt: real -> string): (r: seq<Cell>)
    ensures |r| == |entries|
    ensures forall i :: 0 <= i < |r| ==> r[i] == CellOf(entries[i].1, area, hlFmt, ratioFmt)
  {
    if |entries| == 0 then []
    else
      var rest := CellsOf(entries[1..], area, hlFmt, ratioFmt);
      assert forall i :: 1 <= i < |entries| ==> entries[i] == entries[1..][i - 1];
      [CellOf(entries[0].1, area, hlFmt, ratioFmt)] + rest
  }

  function InAreaRow(area: Area): Classified -> bool {
    (row: Classified) => area.Contains(row.z, row.n)
  }

  /** The synthesis chart's cells: the in-area rows, each showing its method. */
  function SynthesisCells(rows: seq<Classified>, area: Area): (r: seq<Cell>)
    ensures |r| == |rows|
    ensures forall i :: 0 <= i < |r| ==>
      r[i] == Cell(rows[i].n - area.nMin, rows[i].z - area.zMin, rows[i].kind)
  {
    if |rows| == 0 then []
    else
      var rest := SynthesisCells(rows[1..], area);
      assert forall i :: 1 <= i < |rows| ==> rows[i] == rows[1..][i - 1];
      [Cell(rows[0].n - area.nMin, rows[0].z - area.zMin, rows[0].kind)] + rest
  }

  /** The in-area nuclides' cells, each inside the grid. */
  function NuclideCells(d: Dataset, area: Area, hlFmt: real -> string, ratioFmt: real -> string): (r: seq<Cell>)
    ensures |r| == |Select(d, InAreaTest(area))|
    ensures forall c :: c in r ==> 0 <= c.x < area.Width() && 0 <= c.y < area.Height()
  {
    var inside := Select(d, InAreaTest(area));
    SelectedInArea(d, area);
    CellsInGrid(inside, area, hlFmt, ratioFmt);
    CellsOf(inside, area, hlFmt, ratioFmt)
  }

  lemma SelectedInArea(d: Dataset, area: Area)
    ensures forall e :: e in Select(d, InAreaTest(area)) ==> InAreaEntry(area, e)
  {
    forall e | e in Select(d, InAreaTest(area))
      ensures InAreaEntry(area, e)
    {
      assert InAreaTest(area)(e);
    }
  }

  /** In-area nuclides give cells inside the grid. */
  lemma CellsInGrid(entries: seq<(string, Nuclide)>, area: Area, hlFmt: real -> string, ratioFmt: real -> string)
    requires forall e :: e in entries ==> InAreaEntry(area, e)
    ensures forall c :: c in CellsOf(entries, area, hlFmt, ratioFmt) ==>
      0 <= c.x < area.Width() && 0 <= c.y < area.Height()
  {
    var r := CellsOf(entries, area, hlFmt, ratioFmt);
    forall c | c in r
      ensures 0 <= c.x < area.Width() && 0 <= c.y < area.Height()
    {
      var i :| 0 <= i < |r| && r[i] == c;
      assert entries[i] in entries;
    }
  }

  /** The in-area synthesis rows' cells, each inside the grid. */
  function SynthesisChartCells(synthesis: seq<Classified>, area: Area): (r: seq<Cell>)
    ensures |r| == |Select(synthesis, InAreaRow(area))|
    ensures forall c :: c in r ==> 0 <= c.x < area.Width() && 0 <= c.y < area.Height()
  {
    var inside := Select(synthesis, InAreaRow(area));
    var r := SynthesisCells(inside, area);
    assert forall c :: c in r ==> 0 <= c.x < area.Width() && 0 <= c.y < area.Height() by {
      assert forall row :: row in inside ==> area.Contains(row.z, row.n);
      SynthesisCellsInGrid(inside, area);
    }
    r
  }

  /** In-area synthesis rows give cells inside the grid. */
  lemma SynthesisCellsInGrid(rows: seq<Classified>, area: Area)
    requires forall row :: row in rows ==> area.Contains(row.z, row.n)
    ensures forall c :: c in SynthesisCells(rows, area) ==>
      0 <= c.x < area.Width() && 0 <= c.y < area.Height()
  {
    var r := SynthesisCells(rows, area);
    forall c | c in r
      ensures 0 <= c.x < area.Width() && 0 <= c.y < area.Height()
    {
      var i :| 0 <= i < |r| && r[i] == c;
      assert rows[i] in rows;
    }
  }

  /** The detail texts of a chart: for the half-life and decay-mode charts (plot
      modes 0 and 1) one cell per nuclide inside the area, in dataset order; for
      the synthesis chart (mode 2) one per synthesis row inside the area; none
      for other modes. Every cell lies inside the grid. */
  function DetailCells(plotMode: int, d: Dataset, synthesis: seq<Classified>, area: Area,
                       hlFmt: real -> string, ratioFmt: real -> string): (r: seq<Cell>)
    ensures plotMode in {0, 1} ==> |r| == |Select(d, InAreaTest(area))|
    ensures plotMode == 2 ==> |r| == |Select(synthesis, InAreaRow(area))|
    ensures plotMode !in {0, 1, 2} ==> r == []
    ensures forall c :: c in r ==> 0 <= c.x < area.Width() && 0 <= c.y < area.Height()
  {
    if plotMode == 0 || plotMode == 1 then NuclideCells(d, area, hlFmt, ratioFmt)
    else if plotMode == 2 then SynthesisChartCells(synthesis, area)
    else []
  }

  /** Every cell belongs to a nuclide inside the area. */
  lemma DetailCellsSound(plotMode: int, d: Dataset, synthesis: seq<Classified>, area: Area, hlFmt: real -> string, ratioFmt: real -> string)
    requires plotMode in {0, 1}
    ensures forall c :: c in DetailCells(plotMode, d, synthesis, area, hlFmt, ratioFmt) ==>
      exists e :: e in d && area.Contains(e.1.z, e.1.n) && c == CellOf(e.1, area, hlFmt, ratioFmt)
  {
    var inside := Select(d, InAreaTest(area));
    var r := CellsOf(inside, area, hlFmt, ratioFmt);
    assert DetailCells(plotMode, d, synthesis, area, hlFmt, ratioFmt) == NuclideCells(d, area, hlFmt, ratioFmt) == r;
    forall c | c in r
      ensures exists e :: e in d && area.Contains(e.1.z, e.1.n) && c == CellOf(e.1, area, hlFmt, ratioFmt)
    {
      var i :| 0 <= i < |r| && r[i] == c;
      var e := inside[i];
      assert e in inside;
      assert InAreaTest(area)(e);
      assert c == CellOf(e.1, area, hlFmt, ratioFmt);
    }
  }

  /** Every nuclide inside the area gets its cell. */
  lemma DetailCellsComplete(plotMode: int, d: Dataset, synthesis: seq<Classified>, area: Area, hlFmt: real -> string, ratioFmt: real -> string)
    requires plotMode in {0, 1}
    ensures forall e :: e in d && area.Contains(e.1.z, e.1.n) ==>
      CellOf(e.1, area, hlFmt, ratioFmt) in DetailCells(plotMode, d, synthesis, area, hlFmt, ratioFmt)
  {
    var inside := Select(d, InAreaTest(area));
    var r := CellsOf(inside, area, hlFmt, ratioFmt);
    assert DetailCells(plotMode, d, synthesis, area, hlFmt, ratioFmt) == NuclideCells(d, area, hlFmt, ratioFmt) == r;
    forall e | e in d && area.Contains(e.1.z, e.1.n)
      ensures CellOf(e.1, area, hlFmt, ratioFmt) in r
    {
      assert InAreaTest(area)(e);
      var i :| 0 <= i < |inside| && inside[i] == e;
      assert r[i] == CellOf(e.1, area, hlFmt, ratioFmt);
    }
  }
}
