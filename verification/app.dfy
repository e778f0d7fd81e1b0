/** The request handlers of the web front end, without the UI and the files
    they write: the half-life unit conversion, the staged filter request and
    the single-nuclide search. */
module App {
  import opened Common
  import opened Nuclides
  import opened Filters
  import opened Resolver
  import opened Flatten

  // ---------------------------------------------------------------------------
  // Half-life units

  /** The front end's own copy of the seconds-per-unit table. */
  const AppHalfLifeUnits: map<string, real> := map[
    "fs" := 0.000000000000001,
    "ps" := 0.000000000001,
    "ns" := 0.000000001,
    "us" := 0.000001,
    "ms" := 0.001,
    "s" := 1.0,
    "m" := 60.0,
    "h" := 3600.0,
    "d" := 86400.0,
    "y" := 31557600.0,
    "ky" := 31557600000.0,
    "My" := 31557600000000.0,
    "Gy" := 31557600000000000.0]

  /** The two copies of the unit table agree entry for entry. */
  lemma UnitTablesAgree()
    ensures AppHalfLifeUnits == HalfLifeUnits
    ensures "Stable" !in AppHalfLifeUnits
  {
    assert AppHalfLifeUnits.Keys == HalfLifeUnits.Keys;
  }

  /** A bound in seconds: the unit "Stable" means no bound; any other unit
      must be in the table (else KeyError), and then the number must be
      present (else TypeError, multiplying None). */
  function UnitConvert(hl: Option<real>, unit: string): (r: Result<Option<real>, PyError>)
    ensures unit == "Stable" ==> r == Success(None)
    ensures unit != "Stable" && unit !in HalfLifeUnits ==> r == Failure(KeyError(unit))
    ensures unit in HalfLifeUnits && hl.None? ==> r == Failure(TypeError)
    ensures unit in HalfLifeUnits && hl.Some? ==>
      r.Success? && r.value.Some? && ToSeconds(hl.value, unit) == r.value
  {
    UnitTablesAgree();
    if unit == "Stable" then Success(None)
    else if unit !in AppHalfLifeUnits then Failure(KeyError(unit))
    else if hl.None? then Failure(TypeError)
    else Success(Some(hl.value * AppHalfLifeUnits[unit]))
  }

  // ---------------------------------------------------------------------------
  // The filter request

  /** What the filter page reports: nothing found, or the count and the
      surviving entries (written to a JSON file, which is not modelled). */
  datatype FilterOutcome = NothingFound | Matched(count: nat, nuclides: Dataset)

  /** The half-life request of the filter page. */
  datatype HalfLifeRequest = HalfLifeRequest(enable: int, min: Option<real>, minUnit: string, max: Option<real>, maxUnit: string)

  /** The decay-mode request: 1 = all of the modes, 2 = any of them. */
  datatype DecayRequest = DecayRequest(enable: int, modes: seq<string>)

  /** The half-life stage runs only when enabled with index 1. */
  predicate HalfLifeStageOn(h: HalfLifeRequest) { h.enable == 1 }

  /** The decay stage runs only when enabled and at least one mode is chosen. */
  predicate DecayStageOn(m: DecayRequest) { m.enable > 0 && |m.modes| > 0 }

  /** Which nuclides the half-life filter keeps for bounds of each shape. */
  ghost predicate HalfLifeAdmits(nuc: Nuclide, lo: Option<real>, hi: Option<real>) {
    match (lo, hi)
    case (None, None) => HasStableLevel(nuc)
    case (None, Some(_)) => false
    case (Some(l), None) => Scan(nuc.levels, AboveStep(l))
    case (Some(l), Some(h)) => Scan(nuc.levels, BetweenStep(l, h))
  }

  /** Which nuclides the decay-mode filter keeps. */
  ghost predicate DecayAdmits(nuc: Nuclide, idx: int, requested: seq<string>) {
    || (idx == 1 && forall m :: m in requested ==> ObservesCanonical(nuc, m))
    || (idx == 2 && exists m :: m in requested && ObservesCanonical(nuc, m))
  }

  function Outcome(r: Dataset): (o: FilterOutcome)
    ensures o.NothingFound? <==> |r| == 0
    ensures o.Matched? ==> o.count == |o.nuclides| > 0 && o.nuclides == r
  {
    if |r| == 0 then NothingFound else Matched(|r|, r)
  }

  /** The half-life stage on its own, with the bounds converted first. */
  function HalfLifeStage(d: Dataset, h: HalfLifeRequest): (r: Result<Dataset, PyError>)
    ensures !HalfLifeStageOn(h) ==> r == Success(d)
    ensures r.Success? ==> Subseq(r.value, d)
    ensures HalfLifeStageOn(h) && r.Success? ==>
      var lo := UnitConvert(h.min, h.minUnit);
      var hi := UnitConvert(h.max, h.maxUnit);
      && lo.Success? && hi.Success?
      && forall e :: e in r.value <==> e in d && HalfLifeAdmits(e.1, lo.value, hi.value)
    ensures HalfLifeStageOn(h) && UnitConvert(h.min, h.minUnit).Failure? ==>
      r.Failure? && r.error == UnitConvert(h.min, h.minUnit).error
    ensures HalfLifeStageOn(h) && UnitConvert(h.min, h.minUnit).Success? && UnitConvert(h.max, h.maxUnit).Failure? ==>
      r.Failure? && r.error == UnitConvert(h.max, h.maxUnit).error
  {
    SubseqRefl(d);
    if !HalfLifeStageOn(h) then Success(d)
    else
      match UnitConvert(h.min, h.minUnit)
      case Failure(e) => Failure(e)
      case Success(lo) =>
        match UnitConvert(h.max, h.maxUnit)
        case Failure(e) => Failure(e)
        case Success(hi) => Success(FilterHalflife(d, lo, hi))
  }

  /** The decay-mode stage on its own. */
  function DecayStage(d: Dataset, m: DecayRequest): (r: Dataset)
    ensures Subseq(r, d)
    ensures !DecayStageOn(m) ==> r == d
    ensures DecayStageOn(m) ==> forall e :: e in r <==> e in d && DecayAdmits(e.1, m.enable, m.modes)
  {
    SubseqRefl(d);
    if DecayStageOn(m) then FilterDecayModes(d, m.enable, m.modes) else d
  }

  /** The filter request: the Z/N/A filter always, then the half-life stage
      when enabled, then the decay-mode stage when enabled with a non-empty
      choice. A conversion error of a bound propagates. */
  function ProcessFilters(d: Dataset, q: ZnaQuery, h: HalfLifeRequest, m: DecayRequest): (r: Result<FilterOutcome, PyError>)
    ensures !HalfLifeStageOn(h) ==> r.Success?
    ensures r.Success? && r.value.Matched? ==>
      && r.value.count == |r.value.nuclides| > 0
      && Subseq(r.value.nuclides, d)
      && forall e :: e in r.value.nuclides ==> PassesZNA(e.1, q)
  {
    var zna := FilterZNA(d, q);
    match HalfLifeStage(zna, h)
    case Failure(e) => Failure(e)
    case Success(hl) =>
      var dm := DecayStage(hl, m);
      SubseqTransitive(dm, hl, zna);
      SubseqTransitive(dm, zna, d);
      SubseqMembers(dm, zna);
      Success(Outcome(dm))
  }

  /** The kept entries are exactly the dataset entries that every enabled
      stage admits, whatever order the stages would run in. */
  lemma ProcessFiltersMembers(d: Dataset, q: ZnaQuery, h: HalfLifeRequest, m: DecayRequest, e: (string, Nuclide))
    requires ProcessFilters(d, q, h, m).Success?
    ensures var o := ProcessFilters(d, q, h, m).value;
      var lo := UnitConvert(h.min, h.minUnit);
      var hi := UnitConvert(h.max, h.maxUnit);
      (o.Matched? && e in o.nuclides) <==>
        && e in d
        && PassesZNA(e.1, q)
        && (HalfLifeStageOn(h) ==> lo.Success? && hi.Success? && HalfLifeAdmits(e.1, lo.value, hi.value))
        && (DecayStageOn(m) ==> DecayAdmits(e.1, m.enable, m.modes))
  {
    var zna := FilterZNA(d, q);
    var hl := HalfLifeStage(zna, h).value;
    var dm := DecayStage(hl, m);
    assert ProcessFilters(d, q, h, m).value == Outcome(dm);
    if e in dm {
      assert Outcome(dm).Matched?;
    }
  }

  /** The default upper unit "Stable" leaves only the lower bound: the
      nuclides with a level at or above it, by the level scan. */
  lemma StableMaxKeepsAbove(d: Dataset, q: ZnaQuery, h: HalfLifeRequest, e: (string, Nuclide))
    requires h.enable == 1 && h.maxUnit == "Stable"
    requires h.minUnit in HalfLifeUnits && h.min.Some?
    ensures ProcessFilters(d, q, h, DecayRequest(0, [])).Success?
    ensures var o := ProcessFilters(d, q, h, DecayRequest(0, [])).value;
      (o.Matched? && e in o.nuclides) <==>
        e in d && PassesZNA(e.1, q) && Scan(e.1.levels, AboveStep(h.min.value * HalfLifeUnits[h.minUnit]))
  {
    UnitTablesAgree();
    var lo := UnitConvert(h.min, h.minUnit);
    assert lo == Success(Some(h.min.value * HalfLifeUnits[h.minUnit]));
    assert UnitConvert(h.max, h.maxUnit) == Success(None);
    ProcessFiltersMembers(d, q, h, DecayRequest(0, []), e);
  }

  /** A lower unit of "Stable" with a real upper bound finds nothing. */
  lemma StableMinFindsNothing(d: Dataset, q: ZnaQuery, h: HalfLifeRequest, m: DecayRequest)
    requires h.enable == 1 && h.minUnit == "Stable"
    requires h.maxUnit in HalfLifeUnits && h.max.Some?
    ensures ProcessFilters(d, q, h, m) == Success(NothingFound)
  {
    var zna := FilterZNA(d, q);
    assert HalfLifeStage(zna, h) == Success([]);
  }

  /** Both units "Stable": the nuclides with a STABLE level. */
  lemma BothStableKeepsStable(d: Dataset, q: ZnaQuery, h: HalfLifeRequest, e: (string, Nuclide))
    requires h.enable == 1 && h.minUnit == "Stable" && h.maxUnit == "Stable"
    ensures ProcessFilters(d, q, h, DecayRequest(0, [])).Success?
    ensures var o := ProcessFilters(d, q, h, DecayRequest(0, [])).value;
      (o.Matched? && e in o.nuclides) <==> e in d && PassesZNA(e.1, q) && HasStableLevel(e.1)
  {
    ProcessFiltersMembers(d, q, h, DecayRequest(0, []), e);
  }

  // ---------------------------------------------------------------------------
  // The search request

  predicate IsSpace(c: char) {
    c == ' '
  }

  predicate NotSpace(c: char) {
    c != ' '
  }

  /** The search text with every space removed. */
  function RemoveSpaces(s: string): (r: string)
    ensures forall c :: c in r <==> c in s && c != ' '
    ensures forall c :: c != ' ' ==> multiset(r)[c] == multiset(s)[c]
    ensures Subseq(r, s)
  {
    var r := Select(s, NotSpace);
    assert forall c :: c != ' ' ==> multiset(r)[c] == multiset(s)[c] by {
      SelectPartition(s, NotSpace, IsSpace);
      OnlySpacesRemoved(r, Select(s, IsSpace), s);
    }
    r
  }

  /** Taking away only spaces leaves the count of every other character. */
  lemma OnlySpacesRemoved(r: string, spaces: string, s: string)
    requires multiset(r) + multiset(spaces) == multiset(s)
    requires forall c :: c in spaces ==> c == ' '
    ensures forall c :: c != ' ' ==> multiset(r)[c] == multiset(s)[c]
  {
    forall c | c != ' '
      ensures multiset(r)[c] == multiset(s)[c]
    {
      assert c !in spaces;
    }
  }

  lemma RemoveSpacesIdempotent(s: string)
    ensures RemoveSpaces(RemoveSpaces(s)) == RemoveSpaces(s)
  {
    SelectAll(RemoveSpaces(s), NotSpace);
  }

  /** The record a search finds: by name (spaces removed) in mode 0, by a
      pair of Z, N, A in modes 1-3 when both are given, else none. */
  function FindRecord(d: Dataset, mode: int, nom: string, z: Option<int>, n: Option<int>, a: Option<int>): (r: Option<Nuclide>)
    ensures mode == 0 && NameKey(RemoveSpaces(nom)).Some? && DistinctKeys(d) ==>
      forall v :: r == Some(v) <==> (NameKey(RemoveSpaces(nom)).value, v) in d
    ensures mode == 0 && NameKey(RemoveSpaces(nom)).None? ==> r.None?
    ensures mode == 1 && z.Some? && n.Some? ==>
      && (r.Some? ==> r.value.z == z.value && r.value.n == n.value && r.value in Values(d))
      && (r.None? <==> forall e :: e in d ==> !(e.1.z == z.value && e.1.n == n.value))
      && (r.Some? ==> exists i :: (0 <= i < |d| && d[i].1 == r.value
            && forall j :: 0 <= j < i ==> !(d[j].1.z == z.value && d[j].1.n == n.value)))
    ensures mode == 2 && z.Some? && a.Some? ==>
      && (r.Some? ==> r.value.z == z.value && r.value.a == a.value && r.value in Values(d))
      && (r.None? <==> forall e :: e in d ==> !(e.1.z == z.value && e.1.a == a.value))
      && (r.Some? ==> exists i :: (0 <= i < |d| && d[i].1 == r.value
            && forall j :: 0 <= j < i ==> !(d[j].1.z == z.value && d[j].1.a == a.value)))
    ensures mode == 3 && n.Some? && a.Some? ==>
      && (r.Some? ==> r.value.n == n.value && r.value.a == a.value && r.value in Values(d))
      && (r.None? <==> forall e :: e in d ==> !(e.1.n == n.value && e.1.a == a.value))
      && (r.Some? ==> exists i :: (0 <= i < |d| && d[i].1 == r.value
            && forall j :: 0 <= j < i ==> !(d[j].1.n == n.value && d[j].1.a == a.value)))
    ensures mode == 1 && (z.None? || n.None?) ==> r.None?
    ensures mode == 2 && (z.None? || a.None?) ==> r.None?
    ensures mode == 3 && (n.None? || a.None?) ==> r.None?
    ensures mode !in {0, 1, 2, 3} ==> r.None?
  {
    if mode == 0 then SearchByName(d, RemoveSpaces(nom))
    else if mode == 1 then (if z.None? || n.None? then None else SearchZN(d, z.value, n.value))
    else if mode == 2 then (if z.None? || a.None? then None else SearchZA(d, z.value, a.value))
    else if mode == 3 then (if n.None? || a.None? then None else SearchNA(d, n.value, a.value))
    else None
  }

  /** Spaces never change what a name search finds. */
  lemma FindRecordIgnoresSpaces(d: Dataset, nom: string, z: Option<int>, n: Option<int>, a: Option<int>)
    ensures FindRecord(d, 0, nom, z, n, a) == FindRecord(d, 0, RemoveSpaces(nom), z, n, a)
  {
    RemoveSpacesIdempotent(nom);
  }

  /** The preview table of a found nuclide. */
  datatype Preview = CompactTable(compact: seq<CompactRow>) | FullTable(full: seq<FullRow>)

  /** The download of a found nuclide: its JSON record, its full table as CSV,
      or no file. */
  datatype Download = JsonFile(record: Nuclide) | CsvFile(rows: seq<FullRow>) | NoFile

  /** What the search page shows: nothing found, or the nuclide (with a note
      when it has no levels), its preview and its export. */
  datatype SearchOutcome = NotFound | Located(nuc: Nuclide, noData: bool, preview: Preview, saved: Download)

  /** The search request. A preview index other than 0 and 1 leaves the table
      variable unassigned when a nuclide is found, which fails on return. */
  function ProcessSearch(d: Dataset, mode: int, nom: string, z: Option<int>, n: Option<int>, a: Option<int>,
                         previewMode: int, fileType: int): (r: Result<SearchOutcome, PyError>)
    ensures FindRecord(d, mode, nom, z, n, a).None? ==> r == Success(NotFound)
    ensures FindRecord(d, mode, nom, z, n, a).Some? && previewMode !in {0, 1} ==>
      r == Failure(UnboundLocal("result_dataframe"))
    ensures r.Success? && r.value.Located? ==>
      && Some(r.value.nuc) == FindRecord(d, mode, nom, z, n, a)
      && (r.value.noData <==> |r.value.nuc.levels| == 0)
      && (previewMode == 0 ==> r.value.preview.CompactTable? && |r.value.preview.compact| == |r.value.nuc.levels|)
      && (previewMode == 1 ==> r.value.preview.FullTable? && |r.value.preview.full| == TotalRows(r.value.nuc.levels))
      && (previewMode == 0 ==> r.value.preview == CompactTable(CompactRows(r.value.nuc)))
      && (previewMode == 1 ==> r.value.preview == FullTable(FullRows(r.value.nuc)))
      && (fileType == 0 <==> r.value.saved.JsonFile?)
      && (fileType == 1 <==> r.value.saved.CsvFile?)
      && (fileType == 0 ==> r.value.saved.record == r.value.nuc)
      && (fileType == 1 ==> r.value.saved == CsvFile(FullRows(r.value.nuc)))
  {
    match FindRecord(d, mode, nom, z, n, a)
    case None => Success(NotFound)
    case Some(nuc) =>
      if previewMode != 0 && previewMode != 1 then Failure(UnboundLocal("result_dataframe"))
      else
        var preview := if previewMode == 0 then CompactTable(CompactRows(nuc)) else FullTable(FullRows(nuc));
        var saved := if fileType == 0 then JsonFile(nuc) else if fileType == 1 then CsvFile(FullRows(nuc)) else NoFile;
        Success(Located(nuc, |nuc.levels| == 0, preview, saved))
  }

  /** The CSV export always holds the found record's full table, and it describes the same
      rows as either preview: the full preview itself, or the compact preview
      expanded one line per observed mode. */
  lemma CsvMatchesPreview(d: Dataset, mode: int, nom: string, z: Option<int>, n: Option<int>, a: Option<int>, previewMode: int)
    requires ProcessSearch(d, mode, nom, z, n, a, previewMode, 1).Success?
    requires ProcessSearch(d, mode, nom, z, n, a, previewMode, 1).value.Located?
    ensures var o := ProcessSearch(d, mode, nom, z, n, a, previewMode, 1).value;
      && o.saved == CsvFile(FullRows(o.nuc))
      && (o.preview.FullTable? ==> o.saved.rows == o.preview.full)
      && (o.preview.CompactTable? ==> FullLines(o.saved.rows) == ExpandCompact(o.preview.compact))
  {
    var o := ProcessSearch(d, mode, nom, z, n, a, previewMode, 1).value;
    FullMatchesCompact(o.nuc);
  }
}
