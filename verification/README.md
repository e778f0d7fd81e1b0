# Nuclide data tool: filtering, search, flattening, classification and chart text

This project is a Dafny model of the core of a small nuclear-data web tool. The tool reads an
NNDC NuDat export: a dict from nuclide symbol to a record with Z, N, A and a list of energy
levels. Each level may carry a half-life, a mass excess and observed or predicted decay modes
with branch ratios.

The model covers:

- `NDfilter.py`:
  - the Z/N/A filter with parity;
  - the four-shape half-life filter, with its level scan that breaks early;
  - the decay-mode filter, including its `β⁻` repair;
  - the name resolver and the three coordinate searches;
  - the two table flatteners (full and compact);
  - the half-life classifier and the decay-mode classifier.
- `NDplot.py`:
  - the colour, legend and synthesis tables;
  - cell shading for the three plot modes;
  - the legend contents;
  - the plotting grid, the axis ranges and ticks, the layout constants and the text colour;
  - the detail text written into each cell.
- `app.py`:
  - the half-life unit conversion;
  - the staged filter request;
  - the search request, with its preview and download choices.

Datasets are sequences of `(symbol, record)` pairs in dict insertion order.

- Filters keep a subsequence. They are built on `Common.Select`.
- Searches stop at the first hit. They are built on `Common.FirstMatch`.
- Python exceptions are `Failure` values of a `Result`: `KeyError`, `TypeError` (arithmetic
  on `None`) and `UnboundLocal`.
- Half-lives and branch ratios are exact `real`s.
- The number formatting of the chart text is a parameter `real -> string`.

Modules, one per file:

- `Common`: Option, Result, Select, FirstMatch and subsequences.
- `Nuclides`: records and the unit table.
- `Filters`, `Resolver`, `Flatten`.
- `Ranking`: ordering decay modes by branch ratio.
- `Classify`, `Chart`, `CellText`, `App`.

Two behaviours of the code are easy to misread; the model keeps both:

- With neither half-life bound, the filter keeps a nuclide when ANY of its levels is STABLE,
  not only when the ground state is (`NDfilter.py:56-64`).
- The full table stores the mass-excess unit in the "Mass Excess" column and the value in the
  "Mass Excess unit" column (`NDfilter.py:202-203`). `Flatten.FullRow` keeps that layout.

## Model

| member | source | states |
|---|---|---|
| Nuclides.ToSeconds | NDfilter.py:75-77 | a half-life converts to seconds exactly when its unit is in the table, and dividing back by the factor gives the value |
| Nuclides.UnitsPositive | NDfilter.py:8 | every unit factor is positive and the factors grow strictly from fs to Gy |
| Nuclides.ToSecondsMonotone | NDfilter.py:77-78 | in one unit, a longer half-life is more seconds and conversely |
| Nuclides.SubseqWellFormed | NDfilter.py:49-50 | a sub-dict of a dataset with distinct symbols and A = Z + N keeps both properties |
| Filters.FilterZNA | NDfilter.py:11-52 | keeps exactly the records meeting all six optional bounds and three parity choices, as a subsequence of the input |
| Filters.FilterZNAMonotone | NDfilter.py:15-47 | tighter bounds keep a subsequence of what looser bounds keep |
| Filters.Scan | NDfilter.py:67-80 | the level loop with `break` keeps a nuclide iff some level says keep and no earlier level stopped the scan |
| Filters.ScanWithoutStop | NDfilter.py:58-64 | a scan that never stops keeps iff some level says keep |
| Filters.FilterHalflife | NDfilter.py:54-96 | the four bound shapes: no bounds keeps nuclides with a STABLE level; only an upper bound keeps nothing; a lower bound scans the levels with or without an upper bound; always a subsequence |
| Filters.FilterHalflifeAbove | NDfilter.py:66-80 | with a lower bound only, a nuclide is kept iff its first level that is STABLE or longer than the bound comes before any level in an unknown unit and after only shorter or unknown-half-life levels |
| Filters.FilterHalflifeBetween | NDfilter.py:81-94 | with both bounds, STABLE levels are passed over and a nuclide is kept iff its first level strictly inside the range is preceded by no level in an unknown unit |
| Filters.AddLabels | NDfilter.py:106-108 | appending labels skips ones already present: the result holds exactly the old and new labels, with no duplicates |
| Filters.CollectLabels | NDfilter.py:101-109 | the collected labels are exactly the observed modes of all levels, with no duplicates |
| Filters.PresentLabels | NDfilter.py:113-118 | the repaired labels are exactly the observed modes with `β⁻` read as `B-` |
| Filters.FilterDecayModes | NDfilter.py:98-127 | index 1 keeps nuclides observing every requested mode, index 2 those observing at least one, any other index keeps nothing |
| Resolver.ParseName | NDfilter.py:133-140 | a parsed name is letters and digits joined by separators, in either order |
| Resolver.ParseLettersFirst | NDfilter.py:133-136 | letters, separators, digits parse to that element and mass text |
| Resolver.ParseDigitsFirst | NDfilter.py:137-140 | digits, separators, letters parse to the same element and mass text |
| Resolver.NormaliseElement | NDfilter.py:143-147 | `n`/`N` are kept; otherwise the first letter is upper-cased and the rest lower-cased |
| Resolver.StripZeros | NDfilter.py:148-149 | removes exactly the leading zeros |
| Resolver.NameKey | NDfilter.py:133-150 | a lookup key exists iff the text parses |
| Resolver.NameKeyEitherOrder | NDfilter.py:133-150 | both word orders and any separators give the same key: stripped mass then normalised element |
| Resolver.NameKeyIgnoresCase | NDfilter.py:143-147 | element spellings differing only in case normalise alike |
| Resolver.Thorium232 | NDfilter.py:133-150 | five spellings of thorium-232, in either order, any case, with separators and leading zeros, all give the key `232Th` |
| Resolver.SearchByName | NDfilter.py:129-154 | unparsable text finds nothing; otherwise, with distinct symbols, the result is the record stored under the key |
| Resolver.LookupKey | NDfilter.py:151-152 | on a dict, the record found under a key is exactly the one stored with that key, and nothing is found for a missing key |
| Resolver.SearchBy | NDfilter.py:156-163 | the first record in dict order that matches, or none iff nothing matches |
| Resolver.SearchZN | NDfilter.py:156-163 | a found record has the given Z and N, is in the dataset and is the first such record in dataset order; none iff no record has them |
| Resolver.SearchZA | NDfilter.py:165-172 | a found record has the given Z and A, is in the dataset and is the first such record in dataset order; none iff no record has them |
| Resolver.SearchNA | NDfilter.py:174-181 | a found record has the given N and A, is in the dataset and is the first such record in dataset order; none iff no record has them |
| Resolver.CoordinateSearchesAgree | NDfilter.py:156-181 | on a dataset with A = Z + N, the (Z, A) and (N, A) searches find the same record as (Z, N) |
| Flatten.LimitSymbolsDistinct | NDfilter.py:217-233 | the four limit symbols are distinct, present, and differ from the approximation mark |
| Flatten.RowOfHalflife | NDfilter.py:206-216 | a STABLE level leaves the three half-life columns empty; a timed level fills value and unit |
| Flatten.LevelRows | NDfilter.py:236-242 | a level without observed modes gives one row with empty mode columns; otherwise one row per observed mode, in order |
| Flatten.FullRowsOf | NDfilter.py:189-242 | the rows of a list of levels: one per observed mode or one per mode-less level, each carrying the nuclide's name, Z, N and A |
| Flatten.FullRows | NDfilter.py:183-246 | the full table has one row per observed mode or per mode-less level, each carrying the nuclide's identity |
| Flatten.TimedText | NDfilter.py:270 | a formatted half-life is exactly its NDS text, a space and the unit, and never reads STABLE |
| Flatten.CompactRows | NDfilter.py:248-286 | one row per level: spin parity copied; half-life STABLE iff the level is stable, empty iff it has none; a mode table iff there are observed modes, with one entry per mode |
| Flatten.CompactRowsOf | NDfilter.py:250-282 | each compact row is built from its own level |
| Flatten.FullMatchesCompact | NDfilter.py:236-282 | the full table is the compact table with each level expanded into one line per observed mode |
| Flatten.ModeRowsAsWritten | NDfilter.py:241-242 | the per-mode loop as written fails with KeyError "value" iff some observed mode has no branch ratio |
| Flatten.FullRowsAsWrittenFails | NDfilter.py:236-242 | the full flattener as written raises KeyError "value" iff an observed mode lacks a ratio, and otherwise equals the corrected table |
| Flatten.CompactRowsAsWrittenFails | NDfilter.py:278-280 | the compact flattener as written raises KeyError "value" iff an observed mode lacks a ratio, and otherwise equals the corrected table |
| Ranking.FirstMaxIndex | NDfilter.py:380-381 | the position of the first largest branch ratio |
| Ranking.InsertDesc | NDfilter.py:380-381 | inserting into a descending list keeps it descending and is a permutation with the new element |
| Ranking.SortDesc | NDfilter.py:380-381 | the descending sort is a permutation, descending, and starts with the first largest element |
| Ranking.Ranked | NDfilter.py:369-384 | the ranking is a permutation of the modes: the quantified ones first, in descending order, then the unquantified ones in their listed order |
| Ranking.InsertDescStable | NDfilter.py:380-381 | inserting a mode puts it ahead of the modes with the same ratio and keeps their order |
| Ranking.SortDescStable | NDfilter.py:380-381 | the descending sort is stable: the modes that share a ratio keep their listed order |
| Ranking.RankedStable | NDfilter.py:369-384 | in the quantified part of the ranking, the modes that share a ratio keep their listed order |
| Ranking.RankedHead | NDfilter.py:380-385 | the head of the ranking is the first largest quantified mode, or the first listed mode when none is quantified |
| Ranking.LastWithMode | NDfilter.py:378 | the name-keyed dict holds the last quantified entry of each name |
| Ranking.Relookup | NDfilter.py:382-383 | the re-lookup keeps the name sequence, and each entry comes from the quantified list |
| Ranking.RankedAsWritten | NDfilter.py:369-384 | the ranking as written has one entry per listed mode |
| Ranking.AsWrittenSameNames | NDfilter.py:378-385 | as written and corrected, the rankings list the same mode names in the same order |
| Ranking.AsWrittenLosesEntry | NDplot.py:392-404 | a mode listed twice with ratios a > b ranks as [b, b] as written, losing a; the corrected ranking is [a, b] |
| Classify.SpecialLabelsDistinct | NDfilter.py:296-305 | ST, SU and UN are not bucket labels |
| Classify.BucketIndex | NDfilter.py:306-341 | the bucket is the number of thresholds at or below the value, so the value lies below the next threshold |
| Classify.BucketUnique | NDfilter.py:306-341 | any index meeting the threshold characterisation is the bucket |
| Classify.BucketMonotone | NDfilter.py:306-341 | a longer half-life never lands in an earlier bucket |
| Classify.ThresholdValues | NDfilter.py:308-338 | the sixteen thresholds, 1e-7 s to 1e15 s |
| Classify.BucketLabelByTable | NDfilter.py:308-341 | the literal if-chain gives the table label of the bucket |
| Classify.HalfLifeClass | NDfilter.py:293-343 | the class is always one of the chart's half-life labels |
| Classify.HalfLifeClassMeaning | NDfilter.py:296-341 | UN iff no ground half-life; ST iff the ground state is stable; SU iff its unit is unknown; otherwise the bucket of its value in seconds |
| Classify.DecayModeClassMeaning | NDfilter.py:364-385 | the class is the name at the head of the corrected ranking: the first largest quantified mode, or the first listed mode |
| Classify.DecayModeClassDominant | NDfilter.py:369-385 | when some mode has a ratio, the class names a quantified mode that no other quantified mode beats |
| Classify.DecayModeClassStable | NDfilter.py:357-363 | STABLE iff a stable ground state has no decay-mode data (unless a mode is named STABLE) |
| Classify.DecayModeClassUnknown | NDfilter.py:355-367 | UNKNOWN iff there are no levels, or a non-stable ground state has no decay data, or the mode list is empty (unless a mode is named UNKNOWN) |
| Classify.ClassifyHalfLives | NDfilter.py:288-345 | one entry per nuclide, in order, with its coordinates and half-life class |
| Classify.ClassifyDecayModes | NDfilter.py:347-388 | one entry per nuclide, in order, with its coordinates and decay-mode class |
| Chart.Lookup | NDplot.py:280-281 | a dict lookup finds nothing iff the key is absent, and otherwise finds a stored pair |
| Chart.TablesAgree | NDplot.py:34-102 | each colour table and its legend-name table list the same keys in the same order; the half-life keys are the class labels |
| Chart.LegendEntriesBuilt | NDplot.py:318-337 | when every colour key has a name, the legend builds with one entry per shown colour |
| Chart.LegendEntriesComplete | NDplot.py:320-327 | every shown colour gets its entry, with the special name for the 1e15s entry |
| Chart.LegendEntriesOrdered | NDplot.py:318-337 | the legend follows the colour table's order: entry k is the k-th shown key's colour under its name, or under the merged name for 1e15s |
| Chart.LegendStep | NDplot.py:320-327 | one loop step: a shown key's entry comes ahead of the later keys' entries, and ST adds none on the half-life chart |
| Chart.LegendEntriesFirstUnnamed | NDplot.py:318-337 | the legend raises KeyError exactly when a shown key has no name, and names the first such key in table order |
| Chart.FirstUnnamed | NDplot.py:320-335 | the first shown key without a legend name: none iff every shown key has one |
| Chart.LegendFailureStep | NDplot.py:320-327 | one loop step: an unnamed key raises at once; otherwise the legend fails as the rest of the table does |
| Chart.StableSharesBlack | NDplot.py:51-52 | ST and 1e15s share black, which is why the legend drops ST |
| Chart.LegendCoversHalfLifeClasses | NDplot.py:320-327 | every half-life class has a colour, and that colour appears in the half-life legend |
| Chart.LegendSizes | NDplot.py:318-337 | the legends have 19, 9 and 8 entries |
| Chart.HalfLifeLegendSize | NDplot.py:320-327 | the half-life legend has 19 entries, one per key except ST |
| Chart.DecayModeLegendSize | NDplot.py:329-331 | the decay-mode legend has one entry per colour key, 9 in all |
| Chart.SynthesisLegendSize | NDplot.py:333-335 | the synthesis legend has one entry per colour key, 8 in all |
| Chart.FamilyColours | NDplot.py:80-90 | the proton, neutron, beta-minus and unknown colours are the table entries |
| Chart.ContainsTwoN | NDplot.py:299 | the test `in ("2N")` holds exactly for "", "2", "N" and "2N" |
| Chart.DecayShadeDiffers | NDplot.py:293-302 | the as-written and corrected decay shades differ exactly on "" and "2", which get the neutron colour as written |
| Chart.FallbackDiffers | NDplot.py:293-302 | for a class the table does not list, the substring test and the intended test disagree exactly on "" and "2" |
| Chart.DecayShadeNeutron | NDplot.py:293-302 | with the intended test, exactly the classes N and 2N are painted in the neutron colour |
| Chart.ShadeInLegend | NDplot.py:271-314 | every colour a cell can be shaded with appears in that plot mode's legend |
| Chart.HalfLifeShadeInLegend | NDplot.py:280-281 | every half-life colour is in the half-life legend, ST through the entry it shares with 1e15s |
| Chart.DecayShadeInLegend | NDplot.py:293-302 | every decay-mode shade, the fallback family colours included, is in the decay-mode legend |
| Chart.SynthesisShadeInLegend | NDplot.py:312-313 | every synthesis colour is in the synthesis legend |
| Chart.HalfLifeClassShaded | NDplot.py:280-281 | every half-life class gets a colour on the half-life chart |
| Chart.CellIndex | NDplot.py:277-279 | a nuclide has a grid cell iff it is inside the area, and the cell is its offset from the corner |
| Chart.CellColourLastWins | NDplot.py:276-281 | a cell no row shades stays white; otherwise the last row that shades it decides its colour |
| Chart.CellColourStep | NDplot.py:289-302 | one more row repaints its own cell if it has a colour and leaves every other cell alone |
| Chart.PaintCells | NDplot.py:164-180 | the grid has the area's height and width, and every cell holds the colour that the classified rows give it |
| Chart.FloorTen | NDplot.py:155-158 | rounds down to a multiple of ten |
| Chart.CeilTen | NDplot.py:155-158 | rounds up to a multiple of ten |
| Chart.TicksFrom | NDplot.py:194-195 | ticks step by ten from the start and stop just before the end |
| Chart.TicksSpan | NDplot.py:194-195 | between two multiples of ten, the ticks run from the first to the second, all multiples of ten |
| Chart.AxesEnclose | NDplot.py:152-199 | the rounded axis ranges enclose the area, and the ticks run from the lower bound to 20 (x) or 10 (y) past the upper one |
| Chart.AxisSpan | NDplot.py:155-195 | for one axis of an area at least zero wide, the floor-ten and ceiling-ten bounds enclose the range and the ticks run in tens from the lower bound to `extra` past the upper one |
| Chart.DefaultAxes | NDplot.py:153-158 | the default area gives x from 0 to 180 and y from 0 to 120 |
| Chart.LayoutScales | NDplot.py:125-150 | each text mode scales the label font 15 and the tick font 10 by a ratio of 1, 5 or 10, with ticks every 10 |
| Chart.LegendFontShrinks | NDplot.py:203-209 | only the 19-entry half-life legend uses 0.6 of the tick font |
| Chart.TextColourMonotone | NDplot.py:219-224 | a cell at least as bright in every channel as one with black text also gets black text |
| Chart.WhiteCellsBlackText | NDplot.py:219-224 | white cells get black text and black cells white text |
| CellText.HalfLifeTextUnit | NDplot.py:370-380 | a timed ground half-life is the value followed by " min" for minutes or by a space and the unit |
| CellText.DecayLine | NDplot.py:406-438 | every decay line starts with the mode name |
| CellText.DecayLineShape | NDplot.py:406-438 | a line ends in "%" when a ratio and a known relation are shown; without a ratio it is the mode and " ?"; a limit of unknown direction shows the bare mode |
| CellText.Lines | NDplot.py:406-438 | one line per ranked mode, in order |
| CellText.CellLines | NDplot.py:385-438 | one decay line per ground-state mode, observed and predicted together |
| CellText.CellLinesComplete | NDplot.py:385-438 | every listed mode has its line, and the quantified lines come in descending ratio |
| CellText.CellLinesAsWritten | NDplot.py:392-404 | the as-written cell has one line per listed mode |
| CellText.CellLinesAsWrittenRepeat | NDplot.py:392-438 | as written, a mode listed twice prints the smaller ratio twice, while the corrected text prints both |
| CellText.DetailTextShowsThree | NDplot.py:439-447 | the text is the half-life line, a break, then the first min(3, n) decay lines, each after a break, so it has one more break than the lines shown |
| CellText.CellsOf | NDplot.py:351-449 | one cell per in-area nuclide, in order, each with its own text and offset |
| CellText.SynthesisCells | NDplot.py:456-463 | one cell per synthesis row, showing its method at its offset |
| CellText.NuclideCells | NDplot.py:351-449 | one cell per dataset nuclide inside the area, each inside the grid |
| CellText.SynthesisChartCells | NDplot.py:456-463 | one cell per synthesis row inside the area, each inside the grid |
| CellText.CellsInGrid | NDplot.py:352-354 | a nuclide inside the area gets a cell whose offset lies inside the grid |
| CellText.SynthesisCellsInGrid | NDplot.py:457-459 | a synthesis row inside the area gets a cell whose offset lies inside the grid |
| CellText.DetailCells | NDplot.py:339-465 | modes 0 and 1 give one cell per in-area nuclide, mode 2 one per in-area synthesis row, other modes none; every cell is inside the grid |
| CellText.DetailCellsSound | NDplot.py:351-354 | every cell belongs to a dataset nuclide inside the area |
| CellText.DetailCellsComplete | NDplot.py:351-449 | every dataset nuclide inside the area gets its cell |
| App.UnitTablesAgree | app.py:158 | the front end's unit table equals the filter module's, and has no "Stable" entry |
| App.UnitConvert | app.py:122-127 | "Stable" means no bound; an unknown unit raises KeyError; a missing number raises TypeError; otherwise the value in seconds, as the shared conversion gives |
| App.Outcome | app.py:25-31 | an empty result reports nothing found; otherwise the count equals the number of nuclides kept |
| App.HalfLifeStage | app.py:15-18 | off unless the index is 1; on, it converts both bounds (a conversion error propagates) and keeps exactly what the half-life filter admits |
| App.DecayStage | app.py:21-22 | off unless enabled with at least one mode; on, it keeps exactly what the decay-mode filter admits |
| App.ProcessFilters | app.py:10-33 | never fails with the half-life stage off; what it reports is a non-empty subsequence of the dataset, all passing the Z/N/A filter, with the count equal to its length |
| App.ProcessFiltersMembers | app.py:12-22 | a nuclide is reported iff it is in the dataset and every enabled stage admits it |
| App.StableMaxKeepsAbove | app.py:15-18 | with the default upper unit "Stable", only the lower bound applies, through the level scan |
| App.StableMinFindsNothing | app.py:15-18 | a lower unit of "Stable" with a real upper bound finds nothing |
| App.BothStableKeepsStable | app.py:15-18 | both units "Stable" keep the nuclides with a STABLE level |
| App.RemoveSpaces | app.py:39 | drops exactly the spaces: every other character keeps its count and its order |
| App.RemoveSpacesIdempotent | app.py:39 | removing spaces twice is removing them once |
| App.FindRecord | app.py:36-48 | mode 0 resolves the name with spaces removed; modes 1 to 3 search by (Z, N), (Z, A), (N, A) only when both numbers are given and find the first matching record in dataset order; other modes find nothing |
| App.FindRecordIgnoresSpaces | app.py:39 | spaces never change what a name search finds |
| App.ProcessSearch | app.py:36-90 | no record gives no result; a found record with a preview index other than 0 or 1 raises UnboundLocalError; otherwise it reports the record, a no-data flag iff it has no levels, the compact table (preview 0) or full table (preview 1) of the record, and by file type its JSON record, its full table as CSV, or no download |
| App.CsvMatchesPreview | app.py:69-84 | the CSV holds the found record's full table, which is the full preview itself, or the compact preview expanded one line per observed mode |

## Left out

- The Gradio UI, widget updates and event wiring (`app.py:129-349`) are not modelled. Neither
  are temporary files or the JSON and CSV writing. Downloads are values naming what would be
  written.
- `process_plot` (`app.py:93-118`) is not modelled. It only maps UI choices to the plotting
  call and writes files.
- The `haveDecayPage` file and the link text of the search result (`app.py:57-66`) are left
  out. These are I/O and fixed strings. The no-data note is the `noData` flag.
- File reads of the dataset, the classification files and the synthesis file are left out.
  These become parameters: a `Dataset`, or rows of `Classify.Classified`.
- Element names (`text01`, `text02` of the chart text) are left out. They come from an
  elements file.
- matplotlib, numpy and pandas rendering is left out: figure size, pcolormesh, patches and
  fonts. Only the numbers that feed them are modelled: the grid, the axis ranges and ticks,
  the layout constants and the legend font.
- Floating point is not modelled; the model uses exact reals. Number formatting in cell text
  is a parameter:
  - `str` versus `.2e` for half-lives;
  - the 7-character truncation and the scientific formats for branch ratios
    (`NDplot.py:412-424`).
- Pre-formatted NDS strings and spin parity are opaque strings.
- Level records always carry a half-life value. This leaves out the branch where the chart
  text handles a half-life without `"value"` (`NDplot.py:366-367`), and missing `levels` or
  `energy` keys.
- pandas' descending `sort_values` is modelled as a stable sort. Its default algorithm is not
  guaranteed stable. Only the order of equal ratios depends on this, and therefore the choice
  among equally large modes.
- Ranking.RankedAsWritten: the contract states only its length. Its relation to the
  corrected ranking is stated by `Ranking.AsWrittenSameNames` and
  `Ranking.AsWrittenLosesEntry`.
- CellText.CellLinesAsWritten: the contract states only its length. Its divergence is
  `CellText.CellLinesAsWrittenRepeat`.
- Chart.PaintCells requires a height and width of at least zero. A user-entered maximum more
  than one below its minimum makes the program ask numpy for an array of negative size
  (`NDplot.py:117-118`, `166`), which raises ValueError. The model does not represent that error.
- App.ProcessSearch builds its preview and its CSV from the corrected `Flatten.FullRows` and
  `Flatten.CompactRows` of Finding 1, so it never raises the KeyError "value" the program
  raises for an observed mode without a branch ratio. That error is stated by
  `Flatten.FullRowsAsWrittenFails` and `Flatten.CompactRowsAsWrittenFails`.
- CellText.CellLines, CellText.CellLinesComplete, CellText.CellOf, CellText.CellsOf and
  CellText.DetailCells use the corrected `Ranking.Ranked` of Finding 2. As written, a mode
  listed twice with different ratios shows the smaller ratio twice. That output is stated by
  `CellText.CellLinesAsWritten` and `CellText.CellLinesAsWrittenRepeat`.
- Chart.Shade, Chart.ShadeOf, Chart.ShadeInLegend and Chart.DecayShadeInLegend use the
  corrected `Chart.DecayShade` of Finding 3. As written, the classes "" and "2" are painted in
  the neutron colour. That is stated by `Chart.DecayShadeAsWritten` and
  `Chart.DecayShadeDiffers`.
- Classify.DecayModeClass uses the as-written ranking, as the program does.
  `Classify.DecayModeClassMeaning` proves that its label equals the corrected ranking's head,
  so Finding 2 does not change any class.
- Classify.DecayModeClassStable and Classify.DecayModeClassUnknown assume that no listed mode
  is itself named STABLE or UNKNOWN. Otherwise the label alone cannot tell the cases apart.
- Parity choices and plot, text, preview and file-type selections are integers, as the UI
  passes them. Gradio's numeric inputs are `Option<int>` or `Option<real>`.

## Findings

| source | as written | input that shows it | evidently intended | confidence | as-written member | corrected member |
|---|---|---|---|---|---|---|
| NDfilter.py:241-242, 279-280 | both flatteners read `decayMode["value"]` for every observed mode | an observed decay mode without a branch ratio (a `"?"` mode) raises KeyError "value" instead of producing a table | a row or table entry with an empty branch ratio, as the classifiers and the cell text already allow | not executed | Flatten.FullRowsAsWrittenFails | Flatten.FullRows |
| NDplot.py:392-404 | quantified modes are sorted, then looked up again in a dict keyed by mode name | the same mode listed twice with ratios a > b (observed and predicted): the cell shows b twice and never a | each listed mode shown once with its own ratio, in descending order | not executed | Ranking.AsWrittenLosesEntry | Ranking.Ranked |
| NDplot.py:299 | `row["type"] in ("2N")` is a substring test on the string "2N", not a tuple test | a class label "" or "2" gets the neutron colour | only the label "2N" gets the neutron colour; anything else unlisted gets the unknown colour | not executed | Chart.DecayShadeDiffers | Chart.DecayShadeNeutron |
