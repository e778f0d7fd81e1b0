/** The nuclide chart: colour tables, the colour of each cell, the legend,
    the axis ranges and the text written into each cell. Drawing itself is
    not modelled; the chart is the grid of colours and the list of texts. */
module Chart {
  import opened Common
  import opened Nuclides
  import opened Ranking
  import opened Classify

  datatype Rgb = Rgb(r: int, g: int, b: int)

  /** The background of a cell no row paints. */
  const White := Rgb(255, 255, 255)

  /** The value stored under `k` in an insertion-ordered string-keyed dict. */
  function Lookup<V(!new)>(t: seq<(string, V)>, k: string): (r: Option<V>)
    ensures r.None? <==> forall e :: e in t ==> e.0 != k
    ensures r.Some? ==> (k, r.value) in t
  {
    match FirstMatch(t, (e: (string, V)) => e.0 == k)
    case None => None
    case Some(e) => Some(e.1)
  }

  /** The keys of a dict in insertion order. */
  function Keys<V>(t: seq<(string, V)>): (r: seq<string>)
    ensures |r| == |t|
    ensures forall i :: 0 <= i < |t| ==> r[i] == t[i].0
  {
    seq(|t|, i requires 0 <= i < |t| => t[i].0)
  }

  /** A key listed by `Keys` has a value. */
  lemma LookupListed<V(!new)>(t: seq<(string, V)>, k: string)
    requires k in Keys(t)
    ensures Lookup(t, k).Some?
  {
    var i :| 0 <= i < |t| && Keys(t)[i] == k;
    assert t[i] in t;
  }

  const HalfLifeColours: seq<(string, Rgb)> := [
    ("l100ns", Rgb(247, 189, 222)),
    ("100ns", Rgb(255, 198, 165)),
    ("1us", Rgb(255, 231, 198)),
    ("10us", Rgb(255, 255, 156)),
    ("100us", Rgb(255, 255, 16)),
    ("1ms", Rgb(231, 247, 132)),
    ("10ms", Rgb(214, 239, 57)),
    ("100ms", Rgb(173, 222, 99)),
    ("1s", Rgb(82, 181, 82)),
    ("10s", Rgb(99, 189, 181)),
    ("100s", Rgb(99, 198, 222)),
    ("1ks", Rgb(0, 165, 198)),
    ("10ks", Rgb(8, 154, 148)),
    ("100ks", Rgb(0, 132, 165)),
    ("10Ms", Rgb(49, 82, 165)),
    ("1e10s", Rgb(41, 0, 107)),
    ("1e15s", Rgb(0, 0, 0)),
    ("ST", Rgb(0, 0, 0)),
    ("SU", Rgb(255, 148, 115)),
    ("UN", Rgb(224, 224, 224))]

  const HalfLifeLegends: seq<(string, string)> := [
    ("l100ns", "<100ns"),
    ("100ns", "100ns ~ 1us"),
    ("1us", "1us ~ 10us"),
    ("10us", "10us ~ 100us"),
    ("100us", "100us ~ 1ms"),
    ("1ms", "1ms ~ 10ms"),
    ("10ms", "10ms ~ 100ms"),
    ("100ms", "100ms ~ 1s"),
    ("1s", "1s ~ 10s"),
    ("10s", "10s ~ 100s"),
    ("100s", "100s ~ 1ks"),
    ("1ks", "1ks ~ 10ks"),
    ("10ks", "10ks ~ 100ks"),
    ("100ks", "100ks ~ 10Ms"),
    ("10Ms", "10Ms ~ 1e10s"),
    ("1e10s", "1e10s ~ 1e15s"),
    ("1e15s", ">1e15s"),
    ("ST", "STABLE"),
    ("SU", "SpecialUnit"),
    ("UN", "UNKNOWN")]

  const DecayModeColours: seq<(string, Rgb)> := [
    ("P", Rgb(255, 148, 115)),
    ("N", Rgb(156, 123, 189)),
    ("A", Rgb(255, 255, 66)),
    ("B-", Rgb(231, 140, 198)),
    ("EC+B+", Rgb(99, 198, 222)),
    ("EC", Rgb(0, 132, 165)),
    ("SF", Rgb(82, 181, 82)),
    ("STABLE", Rgb(0, 0, 0)),
    ("UNKNOWN", Rgb(224, 224, 224))]

  const DecayModeLegends: seq<(string, string)> := [
    ("P", "Proton"),
    ("N", "Neutron"),
    ("A", "Alaph"),
    ("B-", "Beta-"),
    ("EC+B+", "Beta+ ElectronCapture"),
    ("EC", "ElectronCapture"),
    ("SF", "SpontaneousFission"),
    ("STABLE", "STABLE"),
    ("UNKNOWN", "UNKNOWN")]

  const SynthesisColours: seq<(string, Rgb)> := [
    ("MS", Rgb(0, 0, 0)),
    ("RD", Rgb(0, 255, 255)),
    ("LP", Rgb(255, 165, 0)),
    ("FI", Rgb(255, 255, 0)),
    ("FU", Rgb(255, 0, 0)),
    ("SP", Rgb(0, 0, 255)),
    ("PF", Rgb(0, 127, 0)),
    ("UN", Rgb(127, 0, 127))]

  const SynthesisNames: seq<(string, string)> := [
    ("MS", "Mass Spectroscopy"),
    ("RD", "Radioactive Decay"),
    ("LP", "Light Particles"),
    ("FI", "Fission"),
    ("FU", "Fusion"),
    ("SP", "Spallation"),
    ("PF", "Projectile Fragmentation"),
    ("UN", "Transfer/Deep Inelastic")]

  /** Every colour table names the same keys, in the same order, as its legend
      table, and the half-life tables name exactly the classifier's labels. */
  lemma TablesAgree()
    ensures Keys(HalfLifeColours) == Keys(HalfLifeLegends) == BucketLabels + ["ST", "SU", "UN"]
    ensures Keys(DecayModeColours) == Keys(DecayModeLegends)
    ensures Keys(SynthesisColours) == Keys(SynthesisNames)
  {
    HalfLifeTablesAgree();
    DecayModeTablesAgree();
    SynthesisTablesAgree();
  }

  lemma HalfLifeTablesAgree()
    ensures Keys(HalfLifeColours) == BucketLabels + ["ST", "SU", "UN"]
    ensures Keys(HalfLifeLegends) == BucketLabels + ["ST", "SU", "UN"]
  {
  }

  lemma DecayModeTablesAgree()
    ensures Keys(DecayModeColours) == Keys(DecayModeLegends)
  {
  }

  lemma SynthesisTablesAgree()
    ensures Keys(SynthesisColours) == Keys(SynthesisNames)
  {
  }

  // ---------------------------------------------------------------------------
  // The legend.

  /** One legend entry per colour key, named from the legend table; on the
      half-life chart the STABLE key is skipped and the longest bucket, which
      has the same colour, is named for both. A key without a name raises
      KeyError, as the dict lookup would. */
  function LegendEntries(colours: seq<(string, Rgb)>, names: seq<(string, string)>, halfLife: bool)
    : Result<seq<(Rgb, string)>, PyError>
  {
    if |colours| == 0 then Success([])
    else
      var (tag, c) := colours[0];
      if halfLife && tag == "ST" then LegendEntries(colours[1..], names, halfLife)
      else
        match EntryFor(colours[0], names, halfLife)
        case None => Failure(KeyError(tag))
        case Some(entry) =>
          match LegendEntries(colours[1..], names, halfLife)
          case Failure(e) => Failure(e)
          case Success(rest) => Success([entry] + rest)
  }

  /** Whether a colour-table entry gets a legend entry of its own. */
  predicate Shown(e: (string, Rgb), halfLife: bool) {
    !(halfLife && e.0 == "ST")
  }

  function ShownTest(halfLife: bool): ((string, Rgb)) -> bool {
    e => Shown(e, halfLife)
  }

  /** The legend entry a shown colour-table entry gets. */
  ghost predicate HasEntry(legend: seq<(Rgb, string)>, e: (string, Rgb), names: seq<(string, string)>, halfLife: bool) {
    exists name :: (e.1, name) in legend
      && (if halfLife && e.0 == "1e15s" then name == ">1e15s or Stable" else Lookup(names, e.0) == Some(name))
  }

  lemma KeysTail<V>(t: seq<(string, V)>)
    requires |t| > 0
    ensures Keys(t) == [t[0].0] + Keys(t[1..])
  {
  }

  /** The legend entry a shown colour-table entry should get: its colour under
      its name, or under the merged name for the longest half-life bucket; none
      when the name is missing. */
  function EntryFor(e: (string, Rgb), names: seq<(string, string)>, halfLife: bool): Option<(Rgb, string)> {
    if halfLife && e.0 == "1e15s" then Some((e.1, ">1e15s or Stable"))
    else
      match Lookup(names, e.0)
      case None => None
      case Some(name) => Some((e.1, name))
  }

  /** Entry `k` of the legend is the entry for the `k`-th shown key. */
  ghost predicate LegendMatches(legend: seq<(Rgb, string)>, shown: seq<(string, Rgb)>,
                                names: seq<(string, string)>, halfLife: bool) {
    |legend| == |shown|
    && forall k :: 0 <= k < |legend| ==> Some(legend[k]) == EntryFor(shown[k], names, halfLife)
  }

  /** When every colour key has a name, the legend is built and holds one
      entry per shown key. */
  lemma {:induction false} LegendEntriesBuilt(colours: seq<(string, Rgb)>, names: seq<(string, string)>, halfLife: bool)
    requires forall k :: k in Keys(colours) ==> k in Keys(names)
    ensures LegendEntries(colours, names, halfLife).Success?
    ensures |LegendEntries(colours, names, halfLife).value| == |Select(colours, ShownTest(halfLife))|
  {
    if |colours| > 0 {
      KeysTail(colours);
      LegendEntriesBuilt(colours[1..], names, halfLife);
      LookupListed(names, colours[0].0);
      SelectFront(colours, ShownTest(halfLife));
    }
  }

  /** ... in the colour table's order: entry `k` is the entry for the `k`-th
      shown key. */
  lemma {:induction false} LegendEntriesOrdered(colours: seq<(string, Rgb)>, names: seq<(string, string)>, halfLife: bool)
    requires forall k :: k in Keys(colours) ==> k in Keys(names)
    ensures LegendEntries(colours, names, halfLife).Success?
    ensures LegendMatches(LegendEntries(colours, names, halfLife).value, Select(colours, ShownTest(halfLife)), names, halfLife)
  {
    if |colours| > 0 {
      var tail := colours[1..];
      KeysTail(colours);
      LegendEntriesOrdered(tail, names, halfLife);
      LookupListed(names, colours[0].0);
      LegendStep(colours, names, halfLife);
      var rest := LegendEntries(tail, names, halfLife).value;
      var r := LegendEntries(colours, names, halfLife).value;
      var shown := Select(colours, ShownTest(halfLife));
      var shownRest := Select(tail, ShownTest(halfLife));
      assert shown == (if Shown(colours[0], halfLife) then [colours[0]] else []) + shownRest by {
        SelectFront(colours, ShownTest(halfLife));
      }
      if Shown(colours[0], halfLife) {
        MatchesCons(r, rest, shown, shownRest, colours[0], names, halfLife);
      } else {
        assert r == rest && shown == shownRest;
      }
    }
  }

  /** One step of the legend loop: a shown key's entry goes in front of the
      rest; a skipped key adds nothing. */
  lemma LegendStep(colours: seq<(string, Rgb)>, names: seq<(string, string)>, halfLife: bool)
    requires |colours| > 0 && Lookup(names, colours[0].0).Some?
    requires LegendEntries(colours[1..], names, halfLife).Success?
    ensures LegendEntries(colours, names, halfLife).Success?
    ensures var r := LegendEntries(colours, names, halfLife).value;
      var rest := LegendEntries(colours[1..], names, halfLife).value;
      if Shown(colours[0], halfLife) then
        |r| > 0 && r == [r[0]] + rest && Some(r[0]) == EntryFor(colours[0], names, halfLife)
      else r == rest
  {
  }

  /** A shown key the legend has no name for. */
  predicate Unnamed(e: (string, Rgb), names: seq<(string, string)>, halfLife: bool) {
    Shown(e, halfLife) && EntryFor(e, names, halfLife).None?
  }

  /** The position of the first shown key without a name, if any. */
  function FirstUnnamed(colours: seq<(string, Rgb)>, names: seq<(string, string)>, halfLife: bool): (r: Option<nat>)
    ensures r.Some? ==> (r.value < |colours| && Unnamed(colours[r.value], names, halfLife)
      && forall j :: 0 <= j < r.value ==> !Unnamed(colours[j], names, halfLife))
    ensures r.None? <==> forall i :: 0 <= i < |colours| ==> !Unnamed(colours[i], names, halfLife)
  {
    if |colours| == 0 then None
    else if Unnamed(colours[0], names, halfLife) then Some(0)
    else
      var tail := colours[1..];
      match FirstUnnamed(tail, names, halfLife)
      case None =>
        assert forall i :: 0 <= i < |colours| ==> !Unnamed(colours[i], names, halfLife) by {
          forall i | 1 <= i < |colours|
            ensures !Unnamed(colours[i], names, halfLife)
          {
            assert colours[i] == tail[i - 1];
          }
        }
        None
      case Some(k) =>
        assert colours[k + 1] == tail[k];
        assert forall j :: 0 <= j < k + 1 ==> !Unnamed(colours[j], names, halfLife) by {
          forall j | 1 <= j < k + 1
            ensures !Unnamed(colours[j], names, halfLife)
          {
            assert colours[j] == tail[j - 1];
          }
        }
        Some(k + 1)
  }

  /** The legend fails exactly when some shown key has no name, and then with
      the KeyError of the first such key, as the loop stops there. */
  lemma {:induction false} LegendEntriesFirstUnnamed(colours: seq<(string, Rgb)>, names: seq<(string, string)>, halfLife: bool)
    ensures LegendEntries(colours, names, halfLife).Failure? <==> FirstUnnamed(colours, names, halfLife).Some?
    ensures FirstUnnamed(colours, names, halfLife).Some? ==>
      LegendEntries(colours, names, halfLife).error == KeyError(colours[FirstUnnamed(colours, names, halfLife).value].0)
  {
    if |colours| > 0 {
      LegendFailureStep(colours, names, halfLife);
      FirstUnnamedStep(colours, names, halfLife);
      if !Unnamed(colours[0], names, halfLife) {
        var tail := colours[1..];
        LegendEntriesFirstUnnamed(tail, names, halfLife);
        match FirstUnnamed(tail, names, halfLife)
        case None =>
        case Some(k) =>
          assert colours[k + 1] == tail[k];
      }
    }
  }

  /** One step of the legend loop, as far as failure goes: an unnamed first key
      fails at once; otherwise the legend fails as the rest does. */
  lemma LegendFailureStep(colours: seq<(string, Rgb)>, names: seq<(string, string)>, halfLife: bool)
    requires |colours| > 0
    ensures Unnamed(colours[0], names, halfLife) ==>
      LegendEntries(colours, names, halfLife) == Failure(KeyError(colours[0].0))
    ensures !Unnamed(colours[0], names, halfLife) ==>
      && (LegendEntries(colours, names, halfLife).Failure? <==> LegendEntries(colours[1..], names, halfLife).Failure?)
      && (LegendEntries(colours[1..], names, halfLife).Failure? ==>
            LegendEntries(colours, names, halfLife).error == LegendEntries(colours[1..], names, halfLife).error)
  {
  }

  /** One step of the search for the first unnamed key. */
  lemma FirstUnnamedStep(colours: seq<(string, Rgb)>, names: seq<(string, string)>, halfLife: bool)
    requires |colours| > 0
    ensures FirstUnnamed(colours, names, halfLife) ==
      if Unnamed(colours[0], names, halfLife) then Some(0)
      else match FirstUnnamed(colours[1..], names, halfLife)
        case None => None
        case Some(k) => Some(k + 1)
  {
  }

  /** A legend entry in front of a matching legend matches the key in front. */
  lemma MatchesCons(r: seq<(Rgb, string)>, rest: seq<(Rgb, string)>,
                    shown: seq<(string, Rgb)>, shownRest: seq<(string, Rgb)>,
                    e: (string, Rgb), names: seq<(string, string)>, halfLife: bool)
    requires LegendMatches(rest, shownRest, names, halfLife)
    requires |r| > 0 && r == [r[0]] + rest && Some(r[0]) == EntryFor(e, names, halfLife)
    requires shown == [e] + shownRest
    ensures LegendMatches(r, shown, names, halfLife)
  {
    forall k | 1 <= k < |r|
      ensures Some(r[k]) == EntryFor(shown[k], names, halfLife)
    {
      assert r[k] == rest[k - 1] && shown[k] == shownRest[k - 1];
    }
  }

  /** ... and shows each shown key's colour under its name (the longest
      half-life bucket under the merged name). */
  lemma {:induction false} LegendEntriesComplete(colours: seq<(string, Rgb)>, names: seq<(string, string)>, halfLife: bool)
    requires forall k :: k in Keys(colours) ==> k in Keys(names)
    ensures LegendEntries(colours, names, halfLife).Success?
    ensures forall e :: e in colours && Shown(e, halfLife) ==>
      HasEntry(LegendEntries(colours, names, halfLife).value, e, names, halfLife)
  {
    LegendEntriesBuilt(colours, names, halfLife);
    if |colours| > 0 {
      var tail := colours[1..];
      KeysTail(colours);
      LegendEntriesComplete(tail, names, halfLife);
      LegendFront(colours, names, halfLife);
      var rest := LegendEntries(tail, names, halfLife).value;
      var r := LegendEntries(colours, names, halfLife).value;
      forall e | e in colours && Shown(e, halfLife)
        ensures HasEntry(r, e, names, halfLife)
      {
        if e != colours[0] {
          assert e in tail;
          var name :| (e.1, name) in rest
            && (if halfLife && e.0 == "1e15s" then name == ">1e15s or Stable" else Lookup(names, e.0) == Some(name));
          assert (e.1, name) in r;
        }
      }
    }
  }

  /** The first colour-table entry's own legend entry, ahead of the rest. */
  lemma LegendFront(colours: seq<(string, Rgb)>, names: seq<(string, string)>, halfLife: bool)
    requires |colours| > 0
    requires LegendEntries(colours, names, halfLife).Success?
    ensures LegendEntries(colours[1..], names, halfLife).Success?
    ensures var r := LegendEntries(colours, names, halfLife).value;
      var rest := LegendEntries(colours[1..], names, halfLife).value;
      && (forall x :: x in rest ==> x in r)
      && (Shown(colours[0], halfLife) ==> HasEntry(r, colours[0], names, halfLife))
  {
    var r := LegendEntries(colours, names, halfLife).value;
    var (tag, c) := colours[0];
    if Shown(colours[0], halfLife) {
      if halfLife && tag == "1e15s" {
        assert r[0] == (c, ">1e15s or Stable");
      } else {
        assert r[0] == (c, Lookup(names, tag).value);
      }
    }
  }

  /** The legend of a plot mode: half-life, decay mode, synthesis method, or
      none for any other mode. */
  function Legend(plotMode: int): Result<seq<(Rgb, string)>, PyError> {
    if plotMode == 0 then LegendEntries(HalfLifeColours, HalfLifeLegends, true)
    else if plotMode == 1 then LegendEntries(DecayModeColours, DecayModeLegends, false)
    else if plotMode == 2 then LegendEntries(SynthesisColours, SynthesisNames, false)
    else Success([])
  }

  /** The stable class and the longest bucket share black. */
  lemma StableSharesBlack()
    ensures Lookup(HalfLifeColours, "ST") == Some(Rgb(0, 0, 0))
    ensures ("1e15s", Rgb(0, 0, 0)) in HalfLifeColours
  {
    var st := "ST";
    var t := HalfLifeColours;
    assert t[16] == ("1e15s", Rgb(0, 0, 0));
    var c := StableEntry(st);
    var i :| 0 <= i < |t| && t[i] == (st, c);
    StableOnlyAt(i);
  }

  lemma StableEntry(st: string) returns (c: Rgb)
    requires st == "ST"
    ensures Lookup(HalfLifeColours, st) == Some(c)
    ensures (st, c) in HalfLifeColours
  {
    TablesAgree();
    assert st in Keys(HalfLifeColours);
    LookupListed(HalfLifeColours, st);
    c := Lookup(HalfLifeColours, st).value;
  }

  lemma StableOnlyAt(i: int)
    requires 0 <= i < |HalfLifeColours| && HalfLifeColours[i].0 == "ST"
    ensures i == 17 && HalfLifeColours[i] == ("ST", Rgb(0, 0, 0))
  {
    TablesAgree();
    var keys := BucketLabels + ["ST", "SU", "UN"];
    assert keys[i] == "ST";
    SpecialLabelsDistinct();
  }

  /** Every half-life class has its colour in the half-life legend: the stable
      class through the entry it shares with the longest bucket. */
  lemma LegendCoversHalfLifeClasses(nuc: Nuclide)
    ensures Lookup(HalfLifeColours, HalfLifeClass(nuc)).Some?
    ensures Legend(0).Success?
    ensures exists name :: (Lookup(HalfLifeColours, HalfLifeClass(nuc)).value, name) in Legend(0).value
    ensures HalfLifeClass(nuc) != "ST" ==>
      HasEntry(Legend(0).value, (HalfLifeClass(nuc), Lookup(HalfLifeColours, HalfLifeClass(nuc)).value), HalfLifeLegends, true)
  {
    TablesAgree();
    var k := HalfLifeClass(nuc);
    assert k in Keys(HalfLifeColours);
    LookupListed(HalfLifeColours, k);
    LegendEntriesComplete(HalfLifeColours, HalfLifeLegends, true);
    var c := Lookup(HalfLifeColours, k).value;
    if k == "ST" {
      StableSharesBlack();
      assert Shown(("1e15s", Rgb(0, 0, 0)), true);
    } else {
      assert (k, c) in HalfLifeColours && Shown((k, c), true);
    }
  }

  /** The legend lengths: 19 half-life entries (so its font is reduced), and
      one entry per decay mode and per synthesis method. */
  lemma LegendSizes()
    ensures Legend(0).Success? && |Legend(0).value| == 19
    ensures Legend(1).Success? && |Legend(1).value| == 9
    ensures Legend(2).Success? && |Legend(2).value| == 8
  {
    HalfLifeLegendSize();
    DecayModeLegendSize();
    SynthesisLegendSize();
  }

  lemma HalfLifeLegendSize()
    ensures Legend(0).Success? && |Legend(0).value| == 19
  {
    TablesAgree();
    LegendEntriesBuilt(HalfLifeColours, HalfLifeLegends, true);
    ShownHalfLife();
  }

  lemma DecayModeLegendSize()
    ensures Legend(1).Success? && |Legend(1).value| == 9
  {
    TablesAgree();
    LegendEntriesBuilt(DecayModeColours, DecayModeLegends, false);
    SelectAll(DecayModeColours, ShownTest(false));
  }

  lemma SynthesisLegendSize()
    ensures Legend(2).Success? && |Legend(2).value| == 8
  {
    TablesAgree();
    LegendEntriesBuilt(SynthesisColours, SynthesisNames, false);
    SelectAll(SynthesisColours, ShownTest(false));
  }

  lemma ShownHalfLife()
    ensures |Select(HalfLifeColours, ShownTest(true))| == 19
  {
    var t := HalfLifeColours;
    var p := ShownTest(true);
    var pre := t[..17];
    var post := t[18..];
    assert t == pre + [t[17]] + post;
    assert |Select(pre, p)| == 17 by {
      assert forall e :: e in pre ==> p(e);
      SelectAll(pre, p);
    }
    assert |Select(post, p)| == 2 by {
      assert forall e :: e in post ==> p(e);
      SelectAll(post, p);
    }
    assert Select([t[17]], p) == [] by {
      assert [t[17]][..0] == [];
    }
    assert |Select(pre + [t[17]], p)| == 17 by {
      SelectAppend(pre, [t[17]], p);
    }
    SelectAppend(pre + [t[17]], post, p);
  }

  // ---------------------------------------------------------------------------
  // Cell colours.

  const ProtonColour := Rgb(255, 148, 115)
  const NeutronColour := Rgb(156, 123, 189)
  const BetaMinusColour := Rgb(231, 140, 198)
  const UnknownColour := Rgb(224, 224, 224)

  /** The family colours are the table's entries for P, N, B- and UNKNOWN. */
  lemma FamilyColours()
    ensures DecayModeColours[0] == ("P", ProtonColour)
    ensures DecayModeColours[1] == ("N", NeutronColour)
    ensures DecayModeColours[3] == ("B-", BetaMinusColour)
    ensures DecayModeColours[8] == ("UNKNOWN", UnknownColour)
  {
  }

  /** The decay-mode colour of a class as the program writes it: a listed mode
      keeps its colour, the double beta and the β⁻ spelling share B-, two- and
      three-proton emission share P, and then `kind in ("2N")` is evaluated. The
      parentheses make no tuple, so that test asks whether `kind` is a
      substring of "2N". */
  function DecayShadeAsWritten(kind: string): Rgb {
    match Lookup(DecayModeColours, kind)
    case Some(c) => c
    case None => FallbackAsWritten(kind)
  }

  /** The as-written colour of a class missing from the decay-mode table. */
  function FallbackAsWritten(kind: string): Rgb {
    if kind == "2B-" || kind == "β⁻" then BetaMinusColour
    else if kind == "2P" || kind == "3P" then ProtonColour
    else if Contains("2N", kind) then NeutronColour
    else UnknownColour
  }

  /** The decay-mode colour with the two-neutron test as intended: only "2N"
      joins the neutron family. */
  function DecayShade(kind: string): Rgb {
    match Lookup(DecayModeColours, kind)
    case Some(c) => c
    case None => Fallback(kind)
  }

  /** The intended colour of a class missing from the decay-mode table. */
  function Fallback(kind: string): Rgb {
    if kind == "2B-" || kind == "β⁻" then BetaMinusColour
    else if kind == "2P" || kind == "3P" then ProtonColour
    else if kind == "2N" then NeutronColour
    else UnknownColour
  }

  /** The substrings of "2N". */
  lemma ContainsTwoN(kind: string)
    ensures Contains("2N", kind) <==> kind == "" || kind == "2" || kind == "N" || kind == "2N"
  {
    if Contains("2N", kind) {
      var i :| OccursAt("2N", kind, i);
      assert kind == "2N"[i..i + |kind|];
    } else {
      assert !OccursAt("2N", kind, 0);
      assert !OccursAt("2N", kind, 1);
      assert kind != "N" by {
        assert "2N"[1..2] == "N";
      }
      assert kind != "2" by {
        assert "2N"[0..1] == "2";
      }
    }
  }

  lemma DecayModeKeys()
    ensures Keys(DecayModeColours) == ["P", "N", "A", "B-", "EC+B+", "EC", "SF", "STABLE", "UNKNOWN"]
  {
  }

  lemma NotListed(kind: string)
    requires kind == "" || kind == "2" || kind == "2N"
    ensures Lookup(DecayModeColours, kind).None?
  {
    DecayModeKeys();
    var keys := Keys(DecayModeColours);
    assert kind !in keys;
    forall e | e in DecayModeColours
      ensures e.0 != kind
    {
      var i :| 0 <= i < |DecayModeColours| && DecayModeColours[i] == e;
      assert keys[i] == e.0;
    }
  }

  /** As written, exactly the classes "" and "2" are painted in the neutron
      colour where the intended test paints them UNKNOWN; every other class
      gets the same colour either way. */
  lemma DecayShadeDiffers(kind: string)
    ensures DecayShadeAsWritten(kind) != DecayShade(kind) <==> kind == "" || kind == "2"
    ensures kind == "" || kind == "2" ==>
      DecayShadeAsWritten(kind) == NeutronColour && DecayShade(kind) == UnknownColour
  {
    var found := Lookup(DecayModeColours, kind);
    if found.Some? {
      assert DecayShadeAsWritten(kind) == found.value == DecayShade(kind);
      if kind == "" || kind == "2" {
        NotListed(kind);
      }
    } else {
      NeutronListed(kind);
      FallbackDiffers(kind);
    }
  }

  /** Away from "N", which the table lists, the two fallbacks part ways only
      on "" and "2". */
  lemma FallbackDiffers(kind: string)
    requires kind != "N"
    ensures FallbackAsWritten(kind) != Fallback(kind) <==> kind == "" || kind == "2"
    ensures kind == "" || kind == "2" ==>
      FallbackAsWritten(kind) == NeutronColour && Fallback(kind) == UnknownColour
  {
    ContainsTwoN(kind);
  }

  lemma NeutronListed(kind: string)
    ensures kind == "N" ==> Lookup(DecayModeColours, kind).Some?
  {
    if kind == "N" {
      DecayModeKeys();
      assert kind == Keys(DecayModeColours)[1];
      LookupListed(DecayModeColours, kind);
    }
  }

  /** Only the N entry of the decay-mode table has the neutron colour. */
  lemma NeutronColourOnlyAtN(i: int)
    requires 0 <= i < |DecayModeColours| && DecayModeColours[i].1 == NeutronColour
    ensures DecayModeColours[i].0 == "N"
  {
  }

  /** A listed class keeps its table colour, which is the neutron colour only for N. */
  lemma ListedShadeNeutron(kind: string, c: Rgb)
    requires Lookup(DecayModeColours, kind) == Some(c)
    ensures c == NeutronColour <==> kind == "N"
  {
    assert (kind, c) in DecayModeColours;
    var i :| 0 <= i < |DecayModeColours| && DecayModeColours[i] == (kind, c);
    if c == NeutronColour {
      NeutronColourOnlyAtN(i);
    }
    if kind == "N" {
      DecayModeKeys();
      assert Keys(DecayModeColours)[i] == kind;
    }
  }

  /** A class missing from the table is painted in the neutron colour only
      when it is "2N". */
  lemma UnlistedShadeNeutron(kind: string)
    requires Lookup(DecayModeColours, kind).None?
    ensures DecayShade(kind) == NeutronColour <==> kind == "2N"
  {
    assert DecayShade(kind) == Fallback(kind);
    assert NeutronColour != BetaMinusColour && NeutronColour != ProtonColour && NeutronColour != UnknownColour;
  }

  /** With the intended test, exactly the classes "N" and "2N" are painted in
      the neutron colour. */
  lemma DecayShadeNeutron(kind: string)
    ensures DecayShade(kind) == NeutronColour <==> kind == "N" || kind == "2N"
  {
    NeutronListed(kind);
    var found := Lookup(DecayModeColours, kind);
    if found.Some? {
      ListedShadeNeutron(kind, found.value);
      assert DecayShade(kind) == found.value;
      if kind == "2N" {
        NotListed(kind);
      }
    } else {
      UnlistedShadeNeutron(kind);
    }
  }

  /** The colour of a class on plot mode 0 (half-life), 1 (decay mode) or 2
      (synthesis method); None leaves the cell as it is. */
  function Shade(plotMode: int, kind: string): Option<Rgb> {
    if plotMode == 0 then Lookup(HalfLifeColours, kind)
    else if plotMode == 1 then Some(DecayShade(kind))
    else if plotMode == 2 then Lookup(SynthesisColours, kind)
    else None
  }

  /** Every colour a cell can get appears in the legend of its plot mode. */
  lemma ShadeInLegend(plotMode: int, kind: string)
    requires Shade(plotMode, kind).Some?
    ensures Legend(plotMode).Success?
    ensures exists name :: (Shade(plotMode, kind).value, name) in Legend(plotMode).value
  {
    if plotMode == 0 {
      HalfLifeShadeInLegend(kind);
    } else if plotMode == 1 {
      DecayShadeInLegend(kind);
    } else {
      SynthesisShadeInLegend(kind);
    }
  }

  lemma HalfLifeShadeInLegend(kind: string)
    requires Lookup(HalfLifeColours, kind).Some?
    ensures Legend(0).Success?
    ensures exists name :: (Lookup(HalfLifeColours, kind).value, name) in Legend(0).value
  {
    TablesAgree();
    var c := Lookup(HalfLifeColours, kind).value;
    LegendEntriesComplete(HalfLifeColours, HalfLifeLegends, true);
    if kind == "ST" {
      StableSharesBlack();
      assert Shown(("1e15s", Rgb(0, 0, 0)), true);
    } else {
      assert (kind, c) in HalfLifeColours && Shown((kind, c), true);
    }
  }

  lemma DecayShadeInLegend(kind: string)
    ensures Legend(1).Success?
    ensures exists name :: (DecayShade(kind), name) in Legend(1).value
  {
    TablesAgree();
    var c := DecayShade(kind);
    LegendEntriesComplete(DecayModeColours, DecayModeLegends, false);
    FamilyColours();
    var e: (string, Rgb) :| e in DecayModeColours && e.1 == c by {
      match Lookup(DecayModeColours, kind)
      case Some(_) =>
      case None =>
        if kind == "2B-" || kind == "β⁻" {
          assert DecayModeColours[3] in DecayModeColours;
        } else if kind == "2P" || kind == "3P" {
          assert DecayModeColours[0] in DecayModeColours;
        } else if kind == "2N" {
          assert DecayModeColours[1] in DecayModeColours;
        } else {
          assert DecayModeColours[8] in DecayModeColours;
        }
    }
    assert Shown(e, false);
  }

  lemma SynthesisShadeInLegend(kind: string)
    requires Lookup(SynthesisColours, kind).Some?
    ensures Legend(2).Success?
    ensures exists name :: (Lookup(SynthesisColours, kind).value, name) in Legend(2).value
  {
    TablesAgree();
    var c := Lookup(SynthesisColours, kind).value;
    LegendEntriesComplete(SynthesisColours, SynthesisNames, false);
    assert (kind, c) in SynthesisColours && Shown((kind, c), false);
  }

  /** Every half-life class has a colour on the half-life chart. */
  lemma HalfLifeClassShaded(nuc: Nuclide)
    ensures Shade(0, HalfLifeClass(nuc)).Some?
  {
    TablesAgree();
    assert HalfLifeClass(nuc) in Keys(HalfLifeColours);
    LookupListed(HalfLifeColours, HalfLifeClass(nuc));
  }

  // ---------------------------------------------------------------------------
  // Painting the grid.

  /** The drawn rectangle of the chart, inclusive on both ends. */
  datatype Area = Area(zMin: int, nMin: int, zMax: int, nMax: int) {
    predicate Contains(z: int, n: int) {
      zMin <= z <= zMax && nMin <= n <= nMax
    }
    function Height(): int { zMax - zMin + 1 }
    function Width(): int { nMax - nMin + 1 }
  }

  /** The whole chart the program draws by default. */
  const DefaultArea := Area(0, 0, 118, 177)

  /** The cell of (z, n): its row and column in the grid, when inside the area. */
  function CellIndex(z: int, n: int, area: Area): (r: Option<(nat, nat)>)
    ensures r.Some? <==> area.Contains(z, n)
    ensures r.Some? ==> r.value.0 < area.Height() && r.value.1 < area.Width()
    ensures r.Some? ==> z == area.zMin + r.value.0 && n == area.nMin + r.value.1
  {
    if area.Contains(z, n) then Some(((z - area.zMin) as nat, (n - area.nMin) as nat)) else None
  }

  /** The shading of a plot mode, as a function of the class. */
  function ShadeOf(plotMode: int): string -> Option<Rgb> {
    kind => Shade(plotMode, kind)
  }

  /** The colour of cell (z, n) once `rows` have been painted in order: the last
      row at that cell with a colour wins; an unpainted cell stays white. */
  function CellColour(shade: string -> Option<Rgb>, rows: seq<Classified>, z: int, n: int): Rgb {
    if |rows| == 0 then White
    else
      var last := rows[|rows| - 1];
      if last.z == z && last.n == n && shade(last.kind).Some? then shade(last.kind).value
      else CellColour(shade, rows[..|rows| - 1], z, n)
  }

  /** A row at (z, n) with a colour that no later row at (z, n) overrides. */
  ghost predicate PaintedLastBy(shade: string -> Option<Rgb>, rows: seq<Classified>, z: int, n: int, i: int) {
    && 0 <= i < |rows|
    && rows[i].z == z && rows[i].n == n && shade(rows[i].kind).Some?
    && forall j :: i < j < |rows| && rows[j].z == z && rows[j].n == n ==> shade(rows[j].kind).None?
  }

  /** A cell is white when no row paints it, and otherwise has the colour of the
      last row that paints it. */
  lemma {:induction false} CellColourLastWins(shade: string -> Option<Rgb>, rows: seq<Classified>, z: int, n: int)
    ensures (forall i :: 0 <= i < |rows| && rows[i].z == z && rows[i].n == n ==> shade(rows[i].kind).None?)
      ==> CellColour(shade, rows, z, n) == White
    ensures forall i :: PaintedLastBy(shade, rows, z, n, i) ==>
      CellColour(shade, rows, z, n) == shade(rows[i].kind).value
  {
    if |rows| > 0 {
      var pre := rows[..|rows| - 1];
      CellColourLastWins(shade, pre, z, n);
      forall i | PaintedLastBy(shade, rows, z, n, i) && i < |rows| - 1
        ensures PaintedLastBy(shade, pre, z, n, i)
      {
      }
    }
  }

  /** Painting one more row changes at most its own cell. */
  lemma CellColourStep(shade: string -> Option<Rgb>, rows: seq<Classified>, k: int, z: int, n: int)
    requires 0 <= k < |rows|
    ensures CellColour(shade, rows[..k + 1], z, n) ==
      if rows[k].z == z && rows[k].n == n && shade(rows[k].kind).Some? then shade(rows[k].kind).value
      else CellColour(shade, rows[..k], z, n)
  {
    assert rows[..k + 1][..k] == rows[..k];
  }

  /** The colour grid of a plot: one row per proton number and one column per
      neutron number of the area, each cell coloured as `CellColour` says; the
      plot mode chooses `shade` as `ShadeOf(plotMode)`. */
  method PaintCells(shade: string -> Option<Rgb>, rows: seq<Classified>, area: Area) returns (grid: seq<seq<Rgb>>)
    requires area.Height() >= 0 && area.Width() >= 0
    ensures |grid| == area.Height()
    ensures forall y :: 0 <= y < |grid| ==> |grid[y]| == area.Width()
    ensures forall y, x :: 0 <= y < |grid| && 0 <= x < |grid[y]| ==>
      grid[y][x] == CellColour(shade, rows, area.zMin + y, area.nMin + x)
  {
    var blank := seq(area.Width(), _ => White);
    grid := seq(area.Height(), _ => blank);
    var k := 0;
    assert rows[..0] == [];
    while k < |rows|
      invariant 0 <= k <= |rows|
      invariant |grid| == area.Height()
      invariant forall y :: 0 <= y < |grid| ==> |grid[y]| == area.Width()
      invariant forall y, x :: 0 <= y < |grid| && 0 <= x < |grid[y]| ==>
        grid[y][x] == CellColour(shade, rows[..k], area.zMin + y, area.nMin + x)
    {
      var row := rows[k];
      var cell := CellIndex(row.z, row.n, area);
      var colour := shade(row.kind);
      ghost var before := grid;
      if cell.Some? && colour.Some? {
        var (y, x) := cell.value;
        grid := grid[y := grid[y][x := colour.value]];
      }
      forall y, x | 0 <= y < |grid| && 0 <= x < |grid[y]|
        ensures grid[y][x] == CellColour(shade, rows[..k + 1], area.zMin + y, area.nMin + x)
      {
        var z, n := area.zMin + y, area.nMin + x;
        CellColourStep(shade, rows, k, z, n);
        if row.z == z && row.n == n && colour.Some? {
          assert cell == Some((y, x));
          assert grid[y][x] == colour.value;
        } else {
          assert !(cell.Some? && colour.Some? && cell.value == (y, x));
          assert grid[y][x] == before[y][x];
          assert CellColour(shade, rows[..k + 1], z, n) == CellColour(shade, rows[..k], z, n);
        }
      }
      k := k + 1;
    }
    assert rows[..k] == rows;
  }

  // ---------------------------------------------------------------------------
  // Axes and layout.

  /** The multiple of ten at or below `x`. */
  function FloorTen(x: int): (r: int)
    ensures r % 10 == 0 && r <= x < r + 10
  {
    (x / 10) * 10
  }

  /** The multiple of ten at or above `x`. */
  function CeilTen(x: int): (r: int)
    ensures r % 10 == 0 && r - 10 < x <= r
  {
    if x % 10 == 0 then x else (x / 10 + 1) * 10
  }

  /** Numbers from `lo` below `stop` in steps of ten. */
  function TicksFrom(lo: int, stop: int): (r: seq<int>)
    ensures forall i :: 0 <= i < |r| ==> r[i] == lo + 10 * i
    ensures |r| == 0 <==> stop <= lo
    ensures |r| > 0 ==> r[|r| - 1] < stop <= r[|r| - 1] + 10
    decreases stop - lo
  {
    if stop <= lo then [] else [lo] + TicksFrom(lo + 10, stop)
  }

  /** Between two multiples of ten, the ticks start at the first and end
      exactly at the second. */
  lemma TicksSpan(lo: int, hi: int)
    requires lo % 10 == 0 && hi % 10 == 0 && lo <= hi
    ensures var r := TicksFrom(lo, hi + 10);
      && |r| > 0 && r[0] == lo && r[|r| - 1] == hi
      && forall t :: t in r ==> t % 10 == 0
  {
    var r := TicksFrom(lo, hi + 10);
    var k := |r| - 1;
    var a := lo / 10;
    var b := hi / 10;
    assert lo == 10 * a && hi == 10 * b;
    assert r[k] == 10 * (a + k);
    assert 10 * b <= 10 * (a + k) < 10 * b + 10;
    assert a + k == b;
    forall t | t in r
      ensures t % 10 == 0
    {
      var i :| 0 <= i < |r| && r[i] == t;
      assert t == 10 * (a + i);
    }
  }

  /** The axis ranges of an area, rounded out to multiples of ten. */
  datatype Axes = Axes(xMin: int, xMax: int, yMin: int, yMax: int) {
    /** Neutron-axis ticks: every ten up to twenty past the range. */
    function XTicks(): seq<int> { TicksFrom(xMin, xMax + 20 + 10) }
    /** Proton-axis ticks: every ten up to ten past the range. */
    function YTicks(): seq<int> { TicksFrom(yMin, yMax + 10 + 10) }
  }

  function AxesOf(area: Area): Axes {
    Axes(FloorTen(area.nMin), CeilTen(area.nMax), FloorTen(area.zMin), CeilTen(area.zMax))
  }

  /** `r` runs in multiples of ten from `first` to `last`. */
  ghost predicate TensFromTo(r: seq<int>, first: int, last: int) {
    |r| > 0 && r[0] == first && r[|r| - 1] == last && forall t :: t in r ==> t % 10 == 0
  }

  /** The rounded ranges enclose the area, and the ticks run in tens from the
      lower end exactly to twenty (neutrons) or ten (protons) past the upper end. */
  lemma AxesEnclose(area: Area)
    requires area.Height() >= 0 && area.Width() >= 0
    ensures var ax := AxesOf(area);
      && ax.xMin <= area.nMin && area.nMax <= ax.xMax
      && ax.yMin <= area.zMin && area.zMax <= ax.yMax
      && TensFromTo(ax.XTicks(), ax.xMin, ax.xMax + 20)
      && TensFromTo(ax.YTicks(), ax.yMin, ax.yMax + 10)
  {
    AxisSpan(area.nMin, area.nMax, 20);
    AxisSpan(area.zMin, area.zMax, 10);
  }

  /** One axis of an area at least zero wide: from the rounded-down minimum in
      tens to `extra` past the rounded-up maximum. */
  lemma AxisSpan(lo: int, hi: int, extra: int)
    requires lo <= hi + 1 && (extra == 10 || extra == 20)
    ensures FloorTen(lo) <= lo && hi <= CeilTen(hi)
    ensures TensFromTo(TicksFrom(FloorTen(lo), CeilTen(hi) + extra + 10), FloorTen(lo), CeilTen(hi) + extra)
  {
    var top := CeilTen(hi);
    var k := top / 10;
    assert top == 10 * k;
    assert (top + extra) % 10 == 0 by {
      assert top + extra == 10 * (k + extra / 10);
    }
    TicksSpan(FloorTen(lo), top + extra);
  }

  /** The default chart spans neutrons 0..180 and protons 0..120. */
  lemma DefaultAxes()
    ensures AxesOf(DefaultArea) == Axes(0, 180, 0, 120)
  {
  }

  /** Sizes chosen by the text mode: the scale factor, the tick step and the
      label and tick font sizes. */
  datatype Layout = Layout(resize: int, ticksStep: int, labelFont: int, ticksFont: int)

  function LayoutFor(textMode: int): Layout {
    if textMode == 0 || textMode == 1 then Layout(5, 10, 75, 50)
    else if textMode == 2 || textMode == 3 then Layout(10, 10, 150, 100)
    else Layout(1, 10, 15, 10)
  }

  /** Every text mode scales one base layout: fonts of 15 and 10 and a tick
      step of ten. */
  lemma LayoutScales(textMode: int)
    ensures var l := LayoutFor(textMode);
      && l.labelFont == 15 * l.resize && l.ticksFont == 10 * l.resize && l.ticksStep == 10
      && l.resize in {1, 5, 10}
  {
  }

  /** The legend font: the tick font, shrunk to 60% for a legend of 13 entries or more. */
  function LegendFont(plotMode: int, textMode: int): real {
    var ticks := LayoutFor(textMode).ticksFont as real;
    var n := match Legend(plotMode) case Success(h) => |h| case Failure(_) => 0;
    if n < 13 then ticks else ticks * 0.6
  }

  /** Only the half-life legend is long enough to be shrunk. */
  lemma LegendFontShrinks(plotMode: int, textMode: int)
    requires plotMode in {0, 1, 2}
    ensures LegendFont(plotMode, textMode) ==
      if plotMode == 0 then LayoutFor(textMode).ticksFont as real * 0.6 else LayoutFor(textMode).ticksFont as real
  {
    LegendSizes();
  }

  /** Black text on light cells, white text on dark ones, by perceived brightness. */
  function TextColour(c: Rgb): string {
    if 0.299 * c.r as real + 0.587 * c.g as real + 0.114 * c.b as real > 128.0 then "black" else "white"
  }

  /** Lightening a cell never turns its text from black to white. */
  lemma TextColourMonotone(c1: Rgb, c2: Rgb)
    requires c1.r <= c2.r && c1.g <= c2.g && c1.b <= c2.b
    requires TextColour(c1) == "black"
    ensures TextColour(c2) == "black"
  {
  }

  /** Unpainted cells carry black text. */
  lemma WhiteCellsBlackText()
    ensures TextColour(White) == "black" && TextColour(Rgb(0, 0, 0)) == "white"
  {
  }
}
