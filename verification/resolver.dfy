/** Finding one nuclide: by a free-text name such as "232Th", "th-232" or
    "Th_|0232", or by two of Z, N, A. */
module Resolver {
  import opened Common
  import opened Nuclides

  predicate IsLetter(c: char) { 'A' <= c <= 'Z' || 'a' <= c <= 'z' }
  predicate IsDigit(c: char) { '0' <= c <= '9' }
  predicate IsSep(c: char) { c == '-' || c == '_' || c == '|' }

  ghost predicate AllLetters(s: string) { forall i :: 0 <= i < |s| ==> IsLetter(s[i]) }
  ghost predicate AllDigits(s: string) { forall i :: 0 <= i < |s| ==> IsDigit(s[i]) }
  ghost predicate AllSeps(s: string) { forall i :: 0 <= i < |s| ==> IsSep(s[i]) }

  /** Length of the longest prefix of `s` whose characters all pass `p`. */
  function Span(s: string, p: char -> bool): (k: nat)
    ensures k <= |s|
    ensures forall i :: 0 <= i < k ==> p(s[i])
    ensures k < |s| ==> !p(s[k])
  {
    if |s| == 0 || !p(s[0]) then 0
    else 1 + Span(s[1..], p)
  }

  /** The split of `s` into a run of `first` characters, a run of separators
      and a tail; the tail must consist of `last` characters. The two regular
      expressions `([A-Za-z]+)([-_|]*)([0-9]+)` and `([0-9]+)([-_|]*)([A-Za-z]+)`
      are this with the letter and digit classes in either order. */
  function SplitRuns(s: string, first: char -> bool, last: char -> bool): (r: Option<(string, string)>)
    ensures r.Some? ==> exists sep :: s == r.value.0 + sep + r.value.1 && AllSeps(sep)
  {
    var i := Span(s, first);
    var j := i + Span(s[i..], IsSep);
    if 0 < i && j < |s| && forall k :: j <= k < |s| ==> last(s[k]) then
      assert s == s[..i] + s[i..j] + s[j..];
      assert AllSeps(s[i..j]);
      Some((s[..i], s[j..]))
    else None
  }

  /** Full match of the letters-first or, failing that, the digits-first
      pattern, as (element letters, mass-number digits). */
  function ParseName(s: string): (r: Option<(string, string)>)
    ensures r.Some? ==>
      var (e, dg) := r.value;
      && |e| > 0 && |dg| > 0 && AllLetters(e) && AllDigits(dg)
      && exists sep :: AllSeps(sep) && (s == e + sep + dg || s == dg + sep + e)
  {
    match SplitRuns(s, IsLetter, IsDigit)
    case Some((e, dg)) => Some((e, dg))
    case None =>
      match SplitRuns(s, IsDigit, IsLetter)
      case Some((dg, e)) => Some((e, dg))
      case None => None
  }

  /** A name in letters-sep-digits form parses to its two runs. */
  lemma ParseLettersFirst(e: string, sep: string, dg: string)
    requires |e| > 0 && |dg| > 0 && AllLetters(e) && AllSeps(sep) && AllDigits(dg)
    ensures ParseName(e + sep + dg) == Some((e, dg))
  {
    var s := e + sep + dg;
    SpanOfRun(s, e, IsLetter);
    assert s[|e|..] == sep + dg;
    SpanOfRun(sep + dg, sep, IsSep);
    assert s[..|e|] == e;
    assert s[|e| + |sep|..] == dg;
  }

  /** A name in digits-sep-letters form parses to the same two runs. */
  lemma ParseDigitsFirst(e: string, sep: string, dg: string)
    requires |e| > 0 && |dg| > 0 && AllLetters(e) && AllSeps(sep) && AllDigits(dg)
    ensures ParseName(dg + sep + e) == Some((e, dg))
  {
    var s := dg + sep + e;
    assert !IsLetter(s[0]);
    assert Span(s, IsLetter) == 0;
    SpanOfRun(s, dg, IsDigit);
    assert s[|dg|..] == sep + e;
    SpanOfRun(sep + e, sep, IsSep);
    assert s[..|dg|] == dg;
    assert s[|dg| + |sep|..] == e;
  }

  /** The span over a string that starts with a maximal run of `p` characters is that run. */
  lemma SpanOfRun(s: string, run: string, p: char -> bool)
    requires |run| <= |s| && s[..|run|] == run
    requires forall i :: 0 <= i < |run| ==> p(run[i])
    requires |run| < |s| ==> !p(s[|run|])
    ensures Span(s, p) == |run|
  {
  }

  function ToUpper(c: char): char {
    if 'a' <= c <= 'z' then (c as int - 32) as char else c
  }

  function ToLower(c: char): char {
    if 'A' <= c <= 'Z' then (c as int + 32) as char else c
  }

  function LowerAll(s: string): (r: string)
    ensures |r| == |s| && forall i :: 0 <= i < |s| ==> r[i] == ToLower(s[i])
  {
    seq(|s|, i requires 0 <= i < |s| => ToLower(s[i]))
  }

  /** The element token in its canonical case: "n" and "N" as typed (the
      neutron), anything else with an upper-case first letter and the rest
      lower case. */
  function NormaliseElement(e: string): (r: string)
    ensures e == "n" || e == "N" ==> r == e
    ensures e != "n" && e != "N" && |e| > 0 ==>
      |r| == |e| && r[0] == ToUpper(e[0]) && r[1..] == LowerAll(e[1..])
  {
    if e == "n" || e == "N" then e
    else if |e| == 1 then [ToUpper(e[0])]
    else if |e| == 0 then ""
    else [ToUpper(e[0])] + LowerAll(e[1..])
  }

  /** The first `k` characters of `dg` are all '0'. */
  ghost predicate ZerosUpTo(dg: string, k: int) {
    0 <= k <= |dg| && forall i :: 0 <= i < k ==> dg[i] == '0'
  }

  /** Drop leading '0' characters. */
  function StripZeros(dg: string): (r: string)
    ensures exists k :: ZerosUpTo(dg, k) && r == dg[k..]
    ensures |r| > 0 ==> r[0] != '0'
  {
    if |dg| > 0 && dg[0] == '0' then
      var r := StripZeros(dg[1..]);
      assert exists k :: ZerosUpTo(dg, k) && r == dg[k..] by {
        var k :| ZerosUpTo(dg[1..], k) && r == dg[1..][k..];
        assert ZerosUpTo(dg, k + 1) by {
          forall i | 0 < i < k + 1
            ensures dg[i] == '0'
          {
            assert dg[i] == dg[1..][i - 1];
          }
        }
        assert r == dg[k + 1..];
      }
      r
    else
      assert ZerosUpTo(dg, 0) && dg == dg[0..];
      dg
  }

  /** The dataset key a free-text name stands for: mass number without leading
      zeros followed by the element in canonical case. */
  function NameKey(s: string): (r: Option<string>)
    ensures r.None? <==> ParseName(s).None?
  {
    match ParseName(s)
    case None => None
    case Some((e, dg)) => Some(StripZeros(dg) + NormaliseElement(e))
  }

  /** Both orders and any run of separators give the same key. */
  lemma NameKeyEitherOrder(e: string, sep1: string, sep2: string, dg: string)
    requires |e| > 0 && |dg| > 0 && AllLetters(e) && AllSeps(sep1) && AllSeps(sep2) && AllDigits(dg)
    ensures NameKey(e + sep1 + dg) == NameKey(dg + sep2 + e) == Some(StripZeros(dg) + NormaliseElement(e))
  {
    ParseLettersFirst(e, sep1, dg);
    ParseDigitsFirst(e, sep2, dg);
  }

  /** Element tokens that differ only in case give the same key, except the
      neutron's one-letter token, whose case is kept. */
  lemma NameKeyIgnoresCase(e1: string, e2: string)
    requires |e1| > 0 && LowerAll(e1) == LowerAll(e2)
    requires e1 != "n" && e1 != "N" && e2 != "n" && e2 != "N"
    requires AllLetters(e1) && AllLetters(e2)
    ensures NormaliseElement(e1) == NormaliseElement(e2)
  {
    assert |e2| == |e1|;
    assert ToLower(e1[0]) == ToLower(e2[0]);
    assert ToUpper(e1[0]) == ToUpper(e2[0]);
    assert LowerAll(e1)[1..] == LowerAll(e1[1..]);
    assert LowerAll(e2)[1..] == LowerAll(e2[1..]);
  }

  /** Three casings of thorium's symbol, all normalised to "Th". */
  lemma ThoriumElement(e: string)
    requires e == "Th" || e == "TH" || e == "th"
    ensures AllLetters(e) && NormaliseElement(e) == "Th"
  {
    var r := NormaliseElement(e);
    assert r[0] == 'T' && r[1..] == LowerAll(e[1..]);
    assert LowerAll(e[1..])[0] == 'h';
    assert r == [r[0]] + r[1..];
  }

  /** "232" has no leading zero to strip. */
  lemma PlainMass()
    ensures AllDigits("232") && StripZeros("232") == "232"
  {
  }

  /** "0232" loses its one leading zero. */
  lemma PaddedMass()
    ensures AllDigits("0232") && StripZeros("0232") == "232"
  {
    var dg := "0232";
    assert dg[1..] == "232";
    PlainMass();
  }

  /** An element token that normalises to "Th" and digits that strip to
      "232", joined by separators in either order, name the key "232Th". */
  lemma ThoriumParts(e: string, sep: string, dg: string)
    requires |e| > 0 && AllLetters(e) && NormaliseElement(e) == "Th"
    requires AllSeps(sep)
    requires |dg| > 0 && AllDigits(dg) && StripZeros(dg) == "232"
    ensures NameKey(e + sep + dg) == Some("232Th")
    ensures NameKey(dg + sep + e) == Some("232Th")
  {
    assert "232" + "Th" == "232Th";
    NameKeyEitherOrder(e, sep, sep, dg);
  }

  /** "232Th", "232-TH", "th232", "Th-232" and "Th_|0232" all name the key "232Th". */
  lemma Thorium232(s: string)
    requires s in ["232Th", "232-TH", "th232", "Th-232", "Th_|0232"]
    ensures NameKey(s) == Some("232Th")
  {
    PlainMass();
    PaddedMass();
    ThoriumElement("Th");
    ThoriumElement("TH");
    ThoriumElement("th");
    assert AllSeps("") && AllSeps("-") && AllSeps("_|");
    if s == "232Th" {
      assert s == "232" + "" + "Th";
      ThoriumParts("Th", "", "232");
    } else if s == "232-TH" {
      assert s == "232" + "-" + "TH";
      ThoriumParts("TH", "-", "232");
    } else if s == "th232" {
      assert s == "th" + "" + "232";
      ThoriumParts("th", "", "232");
    } else if s == "Th-232" {
      assert s == "Th" + "-" + "232";
      ThoriumParts("Th", "-", "232");
    } else {
      assert s == "Th" + "_|" + "0232";
      ThoriumParts("Th", "_|", "0232");
    }
  }

  /** Search by name: the record stored under the key the text names, or None
      for text of neither shape or a key not in the dataset. */
  function SearchByName(d: Dataset, text: string): (r: Option<Nuclide>)
    ensures NameKey(text).None? ==> r.None?
    ensures NameKey(text).Some? && DistinctKeys(d) ==>
      forall v :: r == Some(v) <==> (NameKey(text).value, v) in d
  {
    match NameKey(text)
    case None => None
    case Some(key) => LookupKey(d, key)
  }

  /** `dataset.get(key)`: on a dict, the record stored under the key. */
  function LookupKey(d: Dataset, key: string): (r: Option<Nuclide>)
    ensures DistinctKeys(d) ==> forall v :: r == Some(v) <==> (key, v) in d
  {
    var hit := FirstMatch(d, (e: (string, Nuclide)) => e.0 == key);
    var r := if hit.Some? then Some(hit.value.1) else None;
    assert DistinctKeys(d) ==> forall v :: r == Some(v) <==> (key, v) in d by {
      if DistinctKeys(d) {
        forall v
          ensures r == Some(v) <==> (key, v) in d
        {
          FirstMatchKey(d, key, v);
        }
      }
    }
    r
  }

  /** The first record, in dataset order, whose two given fields match. */
  function SearchBy(d: Dataset, matches: Nuclide -> bool): (r: Option<Nuclide>)
    ensures r.None? <==> forall e :: e in d ==> !matches(e.1)
    ensures r.Some? ==>
      exists i :: 0 <= i < |d| && d[i].1 == r.value && matches(d[i].1) && forall j :: 0 <= j < i ==> !matches(d[j].1)
  {
    var hit := FirstMatch(d, (e: (string, Nuclide)) => matches(e.1));
    if hit.Some? then Some(hit.value.1) else None
  }

  /** The first record with the given Z and N, in dataset order. */
  function SearchZN(d: Dataset, z: int, n: int): (r: Option<Nuclide>)
    ensures r.Some? ==> r.value.z == z && r.value.n == n && r.value in Values(d)
    ensures r.None? <==> forall e :: e in d ==> !(e.1.z == z && e.1.n == n)
    ensures r.Some? ==> exists i :: (0 <= i < |d| && d[i].1 == r.value
      && forall j :: 0 <= j < i ==> !(d[j].1.z == z && d[j].1.n == n))
  {
    SearchBy(d, (v: Nuclide) => v.z == z && v.n == n)
  }

  /** The first record with the given Z and A, in dataset order. */
  function SearchZA(d: Dataset, z: int, a: int): (r: Option<Nuclide>)
    ensures r.Some? ==> r.value.z == z && r.value.a == a && r.value in Values(d)
    ensures r.None? <==> forall e :: e in d ==> !(e.1.z == z && e.1.a == a)
    ensures r.Some? ==> exists i :: (0 <= i < |d| && d[i].1 == r.value
      && forall j :: 0 <= j < i ==> !(d[j].1.z == z && d[j].1.a == a))
  {
    SearchBy(d, (v: Nuclide) => v.z == z && v.a == a)
  }

  /** The first record with the given N and A, in dataset order. */
  function SearchNA(d: Dataset, n: int, a: int): (r: Option<Nuclide>)
    ensures r.Some? ==> r.value.n == n && r.value.a == a && r.value in Values(d)
    ensures r.None? <==> forall e :: e in d ==> !(e.1.n == n && e.1.a == a)
    ensures r.Some? ==> exists i :: (0 <= i < |d| && d[i].1 == r.value
      && forall j :: 0 <= j < i ==> !(d[j].1.n == n && d[j].1.a == a))
  {
    SearchBy(d, (v: Nuclide) => v.n == n && v.a == a)
  }

  /** The records of the dataset. */
  ghost function Values(d: Dataset): set<Nuclide> {
    set e | e in d :: e.1
  }

  /** On a well-formed dataset the three coordinate searches agree: (Z, A) and
      (N, A) find the same first record as (Z, N) with the third number derived. */
  lemma CoordinateSearchesAgree(d: Dataset, z: int, n: int)
    requires WellFormed(d)
    ensures SearchZA(d, z, z + n) == SearchZN(d, z, n)
    ensures SearchNA(d, n, z + n) == SearchZN(d, z, n)
  {
    var zn := (v: Nuclide) => v.z == z && v.n == n;
    var za := (v: Nuclide) => v.z == z && v.a == z + n;
    var na := (v: Nuclide) => v.n == n && v.a == z + n;
    forall e | e in d
      ensures za(e.1) == zn(e.1) && na(e.1) == zn(e.1)
    {
      var i :| 0 <= i < |d| && d[i] == e;
    }
    FirstMatchAgree(d, (e: (string, Nuclide)) => za(e.1), (e: (string, Nuclide)) => zn(e.1));
    FirstMatchAgree(d, (e: (string, Nuclide)) => na(e.1), (e: (string, Nuclide)) => zn(e.1));
  }

  /** Two tests that agree on every item find the same first item. */
  lemma {:induction false} FirstMatchAgree(d: Dataset, p: ((string, Nuclide)) -> bool, q: ((string, Nuclide)) -> bool)
    requires forall e :: e in d ==> p(e) == q(e)
    ensures FirstMatch(d, p) == FirstMatch(d, q)
  {
    if |d| > 0 {
      assert d[0] in d;
      assert forall e :: e in d[1..] ==> e in d;
      FirstMatchAgree(d[1..], p, q);
    }
  }
}
