/** Ordering a ground state's decay modes for display and classification:
    the modes with a branch ratio, by decreasing ratio, then the modes
    without one, in their listed order. */
module Ranking {
  import opened Common
  import opened Nuclides

  predicate IsQuantified(m: DecayMode) {
    m.value.Some?
  }

  predicate IsUnquantified(m: DecayMode) {
    m.value.None?
  }

  /** The branch ratio a mode is sorted by (only read for quantified modes). */
  function Ratio(m: DecayMode): real {
    m.value.GetOr(0.0)
  }

  ghost predicate SortedDesc(s: seq<DecayMode>) {
    forall i, j :: 0 <= i < j < |s| ==> Ratio(s[i]) >= Ratio(s[j])
  }

  /** The position of the first largest ratio. */
  function FirstMaxIndex(s: seq<DecayMode>): (i: nat)
    requires |s| > 0
    ensures i < |s|
    ensures forall j :: 0 <= j < |s| ==> Ratio(s[j]) <= Ratio(s[i])
    ensures forall j :: 0 <= j < i ==> Ratio(s[j]) < Ratio(s[i])
  {
    if |s| == 1 then 0
    else
      var k := FirstMaxIndex(s[1..]);
      assert forall j :: 1 <= j < |s| ==> s[j] == s[1..][j - 1];
      if Ratio(s[0]) >= Ratio(s[1..][k]) then 0 else k + 1
  }

  /** A head no smaller than anything after it keeps a sorted tail sorted. */
  lemma SortedCons(h: DecayMode, t: seq<DecayMode>)
    requires SortedDesc(t)
    requires forall y :: y in t ==> Ratio(y) <= Ratio(h)
    ensures SortedDesc([h] + t)
  {
    var r := [h] + t;
    forall i, j | 0 <= i < j < |r|
      ensures Ratio(r[i]) >= Ratio(r[j])
    {
      assert r[j] == t[j - 1];
      if i > 0 {
        assert r[i] == t[i - 1];
      }
    }
  }

  lemma SortedTail(s: seq<DecayMode>)
    requires SortedDesc(s) && |s| > 0
    ensures SortedDesc(s[1..])
    ensures forall y :: y in s ==> Ratio(y) <= Ratio(s[0])
  {
    var tail := s[1..];
    forall i, j | 0 <= i < j < |tail|
      ensures Ratio(tail[i]) >= Ratio(tail[j])
    {
      assert tail[i] == s[i + 1] && tail[j] == s[j + 1];
    }
    forall y | y in s
      ensures Ratio(y) <= Ratio(s[0])
    {
      var j :| 0 <= j < |s| && s[j] == y;
      assert Ratio(s[0]) >= Ratio(s[j]);
    }
  }

  /** Every element of a permutation of `s` plus `x` is bounded by a bound of both. */
  lemma BoundedPermutation(rest: seq<DecayMode>, s: seq<DecayMode>, x: DecayMode, h: DecayMode)
    requires multiset(rest) == multiset(s) + multiset{x}
    requires forall y :: y in s ==> Ratio(y) <= Ratio(h)
    requires Ratio(x) <= Ratio(h)
    ensures forall y :: y in rest ==> Ratio(y) <= Ratio(h)
  {
    forall y | y in rest
      ensures Ratio(y) <= Ratio(h)
    {
      assert y in multiset(rest);
      if y != x {
        assert y in multiset(s);
      }
    }
  }

  /** Puts `x` in front of the first element whose ratio it reaches. */
  function InsertDesc(x: DecayMode, s: seq<DecayMode>): (r: seq<DecayMode>)
    requires SortedDesc(s)
    ensures |r| == |s| + 1
    ensures multiset(r) == multiset(s) + multiset{x}
    ensures SortedDesc(r)
    ensures r[0] == if |s| == 0 || Ratio(s[0]) <= Ratio(x) then x else s[0]
  {
    if |s| == 0 then [x]
    else
      SortedTail(s);
      if Ratio(s[0]) <= Ratio(x) then
        SortedCons(x, s);
        [x] + s
      else
        var rest := InsertDesc(x, s[1..]);
        BoundedPermutation(rest, s[1..], x, s[0]);
        SortedCons(s[0], rest);
        assert s == [s[0]] + s[1..];
        [s[0]] + rest
  }

  /** Sorting by decreasing ratio, keeping the first of equal ratios ahead. */
  function SortDesc(s: seq<DecayMode>): (r: seq<DecayMode>)
    ensures |r| == |s|
    ensures multiset(r) == multiset(s)
    ensures SortedDesc(r)
    ensures |s| > 0 ==> r[0] == s[FirstMaxIndex(s)]
  {
    if |s| == 0 then []
    else
      assert s == [s[0]] + s[1..];
      InsertDesc(s[0], SortDesc(s[1..]))
  }

  /** The modes of `s` whose branch ratio is `v`, in their order in `s`: the
      group of modes that tie at `v`. */
  function Ties(s: seq<DecayMode>, v: real): (r: seq<DecayMode>)
    ensures |r| <= |s|
  {
    if |s| == 0 then []
    else (if Ratio(s[0]) == v then [s[0]] else []) + Ties(s[1..], v)
  }

  /** Inserting `x` puts it ahead of the modes that tie with it and leaves their
      order alone. */
  lemma {:induction false} InsertDescStable(x: DecayMode, t: seq<DecayMode>, v: real)
    requires SortedDesc(t)
    ensures Ties(InsertDesc(x, t), v) == (if Ratio(x) == v then [x] else []) + Ties(t, v)
    decreases |t|
  {
    if |t| == 0 || Ratio(t[0]) <= Ratio(x) {
      assert InsertDesc(x, t) == [x] + t;
      TiesFront(x, t, InsertDesc(x, t), v);
    } else {
      InsertBehindHead(x, t);
      InsertDescStable(x, t[1..], v);
      assert t == [t[0]] + t[1..];
      TiesBehind(x, t[0], InsertDesc(x, t[1..]), t[1..], InsertDesc(x, t), t, v);
    }
  }

  /** Below a larger head, `x` goes into the tail. */
  lemma InsertBehindHead(x: DecayMode, t: seq<DecayMode>)
    requires SortedDesc(t) && |t| > 0 && Ratio(t[0]) > Ratio(x)
    ensures SortedDesc(t[1..])
    ensures InsertDesc(x, t) == [t[0]] + InsertDesc(x, t[1..])
  {
    SortedTail(t);
  }

  /** The tie group of a sequence with `x` in front. */
  lemma TiesFront(x: DecayMode, t: seq<DecayMode>, r: seq<DecayMode>, v: real)
    requires r == [x] + t
    ensures Ties(r, v) == (if Ratio(x) == v then [x] else []) + Ties(t, v)
  {
    assert r[0] == x && r[1..] == t;
  }

  /** A head `h` larger than `x` is in no tie group that `x` is in, so
      inserting `x` behind it changes the tie groups as inserting it into the
      tail does. */
  lemma TiesBehind(x: DecayMode, h: DecayMode, rest: seq<DecayMode>, tail: seq<DecayMode>,
                   r: seq<DecayMode>, t: seq<DecayMode>, v: real)
    requires r == [h] + rest && t == [h] + tail
    requires Ratio(h) > Ratio(x)
    requires Ties(rest, v) == (if Ratio(x) == v then [x] else []) + Ties(tail, v)
    ensures Ties(r, v) == (if Ratio(x) == v then [x] else []) + Ties(t, v)
  {
    TiesFront(h, rest, r, v);
    TiesFront(h, tail, t, v);
    if Ratio(x) == v {
      assert Ratio(h) != v;
      assert Ties(r, v) == Ties(rest, v);
      assert Ties(t, v) == Ties(tail, v);
    } else {
      assert Ties(rest, v) == Ties(tail, v);
    }
  }

  /** The sort is stable: the modes that tie at any ratio keep their listed order. */
  lemma {:induction false} SortDescStable(s: seq<DecayMode>, v: real)
    ensures Ties(SortDesc(s), v) == Ties(s, v)
    decreases |s|
  {
    if |s| > 0 {
      SortDescStable(s[1..], v);
      InsertDescStable(s[0], SortDesc(s[1..]), v);
    }
  }

  /** Quantified entries, sorted, followed by unquantified ones. */
  ghost predicate RankShape(r: seq<DecayMode>, k: nat) {
    && k <= |r|
    && SortedDesc(r[..k])
    && (forall i :: 0 <= i < k ==> IsQuantified(r[i]))
    && (forall i :: k <= i < |r| ==> IsUnquantified(r[i]))
  }

  lemma ConcatShape(sorted: seq<DecayMode>, u: seq<DecayMode>)
    requires SortedDesc(sorted)
    requires forall m :: m in sorted ==> IsQuantified(m)
    requires forall m :: m in u ==> IsUnquantified(m)
    ensures RankShape(sorted + u, |sorted|)
  {
    var r := sorted + u;
    assert r[..|sorted|] == sorted;
    forall i | |sorted| <= i < |r|
      ensures IsUnquantified(r[i])
    {
      assert r[i] == u[i - |sorted|];
    }
  }

  /** The sorted quantified modes of a list are all quantified. */
  lemma SortedQuantified(modes: seq<DecayMode>)
    ensures forall m :: m in SortDesc(Select(modes, IsQuantified)) ==> m in Select(modes, IsQuantified) && IsQuantified(m)
  {
    var q := Select(modes, IsQuantified);
    var sorted := SortDesc(q);
    forall m | m in sorted
      ensures m in q
    {
      assert m in multiset(sorted);
    }
  }

  /** The corrected ranking: every listed mode exactly once, quantified ones
      first by decreasing ratio, then the others. */
  function Ranked(modes: seq<DecayMode>): (r: seq<DecayMode>)
    ensures |r| == |modes|
    ensures multiset(r) == multiset(modes)
    ensures RankShape(r, |Select(modes, IsQuantified)|)
    ensures r[|Select(modes, IsQuantified)|..] == Select(modes, IsUnquantified)
  {
    var q := Select(modes, IsQuantified);
    var u := Select(modes, IsUnquantified);
    SelectPartition(modes, IsQuantified, IsUnquantified);
    SortedQuantified(modes);
    ConcatShape(SortDesc(q), u);
    SortDesc(q) + u
  }

  /** Quantified modes that tie keep their listed order in the ranking. */
  lemma RankedStable(modes: seq<DecayMode>, v: real)
    ensures var q := Select(modes, IsQuantified);
      Ties(Ranked(modes)[..|q|], v) == Ties(q, v)
  {
    var q := Select(modes, IsQuantified);
    SortDescStable(q, v);
    assert Ranked(modes)[..|q|] == SortDesc(q);
  }

  /** The ranking's head is the first largest quantified mode, or the first
      listed mode when none is quantified. */
  lemma RankedHead(modes: seq<DecayMode>)
    requires |modes| > 0
    ensures var q := Select(modes, IsQuantified);
      Ranked(modes)[0] == if |q| > 0 then q[FirstMaxIndex(q)] else modes[0]
  {
    var q := Select(modes, IsQuantified);
    if |q| == 0 {
      assert forall x :: x in modes ==> IsUnquantified(x);
      SelectAll(modes, IsUnquantified);
    }
  }

  // ---------------------------------------------------------------------------
  // The ranking as the program writes it: the sorted quantified modes are
  // looked up again through a dict keyed by mode name, which holds the last
  // quantified entry of each name.

  /** Position `i` holds the last entry of `q` named `mode`. */
  ghost predicate LastAt(q: seq<DecayMode>, i: int, mode: string) {
    0 <= i < |q| && q[i].mode == mode && forall j :: i < j < |q| ==> q[j].mode != mode
  }

  /** The last entry of `q` named `mode`, as the dict keeps it. */
  function LastWithMode(q: seq<DecayMode>, mode: string): (r: DecayMode)
    requires exists m :: m in q && m.mode == mode
    ensures r.mode == mode
    ensures exists i :: LastAt(q, i, mode) && q[i] == r
  {
    assert |q| > 0 by {
      var m :| m in q && m.mode == mode;
    }
    var last := q[|q| - 1];
    if last.mode == mode then
      assert LastAt(q, |q| - 1, mode);
      last
    else
      var pre := q[..|q| - 1];
      NamedInPrefix(q, mode);
      var r := LastWithMode(pre, mode);
      assert exists i :: LastAt(q, i, mode) && q[i] == r by {
        var i :| LastAt(pre, i, mode) && pre[i] == r;
        LastAtExtends(q, i, mode);
      }
      r
  }

  /** A name the last entry does not carry occurs before it. */
  lemma NamedInPrefix(q: seq<DecayMode>, mode: string)
    requires exists m :: m in q && m.mode == mode
    requires |q| > 0 && q[|q| - 1].mode != mode
    ensures exists m :: m in q[..|q| - 1] && m.mode == mode
  {
    var m :| m in q && m.mode == mode;
    assert q == q[..|q| - 1] + [q[|q| - 1]];
  }

  /** The last entry named `mode` before a differently named final entry is
      the last one overall. */
  lemma LastAtExtends(q: seq<DecayMode>, i: int, mode: string)
    requires |q| > 0 && q[|q| - 1].mode != mode
    requires LastAt(q[..|q| - 1], i, mode)
    ensures LastAt(q, i, mode) && q[i] == q[..|q| - 1][i]
  {
    var pre := q[..|q| - 1];
    forall j | i < j < |q|
      ensures q[j].mode != mode
    {
      if j < |q| - 1 {
        assert q[j] == pre[j];
      }
    }
  }

  /** Each sorted entry replaced by the dict's entry of the same name. */
  function Relookup(q: seq<DecayMode>, sorted: seq<DecayMode>): (r: seq<DecayMode>)
    requires forall m :: m in sorted ==> m in q
    ensures |r| == |sorted|
    ensures forall i :: 0 <= i < |r| ==> r[i].mode == sorted[i].mode && r[i] in q
  {
    if |sorted| == 0 then []
    else
      var m := LastWithMode(q, sorted[0].mode);
      assert forall x :: x in sorted[1..] ==> x in sorted;
      var rest := Relookup(q, sorted[1..]);
      assert forall i :: 1 <= i < |sorted| ==> sorted[i] == sorted[1..][i - 1];
      [m] + rest
  }

  function RankedAsWritten(modes: seq<DecayMode>): (r: seq<DecayMode>)
    ensures |r| == |modes|
  {
    var q := Select(modes, IsQuantified);
    var u := Select(modes, IsUnquantified);
    SelectPartition(modes, IsQuantified, IsUnquantified);
    SortedQuantified(modes);
    Relookup(q, SortDesc(q)) + u
  }

  /** As written, the ranking lists the same mode names in the same order as the
      corrected one: only the entries behind repeated names differ. */
  lemma AsWrittenSameNames(modes: seq<DecayMode>)
    ensures forall i :: 0 <= i < |modes| ==> RankedAsWritten(modes)[i].mode == Ranked(modes)[i].mode
  {
    SortedQuantified(modes);
    SelectPartition(modes, IsQuantified, IsUnquantified);
  }

  /** A mode listed twice with two ratios, the larger first (say observed and
      predicted), is shown twice with the smaller ratio: the larger entry is
      lost from the as-written ranking, while the corrected ranking keeps both. */
  lemma AsWrittenLosesEntry(a: DecayMode, b: DecayMode)
    requires a.mode == b.mode && IsQuantified(a) && IsQuantified(b) && Ratio(a) > Ratio(b)
    ensures RankedAsWritten([a, b]) == [b, b]
    ensures Ranked([a, b]) == [a, b]
    ensures a !in RankedAsWritten([a, b])
  {
    AsWrittenPair(a, b);
    RankedPair(a, b);
    assert a != b by {
      assert Ratio(a) != Ratio(b);
    }
    NotInPair(a, b, RankedAsWritten([a, b]));
  }

  lemma NotInPair(a: DecayMode, b: DecayMode, r: seq<DecayMode>)
    requires r == [b, b] && a != b
    ensures a !in r
  {
  }

  lemma AsWrittenPair(a: DecayMode, b: DecayMode)
    requires a.mode == b.mode && IsQuantified(a) && IsQuantified(b) && Ratio(a) > Ratio(b)
    ensures RankedAsWritten([a, b]) == [b, b]
  {
    var s := [a, b];
    PairSteps(a, b);
    AsWrittenUnfold(s, s, s, []);
  }

  /** The three stages of the as-written ranking on such a pair. */
  lemma PairSteps(a: DecayMode, b: DecayMode)
    requires a.mode == b.mode && IsQuantified(a) && IsQuantified(b) && Ratio(a) > Ratio(b)
    ensures Select([a, b], IsQuantified) == [a, b] && Select([a, b], IsUnquantified) == []
    ensures SortDesc([a, b]) == [a, b]
    ensures Relookup([a, b], [a, b]) == [b, b]
  {
    SelectPair(a, b);
    SortPair(a, b);
    RelookupPair(a, b);
  }

  /** The as-written ranking in terms of its three stages. */
  lemma AsWrittenUnfold(modes: seq<DecayMode>, q: seq<DecayMode>, sorted: seq<DecayMode>, u: seq<DecayMode>)
    requires q == Select(modes, IsQuantified) && u == Select(modes, IsUnquantified) && sorted == SortDesc(q)
    requires forall m :: m in sorted ==> m in q
    ensures RankedAsWritten(modes) == Relookup(q, sorted) + u
  {
  }

  lemma RankedPair(a: DecayMode, b: DecayMode)
    requires IsQuantified(a) && IsQuantified(b) && Ratio(a) > Ratio(b)
    ensures Ranked([a, b]) == [a, b]
  {
    SelectPair(a, b);
    SortPair(a, b);
    assert Ranked([a, b]) == [a, b] + [];
  }

  lemma SelectPair(a: DecayMode, b: DecayMode)
    requires IsQuantified(a) && IsQuantified(b)
    ensures Select([a, b], IsQuantified) == [a, b]
    ensures Select([a, b], IsUnquantified) == []
  {
    assert [a, b][..1] == [a];
    assert [a][..0] == [];
  }

  lemma SortPair(a: DecayMode, b: DecayMode)
    requires Ratio(a) > Ratio(b)
    ensures SortDesc([a, b]) == [a, b]
  {
    assert [a, b][1..] == [b];
    assert [b][1..] == [];
    assert SortDesc([b]) == [b];
  }

  lemma RelookupPair(a: DecayMode, b: DecayMode)
    requires a.mode == b.mode
    ensures Relookup([a, b], [a, b]) == [b, b]
  {
    var q := [a, b];
    assert q[..1] == [a];
    assert LastWithMode(q, a.mode) == b;
    assert q[1..] == [b];
    var one := Relookup(q, [b]);
    assert [b][1..] == [];
    assert one == [b];
  }
}
