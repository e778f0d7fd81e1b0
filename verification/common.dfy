/** Small shared vocabulary: optional values, results, and the two ways the
    program walks an insertion-ordered dict (copy the entries that pass a test,
    or stop at the first entry that passes). */
module Common {

  /** Python's `None` versus a present value. */
  datatype Option<+T> = None | Some(value: T) {
    function GetOr(default: T): T {
      match this
      case Some(v) => v
      case None => default
    }
  }

  /** A value, or the exception the Python code would raise instead. */
  datatype Result<+T, +E> = Success(value: T) | Failure(error: E)

  /** The exceptions the modelled code can raise. */
  datatype PyError =
    | KeyError(key: string)       // indexing a dict with a missing key
    | TypeError                   // arithmetic on None
    | UnboundLocal(name: string)  // reading a variable no branch assigned

  /** `sub` is obtained from `s` by deleting elements, without reordering. */
  ghost predicate Subseq<T>(sub: seq<T>, s: seq<T>)
    decreases |s|
  {
    || |sub| == 0
    || (&& |s| > 0
        && (|| (sub[|sub| - 1] == s[|s| - 1] && Subseq(sub[..|sub| - 1], s[..|s| - 1]))
            || Subseq(sub, s[..|s| - 1])))
  }

  /** Deleting nothing is a subsequence. */
  lemma {:induction false} SubseqRefl<T>(s: seq<T>)
    ensures Subseq(s, s)
    decreases |s|
  {
    if |s| > 0 {
      SubseqRefl(s[..|s| - 1]);
    }
  }

  /** No key occurs twice: the shape of a Python dict read as a sequence of items. */
  ghost predicate DistinctKeys<K, V>(d: seq<(K, V)>) {
    forall i, j :: 0 <= i < j < |d| ==> d[i].0 != d[j].0
  }

  /** The elements of `s` that pass `keep`, in their original order: a loop that
      fills a fresh dict with the entries of another that pass a test. */
  function Select<T(!new)>(s: seq<T>, keep: T -> bool): (r: seq<T>)
    ensures |r| <= |s|
    ensures forall x :: x in r <==> x in s && keep(x)
    ensures Subseq(r, s)
  {
    if |s| == 0 then []
    else
      var pre := Select(s[..|s| - 1], keep);
      assert s == s[..|s| - 1] + [s[|s| - 1]];
      if keep(s[|s| - 1]) then pre + [s[|s| - 1]] else pre
  }

  /** Selecting with a stronger test keeps a subsequence of what a weaker test keeps. */
  lemma {:induction false} SelectMonotone<T(!new)>(s: seq<T>, p: T -> bool, q: T -> bool)
    requires forall x :: p(x) ==> q(x)
    ensures Subseq(Select(s, p), Select(s, q))
    ensures |Select(s, p)| <= |Select(s, q)|
  {
    if |s| > 0 {
      var pre := s[..|s| - 1];
      var last := s[|s| - 1];
      var a := Select(pre, p);
      var b := Select(pre, q);
      assert Subseq(a, b) && |a| <= |b| by {
        SelectMonotone(pre, p, q);
      }
      assert Select(s, p) == a + (if p(last) then [last] else []) by {
        SelectLast(s, p);
      }
      assert Select(s, q) == b + (if q(last) then [last] else []) by {
        SelectLast(s, q);
      }
      SubseqSnoc(a, b, last);
      if p(last) {
        assert q(last);
      }
    }
  }

  /** One more element at the end of the longer sequence, or of both. */
  lemma SubseqSnoc<T>(a: seq<T>, b: seq<T>, x: T)
    requires Subseq(a, b)
    ensures Subseq(a, b + [x]) && Subseq(a + [x], b + [x])
  {
    var bx := b + [x];
    assert bx[..|bx| - 1] == b && bx[|bx| - 1] == x;
    var ax := a + [x];
    assert ax[..|ax| - 1] == a && ax[|ax| - 1] == x;
  }

  /** Two selections in a row are one selection with the conjunction of the tests. */
  lemma {:induction false} SelectSelect<T(!new)>(s: seq<T>, p: T -> bool, q: T -> bool)
    ensures Select(Select(s, p), q) == Select(s, x => p(x) && q(x))
  {
    if |s| > 0 {
      var pre := s[..|s| - 1];
      var last := s[|s| - 1];
      SelectSelect(pre, p, q);
      var a := Select(pre, p);
      if p(last) {
        assert (a + [last])[..|a|] == a;
      }
    }
  }

  /** Selecting with two tests that agree everywhere gives the same result. */
  lemma {:induction false} SelectExtensional<T(!new)>(s: seq<T>, p: T -> bool, q: T -> bool)
    requires forall x :: p(x) == q(x)
    ensures Select(s, p) == Select(s, q)
  {
    if |s| > 0 {
      SelectExtensional(s[..|s| - 1], p, q);
    }
  }

  /** Splitting a sequence by a test and its negation loses and duplicates nothing. */
  lemma {:induction false} SelectPartition<T(!new)>(s: seq<T>, p: T -> bool, q: T -> bool)
    requires forall x :: q(x) == !p(x)
    ensures multiset(Select(s, p)) + multiset(Select(s, q)) == multiset(s)
    ensures |Select(s, p)| + |Select(s, q)| == |s|
  {
    if |s| > 0 {
      var pre := s[..|s| - 1];
      var last := s[|s| - 1];
      var a0 := Select(pre, p);
      var b0 := Select(pre, q);
      assert multiset(a0) + multiset(b0) == multiset(pre) && |a0| + |b0| == |pre| by {
        SelectPartition(pre, p, q);
      }
      assert Select(s, p) == a0 + (if p(last) then [last] else []) by {
        SelectLast(s, p);
      }
      assert Select(s, q) == b0 + (if p(last) then [] else [last]) by {
        SelectLast(s, q);
        assert q(last) == !p(last);
      }
      PartitionStep(Select(s, p), a0, Select(s, q), b0, s, pre, last, p(last));
    } else {
      assert Select(s, p) == [] && Select(s, q) == [];
    }
  }

  /** `Select` looks at the last element, then at the rest. */
  lemma SelectLast<T(!new)>(s: seq<T>, p: T -> bool)
    requires |s| > 0
    ensures Select(s, p) == Select(s[..|s| - 1], p) + (if p(s[|s| - 1]) then [s[|s| - 1]] else [])
  {
  }

  /** Sending one more element to exactly one side of a split keeps it a split. */
  lemma PartitionStep<T>(a: seq<T>, a0: seq<T>, b: seq<T>, b0: seq<T>, s: seq<T>, pre: seq<T>, x: T, left: bool)
    requires s == pre + [x]
    requires multiset(a0) + multiset(b0) == multiset(pre) && |a0| + |b0| == |pre|
    requires a == a0 + (if left then [x] else []) && b == b0 + (if left then [] else [x])
    ensures multiset(a) + multiset(b) == multiset(s)
    ensures |a| + |b| == |s|
  {
    assert multiset(s) == multiset(pre) + multiset{x};
  }

  /** A test every element passes selects the whole sequence. */
  lemma {:induction false} SelectAll<T(!new)>(s: seq<T>, p: T -> bool)
    requires forall x :: x in s ==> p(x)
    ensures Select(s, p) == s
  {
    if |s| > 0 {
      var pre := s[..|s| - 1];
      assert s == pre + [s[|s| - 1]];
      assert forall x :: x in pre ==> x in s;
      SelectAll(pre, p);
    }
  }

  /** Selecting from a concatenation selects from each part. */
  lemma {:induction false} SelectAppend<T(!new)>(a: seq<T>, b: seq<T>, p: T -> bool)
    ensures Select(a + b, p) == Select(a, p) + Select(b, p)
    decreases |b|
  {
    if |b| == 0 {
      assert a + b == a;
    } else {
      var b' := b[..|b| - 1];
      assert (a + b)[..|a + b| - 1] == a + b';
      SelectAppend(a, b', p);
    }
  }

  /** Selecting from a non-empty sequence, front first. */
  lemma SelectFront<T(!new)>(s: seq<T>, p: T -> bool)
    requires |s| > 0
    ensures Select(s, p) == (if p(s[0]) then [s[0]] else []) + Select(s[1..], p)
  {
    var head := [s[0]];
    assert s == head + s[1..];
    SelectAppend(head, s[1..], p);
    assert head[..0] == [];
    assert Select(head, p) == (if p(s[0]) then head else []);
  }

  /** Every element of a subsequence is an element of the sequence. */
  lemma {:induction false} SubseqMembers<T>(a: seq<T>, b: seq<T>)
    requires Subseq(a, b)
    ensures forall x :: x in a ==> x in b
    decreases |b|
  {
    if |a| > 0 {
      var b' := b[..|b| - 1];
      assert b == b' + [b[|b| - 1]];
      if a[|a| - 1] == b[|b| - 1] && Subseq(a[..|a| - 1], b') {
        SubseqMembers(a[..|a| - 1], b');
        assert a == a[..|a| - 1] + [a[|a| - 1]];
      } else {
        SubseqMembers(a, b');
      }
    }
  }

  /** A subsequence of a subsequence is a subsequence. */
  lemma {:induction false} SubseqTransitive<T>(a: seq<T>, b: seq<T>, c: seq<T>)
    requires Subseq(a, b) && Subseq(b, c)
    ensures Subseq(a, c)
    decreases |c|
  {
    if |a| > 0 {
      SubseqMembers(b, c);
      assert |b| > 0;
      var c' := c[..|c| - 1];
      if b[|b| - 1] == c[|c| - 1] && Subseq(b[..|b| - 1], c') {
        var b' := b[..|b| - 1];
        if a[|a| - 1] == b[|b| - 1] && Subseq(a[..|a| - 1], b') {
          SubseqTransitive(a[..|a| - 1], b', c');
        } else {
          SubseqTransitive(a, b', c');
        }
      } else {
        SubseqTransitive(a, b, c');
      }
    }
  }

  /** A subsequence of a dict's items still has distinct keys. */
  lemma {:induction false} SubseqDistinct<K, V>(a: seq<(K, V)>, b: seq<(K, V)>)
    requires Subseq(a, b) && DistinctKeys(b)
    ensures DistinctKeys(a)
    decreases |b|
  {
    if |a| > 0 {
      var b' := b[..|b| - 1];
      assert DistinctKeys(b');
      if a[|a| - 1] == b[|b| - 1] && Subseq(a[..|a| - 1], b') {
        var a' := a[..|a| - 1];
        SubseqDistinct(a', b');
        SubseqMembers(a', b');
        forall i, j | 0 <= i < j < |a|
          ensures a[i].0 != a[j].0
        {
          if j == |a| - 1 {
            assert a[i] in a';
            var k :| 0 <= k < |b'| && b'[k] == a[i];
            assert b[k] == a[i];
          } else {
            assert a[i] == a'[i] && a[j] == a'[j];
          }
        }
      } else {
        SubseqDistinct(a, b');
      }
    }
  }

  /** The first element of `s` that passes `p`: a loop over dict items that
      breaks at the first hit. */
  function FirstMatch<T(!new)>(s: seq<T>, p: T -> bool): (r: Option<T>)
    ensures r.None? <==> forall x :: x in s ==> !p(x)
    ensures r.Some? ==>
      exists i :: 0 <= i < |s| && s[i] == r.value && p(s[i]) && forall j :: 0 <= j < i ==> !p(s[j])
  {
    if |s| == 0 then None
    else if p(s[0]) then Some(s[0])
    else
      var r := FirstMatch(s[1..], p);
      assert forall x :: x in s ==> x == s[0] || x in s[1..];
      assert r.Some? ==> exists i :: 0 <= i < |s| && s[i] == r.value && p(s[i]) && forall j :: 0 <= j < i ==> !p(s[j]) by {
        if r.Some? {
          var i :| 0 <= i < |s[1..]| && s[1..][i] == r.value && p(s[1..][i])
            && forall j :: 0 <= j < i ==> !p(s[1..][j]);
          assert s[i + 1] == r.value && forall j :: 0 <= j < i + 1 ==> !p(s[j]);
        }
      }
      r
  }

  /** Under distinct keys, the first item whose key is `k` is the only one. */
  lemma FirstMatchKey<K(!new), V(!new)>(d: seq<(K, V)>, k: K, v: V)
    requires DistinctKeys(d)
    ensures FirstMatch(d, (e: (K, V)) => e.0 == k) == Some((k, v)) <==> (k, v) in d
  {
    var r := FirstMatch(d, (e: (K, V)) => e.0 == k);
    if (k, v) in d {
      var i :| 0 <= i < |d| && d[i] == (k, v);
      assert r.Some?;
      var j :| 0 <= j < |d| && d[j] == r.value && d[j].0 == k;
      assert d[j].0 == d[i].0;
      assert i == j;
    }
  }

  /** `needle` occurs in `hay` starting at position `i`. */
  ghost predicate OccursAt(hay: string, needle: string, i: int) {
    0 <= i && i + |needle| <= |hay| && hay[i..i + |needle|] == needle
  }

  /** Python's `needle in hay` on two strings: a substring test. */
  function Contains(hay: string, needle: string): (b: bool)
    ensures b <==> exists i :: OccursAt(hay, needle, i)
    decreases |hay|
  {
    if |needle| > |hay| then false
    else if hay[..|needle|] == needle then
      assert OccursAt(hay, needle, 0);
      true
    else
      var b := Contains(hay[1..], needle);
      assert b ==> exists i :: OccursAt(hay, needle, i) by {
        if b {
          var i :| OccursAt(hay[1..], needle, i);
          assert hay[i + 1..i + 1 + |needle|] == hay[1..][i..i + |needle|];
          assert OccursAt(hay, needle, i + 1);
        }
      }
      assert (exists i :: OccursAt(hay, needle, i)) ==> b by {
        if exists i :: OccursAt(hay, needle, i) {
          var i :| OccursAt(hay, needle, i);
          assert i != 0;
          assert hay[1..][i - 1..i - 1 + |needle|] == hay[i..i + |needle|];
          assert OccursAt(hay[1..], needle, i - 1);
        }
      }
      b
  }
}
