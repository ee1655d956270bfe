/** `next_integer`: the next free number in a series of copy numbers. */
module NextNumber {
  import opened Wrappers

  function Min(xs: seq<int>): (m: int)
    requires |xs| > 0
    ensures m in xs && forall x <- xs :: m <= x
  {
    if |xs| == 1 then xs[0]
    else
      assert xs == [xs[0]] + xs[1..];
      var m := Min(xs[1..]); if xs[0] <= m then xs[0] else m
  }

  function Max(xs: seq<int>): (m: int)
    requires |xs| > 0
    ensures m in xs && forall x <- xs :: x <= m
  {
    if |xs| == 1 then xs[0]
    else
      assert xs == [xs[0]] + xs[1..];
      var m := Max(xs[1..]); if m <= xs[0] then xs[0] else m
  }

  /** `[*lo..hi]`: the integers from lo to hi in ascending order. */
  function Range(lo: int, hi: int): (r: seq<int>)
    ensures |r| == if lo <= hi then hi - lo + 1 else 0
    ensures forall k :: 0 <= k < |r| ==> r[k] == lo + k
    decreases hi - lo
  {
    if lo > hi then [] else [lo] + Range(lo + 1, hi)
  }

  /** `(r - xs).first`: the first element of r that does not occur in xs, or nil. */
  function FirstAbsent(r: seq<int>, xs: seq<int>): (v: Option<int>)
    ensures v.None? ==> forall x <- r :: x in xs
    ensures v.Some? ==> v.value in r && v.value !in xs
  {
    if r == [] then None
    else if r[0] !in xs then Some(r[0])
    else FirstAbsent(r[1..], xs)
  }

  /** Over an ascending range, the first absent element is the least absent one. */
  lemma {:induction false} FirstAbsentOfRange(lo: int, hi: int, xs: seq<int>)
    ensures var v := FirstAbsent(Range(lo, hi), xs);
      v.Some? ==> lo <= v.value <= hi && forall w :: lo <= w < v.value ==> w in xs
    decreases hi - lo
  {
    if lo <= hi {
      assert Range(lo, hi) == [lo] + Range(lo + 1, hi);
      assert Range(lo, hi)[1..] == Range(lo + 1, hi);
      FirstAbsentOfRange(lo + 1, hi, xs);
    }
  }

  /** The sorted array equals the range `[*min..max]` exactly when both hold the same
      multiset of values (see SortedUnique), so `next_integer` is stated on multisets. */
  function NextInteger(xs: seq<int>): (r: Option<int>)
    requires |xs| > 0
    ensures r.Some? ==> r.value !in xs && Min(xs) <= r.value <= Max(xs) + 1
  {
    var range := Range(Min(xs), Max(xs));
    if multiset(range) == multiset(xs) then Some(Max(xs) + 1) else FirstAbsent(range, xs)
  }

  predicate Sorted(s: seq<int>) {
    forall p, q :: 0 <= p < q < |s| ==> s[p] <= s[q]
  }

  ghost predicate Distinct(xs: seq<int>) {
    forall p, q :: 0 <= p < q < |xs| ==> xs[p] != xs[q]
  }

  /** Every integer between the least and the greatest element occurs. */
  ghost predicate GapFree(xs: seq<int>)
    requires |xs| > 0
  {
    forall v :: Min(xs) <= v <= Max(xs) ==> v in xs
  }

  lemma {:induction false} DistinctCount(xs: seq<int>, v: int)
    requires Distinct(xs)
    ensures multiset(xs)[v] == if v in xs then 1 else 0
  {
    if xs != [] {
      assert xs == [xs[0]] + xs[1..];
      assert Distinct(xs[1..]) by {
        forall p, q | 0 <= p < q < |xs[1..]| ensures xs[1..][p] != xs[1..][q] {
          assert xs[1..][p] == xs[p + 1] && xs[1..][q] == xs[q + 1];
        }
      }
      DistinctCount(xs[1..], v);
      assert xs[0] !in xs[1..] by {
        forall k | 0 <= k < |xs[1..]| ensures xs[1..][k] != xs[0] {
          assert xs[1..][k] == xs[k + 1];
        }
      }
    }
  }

  lemma RepeatCount(xs: seq<int>, p: int, q: int)
    requires 0 <= p < q < |xs| && xs[p] == xs[q]
    ensures multiset(xs)[xs[p]] >= 2
  {
    assert xs == xs[..p] + [xs[p]] + xs[p + 1..q] + [xs[q]] + xs[q + 1..];
  }

  lemma RangeDistinct(lo: int, hi: int)
    ensures Distinct(Range(lo, hi))
  {
  }

  /** A value v such that everything from lo up to v occurs in xs, and v itself does not
      (or v is past hi), is what `(range - xs).first` yields. */
  lemma {:induction false} FirstAbsentOfRangeIs(lo: int, hi: int, xs: seq<int>, v: int)
    requires lo <= v <= hi + 1 && (v <= hi ==> v !in xs)
    requires forall w :: lo <= w < v ==> w in xs
    ensures FirstAbsent(Range(lo, hi), xs) == if v <= hi then Some(v) else None
    decreases hi - lo
  {
    if lo <= hi {
      assert Range(lo, hi) == [lo] + Range(lo + 1, hi);
      assert Range(lo, hi)[1..] == Range(lo + 1, hi);
      if lo < v {
        FirstAbsentOfRangeIs(lo + 1, hi, xs, v);
      }
    }
  }

  lemma {:induction false} FirstAbsentSameElements(r: seq<int>, xs: seq<int>, ys: seq<int>)
    requires forall x :: x in xs <==> x in ys
    ensures FirstAbsent(r, xs) == FirstAbsent(r, ys)
  {
    if r != [] {
      FirstAbsentSameElements(r[1..], xs, ys);
    }
  }

  /** Two distinct sequences with the same elements hold the same multiset. */
  lemma DistinctSameElements(a: seq<int>, b: seq<int>)
    requires Distinct(a) && Distinct(b) && forall v :: v in a <==> v in b
    ensures multiset(a) == multiset(b)
  {
    forall v ensures multiset(a)[v] == multiset(b)[v] {
      DistinctCount(a, v);
      DistinctCount(b, v);
    }
  }

  /** A distinct, gap-free series gives max + 1. */
  lemma NextIntegerOfRun(xs: seq<int>)
    requires |xs| > 0 && Distinct(xs) && GapFree(xs)
    ensures NextInteger(xs) == Some(Max(xs) + 1)
  {
    var lo, hi := Min(xs), Max(xs);
    var range := Range(lo, hi);
    assert multiset(range) == multiset(xs) by {
      RangeDistinct(lo, hi);
      RunMembers(xs);
      DistinctSameElements(range, xs);
    }
    NextIntegerOfFullRange(xs);
  }

  lemma NextIntegerOfFullRange(xs: seq<int>)
    requires |xs| > 0 && multiset(Range(Min(xs), Max(xs))) == multiset(xs)
    ensures NextInteger(xs) == Some(Max(xs) + 1)
  {
  }

  /** A gap-free series holds exactly the values of its range. */
  lemma RunMembers(xs: seq<int>)
    requires |xs| > 0 && GapFree(xs)
    ensures forall v :: v in Range(Min(xs), Max(xs)) <==> v in xs
  {
    var lo, hi := Min(xs), Max(xs);
    RangeMembers(lo, hi);
    forall v | v in xs ensures lo <= v <= hi {
    }
  }

  lemma RangeMembers(lo: int, hi: int)
    ensures forall v :: v in Range(lo, hi) <==> lo <= v <= hi
  {
    var r := Range(lo, hi);
    forall v | lo <= v <= hi ensures v in r {
      assert r[v - lo] == v;
    }
  }

  /** A series with a gap gives the least missing value above its minimum. */
  lemma NextIntegerOfGap(xs: seq<int>)
    requires |xs| > 0 && !GapFree(xs)
    ensures NextInteger(xs).Some?
    ensures var n := NextInteger(xs).value;
      Min(xs) < n < Max(xs) && n !in xs && forall w :: Min(xs) <= w < n ==> w in xs
  {
    GapFirstAbsentFacts(xs);
    GapBounds(xs, NextInteger(xs));
  }

  lemma GapFirstAbsentFacts(xs: seq<int>)
    requires |xs| > 0 && !GapFree(xs)
    ensures var r := NextInteger(xs);
      r.Some? && Min(xs) <= r.value <= Max(xs) && forall w :: Min(xs) <= w < r.value ==> w in xs
  {
    GapIsFirstAbsent(xs);
    FirstAbsentOfRange(Min(xs), Max(xs), xs);
  }

  /** With a gap the multisets differ, so next_integer is the first absent value of the range. */
  lemma GapIsFirstAbsent(xs: seq<int>)
    requires |xs| > 0 && !GapFree(xs)
    ensures var range := Range(Min(xs), Max(xs));
      NextInteger(xs) == FirstAbsent(range, xs) && FirstAbsent(range, xs).Some?
  {
    var lo, hi := Min(xs), Max(xs);
    var range := Range(lo, hi);
    var v :| lo <= v <= hi && v !in xs;
    assert range[v - lo] == v;
    assert v in multiset(range) && v !in multiset(xs);
    NextIntegerCases(xs);
  }

  lemma GapBounds(xs: seq<int>, r: Option<int>)
    requires |xs| > 0 && r.Some? && Min(xs) <= r.value <= Max(xs) && r.value !in xs
    requires forall w :: Min(xs) <= w < r.value ==> w in xs
    ensures Min(xs) < r.value < Max(xs) && r.value !in xs
  {
    var lo, hi, n := Min(xs), Max(xs), r.value;
    assert lo in xs && hi in xs;
    assert n != lo && n != hi;
  }

  /** Repeated values with no gap give nil: the range is shorter than the series. */
  lemma NextIntegerOfRepeats(xs: seq<int>)
    requires |xs| > 0 && GapFree(xs) && !Distinct(xs)
    ensures NextInteger(xs) == None
  {
    var range := Range(Min(xs), Max(xs));
    var p, q :| 0 <= p < q < |xs| && xs[p] == xs[q];
    RepeatCount(xs, p, q);
    RangeDistinct(Min(xs), Max(xs));
    DistinctCount(range, xs[p]);
    assert multiset(range) != multiset(xs);
    forall x | x in range ensures x in xs {
      var k :| 0 <= k < |range| && range[k] == x;
    }
  }

  lemma SameElements(s: seq<int>, t: seq<int>)
    requires multiset(s) == multiset(t)
    ensures forall x :: x in s <==> x in t
  {
    forall x ensures x in s <==> x in t {
      assert x in s <==> x in multiset(s);
      assert x in t <==> x in multiset(t);
    }
  }

  /** The ends of a sorted permutation of xs are the least and the greatest element of xs. */
  lemma SortedEnds(s: seq<int>, xs: seq<int>)
    requires |s| > 0 && Sorted(s) && multiset(s) == multiset(xs)
    ensures |xs| > 0 && s[0] == Min(xs) && s[|s| - 1] == Max(xs)
  {
    SameElements(s, xs);
    assert |xs| == |multiset(xs)| == |s|;
    var i :| 0 <= i < |s| && s[i] == Min(xs);
    var j :| 0 <= j < |s| && s[j] == Max(xs);
    assert s[0] <= s[i] && s[j] <= s[|s| - 1];
    assert s[0] in xs && s[|s| - 1] in xs;
  }

  lemma SortedTail(s: seq<int>)
    requires |s| > 0 && Sorted(s)
    ensures Sorted(s[1..])
  {
    forall p, q | 0 <= p < q < |s[1..]| ensures s[1..][p] <= s[1..][q] {
      assert s[1..][p] == s[p + 1] && s[1..][q] == s[q + 1];
    }
  }

  lemma MultisetTail(s: seq<int>, t: seq<int>)
    requires |s| > 0 && |t| > 0 && s[0] == t[0] && multiset(s) == multiset(t)
    ensures multiset(s[1..]) == multiset(t[1..])
  {
    assert s == [s[0]] + s[1..] && t == [t[0]] + t[1..];
    assert multiset(s) == multiset{s[0]} + multiset(s[1..]);
    assert multiset(t) == multiset{s[0]} + multiset(t[1..]);
    forall v ensures multiset(s[1..])[v] == multiset(t[1..])[v] {
      assert multiset(s)[v] == multiset{s[0]}[v] + multiset(s[1..])[v];
      assert multiset(t)[v] == multiset{s[0]}[v] + multiset(t[1..])[v];
    }
  }

  /** Two sorted sequences holding the same multiset are equal. */
  lemma {:induction false} SortedUnique(s: seq<int>, t: seq<int>)
    requires Sorted(s) && Sorted(t) && multiset(s) == multiset(t)
    ensures s == t
  {
    assert |t| == |multiset(t)| == |s|;
    if s != [] {
      assert s[0] == t[0] by {
        SortedEnds(s, t);
        SortedEnds(t, t);
      }
      assert s[1..] == t[1..] by {
        MultisetTail(s, t);
        SortedTail(s);
        SortedTail(t);
        SortedUnique(s[1..], t[1..]);
      }
      assert s == [s[0]] + s[1..] && t == [t[0]] + t[1..];
    }
  }

  /** `integers.sort!`: sorts a in place into ascending order. */
  method SortInPlace(a: array<int>)
    modifies a
    ensures Sorted(a[..])
    ensures multiset(a[..]) == multiset(old(a[..]))
  {
    var i := 1;
    while i < a.Length
      invariant a.Length == 0 || 1 <= i <= a.Length
      invariant forall p, q :: 0 <= p < q < i && q < a.Length ==> a[p] <= a[q]
      invariant multiset(a[..]) == multiset(old(a[..]))
    {
      var j := i;
      while j > 0 && a[j - 1] > a[j]
        invariant 0 <= j <= i
        invariant forall p, q :: 0 <= p < q <= i && p != j && q != j ==> a[p] <= a[q]
        invariant forall q :: j < q <= i ==> a[j] <= a[q]
        invariant multiset(a[..]) == multiset(old(a[..]))
      {
        a[j - 1], a[j] := a[j], a[j - 1];
        j := j - 1;
      }
      i := i + 1;
    }
  }

  /** `integers_in_range == integers`: element-by-element comparison with `[*lo..hi]`. */
  method EqualsRange(a: array<int>, lo: int, hi: int) returns (same: bool)
    ensures same <==> a[..] == Range(lo, hi)
  {
    same := a.Length == if lo <= hi then hi - lo + 1 else 0;
    var i := 0;
    while same && i < a.Length
      invariant 0 <= i <= a.Length
      invariant same ==> a.Length == |Range(lo, hi)| && forall k :: 0 <= k < i ==> a[k] == lo + k
      invariant !same ==> a[..] != Range(lo, hi)
    {
      if a[i] != lo + i {
        same := false;
      }
      i := i + 1;
    }
  }

  /** `([*lo..hi] - integers).first`: the least value from lo to hi not in the array. */
  method FirstMissing(a: array<int>, lo: int, hi: int) returns (r: Option<int>)
    ensures r == FirstAbsent(Range(lo, hi), a[..])
  {
    var v := lo;
    while v <= hi && v in a[..]
      invariant lo <= v && (lo <= hi ==> v <= hi + 1)
      invariant forall w :: lo <= w < v ==> w in a[..]
    {
      v := v + 1;
    }
    if lo <= hi {
      FirstAbsentOfRangeIs(lo, hi, a[..], v);
    }
    r := if v <= hi then Some(v) else None;
  }

  /** `next_integer(integers)`: sorts the caller's array in place, then returns max + 1 when
      the sorted array is exactly `[*min..max]`, and otherwise the first value of that range
      missing from the array, or nil. */
  method NextIntegerInPlace(a: array<int>) returns (r: Option<int>)
    requires a.Length > 0
    modifies a
    ensures Sorted(a[..])
    ensures multiset(a[..]) == multiset(old(a[..]))
    ensures r == NextInteger(old(a[..]))
  {
    ghost var xs := a[..];
    SortInPlace(a);
    // integers.min and integers.max of the sorted array
    var lo, hi := a[0], a[a.Length - 1];
    var same := EqualsRange(a, lo, hi);
    NextIntegerOfSorted(a[..], xs);
    if same {
      r := Some(hi + 1);
    } else {
      r := FirstMissing(a, lo, hi);
    }
  }

  /** next_integer read off a sorted permutation s of the series: its ends are the minimum
      and the maximum, and comparing s with the range decides as comparing multisets does. */
  lemma NextIntegerOfSorted(s: seq<int>, xs: seq<int>)
    requires |s| > 0 && Sorted(s) && multiset(s) == multiset(xs)
    ensures |xs| > 0
    ensures s == Range(s[0], s[|s| - 1]) ==> NextInteger(xs) == Some(s[|s| - 1] + 1)
    ensures s != Range(s[0], s[|s| - 1]) ==> NextInteger(xs) == FirstAbsent(Range(s[0], s[|s| - 1]), s)
  {
    SortedEnds(s, xs);
    var lo, hi := s[0], s[|s| - 1];
    var range := Range(lo, hi);
    assert multiset(range) == multiset(xs) <==> s == range by {
      if multiset(range) == multiset(xs) {
        SortedUnique(s, range);
      }
    }
    SameElements(s, xs);
    FirstAbsentSameElements(range, s, xs);
    NextIntegerCases(xs);
  }

  lemma NextIntegerCases(xs: seq<int>)
    requires |xs| > 0
    ensures var range := Range(Min(xs), Max(xs));
      NextInteger(xs) == if multiset(range) == multiset(xs) then Some(Max(xs) + 1) else FirstAbsent(range, xs)
  {
  }
}
