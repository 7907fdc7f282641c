/** Ranking the collected Silver rates: deduplicate, sort ascending and take
    the second value, or the only one. */
module Ranking {
  import opened Records

  /** Every value is smaller than each value after it: sorted, without repeats. */
  predicate StrictlyIncreasing(s: seq<Rate>)
  {
    forall i, j :: 0 <= i < j < |s| ==> s[i] < s[j]
  }

  /** The distinct values of a list of rates. */
  function Distinct(rates: seq<Rate>): set<Rate>
  {
    set x | x in rates
  }

  /** The values of `values` strictly below `r`. */
  function Below(values: set<Rate>, r: Rate): set<Rate>
  {
    set x | x in values && x < r
  }

  /** `r` is the second-lowest value of `values` (exactly one distinct value
      lies below it), or `values` holds `r` alone. */
  predicate IsSlcsp(values: set<Rate>, r: Rate)
  {
    r in values && (|Below(values, r)| == 1 || forall x :: x in values ==> x == r)
  }

  /** Adds one rate to a strictly increasing list, keeping it strictly
      increasing and without adding a repeat. */
  function Insert(s: seq<Rate>, x: Rate): (r: seq<Rate>)
    requires StrictlyIncreasing(s)
    ensures StrictlyIncreasing(r)
    ensures forall y :: y in r <==> y in s || y == x
    decreases |s|
  {
    if |s| == 0 then [x]
    else if x < s[0] then [x] + s
    else if x == s[0] then s
    else
      var t := Insert(s[1..], x);
      assert forall y :: y in s[1..] ==> s[0] < y;
      PrependSmaller(s[0], t);
      [s[0]] + t
  }

  /** A value below every element of a strictly increasing list can be put in
      front of it. */
  lemma PrependSmaller(a: Rate, t: seq<Rate>)
    requires StrictlyIncreasing(t)
    requires forall y :: y in t ==> a < y
    ensures StrictlyIncreasing([a] + t)
  {
    forall i, j | 0 <= i < j < |[a] + t|
      ensures ([a] + t)[i] < ([a] + t)[j]
    {
      assert ([a] + t)[j] == t[j - 1];
      assert t[j - 1] in t;
    }
  }

  /** The distinct rates in ascending order. */
  function SortedDistinct(rates: seq<Rate>): (s: seq<Rate>)
    ensures StrictlyIncreasing(s)
    ensures forall y :: y in s <==> y in rates
    decreases |rates|
  {
    if |rates| == 0 then []
    else Insert(SortedDistinct(rates[1..]), rates[0])
  }

  /** In a strictly increasing list of the values of a set, the second entry
      (or the only one) is that set's SLCSP. */
  lemma SecondOfSorted(s: seq<Rate>, values: set<Rate>)
    requires StrictlyIncreasing(s)
    requires forall y :: y in s <==> y in values
    requires |s| >= 1
    ensures IsSlcsp(values, if |s| == 1 then s[0] else s[1])
  {
    if |s| == 1 {
      assert forall x :: x in values ==> x == s[0];
    } else {
      forall y | y in Below(values, s[1])
        ensures y == s[0]
      {
        var k :| 0 <= k < |s| && s[k] == y;
      }
      assert Below(values, s[1]) == {s[0]};
    }
  }

  /** Deduplicates and sorts the rates and selects index 0 when a single
      distinct rate remains, index 1 otherwise. */
  function Pick(rates: seq<Rate>): (r: Rate)
    requires |rates| > 0
    ensures IsSlcsp(Distinct(rates), r)
  {
    var sorted := SortedDistinct(rates);
    assert rates[0] in sorted;
    SecondOfSorted(sorted, Distinct(rates));
    if |sorted| == 1 then sorted[0] else sorted[1]
  }

  /** A set has at most one SLCSP. */
  lemma {:induction false} IsSlcspUnique(values: set<Rate>, r1: Rate, r2: Rate)
    requires IsSlcsp(values, r1) && IsSlcsp(values, r2)
    ensures r1 == r2
  {
    if r1 < r2 {
      SlcspNotAbove(values, r1, r2);
    } else if r2 < r1 {
      SlcspNotAbove(values, r2, r1);
    }
  }

  /** No value above an SLCSP is itself an SLCSP. */
  lemma SlcspNotAbove(values: set<Rate>, low: Rate, high: Rate)
    requires IsSlcsp(values, low) && low < high && high in values
    ensures !IsSlcsp(values, high)
  {
    assert low in Below(values, high);
    assert high != low;
    if |Below(values, low)| == 1 {
      var lower := Below(values, low) + {low};
      assert low !in Below(values, low);
      assert |lower| == 2;
      assert lower <= Below(values, high);
      SubsetCard(lower, Below(values, high));
    }
  }

  lemma SubsetCard(a: set<Rate>, b: set<Rate>)
    requires a <= b
    ensures |a| <= |b|
  {
    assert b == a + (b - a);
  }

  /** Repeated rates do not change the result: only the distinct values matter. */
  lemma PickIgnoresDuplicates(a: seq<Rate>, b: seq<Rate>)
    requires |a| > 0 && |b| > 0
    requires forall x :: x in a <==> x in b
    ensures Pick(a) == Pick(b)
  {
    assert forall x :: x in Distinct(a) <==> x in Distinct(b);
    IsSlcspUnique(Distinct(a), Pick(a), Pick(b));
  }

  /** A repeated lowest rate counts once: of 198.88, 198.88 and 205.77 the
      second-lowest distinct rate is 205.77. */
  lemma PickSkipsRepeatedLowest()
    ensures Pick([198.88, 198.88, 205.77]) == 205.77
  {
    var rates := [198.88, 198.88, 205.77];
    assert Distinct(rates) == {198.88, 205.77};
    assert Below(Distinct(rates), 205.77) == {198.88};
    IsSlcspUnique(Distinct(rates), Pick(rates), 205.77);
  }

  /** A single rate is used as it is. */
  lemma PickSingleRate()
    ensures Pick([189.22]) == 189.22
  {
    assert Distinct([189.22]) == {189.22};
  }
}
