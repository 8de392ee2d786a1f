/** The Fisher-Yates sampler is fair: over all sequences of picks, every set of indices comes up equally often. */
module Uniformity {
  import opened Bits
  import opened Sampling

  /** The set of a sample after the pick l for entry i, from the set t of the entries after it. */
  ghost function Step(t: set<nat>, l: nat, i: nat): set<nat> {
    if l in t then t + {i} else t + {l}
  }

  /** The sets sampled over all sequences of picks for the entries from i on, one for each sequence. */
  ghost function Outcomes(num: nat, max: nat, i: nat): seq<set<nat>>
    requires i <= num <= max
    decreases num - i
  {
    if i == num then [{}] else Spread(Outcomes(num, max, i + 1), i, i, max)
  }

  /** Those with the pick for entry i in [from, max). */
  ghost function Spread(a: seq<set<nat>>, i: nat, from: nat, max: nat): seq<set<nat>>
    requires from <= max
    decreases max - from
  {
    if from == max then [] else After(a, i, from) + Spread(a, i, from + 1, max)
  }

  ghost function After(a: seq<set<nat>>, i: nat, l: nat): seq<set<nat>> {
    if a == [] then [] else [Step(a[0], l, i)] + After(a[1..], i, l)
  }

  ghost function Count(a: seq<set<nat>>, s: set<nat>): nat {
    if a == [] then 0 else (if a[0] == s then 1 else 0) + Count(a[1..], s)
  }

  ghost function Factorial(n: nat): nat { if n == 0 then 1 else n * Factorial(n - 1) }

  /** s is a set of n values of [i, max). */
  ghost predicate IsSample(s: set<nat>, n: nat, i: nat, max: nat) {
    |s| == n && forall x :: x in s ==> i <= x < max
  }

  lemma {:induction false} CountConcat(a: seq<set<nat>>, b: seq<set<nat>>, s: set<nat>)
    ensures Count(a + b, s) == Count(a, s) + Count(b, s)
  {
    if a == [] {
      assert a + b == b;
    } else {
      CountConcat(a[1..], b, s);
      assert a + b == [a[0]] + (a[1..] + b);
    }
  }

  /** The element of s that is entry i when l is picked. */
  ghost function Entry(s: set<nat>, i: nat, l: nat): nat { if i in s then i else l }

  /** A pick leads to s exactly from the rest of s, and only if it belongs to s. */
  lemma StepIs(t: set<nat>, l: nat, i: nat, s: set<nat>)
    requires i !in t
    ensures Step(t, l, i) == s <==> l in s && t == s - {Entry(s, i, l)}
  {
  }

  lemma {:induction false} CountAfter(a: seq<set<nat>>, i: nat, l: nat, s: set<nat>)
    requires forall k :: 0 <= k < |a| ==> i !in a[k]
    ensures Count(After(a, i, l), s) == if l in s then Count(a, s - {Entry(s, i, l)}) else 0
  {
    hide Step, Entry;
    if a != [] {
      CountAfter(a[1..], i, l, s);
      StepIs(a[0], l, i, s);
      assert After(a, i, l)[1..] == After(a[1..], i, l);
    }
  }

  ghost function From(s: set<nat>, from: nat): set<nat> { set x | x in s && from <= x }

  lemma {:induction false} CountSpread(a: seq<set<nat>>, i: nat, from: nat, max: nat, s: set<nat>, f: nat)
    requires from <= max && (forall k :: 0 <= k < |a| ==> i !in a[k]) && (forall x :: x in s ==> x < max)
    requires forall l :: l in s ==> Count(a, s - {Entry(s, i, l)}) == f
    ensures Count(Spread(a, i, from, max), s) == |From(s, from)| * f
    decreases max - from
  {
    hide Count, After, Entry, From;
    if from == max {
      FromEnd(s, max);
      CountNothing(s);
    } else {
      CountSpread(a, i, from + 1, max, s, f);
      CountAfter(a, i, from, s);
      CountConcat(After(a, i, from), Spread(a, i, from + 1, max), s);
      FromStep(s, from);
      var n := |From(s, from + 1)|;
      assert (n + 1) * f == n * f + f;
    }
  }

  lemma FromEnd(s: set<nat>, max: nat)
    requires forall x :: x in s ==> x < max
    ensures |From(s, max)| == 0
  {
    assert From(s, max) == {};
  }

  lemma FromStep(s: set<nat>, from: nat)
    ensures |From(s, from)| == |From(s, from + 1)| + (if from in s then 1 else 0)
  {
    assert From(s, from) == if from in s then From(s, from + 1) + {from} else From(s, from + 1);
  }

  lemma CountNothing(s: set<nat>)
    ensures Count([], s) == 0
  {
  }

  lemma {:induction false} AfterSamples(a: seq<set<nat>>, i: nat, l: nat, n: nat, max: nat)
    requires i <= l < max && forall k :: 0 <= k < |a| ==> IsSample(a[k], n, i + 1, max)
    ensures forall k :: 0 <= k < |After(a, i, l)| ==> IsSample(After(a, i, l)[k], n + 1, i, max)
  {
    if a != [] { AfterSamples(a[1..], i, l, n, max); }
  }

  lemma {:induction false} SpreadSamples(a: seq<set<nat>>, i: nat, from: nat, n: nat, max: nat)
    requires i <= from <= max && forall k :: 0 <= k < |a| ==> IsSample(a[k], n, i + 1, max)
    ensures forall k :: 0 <= k < |Spread(a, i, from, max)| ==> IsSample(Spread(a, i, from, max)[k], n + 1, i, max)
    decreases max - from
  {
    hide IsSample, After;
    if from < max {
      SpreadSamples(a, i, from + 1, n, max);
      AfterSamples(a, i, from, n, max);
    }
  }

  lemma {:induction false} OutcomesAreSamples(num: nat, max: nat, i: nat)
    requires i <= num <= max
    ensures forall k :: 0 <= k < |Outcomes(num, max, i)| ==> IsSample(Outcomes(num, max, i)[k], num - i, i, max)
    decreases num - i
  {
    hide Spread;
    if i < num {
      OutcomesAreSamples(num, max, i + 1);
      SpreadSamples(Outcomes(num, max, i + 1), i, i, num - (i + 1), max);
    }
  }

  /** Every set of num - i values of [i, max) is sampled by exactly (num - i)! sequences of picks. */
  lemma {:induction false} EverySetEquallyOften(s: set<nat>, num: nat, max: nat, i: nat)
    requires i <= num <= max && IsSample(s, num - i, i, max)
    ensures Count(Outcomes(num, max, i), s) == Factorial(num - i)
    decreases num - i
  {
    hide Spread, Count;
    if i == num {
      CountOne(s);
    } else {
      var a := Outcomes(num, max, i + 1);
      OutcomesAreSamples(num, max, i + 1);
      forall l | l in s ensures Count(a, s - {Entry(s, i, l)}) == Factorial(num - i - 1) {
        EverySetEquallyOften(s - {Entry(s, i, l)}, num, max, i + 1);
      }
      CountSpread(a, i, i, max, s, Factorial(num - i - 1));
      assert From(s, i) == s;
    }
  }

  lemma CountOne(s: set<nat>)
    requires |s| == 0
    ensures Count([{}], s) == 1
  {
    assert s == {};
  }

  /** The sampler takes one such step for every entry. */
  lemma SamplerSteps(d: nat -> Dword, num: nat, max: nat, i: nat)
    requires i < num <= max
    ensures Elements(FisherYates(d, num, max, i))
            == Step(Elements(FisherYates(d, num, max, i + 1)), Pick(d(num - 1 - i), i, max), i)
  {
    hide Pick, FisherYates;
    var tail, l := FisherYates(d, num, max, i + 1), Pick(d(num - 1 - i), i, max);
    FisherYatesStep(d, num, max, i);
    ElementsCons(if l in tail then i else l, tail);
  }
}
