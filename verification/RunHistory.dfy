/**
 Runs of the coordinate-descent solvers.  A `History` is one pass: the states it
 went through and, between two states, which variable was visited and whether it
 was shrunk away.  A run is a list of passes, each starting where the one before
 ended.
 */
module RunHistory {
  import opened Permutation
  import opened ActiveSet

  /** One visit; `note` is whatever else a solver wants to record. */
  datatype Mark<X> = Mark(i: int, shrunk: bool, note: X)

  datatype History<P, X> = History(points: seq<P>, marks: seq<Mark<X>>)

  /** Every visit of the history is one the solver makes. */
  ghost predicate Runs<P, X>(step: (P, P, Mark<X>) -> bool, h: History<P, X>) {
    && |h.points| == |h.marks| + 1
    && forall k :: 0 <= k < |h.marks| ==> step(h.points[k], h.points[k + 1], h.marks[k])
  }

  ghost function Begun<P, X>(p: P): (h: History<P, X>) {
    History([p], [])
  }

  ghost function Extended<P, X>(h: History<P, X>, p: P, m: Mark<X>): History<P, X> {
    History(h.points + [p], h.marks + [m])
  }

  ghost predicate StartsAt<P, X>(h: History<P, X>, p: P) {
    |h.points| > 0 && h.points[0] == p
  }

  ghost predicate EndsAt<P, X>(h: History<P, X>, p: P) {
    |h.points| > 0 && h.points[|h.points| - 1] == p
  }

  lemma ExtendedShape<P, X>(h: History<P, X>, p: P, m: Mark<X>)
    requires |h.points| == |h.marks| + 1
    ensures |Extended(h, p, m).points| == |Extended(h, p, m).marks| + 1
    ensures NoneShrunk(Extended(h, p, m)) <==> NoneShrunk(h) && !m.shrunk
  {
    var h' := Extended(h, p, m);
    assert h'.marks[|h.marks|] == m;
    assert forall k :: 0 <= k < |h.marks| ==> h'.marks[k] == h.marks[k];
  }

  lemma RunsBegun<P, X>(step: (P, P, Mark<X>) -> bool, p: P)
    ensures Runs(step, Begun(p)) && StartsAt(Begun<P, X>(p), p) && EndsAt(Begun<P, X>(p), p)
    ensures Names(Begun<P, X>(p).marks) == [] && Kept(Begun<P, X>(p).marks) == {}
  {
  }

  lemma RunsExtended<P, X>(step: (P, P, Mark<X>) -> bool, h: History<P, X>, p: P, q: P, m: Mark<X>, start: P)
    requires Runs(step, h) && StartsAt(h, start) && EndsAt(h, p) && step(p, q, m)
    ensures Runs(step, Extended(h, q, m)) && StartsAt(Extended(h, q, m), start) && EndsAt(Extended(h, q, m), q)
    ensures Names(Extended(h, q, m).marks) == Names(h.marks) + [m.i]
    ensures Kept(Extended(h, q, m).marks) == if m.shrunk then Kept(h.marks) else Kept(h.marks) + {m.i}
  {
    var h' := Extended(h, q, m);
    forall k | 0 <= k < |h'.marks| ensures step(h'.points[k], h'.points[k + 1], h'.marks[k]) {
      if k < |h.marks| { assert step(h.points[k], h.points[k + 1], h.marks[k]); }
    }
    KeptMore(h.marks, m);
  }

  // ------------------------------------------------------- which were visited

  ghost function Names<X>(ms: seq<Mark<X>>): (r: seq<int>)
    ensures |r| == |ms| && forall k :: 0 <= k < |ms| ==> r[k] == ms[k].i
  {
    seq(|ms|, k requires 0 <= k < |ms| => ms[k].i)
  }

  /** The variables that were visited and not shrunk. */
  ghost function Kept<X>(ms: seq<Mark<X>>): (r: set<int>) {
    set k | 0 <= k < |ms| && !ms[k].shrunk :: ms[k].i
  }

  lemma KeptMore<X>(ms: seq<Mark<X>>, m: Mark<X>)
    ensures Kept(ms + [m]) == if m.shrunk then Kept(ms) else Kept(ms) + {m.i}
  {
    var r := if m.shrunk then Kept(ms) else Kept(ms) + {m.i};
    forall v | v in r ensures v in Kept(ms + [m]) {
      if v in Kept(ms) {
        var k :| 0 <= k < |ms| && !ms[k].shrunk && ms[k].i == v;
        assert (ms + [m])[k].i == v;
      } else {
        assert (ms + [m])[|ms|].i == v;
      }
    }
  }

  /** Each variable of `all` was visited exactly once, and no other. */
  ghost predicate VisitsOnce<P, X>(h: History<P, X>, all: set<int>) {
    VisitedAll(Names(h.marks), all)
  }

  ghost predicate NoneShrunk<P, X>(h: History<P, X>) {
    forall k :: 0 <= k < |h.marks| ==> !h.marks[k].shrunk
  }

  ghost function Everything(l: nat): (r: set<int>)
    ensures forall v :: v in r <==> 0 <= v < l
  {
    if l == 0 then {} else Everything(l - 1) + {l - 1}
  }

  /** A pass over all l variables in which none was shrunk. */
  ghost predicate Full<P, X>(h: History<P, X>, l: nat) {
    VisitsOnce(h, Everything(l)) && NoneShrunk(h)
  }

  /** The visit of variable i in a pass over `all`. */
  lemma VisitOf<P, X>(h: History<P, X>, all: set<int>, i: int) returns (k: nat)
    requires VisitsOnce(h, all) && i in all
    ensures k < |h.marks| && h.marks[k].i == i
    ensures forall j :: 0 <= j < |h.marks| && j != k ==> h.marks[j].i != i
  {
    var names := Names(h.marks);
    assert i in names;
    k :| 0 <= k < |names| && names[k] == i;
    forall j | 0 <= j < |h.marks| && j != k ensures h.marks[j].i != i {
      assert names[j] != names[k];
    }
  }

  // ------------------------------------------------- a pass over the active set

  /** What a pass does to the index array: it visits what was active, once each, and what it keeps stays active. */
  ghost predicate PassOver<P, X>(h: History<P, X>, before: seq<int>, activeIn: nat, after: seq<int>, active: nat) {
    && active <= activeIn <= |before| == |after|
    && VisitsOnce(h, Values(before, activeIn))
    && Values(after, active) == Kept(h.marks)
    && (active == activeIn <==> NoneShrunk(h))
  }

  lemma {:induction false} EverythingSize(l: nat)
    ensures |Everything(l)| == l
  {
    if l > 0 {
      EverythingSize(l - 1);
      OneLarger(Everything(l - 1), l - 1);
    }
  }

  lemma OneLarger(s: set<int>, x: int)
    requires x !in s
    ensures |s + {x}| == |s| + 1
  {
  }

  lemma EverythingActive(index: seq<int>, l: nat)
    requires IsPerm(index, l)
    ensures |index| == l && Values(index, l) == Everything(l)
  {
    AllActive(index, l);
  }

  /** A pass is full exactly when everything is active at its end. */
  lemma FullIff<P, X>(h: History<P, X>, before: seq<int>, activeIn: nat, after: seq<int>, active: nat, l: nat)
    requires IsPerm(before, l) && PassOver(h, before, activeIn, after, active)
    ensures Full(h, l) <==> active == l
  {
    EverythingActive(before, l);
    if Full(h, l) {
      assert Values(before, activeIn) == Everything(l) by {
        forall v ensures v in Values(before, activeIn) <==> v in Everything(l) {
          assert v in Names(h.marks) <==> v in Everything(l);
          assert v in Names(h.marks) <==> v in Values(before, activeIn);
        }
      }
      DistinctSize(before, activeIn);
      EverythingSize(l);
    }
  }

  /** What the next pass has to visit: all l variables at first and after a reset, else what the last pass kept. */
  ghost function Due<P, X>(passes: seq<History<P, X>>, l: nat, reset: History<P, X> -> bool): set<int> {
    if |passes| == 0 || reset(passes[|passes| - 1]) then Everything(l) else Kept(passes[|passes| - 1].marks)
  }

  /** Every pass visits what was due, each variable once. */
  ghost predicate Scheduled<P(!new), X(!new)>(passes: seq<History<P, X>>, l: nat, reset: History<P, X> -> bool) {
    forall p :: 0 <= p < |passes| ==> VisitsOnce(passes[p], Due(passes[..p], l, reset))
  }

  lemma ScheduledMore<P(!new), X(!new)>(passes: seq<History<P, X>>, l: nat, reset: History<P, X> -> bool,
                                        h: History<P, X>)
    requires Scheduled(passes, l, reset) && VisitsOnce(h, Due(passes, l, reset))
    ensures Scheduled(passes + [h], l, reset)
  {
    var all := passes + [h];
    forall p | 0 <= p < |all| ensures VisitsOnce(all[p], Due(all[..p], l, reset)) {
      if p < |passes| {
        assert all[..p] == passes[..p];
      } else {
        assert all[..p] == passes;
      }
    }
  }

  // ------------------------------------------------------------ sums over a pass

  /** sum_{j<k} f(state before visit j, variable of visit j) */
  ghost function Total<P, X>(f: (P, int) -> real, h: History<P, X>, k: nat): real
    requires k <= |h.marks| <= |h.points|
  {
    if k == 0 then 0.0 else Total(f, h, k - 1) + f(h.points[k - 1], h.marks[k - 1].i)
  }

  lemma TotalOfNone<P, X>(f: (P, int) -> real, h: History<P, X>)
    requires |h.marks| <= |h.points|
    ensures Total(f, h, 0) == 0.0
  {
  }

  ghost function SumOver<P, X>(f: (P, int) -> real, h: History<P, X>): real
    requires |h.marks| <= |h.points|
  {
    Total(f, h, |h.marks|)
  }

  lemma {:induction false} TotalPrefix<P, X>(f: (P, int) -> real, h: History<P, X>, p: P, m: Mark<X>, k: nat)
    requires k <= |h.marks| <= |h.points|
    ensures Total(f, Extended(h, p, m), k) == Total(f, h, k)
  {
    if k > 0 { TotalPrefix(f, h, p, m, k - 1); }
  }

  lemma SumExtended<P, X>(f: (P, int) -> real, h: History<P, X>, p: P, q: P, m: Mark<X>)
    requires |h.points| == |h.marks| + 1 && EndsAt(h, p)
    ensures SumOver(f, Extended(h, q, m)) == SumOver(f, h) + f(p, m.i)
  {
    TotalPrefix(f, h, q, m, |h.marks|);
  }

  lemma {:induction false} TotalMonotone<P, X>(f: (P, int) -> real, h: History<P, X>, j: nat, k: nat)
    requires j <= k <= |h.marks| <= |h.points|
    requires forall i :: 0 <= i < |h.marks| ==> f(h.points[i], h.marks[i].i) >= 0.0
    ensures Total(f, h, j) <= Total(f, h, k)
  {
    if j < k { TotalMonotone(f, h, j, k - 1); }
  }

  /** A sum of values that are not negative is zero exactly when they all are. */
  lemma SumZeroIff<P, X>(f: (P, int) -> real, h: History<P, X>)
    requires |h.marks| <= |h.points|
    requires forall i :: 0 <= i < |h.marks| ==> f(h.points[i], h.marks[i].i) >= 0.0
    ensures SumOver(f, h) == 0.0 <==> forall k :: 0 <= k < |h.marks| ==> f(h.points[k], h.marks[k].i) == 0.0
  {
    if SumOver(f, h) == 0.0 {
      forall k | 0 <= k < |h.marks| ensures f(h.points[k], h.marks[k].i) == 0.0 {
        TotalMonotone(f, h, 0, k);
        TotalMonotone(f, h, k + 1, |h.marks|);
      }
    } else if forall k :: 0 <= k < |h.marks| ==> f(h.points[k], h.marks[k].i) == 0.0 {
      TotalOfZeros(f, h, |h.marks|);
    }
  }

  lemma {:induction false} TotalOfZeros<P, X>(f: (P, int) -> real, h: History<P, X>, k: nat)
    requires k <= |h.marks| <= |h.points|
    requires forall i :: 0 <= i < |h.marks| ==> f(h.points[i], h.marks[i].i) == 0.0
    ensures Total(f, h, k) == 0.0
  {
    if k > 0 { TotalOfZeros(f, h, k - 1); }
  }

  /** total is the sum of f over the visits of a pass, largest the largest of its values, or zero. */
  ghost predicate Measured<P, X>(f: (P, int) -> real, h: History<P, X>, total: real, largest: real) {
    && |h.points| == |h.marks| + 1 && total == SumOver(f, h) && largest >= 0.0
    && (forall k :: 0 <= k < |h.marks| ==> f(h.points[k], h.marks[k].i) <= largest)
    && (largest == 0.0 || exists k :: 0 <= k < |h.marks| && f(h.points[k], h.marks[k].i) == largest)
  }

  lemma MeasuredBegun<P, X>(f: (P, int) -> real, p: P)
    ensures Measured(f, Begun<P, X>(p), 0.0, 0.0)
  {
  }

  lemma MeasuredMore<P, X>(f: (P, int) -> real, h: History<P, X>, total: real, largest: real, p: P, q: P, m: Mark<X>,
                           v: real)
    requires Measured(f, h, total, largest) && EndsAt(h, p) && v == f(p, m.i)
    ensures Measured(f, Extended(h, q, m), total + v, if v > largest then v else largest)
  {
    hide SumOver;
    SumExtended(f, h, p, q, m);
    var h' := Extended(h, q, m);
    assert f(h'.points[|h.marks|], h'.marks[|h.marks|].i) == v;
    assert forall k :: 0 <= k < |h.marks| ==> h'.points[k] == h.points[k] && h'.marks[k] == h.marks[k];
    if v <= largest && largest != 0.0 {
      var k :| 0 <= k < |h.marks| && f(h.points[k], h.marks[k].i) == largest;
      assert f(h'.points[k], h'.marks[k].i) == largest;
    }
  }

  lemma MeasuredOnce<P, X>(f: (P, int) -> real, h: History<P, X>, t: real, m: real, t': real, m': real)
    requires Measured(f, h, t, m) && Measured(f, h, t', m')
    ensures t == t' && m == m'
  {
    hide SumOver;
  }

  lemma MeasuredFacts<P, X>(f: (P, int) -> real, h: History<P, X>, total: real, largest: real)
    requires Measured(f, h, total, largest)
    ensures largest >= 0.0
  {
    hide SumOver;
  }

  /** The largest of values that are not negative is at most their sum. */
  lemma LargestInSum<P, X>(f: (P, int) -> real, h: History<P, X>, total: real, largest: real)
    requires Measured(f, h, total, largest)
    requires forall i :: 0 <= i < |h.marks| ==> f(h.points[i], h.marks[i].i) >= 0.0
    ensures largest <= total
  {
    if largest == 0.0 {
      TotalMonotone(f, h, 0, |h.marks|);
    } else {
      var k :| 0 <= k < |h.marks| && f(h.points[k], h.marks[k].i) == largest;
      TotalMonotone(f, h, 0, k);
      TotalMonotone(f, h, k + 1, |h.marks|);
    }
  }

  /** x is positive and larger than f at every visit of a pass. */
  ghost predicate Exceeds<P, X>(f: (P, int) -> real, h: History<P, X>, x: real) {
    |h.marks| <= |h.points| && x > 0.0 && forall k :: 0 <= k < |h.marks| ==> f(h.points[k], h.marks[k].i) < x
  }

  lemma ExceedsIff<P, X>(f: (P, int) -> real, h: History<P, X>, total: real, largest: real, x: real)
    requires Measured(f, h, total, largest)
    ensures Exceeds(f, h, x) <==> x > largest
  {
    hide SumOver;
    if Exceeds(f, h, x) && largest != 0.0 {
      var k :| 0 <= k < |h.marks| && f(h.points[k], h.marks[k].i) == largest;
    }
  }

  /** Every pass can be measured. */
  lemma SomeMeasure<P, X>(f: (P, int) -> real, h: History<P, X>) returns (total: real, largest: real)
    requires |h.points| == |h.marks| + 1
    ensures Measured(f, h, total, largest)
  {
    hide SumOver;
    total, largest := SumOver(f, h), 0.0;
    var k := 0;
    while k < |h.marks|
      invariant k <= |h.marks| && largest >= 0.0
      invariant forall j :: 0 <= j < k ==> f(h.points[j], h.marks[j].i) <= largest
      invariant largest == 0.0 || exists j :: 0 <= j < k && f(h.points[j], h.marks[j].i) == largest
    {
      if f(h.points[k], h.marks[k].i) > largest { largest := f(h.points[k], h.marks[k].i); }
      k := k + 1;
    }
  }

  /** Shrunk were exactly the variables a test picked out. */
  ghost predicate ShrinksBy<P, X>(test: (P, int) -> bool, h: History<P, X>) {
    |h.marks| <= |h.points| && forall k :: 0 <= k < |h.marks| ==> ShrinksAt(test, h, k)
  }

  ghost predicate ShrinksAt<P, X>(test: (P, int) -> bool, h: History<P, X>, k: nat)
    requires k < |h.marks| <= |h.points|
  {
    h.marks[k].shrunk <==> test(h.points[k], h.marks[k].i)
  }

  lemma ShrinksBegun<P, X>(test: (P, int) -> bool, index: seq<int>, p: P)
    ensures ShrinksBy(test, Begun<P, X>(p)) && Values(index, 0) == {} && NoneShrunk(Begun<P, X>(p))
  {
  }

  lemma ShrinksMore<P, X>(test: (P, int) -> bool, h: History<P, X>, p: P, q: P, m: Mark<X>)
    requires ShrinksBy(test, h) && |h.points| == |h.marks| + 1 && EndsAt(h, p) && (m.shrunk <==> test(p, m.i))
    ensures ShrinksBy(test, Extended(h, q, m))
  {
    var h' := Extended(h, q, m);
    forall k | 0 <= k < |h'.marks| ensures ShrinksAt(test, h', k) {
      if k < |h.marks| { assert ShrinksAt(test, h, k); }
    }
  }

  /** A test that picks out nothing shrinks nothing. */
  lemma NeverShrinks<P(!new), X>(test: (P, int) -> bool, h: History<P, X>)
    requires |h.marks| <= |h.points| && forall p, i :: !test(p, i)
    ensures ShrinksBy(test, h) <==> NoneShrunk(h)
  {
    assert forall k :: 0 <= k < |h.marks| ==> (ShrinksAt(test, h, k) <==> !h.marks[k].shrunk);
  }

  // ------------------------------------------- which bounds a pass shrinks by

  /** The pass whose extremes bound the next one: none at first and after a reset. */
  datatype Prior<P, X> = Fresh | After(pass: History<P, X>)

  ghost function PriorTo<P, X>(passes: seq<History<P, X>>, reset: History<P, X> -> bool): Prior<P, X> {
    if |passes| == 0 || reset(passes[|passes| - 1]) then Fresh else After(passes[|passes| - 1])
  }

  /** Every pass shrinks what the solver's rule picks out, given the pass before. */
  ghost predicate Ruled<P(!new), X(!new)>(passes: seq<History<P, X>>, reset: History<P, X> -> bool,
                                          rule: (Prior<P, X>, History<P, X>) -> bool) {
    forall p :: 0 <= p < |passes| ==> rule(PriorTo(passes[..p], reset), passes[p])
  }

  lemma RuledMore<P(!new), X(!new)>(passes: seq<History<P, X>>, reset: History<P, X> -> bool,
                                    rule: (Prior<P, X>, History<P, X>) -> bool, h: History<P, X>)
    requires Ruled(passes, reset, rule) && rule(PriorTo(passes, reset), h)
    ensures Ruled(passes + [h], reset, rule)
  {
    hide PriorTo;
    var all := passes + [h];
    forall p | 0 <= p < |all| ensures rule(PriorTo(all[..p], reset), all[p]) {
      if p < |passes| {
        assert all[..p] == passes[..p];
      } else {
        assert all[..p] == passes;
      }
    }
  }

  // ------------------------------------------------------------ a list of passes

  /** Each pass is one of the solver's and starts where the one before ended. */
  ghost predicate Linked<P, X>(step: (P, P, Mark<X>) -> bool, passes: seq<History<P, X>>, start: P, end: P) {
    && (forall p :: 0 <= p < |passes| ==> Runs(step, passes[p]))
    && (if |passes| == 0 then start == end
        else StartsAt(passes[0], start) && EndsAt(passes[|passes| - 1], end))
    && (forall p :: 0 < p < |passes| ==> Follows(passes, p))
  }

  ghost predicate Follows<P, X>(passes: seq<History<P, X>>, p: nat)
    requires 0 < p < |passes|
  {
    |passes[p - 1].points| > 0 && StartsAt(passes[p], passes[p - 1].points[|passes[p - 1].points| - 1])
  }

  lemma LinkedMore<P, X>(step: (P, P, Mark<X>) -> bool, passes: seq<History<P, X>>, start: P, mid: P, end: P,
                         h: History<P, X>)
    requires Linked(step, passes, start, mid) && Runs(step, h) && StartsAt(h, mid) && EndsAt(h, end)
    ensures Linked(step, passes + [h], start, end)
  {
    var all := passes + [h];
    forall p | 0 < p < |all| ensures Follows(all, p) {
      if p < |passes| { assert Follows(passes, p); }
    }
  }

  // ---------------------------------------------------------- runs and their exits

  /**
   A run whose passes visit what is due and shrink by the rule, with a reset after
   each pass that meets the stopping test.
   */
  ghost predicate IsRun<P(!new), X(!new)>(step: (P, P, Mark<X>) -> bool, test: History<P, X> -> bool,
                                          rule: (Prior<P, X>, History<P, X>) -> bool,
                                          passes: seq<History<P, X>>, l: nat, start: P, end: P) {
    Linked(step, passes, start, end) && Scheduled(passes, l, test) && Ruled(passes, test, rule)
  }

  /** The early exit: a pass over all l variables that shrank none and meets the stopping test. */
  ghost predicate Exits<P, X>(test: History<P, X> -> bool, h: History<P, X>, l: nat) {
    Full(h, l) && test(h)
  }

  /** None of the first n passes was an exit. */
  ghost predicate NoneExits<P, X>(test: History<P, X> -> bool, passes: seq<History<P, X>>, n: nat, l: nat)
    requires n <= |passes|
  {
    forall k :: 0 <= k < n ==> !Exits(test, passes[k], l)
  }

  lemma StartRun<P(!new), X(!new)>(step: (P, P, Mark<X>) -> bool, test: History<P, X> -> bool,
                                   rule: (Prior<P, X>, History<P, X>) -> bool, p: P, index: seq<int>, l: nat)
    requires IsPerm(index, l)
    ensures IsRun(step, test, rule, [], l, p, p) && NoneExits<P, X>(test, [], 0, l)
    ensures |index| == l && Values(index, l) == Due<P, X>([], l, test) && PriorTo<P, X>([], test) == Fresh
  {
    EverythingActive(index, l);
  }

  /** One more pass: the two tests after it decide between exit, reset and going on. */
  lemma AddPass<P(!new), X(!new)>(step: (P, P, Mark<X>) -> bool, test: History<P, X> -> bool,
                                  rule: (Prior<P, X>, History<P, X>) -> bool, passes: seq<History<P, X>>,
                                  h: History<P, X>, l: nat, start: P, mid: P, end: P,
                                  before: seq<int>, activeIn: nat, after: seq<int>, active: nat)
    requires IsRun(step, test, rule, passes, l, start, mid) && NoneExits(test, passes, |passes|, l)
    requires Runs(step, h) && StartsAt(h, mid) && EndsAt(h, end) && rule(PriorTo(passes, test), h)
    requires IsPerm(before, l) && IsPerm(after, l) && PassOver(h, before, activeIn, after, active)
    requires Values(before, activeIn) == Due(passes, l, test)
    ensures IsRun(step, test, rule, passes + [h], l, start, end) && NoneExits(test, passes + [h], |passes|, l)
    ensures Exits(test, h, l) <==> test(h) && active == l
    ensures !Exits(test, h, l) ==> NoneExits(test, passes + [h], |passes| + 1, l)
    ensures |after| == l && active <= l
    ensures Values(after, if test(h) then l else active) == Due(passes + [h], l, test)
    ensures PriorTo(passes + [h], test) == if test(h) then Fresh else After(h)
  {
    hide Runs, Linked, Scheduled, Ruled, StartsAt, EndsAt, Values, Kept, VisitsOnce, NoneShrunk, Full, IsPerm;
    LinkedMore(step, passes, start, mid, end, h);
    ScheduledMore(passes, l, test, h);
    RuledMore(passes, test, rule, h);
    FullIff(h, before, activeIn, after, active, l);
    EverythingActive(after, l);
  }

  lemma NotEvenTheLast<P, X>(test: History<P, X> -> bool, passes: seq<History<P, X>>, l: nat)
    requires |passes| > 0 && NoneExits(test, passes, |passes|, l)
    ensures NoneExits(test, passes, |passes| - 1, l) && !Exits(test, passes[|passes| - 1], l)
  {
    hide Exits;
  }

  // ---------------------------------------- stopping relative to the first pass

  ghost function First<P, X>(passes: seq<History<P, X>>): History<P, X> {
    if |passes| == 0 then History([], []) else passes[0]
  }

  /** The sum of f over a pass is at most eps times that over the first pass. */
  ghost predicate Closed<P, X>(f: (P, int) -> real, h: History<P, X>, first: History<P, X>, eps: real) {
    |h.marks| <= |h.points| && |first.marks| <= |first.points| && SumOver(f, h) <= eps * SumOver(f, first)
  }

  ghost function Closing<P, X>(f: (P, int) -> real, passes: seq<History<P, X>>, eps: real): History<P, X> -> bool {
    var first := First(passes);
    h => Closed(f, h, first, eps)
  }

  lemma ClosedIff<P, X>(f: (P, int) -> real, h: History<P, X>, passes: seq<History<P, X>>, g: real, g0: real, m: real,
                        m0: real, eps: real)
    requires Measured(f, h, g, m) && Measured(f, First(passes), g0, m0)
    ensures g <= eps * g0 <==> Closing(f, passes, eps)(h)
  {
    hide SumOver;
  }

  /** While there is no pass the test is not asked for; further passes do not change the first one. */
  lemma SameTest<P(!new), X(!new)>(step: (P, P, Mark<X>) -> bool, f: (P, int) -> real,
                                   rule: (Prior<P, X>, History<P, X>) -> bool, passes: seq<History<P, X>>,
                                   h: History<P, X>, l: nat, eps: real, start: P, end: P)
    requires IsRun(step, Closing(f, passes, eps), rule, passes, l, start, end)
    requires NoneExits(Closing(f, passes, eps), passes, |passes|, l)
    ensures IsRun(step, Closing(f, passes + [h], eps), rule, passes, l, start, end)
    ensures NoneExits(Closing(f, passes + [h], eps), passes, |passes|, l)
    ensures Due(passes, l, Closing(f, passes, eps)) == Due(passes, l, Closing(f, passes + [h], eps))
    ensures PriorTo(passes, Closing(f, passes, eps)) == PriorTo(passes, Closing(f, passes + [h], eps))
    ensures |passes| > 0 ==> First(passes + [h]) == First(passes)
  {
    hide Linked, SumOver;
  }

  /** One more pass of a run that stops relative to its first pass. */
  lemma AddMeasured<P(!new), X(!new)>(step: (P, P, Mark<X>) -> bool, f: (P, int) -> real,
                                      rule: (Prior<P, X>, History<P, X>) -> bool, passes: seq<History<P, X>>,
                                      h: History<P, X>, l: nat, eps: real, start: P, mid: P, end: P,
                                      before: seq<int>, activeIn: nat, after: seq<int>, active: nat,
                                      g: real, m: real, g0: real, m0: real)
    requires IsRun(step, Closing(f, passes, eps), rule, passes, l, start, mid)
    requires NoneExits(Closing(f, passes, eps), passes, |passes|, l)
    requires Runs(step, h) && StartsAt(h, mid) && EndsAt(h, end) && rule(PriorTo(passes, Closing(f, passes, eps)), h)
    requires IsPerm(before, l) && IsPerm(after, l) && PassOver(h, before, activeIn, after, active)
    requires Values(before, activeIn) == Due(passes, l, Closing(f, passes, eps))
    requires Measured(f, h, g, m) && (if |passes| == 0 then g0 == g && m0 == m else Measured(f, First(passes), g0, m0))
    ensures var all := passes + [h];
            var test := Closing(f, all, eps);
            && IsRun(step, test, rule, all, l, start, end) && NoneExits(test, all, |passes|, l)
            && Measured(f, First(all), g0, m0)
            && (Exits(test, h, l) <==> g <= eps * g0 && active == l)
            && (!Exits(test, h, l) ==> NoneExits(test, all, |passes| + 1, l))
            && |after| == l && active <= l
            && Values(after, if g <= eps * g0 then l else active) == Due(all, l, test)
            && PriorTo(all, test) == if g <= eps * g0 then Fresh else After(h)
  {
    hide Runs, IsRun, NoneExits, Exits, StartsAt, EndsAt, Values, PassOver, Due, Measured, Closing, IsPerm, PriorTo;
    var all := passes + [h];
    var test := Closing(f, all, eps);
    SameTest(step, f, rule, passes, h, l, eps, start, mid);
    ClosedIff(f, h, all, g, g0, m, m0, eps);
    AddPass(step, test, rule, passes, h, l, start, mid, end, before, activeIn, after, active);
  }

  /** What an exit of such a run says about its last pass. */
  lemma ClosingExit<P(!new), X(!new)>(step: (P, P, Mark<X>) -> bool, f: (P, int) -> real,
                                      rule: (Prior<P, X>, History<P, X>) -> bool, passes: seq<History<P, X>>, l: nat,
                                      eps: real, start: P, end: P)
    returns (h: History<P, X>, total: real, largest: real)
    requires IsRun(step, Closing(f, passes, eps), rule, passes, l, start, end) && |passes| > 0
    requires Exits(Closing(f, passes, eps), passes[|passes| - 1], l)
    ensures h == passes[|passes| - 1] && Runs(step, h) && VisitsOnce(h, Everything(l))
    ensures |h.points| == |h.marks| + 1 && h.points[|h.marks|] == end
    ensures |First(passes).marks| <= |First(passes).points|
    ensures Measured(f, h, total, largest) && total <= eps * SumOver(f, First(passes))
    ensures Linked(step, passes, start, end)
  {
    hide SumOver, Scheduled, Ruled, VisitsOnce;
    h := passes[|passes| - 1];
    total, largest := SomeMeasure(f, h);
  }

  // ---------------------------------------------------------------- descent

  /** A function that no step raises is not raised from one point of a pass to a later one. */
  lemma {:induction false} PassDescends<P, X>(step: (P, P, Mark<X>) -> bool, f: P -> real, h: History<P, X>, j: nat,
                                              k: nat)
    requires Runs(step, h) && j <= k < |h.points|
    requires forall a, b, m :: step(a, b, m) ==> f(b) <= f(a)
    ensures f(h.points[k]) <= f(h.points[j])
  {
    if j < k {
      PassDescends(step, f, h, j, k - 1);
      assert step(h.points[k - 1], h.points[k], h.marks[k - 1]);
    }
  }

  /** Nor over the whole run. */
  lemma {:induction false} NeverRises<P, X>(step: (P, P, Mark<X>) -> bool, f: P -> real, passes: seq<History<P, X>>,
                                            start: P, end: P, p: nat, j: nat, q: nat, k: nat)
    requires Linked(step, passes, start, end) && q < |passes| && (p < q || (p == q && j <= k))
    requires j < |passes[p].points| && k < |passes[q].points|
    requires forall a, b, m :: step(a, b, m) ==> f(b) <= f(a)
    ensures f(passes[q].points[k]) <= f(passes[p].points[j])
    decreases q
  {
    if p == q {
      PassDescends(step, f, passes[q], j, k);
    } else {
      assert Follows(passes, q);
      PassDescends(step, f, passes[q], 0, k);
      NeverRises(step, f, passes, start, end, p, j, q - 1, |passes[q - 1].points| - 1);
    }
  }
}
