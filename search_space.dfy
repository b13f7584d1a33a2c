/** The search space of the enumerator: the Cartesian product of per-element inclusive
    count intervals, listed in odometer order (first element slowest, last fastest, each
    counter ascending), as `itertools.product(*ranges)` lists it. */
module SearchSpace {
  import opened Common

  /** `range(lo, hi + 1)`: lo, lo + 1, ..., hi; empty when lo > hi. */
  function Interval(lo: int, hi: int): (r: seq<int>)
    ensures |r| == if lo <= hi then hi - lo + 1 else 0
    ensures forall i :: 0 <= i < |r| ==> r[i] == lo + i
    decreases hi - lo
  {
    if lo > hi then [] else [lo] + Interval(lo + 1, hi)
  }

  /** Every tail of `tails`, with `c` put in front. */
  function Prepend(c: int, tails: seq<seq<int>>): (r: seq<seq<int>>)
  {
    seq(|tails|, i requires 0 <= i < |tails| => [c] + tails[i])
  }

  /** For each first counter value in turn, every tail with it put in front. */
  function Extend(firsts: seq<int>, tails: seq<seq<int>>): seq<seq<int>>
  {
    if firsts == [] then [] else Prepend(firsts[0], tails) + Extend(firsts[1..], tails)
  }

  /** `list(itertools.product(*[range(lo, hi + 1) for each range]))`. */
  function Product(ranges: seq<AtomRange>): seq<seq<int>>
  {
    if ranges == [] then [[]]
    else Extend(Interval(ranges[0].lo, ranges[0].hi), Product(ranges[1..]))
  }

  /** `c` is a point of the search space: one count per range, each within its bounds. */
  predicate InBounds(c: seq<int>, ranges: seq<AtomRange>)
  {
    |c| == |ranges| && forall i :: 0 <= i < |c| ==> ranges[i].lo <= c[i] <= ranges[i].hi
  }

  /** Strict lexicographic order on count tuples. */
  predicate LexLess(u: seq<int>, v: seq<int>)
    decreases |u|
  {
    |u| > 0 && |v| > 0 && (u[0] < v[0] || (u[0] == v[0] && LexLess(u[1..], v[1..])))
  }

  /** Every earlier tuple is lexicographically smaller than every later one. */
  predicate StrictlyIncreasing(s: seq<seq<int>>)
  {
    forall i, j :: 0 <= i < j < |s| ==> LexLess(s[i], s[j])
  }

  lemma {:induction false} LexLessIrreflexive(u: seq<int>)
    ensures !LexLess(u, u)
    decreases |u|
  {
    if |u| > 0 {
      LexLessIrreflexive(u[1..]);
    }
  }

  lemma PrependMembership(c: int, tails: seq<seq<int>>, x: seq<int>)
    ensures x in Prepend(c, tails) <==> |x| > 0 && x[0] == c && x[1..] in tails
  {
    if |x| > 0 && x[0] == c && x[1..] in tails {
      var i :| 0 <= i < |tails| && tails[i] == x[1..];
      assert Prepend(c, tails)[i] == x;
    }
    if x in Prepend(c, tails) {
      var i :| 0 <= i < |tails| && Prepend(c, tails)[i] == x;
      assert x[1..] == tails[i];
    }
  }

  lemma {:induction false} ExtendMembership(firsts: seq<int>, tails: seq<seq<int>>, x: seq<int>)
    ensures x in Extend(firsts, tails) <==> |x| > 0 && x[0] in firsts && x[1..] in tails
  {
    if firsts != [] {
      PrependMembership(firsts[0], tails, x);
      ExtendMembership(firsts[1..], tails, x);
      assert firsts == [firsts[0]] + firsts[1..];
    }
  }

  /** The product lists exactly the points of the search space. */
  lemma {:induction false} ProductMembership(ranges: seq<AtomRange>, c: seq<int>)
    ensures c in Product(ranges) <==> InBounds(c, ranges)
  {
    if ranges != [] {
      var r := ranges[0];
      ExtendMembership(Interval(r.lo, r.hi), Product(ranges[1..]), c);
      if |c| > 0 {
        ProductMembership(ranges[1..], c[1..]);
        assert InBounds(c, ranges) <==> r.lo <= c[0] <= r.hi && InBounds(c[1..], ranges[1..]) by {
          if r.lo <= c[0] <= r.hi && InBounds(c[1..], ranges[1..]) {
            forall i | 0 <= i < |c| ensures ranges[i].lo <= c[i] <= ranges[i].hi {
              if i > 0 { assert c[i] == c[1..][i - 1] && ranges[i] == ranges[1..][i - 1]; }
            }
          }
          if InBounds(c, ranges) {
            forall i | 0 <= i < |c[1..]| ensures ranges[1..][i].lo <= c[1..][i] <= ranges[1..][i].hi {
              assert c[1..][i] == c[i + 1] && ranges[1..][i] == ranges[i + 1];
            }
          }
        }
        assert c[0] in Interval(r.lo, r.hi) <==> r.lo <= c[0] <= r.hi by {
          if r.lo <= c[0] <= r.hi {
            assert Interval(r.lo, r.hi)[c[0] - r.lo] == c[0];
          }
        }
      }
    }
  }

  lemma PrependOrdered(c: int, tails: seq<seq<int>>)
    requires StrictlyIncreasing(tails)
    ensures StrictlyIncreasing(Prepend(c, tails))
  {
    var p := Prepend(c, tails);
    forall i, j | 0 <= i < j < |p| ensures LexLess(p[i], p[j]) {
      assert p[i][1..] == tails[i] && p[j][1..] == tails[j];
    }
  }

  lemma {:induction false} ExtendOrdered(firsts: seq<int>, tails: seq<seq<int>>)
    requires forall i, j :: 0 <= i < j < |firsts| ==> firsts[i] < firsts[j]
    requires StrictlyIncreasing(tails)
    ensures StrictlyIncreasing(Extend(firsts, tails))
  {
    if firsts != [] {
      var a, b := Prepend(firsts[0], tails), Extend(firsts[1..], tails);
      PrependOrdered(firsts[0], tails);
      ExtendOrdered(firsts[1..], tails);
      forall i, j | 0 <= i < |a| && 0 <= j < |b| ensures LexLess(a[i], b[j]) {
        ExtendMembership(firsts[1..], tails, b[j]);
        assert b[j][0] in firsts[1..];
      }
      var s := a + b;
      forall i, j | 0 <= i < j < |s| ensures LexLess(s[i], s[j]) {
        if j < |a| {
          assert s[i] == a[i] && s[j] == a[j];
        } else if i >= |a| {
          assert s[i] == b[i - |a|] && s[j] == b[j - |a|];
        } else {
          assert s[i] == a[i] && s[j] == b[j - |a|];
        }
      }
    }
  }

  /** The product lists its points in strictly increasing lexicographic order; in
      particular it lists no point twice. */
  lemma {:induction false} ProductOrdered(ranges: seq<AtomRange>)
    ensures StrictlyIncreasing(Product(ranges))
  {
    if ranges != [] {
      ProductOrdered(ranges[1..]);
      ExtendOrdered(Interval(ranges[0].lo, ranges[0].hi), Product(ranges[1..]));
    }
  }

  /** Number of points of the search space: the product of the interval widths. */
  function Size(ranges: seq<AtomRange>): nat
  {
    if ranges == [] then 1
    else (if ranges[0].lo <= ranges[0].hi then ranges[0].hi - ranges[0].lo + 1 else 0) * Size(ranges[1..])
  }

  lemma {:induction false} ExtendLength(firsts: seq<int>, tails: seq<seq<int>>)
    ensures |Extend(firsts, tails)| == |firsts| * |tails|
  {
    if firsts != [] {
      ExtendLength(firsts[1..], tails);
    }
  }

  /** The traversal visits every point of the full bounded product. */
  lemma {:induction false} ProductLength(ranges: seq<AtomRange>)
    ensures |Product(ranges)| == Size(ranges)
  {
    if ranges != [] {
      ProductLength(ranges[1..]);
      ExtendLength(Interval(ranges[0].lo, ranges[0].hi), Product(ranges[1..]));
    }
  }
}
