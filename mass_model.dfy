/** The mass model: a formula's monoisotopic mass and its unsaturation index
    (double-bond equivalents). */
module MassModel {
  import opened Common

  /** Every symbol of `f` has an entry in the mass table. */
  predicate Covered(f: Formula, masses: MassTable)
  {
    forall i :: 0 <= i < |f| ==> f[i].element in masses
  }

  /** Σ masses[e] * count over the formula's items. */
  function Mass(f: Formula, masses: MassTable): real
    requires Covered(f, masses)
  {
    if f == [] then 0.0
    else masses[f[0].element] * f[0].count as real + Mass(f[1..], masses)
  }

  /** calculate_mass: the weighted sum, or the KeyError raised on the first item
      (in dictionary order) whose symbol the mass table lacks. A zero count is
      looked up like any other. */
  function CalculateMass(f: Formula, masses: MassTable): (r: Result<real>)
    ensures r.Ok? <==> Covered(f, masses)
    ensures r.Ok? ==> r.value == Mass(f, masses)
    ensures r.Err? ==> r.error.MissingMassEntry? && r.error.element !in masses &&
                       exists i :: 0 <= i < |f| && f[i].element == r.error.element &&
                         forall j :: 0 <= j < i ==> f[j].element in masses
  {
    match FirstMissing(f, masses.Keys)
    case Some(k) => Err(MissingMassEntry(k))
    case None => Ok(Mass(f, masses))
  }

  /** The mass of two formulas written one after the other is the sum of their masses. */
  lemma {:induction false} MassAppend(f: Formula, g: Formula, masses: MassTable)
    requires Covered(f, masses) && Covered(g, masses)
    ensures Covered(f + g, masses)
    ensures Mass(f + g, masses) == Mass(f, masses) + Mass(g, masses)
  {
    if f == [] {
      assert f + g == g;
    } else {
      assert (f + g)[1..] == f[1..] + g;
      MassAppend(f[1..], g, masses);
    }
  }

  /** Item-wise sum of the counts of two formulas over the same symbols. */
  function AddCounts(f: Formula, g: Formula): Formula
    requires Elements(f) == Elements(g)
  {
    seq(|f|, i requires 0 <= i < |f| => Entry(f[i].element, f[i].count + g[i].count))
  }

  /** Mass is additive: summing the counts of two formulas over the same symbols
      sums their masses. */
  lemma {:induction false} MassAdditive(f: Formula, g: Formula, masses: MassTable)
    requires Elements(f) == Elements(g)
    requires Covered(f, masses)
    ensures Covered(g, masses) && Covered(AddCounts(f, g), masses)
    ensures Mass(AddCounts(f, g), masses) == Mass(f, masses) + Mass(g, masses)
  {
    assert |f| == |Elements(f)| == |Elements(g)| == |g|;
    assert forall i :: 0 <= i < |g| ==> g[i].element == Elements(g)[i] == Elements(f)[i] == f[i].element;
    if f != [] {
      var s := AddCounts(f, g);
      assert s[1..] == AddCounts(f[1..], g[1..]);
      assert Elements(f[1..]) == Elements(g[1..]) by {
        assert Elements(f[1..]) == Elements(f)[1..];
        assert Elements(g[1..]) == Elements(g)[1..];
      }
      MassAdditive(f[1..], g[1..], masses);
      var m := masses[f[0].element];
      assert m * (f[0].count + g[0].count) as real == m * f[0].count as real + m * g[0].count as real;
    }
  }

  /** A formula whose counts are all zero has mass 0. */
  lemma {:induction false} MassOfZeroCounts(f: Formula, masses: MassTable)
    requires Covered(f, masses)
    requires forall i :: 0 <= i < |f| ==> f[i].count == 0
    ensures Mass(f, masses) == 0.0
  {
    if f != [] {
      MassOfZeroCounts(f[1..], masses);
    }
  }

  /** Taking one item out of a formula takes its term out of the mass. */
  lemma MassRemove(g: Formula, masses: MassTable, j: nat)
    requires Covered(g, masses)
    requires j < |g|
    ensures Covered(g[..j] + g[j + 1..], masses)
    ensures Mass(g, masses) == masses[g[j].element] * g[j].count as real + Mass(g[..j] + g[j + 1..], masses)
  {
    var p, x, q := g[..j], g[j], g[j + 1..];
    CoveredSlice(g, masses, 0, j);
    CoveredSlice(g, masses, j, |g|);
    CoveredSlice(g, masses, j + 1, |g|);
    assert g[0..j] == p && g[j + 1..|g|] == q && g[j..|g|] == [x] + q;
    assert g == p + ([x] + q);
    assert ([x] + q)[1..] == q;
    MassAppend(p, [x] + q, masses);
    MassAppend(p, q, masses);
  }

  lemma MultisetRemove(f: Formula, g: Formula, j: nat)
    requires multiset(f) == multiset(g)
    requires f != [] && j < |g| && g[j] == f[0]
    ensures multiset(f[1..]) == multiset(g[..j] + g[j + 1..])
  {
    var rest := g[..j] + g[j + 1..];
    assert g == g[..j] + [g[j]] + g[j + 1..];
    calc {
      multiset(g);
      multiset(g[..j]) + multiset([g[j]]) + multiset(g[j + 1..]);
      multiset(rest) + multiset{f[0]};
    }
    assert f == [f[0]] + f[1..];
    assert multiset(f) == multiset{f[0]} + multiset(f[1..]);
    assert multiset(f[1..]) == multiset(f) - multiset{f[0]};
    assert multiset(rest) == multiset(g) - multiset{f[0]};
  }

  /** The mass does not depend on the order of the items. */
  lemma {:induction false} MassPermutation(f: Formula, g: Formula, masses: MassTable)
    requires Covered(f, masses)
    requires multiset(f) == multiset(g)
    ensures Covered(g, masses)
    ensures Mass(f, masses) == Mass(g, masses)
    decreases |f|
  {
    CoveredPermutation(f, g, masses);
    if f != [] {
      var rest := PermutationStep(f, g, masses);
      CoveredSlice(f, masses, 1, |f|);
      MassPermutation(f[1..], rest, masses);
    }
  }

  /** Matching the first item of `f` in its rearrangement `g` leaves a rearrangement of
      the rest of `f`, and takes that item's term off the mass of `g`. */
  lemma PermutationStep(f: Formula, g: Formula, masses: MassTable) returns (rest: Formula)
    requires Covered(f, masses) && Covered(g, masses)
    requires multiset(f) == multiset(g) && f != []
    ensures multiset(f[1..]) == multiset(rest)
    ensures Covered(rest, masses)
    ensures Mass(g, masses) == masses[f[0].element] * f[0].count as real + Mass(rest, masses)
  {
    assert f[0] in multiset(g);
    var j :| 0 <= j < |g| && g[j] == f[0];
    rest := g[..j] + g[j + 1..];
    MultisetRemove(f, g, j);
    MassRemove(g, masses, j);
  }

  lemma CoveredPermutation(f: Formula, g: Formula, masses: MassTable)
    requires Covered(f, masses)
    requires multiset(f) == multiset(g)
    ensures Covered(g, masses)
  {
    forall j | 0 <= j < |g| ensures g[j].element in masses {
      assert g[j] in multiset(f);
    }
  }

  lemma CoveredSlice(f: Formula, masses: MassTable, lo: nat, hi: nat)
    requires Covered(f, masses)
    requires lo <= hi <= |f|
    ensures Covered(f[lo..hi], masses)
  {
    forall a | 0 <= a < hi - lo ensures f[lo..hi][a].element in masses {
      assert f[lo..hi][a] == f[lo + a];
    }
  }

  /** With positive masses and non-negative counts the mass is non-negative, and
      positive as soon as there is at least one atom. */
  lemma {:induction false} MassPositive(f: Formula, masses: MassTable)
    requires Covered(f, masses)
    requires forall k :: k in masses ==> masses[k] > 0.0
    requires forall i :: 0 <= i < |f| ==> f[i].count >= 0
    ensures Mass(f, masses) >= 0.0
    ensures TotalCount(f) > 0 ==> Mass(f, masses) > 0.0
  {
    if f != [] {
      MassPositive(f[1..], masses);
      var m := masses[f[0].element];
      assert m * f[0].count as real >= 0.0;
      assert f[0].count > 0 ==> m * f[0].count as real > 0.0;
    }
  }

  /** The symbols the unsaturation index reads; every other symbol is ignored. */
  const DBE_ELEMENTS: set<Element> := {"C", "H", "N", "F", "Cl", "Br", "I"}

  /** calculate_unsaturation: DBE = C - (H + X)/2 + N/2 + 1 with X = F + Cl + Br + I,
      absent symbols counting 0; exact division. */
  function Unsaturation(f: Formula): real
  {
    var c := Get(f, "C");
    var h := Get(f, "H");
    var n := Get(f, "N");
    var x := Get(f, "F") + Get(f, "Cl") + Get(f, "Br") + Get(f, "I");
    c as real - (h + x) as real / 2.0 + n as real / 2.0 + 1.0
  }

  /** What one item `e: n` contributes to the unsaturation index: +1 per carbon,
      +1/2 per nitrogen, -1/2 per hydrogen or halogen, nothing for any other symbol. */
  function DbeWeight(e: Element): real
  {
    if e == "C" then 1.0
    else if e == "N" then 0.5
    else if e == "H" || e == "F" || e == "Cl" || e == "Br" || e == "I" then -0.5
    else 0.0
  }

  /** Σ DbeWeight(symbol) * count over the formula's items. */
  function DbeSum(f: Formula): real
  {
    if f == [] then 0.0 else DbeWeight(f[0].element) * f[0].count as real + DbeSum(f[1..])
  }

  /** What an item `e: n` contributes to `get(k, 0)`. */
  function Part(e: Element, n: int, k: Element): real
  {
    if e == k then n as real else 0.0
  }

  /** Peeling the first item off a dictionary peels its share off the index. */
  lemma UnsaturationCons(f: Formula)
    requires DistinctKeys(f) && f != []
    ensures var e, n := f[0].element, f[0].count;
            Unsaturation(f) == Part(e, n, "C") - (Part(e, n, "H") + Part(e, n, "F") + Part(e, n, "Cl")
                               + Part(e, n, "Br") + Part(e, n, "I")) / 2.0 + Part(e, n, "N") / 2.0
                               + Unsaturation(f[1..])
  {
    GetCons(f, "C");
    GetCons(f, "H");
    GetCons(f, "N");
    GetCons(f, "F");
    GetCons(f, "Cl");
    GetCons(f, "Br");
    GetCons(f, "I");
  }

  lemma PartsAreWeight(e: Element, n: int)
    ensures Part(e, n, "C") - (Part(e, n, "H") + Part(e, n, "F") + Part(e, n, "Cl")
            + Part(e, n, "Br") + Part(e, n, "I")) / 2.0 + Part(e, n, "N") / 2.0
            == DbeWeight(e) * n as real
  {
  }

  /** The closed form agrees with the item-by-item sum: on a dictionary, the index is
      1 + Σ DbeWeight(symbol) * count. */
  lemma {:induction false} UnsaturationIsItemSum(f: Formula)
    requires DistinctKeys(f)
    ensures Unsaturation(f) == 1.0 + DbeSum(f)
  {
    if f != [] {
      DistinctTail(f);
      UnsaturationStep(f);
      UnsaturationIsItemSum(f[1..]);
    }
  }

  lemma UnsaturationStep(f: Formula)
    requires DistinctKeys(f) && f != []
    ensures Unsaturation(f) == DbeWeight(f[0].element) * f[0].count as real + Unsaturation(f[1..])
  {
    UnsaturationCons(f);
    PartsAreWeight(f[0].element, f[0].count);
  }

  /** The items of `f` whose symbol is one the unsaturation index reads. */
  function DbePart(f: Formula): (r: Formula)
    ensures forall i :: 0 <= i < |r| ==> r[i].element in DBE_ELEMENTS
    ensures multiset(r) <= multiset(f)
  {
    if f == [] then []
    else if f[0].element in DBE_ELEMENTS then
      assert f == [f[0]] + f[1..];
      [f[0]] + DbePart(f[1..])
    else
      assert f == [f[0]] + f[1..];
      DbePart(f[1..])
  }

  lemma {:induction false} GetDbePart(f: Formula, k: Element)
    requires k in DBE_ELEMENTS
    ensures Get(DbePart(f), k) == Get(f, k)
  {
    if f != [] {
      GetDbePart(f[1..], k);
    }
  }

  /** Symbols other than C, H, N and the halogens (O, S, ...) never affect the
      unsaturation index: it equals that of the formula stripped of them. */
  lemma UnsaturationIgnoresOtherElements(f: Formula)
    ensures Unsaturation(f) == Unsaturation(DbePart(f))
  {
    GetDbePart(f, "C");
    GetDbePart(f, "H");
    GetDbePart(f, "N");
    GetDbePart(f, "F");
    GetDbePart(f, "Cl");
    GetDbePart(f, "Br");
    GetDbePart(f, "I");
  }

  lemma {:induction false} DbePartOfOthers(f: Formula)
    requires forall i :: 0 <= i < |f| ==> f[i].element !in DBE_ELEMENTS
    ensures DbePart(f) == []
  {
    if f != [] {
      assert forall i :: 0 <= i < |f[1..]| ==> f[1..][i] == f[i + 1];
      DbePartOfOthers(f[1..]);
    }
  }

  /** A formula with no C, H, N or halogen (only O, S, ...) has unsaturation exactly 1. */
  lemma UnsaturationWithoutDbeElements(f: Formula)
    requires forall i :: 0 <= i < |f| ==> f[i].element !in DBE_ELEMENTS
    ensures Unsaturation(f) == 1.0
  {
    UnsaturationIgnoresOtherElements(f);
    DbePartOfOthers(f);
  }

  /** The unsaturation index does not depend on the order of a dictionary's items. */
  lemma UnsaturationPermutation(f: Formula, g: Formula)
    requires DistinctKeys(f) && DistinctKeys(g)
    requires multiset(f) == multiset(g)
    ensures Unsaturation(f) == Unsaturation(g)
  {
    GetPermutation(f, g, "C");
    GetPermutation(f, g, "H");
    GetPermutation(f, g, "N");
    GetPermutation(f, g, "F");
    GetPermutation(f, g, "Cl");
    GetPermutation(f, g, "Br");
    GetPermutation(f, g, "I");
  }
}
