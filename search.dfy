/** find_molecular_formulas: the ppm mass window around the neutral target mass, the
    candidates the enumerator yields inside it, the unsaturation filter, the record built
    for each survivor and the final sort by |ppm deviation|. */
module Search {
  import opened Common
  import opened MassModel
  import opened SearchSpace
  import opened Enumerator
  import opened Sorting

  /** Parts per million. */
  const MILLION: real := 1000000.0

  /** The neutral mass and the inclusive mass window the enumerator is asked for. */
  datatype Window = Window(exact: real, minMass: real, maxMass: real)

  /** The window: exactMass = target - ionization, widened on both sides by
      (ppm / 1e6) * exactMass. */
  function MassWindow(targetMass: real, ppmTolerance: real, ionization: real): (w: Window)
    ensures w.exact == targetMass - ionization
  {
    var tolerance := ppmTolerance / MILLION;
    var exactMass := targetMass - ionization;
    Window(exactMass, exactMass - tolerance * exactMass, exactMass + tolerance * exactMass)
  }

  /** `((exactMass - mass) / mass) * 1e6`: the relative error of the mass, in ppm. */
  function Deviation(exact: real, mass: real): real
    requires mass != 0.0
  {
    ((exact - mass) / mass) * MILLION
  }

  /** The deviation is the ppm error relative to the computed mass. */
  lemma DeviationMeaning(exact: real, mass: real)
    requires mass != 0.0
    ensures Deviation(exact, mass) * mass == (exact - mass) * MILLION
  {
  }

  /** The window is centred on the exact mass and is 2 * ppm parts per million of it wide;
      with no tolerance it is the exact mass alone. */
  lemma MassWindowShape(targetMass: real, ppmTolerance: real, ionization: real)
    ensures var w := MassWindow(targetMass, ppmTolerance, ionization);
            w.minMass + w.maxMass == 2.0 * w.exact &&
            (w.maxMass - w.minMass) * MILLION == 2.0 * ppmTolerance * w.exact
    ensures var w := MassWindow(targetMass, ppmTolerance, ionization);
            ppmTolerance == 0.0 ==> w.minMass == w.exact == w.maxMass
  {
    var w := MassWindow(targetMass, ppmTolerance, ionization);
    var d := (ppmTolerance / MILLION) * w.exact;
    assert w.maxMass - w.minMass == 2.0 * d;
    assert d * MILLION == ppmTolerance * w.exact;
  }

  /** The result record of one accepted formula, read back: its mass is the formula's
      mass, non-zero, the m/z adds the ionization back, the deviation is the relative
      error (exact - mass) / mass in ppm, and the unsaturation is the formula's. */
  predicate Describes(c: Candidate, masses: MassTable, exact: real, ionization: real)
  {
    Covered(c.formula, masses) && c.mass == Mass(c.formula, masses) && c.mass != 0.0 &&
    c.mz == c.mass + ionization &&
    c.deviation == Deviation(exact, c.mass) &&
    c.unsaturation == Unsaturation(c.formula)
  }

  /** The loop of find_molecular_formulas over the yielded formulas: the records
      appended, in order, or the error raised on the way (a KeyError from calculate_mass,
      or a ZeroDivisionError for an accepted formula of mass 0). */
  function Collect(formulas: seq<Formula>, masses: MassTable, exact: real, ionization: real,
                   unsaturationRange: (real, real)): Result<seq<Candidate>>
    decreases |formulas|
  {
    if formulas == [] then Ok([])
    else
      match Collect(formulas[..|formulas| - 1], masses, exact, ionization, unsaturationRange)
      case Err(e) => Err(e)
      case Ok(acc) =>
        var f := formulas[|formulas| - 1];
        match CalculateMass(f, masses)
        case Err(e) => Err(e)
        case Ok(m) =>
          var u := Unsaturation(f);
          if unsaturationRange.0 <= u <= unsaturationRange.1 then
            if m == 0.0 then Err(DivisionByZero)
            else Ok(acc + [Candidate(f, m, m + ionization, Deviation(exact, m), u)])
          else Ok(acc)
  }

  /** find_molecular_formulas as a whole: enumerate within the window (with the default
      atom cap), collect the records, sort them stably by |deviation|. */
  function Search(targetMass: real, ppmTolerance: real, atomRanges: seq<AtomRange>,
                  masses: MassTable, ionization: real, unsaturationRange: (real, real)): Result<seq<Candidate>>
  {
    var w := MassWindow(targetMass, ppmTolerance, ionization);
    match Generate(atomRanges, masses, w.minMass, w.maxMass, DEFAULT_MAX_TOTAL_ATOMS)
    case Err(e) => Err(e)
    case Ok(formulas) =>
      match Collect(formulas, masses, w.exact, ionization, unsaturationRange)
      case Err(e) => Err(e)
      case Ok(possible) => Ok(SortSpec(possible))
  }

  /** find_molecular_formulas: enumerates within the window, builds the records, then
      sorts them in place. */
  method FindMolecularFormulas(targetMass: real, ppmTolerance: real, atomRanges: seq<AtomRange>,
                               masses: MassTable, ionization: real, unsaturationRange: (real, real))
    returns (r: Result<seq<Candidate>>)
    ensures r == Search(targetMass, ppmTolerance, atomRanges, masses, ionization, unsaturationRange)
    ensures r.Ok? ==> Sorted(r.value)
  {
    var w := MassWindow(targetMass, ppmTolerance, ionization);
    var generated := GenerateFormulas(atomRanges, masses, w.minMass, w.maxMass, DEFAULT_MAX_TOTAL_ATOMS);
    if generated.Err? {
      return Err(generated.error);
    }
    var collected := CollectCandidates(generated.value, masses, w.exact, ionization, unsaturationRange);
    if collected.Err? {
      return Err(collected.error);
    }
    var possible := collected.value;
    var a := new Candidate[|possible|](k requires 0 <= k < |possible| => possible[k]);
    assert a[..] == possible;
    SortByDeviation(a);
    SortSpecSorted(possible);
    return Ok(a[..]);
  }

  /** The loop of find_molecular_formulas: one record appended per yielded formula whose
      unsaturation lies in the inclusive range. */
  method CollectCandidates(formulas: seq<Formula>, masses: MassTable, exactMass: real, ionization: real,
                           unsaturationRange: (real, real))
    returns (r: Result<seq<Candidate>>)
    ensures r == Collect(formulas, masses, exactMass, ionization, unsaturationRange)
  {
    var possible: seq<Candidate> := [];
    for i := 0 to |formulas|
      invariant Collect(formulas[..i], masses, exactMass, ionization, unsaturationRange) == Ok(possible)
    {
      assert formulas[..i + 1][..i] == formulas[..i];
      var formula := formulas[i];
      var mass := CalculateMass(formula, masses);
      if mass.Err? {
        CollectErrPersists(formulas, masses, exactMass, ionization, unsaturationRange, i + 1);
        assert formulas[..|formulas|] == formulas;
        return Err(mass.error);
      }
      var unsaturation := Unsaturation(formula);
      if unsaturationRange.0 <= unsaturation <= unsaturationRange.1 {
        if mass.value == 0.0 {
          CollectErrPersists(formulas, masses, exactMass, ionization, unsaturationRange, i + 1);
          assert formulas[..|formulas|] == formulas;
          return Err(DivisionByZero);
        }
        var deviationppm := Deviation(exactMass, mass.value);
        var mz := mass.value + ionization;
        possible := possible + [Candidate(formula, mass.value, mz, deviationppm, unsaturation)];
      }
    }
    assert formulas[..|formulas|] == formulas;
    return Ok(possible);
  }

  /** Once the loop has raised, it stays raised. */
  lemma {:induction false} CollectErrPersists(formulas: seq<Formula>, masses: MassTable, exact: real,
                                              ionization: real, unsaturationRange: (real, real), i: nat)
    requires i <= |formulas|
    requires Collect(formulas[..i], masses, exact, ionization, unsaturationRange).Err?
    ensures Collect(formulas, masses, exact, ionization, unsaturationRange)
         == Collect(formulas[..i], masses, exact, ionization, unsaturationRange)
    decreases |formulas| - i
  {
    if i < |formulas| {
      assert formulas[..i + 1][..i] == formulas[..i];
      CollectErrPersists(formulas, masses, exact, ionization, unsaturationRange, i + 1);
    } else {
      assert formulas[..i] == formulas;
    }
  }

  /** An accepted formula raises in the loop when it lacks a mass, or when its
      unsaturation is in range and its mass is 0. */
  predicate Raises(f: Formula, masses: MassTable, unsaturationRange: (real, real))
  {
    !Covered(f, masses) ||
    (unsaturationRange.0 <= Unsaturation(f) <= unsaturationRange.1 && Mass(f, masses) == 0.0)
  }

  /** What one more formula adds to the loop's records: one describing it when its
      unsaturation is in range, nothing otherwise. */
  lemma CollectStep(formulas: seq<Formula>, masses: MassTable, exact: real, ionization: real,
                    unsaturationRange: (real, real), acc: seq<Candidate>)
    requires formulas != []
    requires Collect(formulas, masses, exact, ionization, unsaturationRange) == Ok(acc)
    ensures Collect(formulas[..|formulas| - 1], masses, exact, ionization, unsaturationRange).Ok?
    ensures var rest := Collect(formulas[..|formulas| - 1], masses, exact, ionization, unsaturationRange).value;
            var f := formulas[|formulas| - 1];
            unsaturationRange.0 <= Unsaturation(f) <= unsaturationRange.1 ==>
              |acc| == |rest| + 1 && acc[..|rest|] == rest && acc[|rest|].formula == f &&
              Describes(acc[|rest|], masses, exact, ionization) &&
              unsaturationRange.0 <= acc[|rest|].unsaturation <= unsaturationRange.1
    ensures var rest := Collect(formulas[..|formulas| - 1], masses, exact, ionization, unsaturationRange).value;
            var f := formulas[|formulas| - 1];
            !(unsaturationRange.0 <= Unsaturation(f) <= unsaturationRange.1) ==> acc == rest
  {
    var f := formulas[|formulas| - 1];
    var m := CalculateMass(f, masses);
    assert m.Ok?;
  }

  /** Every record describes one of the formulas, whose unsaturation is in range. */
  lemma {:induction false} CollectSound(formulas: seq<Formula>, masses: MassTable, exact: real, ionization: real,
                                        unsaturationRange: (real, real), acc: seq<Candidate>, j: nat)
    requires Collect(formulas, masses, exact, ionization, unsaturationRange) == Ok(acc)
    requires j < |acc|
    ensures Describes(acc[j], masses, exact, ionization)
    ensures unsaturationRange.0 <= acc[j].unsaturation <= unsaturationRange.1
    ensures acc[j].formula in formulas
    decreases |formulas|
  {
    var n := |formulas|;
    var prefix := formulas[..n - 1];
    CollectStep(formulas, masses, exact, ionization, unsaturationRange, acc);
    var rest := Collect(prefix, masses, exact, ionization, unsaturationRange).value;
    if j < |rest| {
      assert acc[j] == rest[j];
      CollectSound(prefix, masses, exact, ionization, unsaturationRange, rest, j);
      var i :| 0 <= i < |prefix| && prefix[i] == rest[j].formula;
      assert formulas[i] == prefix[i];
    }
  }

  /** Every formula whose unsaturation is in range gets a record. */
  lemma {:induction false} CollectComplete(formulas: seq<Formula>, masses: MassTable, exact: real, ionization: real,
                                           unsaturationRange: (real, real), acc: seq<Candidate>, i: nat)
    requires Collect(formulas, masses, exact, ionization, unsaturationRange) == Ok(acc)
    requires i < |formulas|
    requires unsaturationRange.0 <= Unsaturation(formulas[i]) <= unsaturationRange.1
    ensures exists j :: 0 <= j < |acc| && acc[j].formula == formulas[i]
    decreases |formulas|
  {
    var n := |formulas|;
    var prefix := formulas[..n - 1];
    CollectStep(formulas, masses, exact, ionization, unsaturationRange, acc);
    var rest := Collect(prefix, masses, exact, ionization, unsaturationRange).value;
    if i < n - 1 {
      assert prefix[i] == formulas[i];
      CollectComplete(prefix, masses, exact, ionization, unsaturationRange, rest, i);
      var j :| 0 <= j < |rest| && rest[j].formula == formulas[i];
      assert acc[j] == acc[..|rest|][j];
    } else {
      assert acc[|rest|].formula == formulas[i];
    }
  }

  /** The loop raises exactly when some formula raises, and the error is then a missing
      mass or a division by zero. */
  lemma {:induction false} CollectFails(formulas: seq<Formula>, masses: MassTable, exact: real, ionization: real,
                                        unsaturationRange: (real, real))
    ensures Collect(formulas, masses, exact, ionization, unsaturationRange).Err? <==>
            exists i :: 0 <= i < |formulas| && Raises(formulas[i], masses, unsaturationRange)
    ensures Collect(formulas, masses, exact, ionization, unsaturationRange).Err? ==>
            var e := Collect(formulas, masses, exact, ionization, unsaturationRange).error;
            (e.MissingMassEntry? && e.element !in masses) || e == DivisionByZero
    ensures (forall i :: 0 <= i < |formulas| ==> Covered(formulas[i], masses)) &&
            Collect(formulas, masses, exact, ionization, unsaturationRange).Err? ==>
            Collect(formulas, masses, exact, ionization, unsaturationRange).error == DivisionByZero
    decreases |formulas|
  {
    if formulas != [] {
      var n := |formulas|;
      var prefix := formulas[..n - 1];
      CollectFails(prefix, masses, exact, ionization, unsaturationRange);
      if Collect(prefix, masses, exact, ionization, unsaturationRange).Err? {
        CollectErrPersists(formulas, masses, exact, ionization, unsaturationRange, n - 1);
        var i :| 0 <= i < |prefix| && Raises(prefix[i], masses, unsaturationRange);
        assert prefix[i] == formulas[i];
      } else {
        CollectLast(formulas, masses, exact, ionization, unsaturationRange);
        forall i | 0 <= i < n - 1 ensures !Raises(formulas[i], masses, unsaturationRange) {
          assert prefix[i] == formulas[i];
        }
      }
    }
  }

  /** After a prefix that did not raise, the loop raises exactly when the last formula
      does, and with a missing mass or a division by zero. */
  lemma CollectLast(formulas: seq<Formula>, masses: MassTable, exact: real, ionization: real,
                    unsaturationRange: (real, real))
    requires formulas != []
    requires Collect(formulas[..|formulas| - 1], masses, exact, ionization, unsaturationRange).Ok?
    ensures var r := Collect(formulas, masses, exact, ionization, unsaturationRange);
            var f := formulas[|formulas| - 1];
            (r.Err? <==> Raises(f, masses, unsaturationRange)) &&
            (r.Err? ==> (r.error.MissingMassEntry? && r.error.element !in masses) || r.error == DivisionByZero) &&
            (r.Err? && Covered(f, masses) ==> r.error == DivisionByZero)
  {
  }

  /** The records follow the formulas' own lexicographic order of counts. */
  predicate EnumerationOrder(s: seq<Candidate>)
  {
    forall j, k :: 0 <= j < k < |s| ==> LexLess(Counts(s[j].formula), Counts(s[k].formula))
  }

  /** Records with the same |deviation| keep the formulas' lexicographic order of counts. */
  predicate TiesInOrder(s: seq<Candidate>)
  {
    forall j, k :: 0 <= j < k < |s| && Key(s[j]) == Key(s[k]) ==>
      LexLess(Counts(s[j].formula), Counts(s[k].formula))
  }

  /** When the formulas are in strictly increasing order, so are their records. */
  lemma {:induction false} CollectOrdered(formulas: seq<Formula>, masses: MassTable, exact: real, ionization: real,
                                          unsaturationRange: (real, real), acc: seq<Candidate>)
    requires forall j, k :: 0 <= j < k < |formulas| ==> LexLess(Counts(formulas[j]), Counts(formulas[k]))
    requires Collect(formulas, masses, exact, ionization, unsaturationRange) == Ok(acc)
    ensures EnumerationOrder(acc)
    decreases |formulas|
  {
    if formulas != [] {
      var n := |formulas|;
      var prefix := formulas[..n - 1];
      var rest := Collect(prefix, masses, exact, ionization, unsaturationRange);
      assert rest.Ok?;
      assert forall j, k :: 0 <= j < k < |prefix| ==> LexLess(Counts(prefix[j]), Counts(prefix[k])) by {
        forall j, k | 0 <= j < k < |prefix| ensures LexLess(Counts(prefix[j]), Counts(prefix[k])) {
          assert prefix[j] == formulas[j] && prefix[k] == formulas[k];
        }
      }
      CollectOrdered(prefix, masses, exact, ionization, unsaturationRange, rest.value);
      CollectStep(formulas, masses, exact, ionization, unsaturationRange, acc);
      if acc != rest.value {
        var y := acc[|acc| - 1];
        forall j | 0 <= j < |rest.value| ensures LexLess(Counts(rest.value[j].formula), Counts(y.formula)) {
          CollectSound(prefix, masses, exact, ionization, unsaturationRange, rest.value, j);
          var i :| 0 <= i < |prefix| && prefix[i] == rest.value[j].formula;
          assert formulas[i] == prefix[i];
        }
        EnumerationAppend(rest.value, y);
        assert acc == rest.value + [y];
      }
    }
  }

  lemma EnumerationAppend(q: seq<Candidate>, y: Candidate)
    requires EnumerationOrder(q)
    requires forall i :: 0 <= i < |q| ==> LexLess(Counts(q[i].formula), Counts(y.formula))
    ensures EnumerationOrder(q + [y])
  {
    var r := q + [y];
    forall j, k | 0 <= j < k < |r| ensures LexLess(Counts(r[j].formula), Counts(r[k].formula)) {
      assert r[j] == q[j];
      if k < |q| {
        assert r[k] == q[k];
      }
    }
  }

  /** Appending a record that comes after every earlier record of the same key keeps
      equal keys in enumeration order. */
  lemma TiesAppend(q: seq<Candidate>, y: Candidate)
    requires TiesInOrder(q)
    requires forall i :: 0 <= i < |q| && Key(q[i]) == Key(y) ==> LexLess(Counts(q[i].formula), Counts(y.formula))
    ensures TiesInOrder(q + [y])
  {
    var r := q + [y];
    forall j, k | 0 <= j < k < |r| && Key(r[j]) == Key(r[k])
      ensures LexLess(Counts(r[j].formula), Counts(r[k].formula))
    {
      assert r[j] == q[j];
      if k < |q| {
        assert r[k] == q[k];
      }
    }
  }

  lemma TiesPrefix(t: seq<Candidate>, n: nat)
    requires TiesInOrder(t) && n <= |t|
    ensures TiesInOrder(t[..n])
  {
    assert forall i :: 0 <= i < n ==> t[..n][i] == t[i];
  }

  /** Inserting a record that comes after every other one in enumeration order keeps
      equal keys in enumeration order. */
  lemma {:induction false} InsertTies(x: Candidate, t: seq<Candidate>)
    requires TiesInOrder(t)
    requires forall i :: 0 <= i < |t| ==> LexLess(Counts(t[i].formula), Counts(x.formula))
    ensures TiesInOrder(Insert(x, t))
    decreases |t|
  {
    if t == [] || Key(t[|t| - 1]) <= Key(x) {
      TiesAppend(t, x);
    } else {
      var n := |t|;
      var p, last := t[..n - 1], t[n - 1];
      TiesPrefix(t, n - 1);
      assert forall i :: 0 <= i < |p| ==> p[i] == t[i];
      InsertTies(x, p);
      var q := Insert(x, p);
      InsertMultiset(x, p);
      forall i | 0 <= i < |q| && Key(q[i]) == Key(last)
        ensures LexLess(Counts(q[i].formula), Counts(last.formula))
      {
        assert q[i] in multiset(p) + multiset{x};
        if q[i] != x {
          assert q[i] in multiset(p);
          var a :| 0 <= a < |p| && p[a] == q[i];
          assert t[a] == q[i];
        }
      }
      TiesAppend(q, last);
    }
  }

  /** The stable sort keeps records of equal |deviation| in enumeration order. */
  lemma {:induction false} SortSpecTies(s: seq<Candidate>)
    requires EnumerationOrder(s)
    ensures TiesInOrder(SortSpec(s))
    decreases |s|
  {
    if s != [] {
      var n := |s|;
      var p := s[..n - 1];
      assert EnumerationOrder(p) by {
        forall j, k | 0 <= j < k < |p| ensures LexLess(Counts(p[j].formula), Counts(p[k].formula)) {
          assert p[j] == s[j] && p[k] == s[k];
        }
      }
      SortSpecTies(p);
      var t := SortSpec(p);
      SortSpecPermutation(p);
      forall i | 0 <= i < |t| ensures LexLess(Counts(t[i].formula), Counts(s[n - 1].formula)) {
        assert t[i] in multiset(p);
        var a :| 0 <= a < |p| && p[a] == t[i];
        assert s[a] == t[i];
      }
      InsertTies(s[n - 1], t);
    }
  }

  /** The window is the set of masses within ppm parts per million of the exact mass:
      everything in it is that close, and for a non-negative exact mass that is all. */
  lemma MassWindowMeaning(targetMass: real, ppmTolerance: real, ionization: real, m: real)
    requires ppmTolerance >= 0.0
    ensures var w := MassWindow(targetMass, ppmTolerance, ionization);
            w.minMass <= m <= w.maxMass ==> Abs(m - w.exact) * MILLION <= ppmTolerance * Abs(w.exact)
    ensures var w := MassWindow(targetMass, ppmTolerance, ionization);
            w.exact >= 0.0 ==> (w.minMass <= m <= w.maxMass <==> Abs(m - w.exact) * MILLION <= ppmTolerance * w.exact)
  {
    var w := MassWindow(targetMass, ppmTolerance, ionization);
    var e := w.exact;
    var d := (ppmTolerance / MILLION) * e;
    assert w.minMass == e - d && w.maxMass == e + d;
    assert d * MILLION == ppmTolerance * e;
    if e < 0.0 {
      assert d <= 0.0;
    }
  }

  /** The sign of the deviation says on which side of the exact mass a candidate lies. */
  lemma DeviationSign(c: Candidate, masses: MassTable, exact: real, ionization: real)
    requires Describes(c, masses, exact, ionization)
    requires c.mass > 0.0
    ensures c.deviation > 0.0 <==> c.mass < exact
    ensures c.deviation == 0.0 <==> c.mass == exact
    ensures c.deviation < 0.0 <==> c.mass > exact
  {
    DeviationMeaning(exact, c.mass);
    if c.deviation > 0.0 {
      assert c.deviation * c.mass > 0.0;
    } else if c.deviation < 0.0 {
      assert c.deviation * c.mass < 0.0;
    }
  }

  /** What each record of a search says: it describes its formula (mass, m/z, deviation,
      unsaturation); the formula has exactly the keys of the atom ranges, counts within
      them, between 1 and 150 atoms (at least 1 when no lower bound is negative), a mass
      inside the ppm window and an unsaturation inside the inclusive range. */
  lemma SearchSound(targetMass: real, ppmTolerance: real, atomRanges: seq<AtomRange>, masses: MassTable,
                    ionization: real, unsaturationRange: (real, real), r: seq<Candidate>, j: nat)
    requires Search(targetMass, ppmTolerance, atomRanges, masses, ionization, unsaturationRange) == Ok(r)
    requires j < |r|
    ensures var w := MassWindow(targetMass, ppmTolerance, ionization);
            Describes(r[j], masses, w.exact, ionization) &&
            w.minMass <= r[j].mass <= w.maxMass
    ensures unsaturationRange.0 <= r[j].unsaturation <= unsaturationRange.1
    ensures Elements(r[j].formula) == RangeKeys(atomRanges)
    ensures InBounds(Counts(r[j].formula), atomRanges)
    ensures TotalCount(r[j].formula) != 0 && TotalCount(r[j].formula) <= DEFAULT_MAX_TOTAL_ATOMS
    ensures (forall k :: 0 <= k < |atomRanges| ==> atomRanges[k].lo >= 0) ==> 1 <= TotalCount(r[j].formula)
  {
    var w := MassWindow(targetMass, ppmTolerance, ionization);
    var formulas := Generate(atomRanges, masses, w.minMass, w.maxMass, DEFAULT_MAX_TOTAL_ATOMS).value;
    var acc := Collect(formulas, masses, w.exact, ionization, unsaturationRange).value;
    SortSpecPermutation(acc);
    assert r[j] in multiset(acc);
    var a :| 0 <= a < |acc| && acc[a] == r[j];
    CollectSound(formulas, masses, w.exact, ionization, unsaturationRange, acc, a);
    var i :| 0 <= i < |formulas| && formulas[i] == acc[a].formula;
    GenerateSound(atomRanges, masses, w.minMass, w.maxMass, DEFAULT_MAX_TOTAL_ATOMS, formulas, i);
  }

  /** Every point of the search space whose formula passes the atom-count filter, has its
      mass inside the ppm window and its unsaturation inside the range has a record. */
  lemma SearchComplete(targetMass: real, ppmTolerance: real, atomRanges: seq<AtomRange>, masses: MassTable,
                       ionization: real, unsaturationRange: (real, real), r: seq<Candidate>, c: seq<int>)
    requires Search(targetMass, ppmTolerance, atomRanges, masses, ionization, unsaturationRange) == Ok(r)
    requires InBounds(c, atomRanges)
    requires var w := MassWindow(targetMass, ppmTolerance, ionization);
             Admitted(Zip(RangeKeys(atomRanges), c), masses, w.minMass, w.maxMass, DEFAULT_MAX_TOTAL_ATOMS)
    requires unsaturationRange.0 <= Unsaturation(Zip(RangeKeys(atomRanges), c)) <= unsaturationRange.1
    ensures exists j :: 0 <= j < |r| && r[j].formula == Zip(RangeKeys(atomRanges), c)
  {
    var w := MassWindow(targetMass, ppmTolerance, ionization);
    var formulas := Generate(atomRanges, masses, w.minMass, w.maxMass, DEFAULT_MAX_TOTAL_ATOMS).value;
    var acc := Collect(formulas, masses, w.exact, ionization, unsaturationRange).value;
    var f := Zip(RangeKeys(atomRanges), c);
    GenerateComplete(atomRanges, masses, w.minMass, w.maxMass, DEFAULT_MAX_TOTAL_ATOMS, formulas, c);
    var i :| 0 <= i < |formulas| && formulas[i] == f;
    CollectComplete(formulas, masses, w.exact, ionization, unsaturationRange, acc, i);
    var a :| 0 <= a < |acc| && acc[a].formula == f;
    SortSpecPermutation(acc);
    assert acc[a] in multiset(r);
    var j :| 0 <= j < |r| && r[j] == acc[a];
  }

  /** The result is sorted by |deviation|, records with equal |deviation| come in the
      lexicographic order of their counts (the order the enumerator yields them), and no
      formula has two records. */
  lemma SearchOrdered(targetMass: real, ppmTolerance: real, atomRanges: seq<AtomRange>, masses: MassTable,
                      ionization: real, unsaturationRange: (real, real), r: seq<Candidate>)
    requires Search(targetMass, ppmTolerance, atomRanges, masses, ionization, unsaturationRange) == Ok(r)
    ensures Sorted(r)
    ensures TiesInOrder(r)
    ensures forall j, k :: 0 <= j < k < |r| ==> r[j].formula != r[k].formula
  {
    var w := MassWindow(targetMass, ppmTolerance, ionization);
    var formulas := Generate(atomRanges, masses, w.minMass, w.maxMass, DEFAULT_MAX_TOTAL_ATOMS).value;
    var acc := Collect(formulas, masses, w.exact, ionization, unsaturationRange).value;
    SortSpecSorted(acc);
    GenerateOrdered(atomRanges, masses, w.minMass, w.maxMass, DEFAULT_MAX_TOTAL_ATOMS, formulas);
    CollectOrdered(formulas, masses, w.exact, ionization, unsaturationRange, acc);
    SortSpecTies(acc);
    forall j, k | 0 <= j < k < |r| ensures r[j].formula != r[k].formula {
      if r[j].formula == r[k].formula {
        SearchSound(targetMass, ppmTolerance, atomRanges, masses, ionization, unsaturationRange, r, j);
        SearchSound(targetMass, ppmTolerance, atomRanges, masses, ionization, unsaturationRange, r, k);
        LexLessIrreflexive(Counts(r[j].formula));
      }
    }
  }

  /** The result is the stable sort of the collected records: a rearrangement of them,
      sorted by |deviation|, keeping their order among equal keys. */
  lemma SearchIsStableSort(targetMass: real, ppmTolerance: real, atomRanges: seq<AtomRange>, masses: MassTable,
                           ionization: real, unsaturationRange: (real, real), formulas: seq<Formula>,
                           acc: seq<Candidate>)
    requires var w := MassWindow(targetMass, ppmTolerance, ionization);
             Generate(atomRanges, masses, w.minMass, w.maxMass, DEFAULT_MAX_TOTAL_ATOMS) == Ok(formulas)
    requires var w := MassWindow(targetMass, ppmTolerance, ionization);
             Collect(formulas, masses, w.exact, ionization, unsaturationRange) == Ok(acc)
    ensures var r := Search(targetMass, ppmTolerance, atomRanges, masses, ionization, unsaturationRange);
            r.Ok? && multiset(r.value) == multiset(acc) && Sorted(r.value) &&
            forall k :: WithKey(r.value, k) == WithKey(acc, k)
  {
    SortSpecPermutation(acc);
    SortSpecSorted(acc);
    forall k ensures WithKey(SortSpec(acc), k) == WithKey(acc, k) {
      SortSpecStable(acc, k);
    }
  }

  /** |deviation| * |mass| is at most ppm * |exactMass|: a record is within the tolerance. */
  predicate WithinTolerance(c: Candidate, ppmTolerance: real, exact: real)
  {
    Abs(c.deviation) * Abs(c.mass) <= ppmTolerance * Abs(exact)
  }

  /** Every record lies within the ppm tolerance. */
  lemma SearchWithinTolerance(targetMass: real, ppmTolerance: real, atomRanges: seq<AtomRange>, masses: MassTable,
                              ionization: real, unsaturationRange: (real, real), r: seq<Candidate>, j: nat)
    requires Search(targetMass, ppmTolerance, atomRanges, masses, ionization, unsaturationRange) == Ok(r)
    requires j < |r|
    requires ppmTolerance >= 0.0
    ensures WithinTolerance(r[j], ppmTolerance, targetMass - ionization)
  {
    var w := MassWindow(targetMass, ppmTolerance, ionization);
    var c := r[j];
    assert c.mass != 0.0 && c.deviation == Deviation(w.exact, c.mass) && w.minMass <= c.mass <= w.maxMass by {
      SearchSound(targetMass, ppmTolerance, atomRanges, masses, ionization, unsaturationRange, r, j);
    }
    CandidateWithinTolerance(c, targetMass, ppmTolerance, ionization);
  }

  /** A record whose mass lies in the window is within the tolerance. */
  lemma CandidateWithinTolerance(c: Candidate, targetMass: real, ppmTolerance: real, ionization: real)
    requires ppmTolerance >= 0.0
    requires var w := MassWindow(targetMass, ppmTolerance, ionization);
             c.mass != 0.0 && c.deviation == Deviation(w.exact, c.mass) && w.minMass <= c.mass <= w.maxMass
    ensures WithinTolerance(c, ppmTolerance, targetMass - ionization)
  {
    var e := targetMass - ionization;
    assert Abs(c.mass - e) * MILLION <= ppmTolerance * Abs(e) by {
      MassWindowMeaning(targetMass, ppmTolerance, ionization, c.mass);
    }
    assert c.deviation * c.mass == (e - c.mass) * MILLION by {
      DeviationMeaning(e, c.mass);
    }
    ToleranceArithmetic(c, e, ppmTolerance);
  }

  lemma ToleranceArithmetic(c: Candidate, exact: real, ppmTolerance: real)
    requires c.deviation * c.mass == (exact - c.mass) * MILLION
    requires Abs(c.mass - exact) * MILLION <= ppmTolerance * Abs(exact)
    ensures WithinTolerance(c, ppmTolerance, exact)
  {
    AbsProduct(c.deviation, c.mass);
    AbsProduct(exact - c.mass, MILLION);
    assert Abs(exact - c.mass) == Abs(c.mass - exact);
  }

  lemma AbsProduct(x: real, y: real)
    ensures Abs(x * y) == Abs(x) * Abs(y)
  {
    if x < 0.0 && y < 0.0 {
      assert x * y == (-x) * (-y);
    } else if x < 0.0 {
      assert -(x * y) == (-x) * y;
    } else if y < 0.0 {
      assert -(x * y) == x * (-y);
    }
  }

  /** With a mass for every key, positive masses and no negative lower bound, the search
      cannot raise. */
  lemma SearchSucceeds(targetMass: real, ppmTolerance: real, atomRanges: seq<AtomRange>, masses: MassTable,
                       ionization: real, unsaturationRange: (real, real))
    requires KeysHaveMasses(atomRanges, masses)
    requires forall e :: e in masses ==> masses[e] > 0.0
    requires forall k :: 0 <= k < |atomRanges| ==> atomRanges[k].lo >= 0
    ensures Search(targetMass, ppmTolerance, atomRanges, masses, ionization, unsaturationRange).Ok?
  {
    var w := MassWindow(targetMass, ppmTolerance, ionization);
    GenerateFails(atomRanges, masses, w.minMass, w.maxMass, DEFAULT_MAX_TOTAL_ATOMS);
    var formulas := Generate(atomRanges, masses, w.minMass, w.maxMass, DEFAULT_MAX_TOTAL_ATOMS).value;
    forall i | 0 <= i < |formulas| ensures !Raises(formulas[i], masses, unsaturationRange) {
      GenerateSound(atomRanges, masses, w.minMass, w.maxMass, DEFAULT_MAX_TOTAL_ATOMS, formulas, i);
      var f := formulas[i];
      assert forall a :: 0 <= a < |f| ==> f[a].count == Counts(f)[a];
      MassPositive(f, masses);
    }
    CollectFails(formulas, masses, w.exact, ionization, unsaturationRange);
  }

  /** The search raises a KeyError only for a key of the atom ranges that has no mass, and
      a ZeroDivisionError only when a point of the search space gives a formula of mass 0
      (so 0 lies in the window) whose unsaturation is in range; never a valence error. */
  lemma SearchErrors(targetMass: real, ppmTolerance: real, atomRanges: seq<AtomRange>, masses: MassTable,
                     ionization: real, unsaturationRange: (real, real))
    ensures var r := Search(targetMass, ppmTolerance, atomRanges, masses, ionization, unsaturationRange);
            r.Err? ==> r.error.MissingMassEntry? || r.error == DivisionByZero
    ensures var r := Search(targetMass, ppmTolerance, atomRanges, masses, ionization, unsaturationRange);
            r.Err? && r.error.MissingMassEntry? ==>
              exists k :: 0 <= k < |atomRanges| && atomRanges[k].element == r.error.element &&
                          r.error.element !in masses
    ensures var r := Search(targetMass, ppmTolerance, atomRanges, masses, ionization, unsaturationRange);
            var w := MassWindow(targetMass, ppmTolerance, ionization);
            r == Err(DivisionByZero) ==>
              w.minMass <= 0.0 <= w.maxMass &&
              exists c :: InBounds(c, atomRanges) && ZeroMassHit(Zip(RangeKeys(atomRanges), c), masses, unsaturationRange)
  {
    var w := MassWindow(targetMass, ppmTolerance, ionization);
    var g := Generate(atomRanges, masses, w.minMass, w.maxMass, DEFAULT_MAX_TOTAL_ATOMS);
    GenerateFails(atomRanges, masses, w.minMass, w.maxMass, DEFAULT_MAX_TOTAL_ATOMS);
    if g.Ok? {
      var formulas := g.value;
      forall i | 0 <= i < |formulas| ensures Covered(formulas[i], masses) {
        GenerateSound(atomRanges, masses, w.minMass, w.maxMass, DEFAULT_MAX_TOTAL_ATOMS, formulas, i);
      }
      CollectFails(formulas, masses, w.exact, ionization, unsaturationRange);
      if Collect(formulas, masses, w.exact, ionization, unsaturationRange).Err? {
        var i :| 0 <= i < |formulas| && Raises(formulas[i], masses, unsaturationRange);
        GenerateSound(atomRanges, masses, w.minMass, w.maxMass, DEFAULT_MAX_TOTAL_ATOMS, formulas, i);
        var c := Counts(formulas[i]);
        assert formulas[i] == Zip(RangeKeys(atomRanges), c);
        assert ZeroMassHit(Zip(RangeKeys(atomRanges), c), masses, unsaturationRange);
      }
    }
  }

  /** A formula the search would divide by: covered, of mass 0, unsaturation in range. */
  predicate ZeroMassHit(f: Formula, masses: MassTable, unsaturationRange: (real, real))
  {
    Covered(f, masses) && Mass(f, masses) == 0.0 &&
    unsaturationRange.0 <= Unsaturation(f) <= unsaturationRange.1
  }

  /** All-(0, 0) ranges, or any range with min > max, give an empty result and no error. */
  lemma SearchNothingToEnumerate(targetMass: real, ppmTolerance: real, atomRanges: seq<AtomRange>,
                                 masses: MassTable, ionization: real, unsaturationRange: (real, real))
    requires (forall k :: 0 <= k < |atomRanges| ==> atomRanges[k].lo == 0 && atomRanges[k].hi == 0) ||
             (exists k :: 0 <= k < |atomRanges| && atomRanges[k].lo > atomRanges[k].hi)
    ensures Search(targetMass, ppmTolerance, atomRanges, masses, ionization, unsaturationRange) == Ok([])
  {
    var w := MassWindow(targetMass, ppmTolerance, ionization);
    if exists k :: 0 <= k < |atomRanges| && atomRanges[k].lo > atomRanges[k].hi {
      var k :| 0 <= k < |atomRanges| && atomRanges[k].lo > atomRanges[k].hi;
      GenerateEmptyRange(atomRanges, masses, w.minMass, w.maxMass, DEFAULT_MAX_TOTAL_ATOMS, k);
    } else {
      GenerateAllZeroRanges(atomRanges, masses, w.minMass, w.maxMass, DEFAULT_MAX_TOTAL_ATOMS);
    }
  }

  /** Re-sorting the result by |deviation| leaves it unchanged. */
  lemma SearchResortIsIdentity(targetMass: real, ppmTolerance: real, atomRanges: seq<AtomRange>,
                               masses: MassTable, ionization: real, unsaturationRange: (real, real),
                               r: seq<Candidate>)
    requires Search(targetMass, ppmTolerance, atomRanges, masses, ionization, unsaturationRange) == Ok(r)
    ensures SortSpec(r) == r
  {
    var w := MassWindow(targetMass, ppmTolerance, ionization);
    var formulas := Generate(atomRanges, masses, w.minMass, w.maxMass, DEFAULT_MAX_TOTAL_ATOMS).value;
    var acc := Collect(formulas, masses, w.exact, ionization, unsaturationRange).value;
    SortSpecIdempotent(acc);
  }
}
