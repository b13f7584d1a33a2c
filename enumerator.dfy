/** The formula enumerator: walks the Cartesian product of the atom ranges in odometer
    order and keeps the formulas with between 1 and maxTotalAtoms atoms whose mass lies in
    the inclusive window [minMass, maxMass]. */
module Enumerator {
  import opened Common
  import opened MassModel
  import opened SearchSpace

  /** The default cap on the total atom count of a formula. */
  const DEFAULT_MAX_TOTAL_ATOMS: int := 150

  /** The keys of the atom-range dictionary, in order. */
  function RangeKeys(atomRanges: seq<AtomRange>): seq<Element>
  {
    seq(|atomRanges|, i requires 0 <= i < |atomRanges| => atomRanges[i].element)
  }

  /** The atom-count filter: a formula with no atom, or with more than `maxTotalAtoms`,
      is skipped. */
  predicate AtomCountOk(f: Formula, maxTotalAtoms: int)
  {
    var t := TotalCount(f);
    !(t == 0 || t > maxTotalAtoms)
  }

  /** A formula passes both filters: atom count, and mass within [minMass, maxMass]. */
  predicate Admitted(f: Formula, masses: MassTable, minMass: real, maxMass: real, maxTotalAtoms: int)
  {
    AtomCountOk(f, maxTotalAtoms) && Covered(f, masses) && minMass <= Mass(f, masses) <= maxMass
  }

  /** The loop of generate_formulas over a list of count tuples: the formulas yielded,
      in order, or the KeyError raised by calculate_mass on the first tuple that passes
      the atom-count filter while a key has no mass. */
  function Sieve(keys: seq<Element>, combos: seq<seq<int>>, masses: MassTable,
                 minMass: real, maxMass: real, maxTotalAtoms: int): Result<seq<Formula>>
    decreases |combos|
  {
    if combos == [] then Ok([])
    else
      match Sieve(keys, combos[..|combos| - 1], masses, minMass, maxMass, maxTotalAtoms)
      case Err(e) => Err(e)
      case Ok(out) =>
        var f := Zip(keys, combos[|combos| - 1]);
        if !AtomCountOk(f, maxTotalAtoms) then Ok(out)
        else
          match CalculateMass(f, masses)
          case Err(e) => Err(e)
          case Ok(m) => if minMass <= m <= maxMass then Ok(out + [f]) else Ok(out)
  }

  /** generate_formulas, as the finite list of everything the generator yields. */
  function Generate(atomRanges: seq<AtomRange>, masses: MassTable,
                    minMass: real, maxMass: real, maxTotalAtoms: int): Result<seq<Formula>>
  {
    Sieve(RangeKeys(atomRanges), Product(atomRanges), masses, minMass, maxMass, maxTotalAtoms)
  }

  /** generate_formulas: the loop over the product with its `continue`/`yield` filter;
      the yielded formulas are collected in order. */
  method GenerateFormulas(atomRanges: seq<AtomRange>, masses: MassTable,
                          minMass: real, maxMass: real, maxTotalAtoms: int)
    returns (r: Result<seq<Formula>>)
    ensures r == Generate(atomRanges, masses, minMass, maxMass, maxTotalAtoms)
  {
    var keys := RangeKeys(atomRanges);
    var combos := Product(atomRanges);
    var out: seq<Formula> := [];
    for i := 0 to |combos|
      invariant Sieve(keys, combos[..i], masses, minMass, maxMass, maxTotalAtoms) == Ok(out)
    {
      assert combos[..i + 1][..i] == combos[..i];
      var formula := Zip(keys, combos[i]);
      var totalAtoms := TotalCount(formula);
      if totalAtoms == 0 || totalAtoms > maxTotalAtoms {
        continue;
      }
      var mass := CalculateMass(formula, masses);
      if mass.Err? {
        SieveErrPersists(keys, combos, masses, minMass, maxMass, maxTotalAtoms, i + 1);
        assert combos[..|combos|] == combos;
        return Err(mass.error);
      }
      if minMass <= mass.value <= maxMass {
        out := out + [formula];
      }
    }
    assert combos[..|combos|] == combos;
    return Ok(out);
  }

  /** Once the loop has raised, it stays raised. */
  lemma {:induction false} SieveErrPersists(keys: seq<Element>, combos: seq<seq<int>>, masses: MassTable,
                                            minMass: real, maxMass: real, maxTotalAtoms: int, i: nat)
    requires i <= |combos|
    requires Sieve(keys, combos[..i], masses, minMass, maxMass, maxTotalAtoms).Err?
    ensures Sieve(keys, combos, masses, minMass, maxMass, maxTotalAtoms)
         == Sieve(keys, combos[..i], masses, minMass, maxMass, maxTotalAtoms)
    decreases |combos| - i
  {
    if i < |combos| {
      assert combos[..i + 1][..i] == combos[..i];
      SieveErrPersists(keys, combos, masses, minMass, maxMass, maxTotalAtoms, i + 1);
    } else {
      assert combos[..i] == combos;
    }
  }

  /** Everything the loop yields passes both filters and is built from one of the tuples. */
  lemma {:induction false} SieveSound(keys: seq<Element>, combos: seq<seq<int>>, masses: MassTable,
                                      minMass: real, maxMass: real, maxTotalAtoms: int, out: seq<Formula>)
    requires Sieve(keys, combos, masses, minMass, maxMass, maxTotalAtoms) == Ok(out)
    ensures forall j :: 0 <= j < |out| ==> Admitted(out[j], masses, minMass, maxMass, maxTotalAtoms)
    ensures forall j :: 0 <= j < |out| ==> exists i :: 0 <= i < |combos| && out[j] == Zip(keys, combos[i])
    decreases |combos|
  {
    if combos != [] {
      var n := |combos|;
      var prefix := combos[..n - 1];
      var rest := Sieve(keys, prefix, masses, minMass, maxMass, maxTotalAtoms);
      assert rest.Ok?;
      SieveSound(keys, prefix, masses, minMass, maxMass, maxTotalAtoms, rest.value);
      forall j | 0 <= j < |rest.value|
        ensures exists i :: 0 <= i < |combos| && rest.value[j] == Zip(keys, combos[i])
      {
        var i :| 0 <= i < |prefix| && rest.value[j] == Zip(keys, prefix[i]);
        assert prefix[i] == combos[i];
      }
    }
  }

  /** The loop yields every tuple that passes both filters. */
  lemma {:induction false} SieveComplete(keys: seq<Element>, combos: seq<seq<int>>, masses: MassTable,
                                         minMass: real, maxMass: real, maxTotalAtoms: int,
                                         out: seq<Formula>, i: nat)
    requires Sieve(keys, combos, masses, minMass, maxMass, maxTotalAtoms) == Ok(out)
    requires i < |combos|
    requires Admitted(Zip(keys, combos[i]), masses, minMass, maxMass, maxTotalAtoms)
    ensures Zip(keys, combos[i]) in out
    decreases |combos|
  {
    var n := |combos|;
    var prefix := combos[..n - 1];
    var rest := Sieve(keys, prefix, masses, minMass, maxMass, maxTotalAtoms);
    assert rest.Ok?;
    if i < n - 1 {
      assert prefix[i] == combos[i];
      SieveComplete(keys, prefix, masses, minMass, maxMass, maxTotalAtoms, rest.value, i);
    }
  }

  /** The loop raises exactly when some tuple passes the atom-count filter while one of
      its keys has no mass, and then the error names a key the mass table lacks. */
  lemma {:induction false} SieveFails(keys: seq<Element>, combos: seq<seq<int>>, masses: MassTable,
                                      minMass: real, maxMass: real, maxTotalAtoms: int)
    ensures Sieve(keys, combos, masses, minMass, maxMass, maxTotalAtoms).Err? <==>
            exists i :: 0 <= i < |combos| && AtomCountOk(Zip(keys, combos[i]), maxTotalAtoms) &&
                        !Covered(Zip(keys, combos[i]), masses)
    ensures Sieve(keys, combos, masses, minMass, maxMass, maxTotalAtoms).Err? ==>
            exists i :: 0 <= i < |keys| &&
                        Sieve(keys, combos, masses, minMass, maxMass, maxTotalAtoms).error == MissingMassEntry(keys[i]) &&
                        keys[i] !in masses
    decreases |combos|
  {
    if combos != [] {
      var n := |combos|;
      var prefix := combos[..n - 1];
      SieveFails(keys, prefix, masses, minMass, maxMass, maxTotalAtoms);
      var f := Zip(keys, combos[n - 1]);
      if exists i :: 0 <= i < |prefix| && AtomCountOk(Zip(keys, prefix[i]), maxTotalAtoms) &&
                     !Covered(Zip(keys, prefix[i]), masses) {
        var i :| 0 <= i < |prefix| && AtomCountOk(Zip(keys, prefix[i]), maxTotalAtoms) &&
                 !Covered(Zip(keys, prefix[i]), masses);
        assert prefix[i] == combos[i];
      } else {
        forall i | 0 <= i < n - 1
          ensures !(AtomCountOk(Zip(keys, combos[i]), maxTotalAtoms) && !Covered(Zip(keys, combos[i]), masses))
        {
          assert prefix[i] == combos[i];
        }
        var r := CalculateMass(f, masses);
        if AtomCountOk(f, maxTotalAtoms) && r.Err? {
          var j :| 0 <= j < |f| && f[j].element == r.error.element;
          assert f[j].element == keys[j];
        }
      }
    }
  }

  /** When all tuples are ordered and have one count per key, the yielded formulas are in
      strictly increasing lexicographic order of their counts. */
  lemma {:induction false} SieveOrdered(keys: seq<Element>, combos: seq<seq<int>>, masses: MassTable,
                                        minMass: real, maxMass: real, maxTotalAtoms: int, out: seq<Formula>)
    requires StrictlyIncreasing(combos)
    requires forall i :: 0 <= i < |combos| ==> |combos[i]| == |keys|
    requires Sieve(keys, combos, masses, minMass, maxMass, maxTotalAtoms) == Ok(out)
    ensures forall j, k :: 0 <= j < k < |out| ==> LexLess(Counts(out[j]), Counts(out[k]))
    decreases |combos|
  {
    if combos != [] {
      var n := |combos|;
      var prefix := combos[..n - 1];
      var rest := Sieve(keys, prefix, masses, minMass, maxMass, maxTotalAtoms);
      assert rest.Ok?;
      assert StrictlyIncreasing(prefix) by {
        forall a, b | 0 <= a < b < |prefix| ensures LexLess(prefix[a], prefix[b]) {
          assert prefix[a] == combos[a] && prefix[b] == combos[b];
        }
      }
      SieveOrdered(keys, prefix, masses, minMass, maxMass, maxTotalAtoms, rest.value);
      SieveSound(keys, prefix, masses, minMass, maxMass, maxTotalAtoms, rest.value);
      var last := Zip(keys, combos[n - 1]);
      ZipRoundTrip(keys, combos[n - 1]);
      forall j | 0 <= j < |rest.value| ensures LexLess(Counts(rest.value[j]), Counts(last)) {
        var i :| 0 <= i < |prefix| && rest.value[j] == Zip(keys, prefix[i]);
        assert prefix[i] == combos[i];
        ZipRoundTrip(keys, combos[i]);
      }
    }
  }

  /** Each yielded formula has exactly the keys of the atom ranges, each count within its
      inclusive range, between 1 and maxTotalAtoms atoms when no lower bound is negative, and
      a mass in [minMass, maxMass]. */
  lemma GenerateSound(atomRanges: seq<AtomRange>, masses: MassTable, minMass: real, maxMass: real,
                      maxTotalAtoms: int, out: seq<Formula>, j: nat)
    requires Generate(atomRanges, masses, minMass, maxMass, maxTotalAtoms) == Ok(out)
    requires j < |out|
    ensures Elements(out[j]) == RangeKeys(atomRanges)
    ensures InBounds(Counts(out[j]), atomRanges)
    ensures Covered(out[j], masses) && minMass <= Mass(out[j], masses) <= maxMass
    ensures TotalCount(out[j]) != 0 && TotalCount(out[j]) <= maxTotalAtoms
    ensures (forall k :: 0 <= k < |atomRanges| ==> atomRanges[k].lo >= 0) ==> 1 <= TotalCount(out[j])
  {
    var keys, combos := RangeKeys(atomRanges), Product(atomRanges);
    SieveSound(keys, combos, masses, minMass, maxMass, maxTotalAtoms, out);
    var i :| 0 <= i < |combos| && out[j] == Zip(keys, combos[i]);
    ProductMembership(atomRanges, combos[i]);
    ZipRoundTrip(keys, combos[i]);
    if forall k :: 0 <= k < |atomRanges| ==> atomRanges[k].lo >= 0 {
      TotalCountNonNegative(out[j]);
    }
  }

  lemma {:induction false} TotalCountNonNegative(f: Formula)
    requires forall i :: 0 <= i < |f| ==> f[i].count >= 0
    ensures TotalCount(f) >= 0
  {
    if f != [] {
      TotalCountNonNegative(f[1..]);
    }
  }

  /** Every point of the search space that passes both filters is yielded. */
  lemma GenerateComplete(atomRanges: seq<AtomRange>, masses: MassTable, minMass: real, maxMass: real,
                         maxTotalAtoms: int, out: seq<Formula>, c: seq<int>)
    requires Generate(atomRanges, masses, minMass, maxMass, maxTotalAtoms) == Ok(out)
    requires InBounds(c, atomRanges)
    requires Admitted(Zip(RangeKeys(atomRanges), c), masses, minMass, maxMass, maxTotalAtoms)
    ensures Zip(RangeKeys(atomRanges), c) in out
  {
    var combos := Product(atomRanges);
    ProductMembership(atomRanges, c);
    var i :| 0 <= i < |combos| && combos[i] == c;
    SieveComplete(RangeKeys(atomRanges), combos, masses, minMass, maxMass, maxTotalAtoms, out, i);
  }

  /** The yields follow the lexicographic order of the product over the key order of the
      atom ranges; so no formula is yielded twice. */
  lemma GenerateOrdered(atomRanges: seq<AtomRange>, masses: MassTable, minMass: real, maxMass: real,
                        maxTotalAtoms: int, out: seq<Formula>)
    requires Generate(atomRanges, masses, minMass, maxMass, maxTotalAtoms) == Ok(out)
    ensures forall j, k :: 0 <= j < k < |out| ==> LexLess(Counts(out[j]), Counts(out[k]))
    ensures forall j, k :: 0 <= j < k < |out| ==> out[j] != out[k]
  {
    var combos := Product(atomRanges);
    ProductOrdered(atomRanges);
    forall i | 0 <= i < |combos| ensures |combos[i]| == |RangeKeys(atomRanges)| {
      ProductMembership(atomRanges, combos[i]);
    }
    SieveOrdered(RangeKeys(atomRanges), combos, masses, minMass, maxMass, maxTotalAtoms, out);
    forall j, k | 0 <= j < k < |out| ensures out[j] != out[k] {
      LexLessIrreflexive(Counts(out[j]));
    }
  }

  /** Every key of the atom ranges has a mass. */
  predicate KeysHaveMasses(atomRanges: seq<AtomRange>, masses: MassTable)
  {
    forall k :: 0 <= k < |atomRanges| ==> atomRanges[k].element in masses
  }

  lemma CoveredZip(atomRanges: seq<AtomRange>, masses: MassTable, c: seq<int>)
    requires |c| == |atomRanges|
    ensures Covered(Zip(RangeKeys(atomRanges), c), masses) <==> KeysHaveMasses(atomRanges, masses)
  {
    var f := Zip(RangeKeys(atomRanges), c);
    assert forall k :: 0 <= k < |atomRanges| ==> f[k].element == atomRanges[k].element;
  }

  /** The generator raises (a KeyError naming a key without a mass) exactly when some key
      of the atom ranges has no mass and some point of the search space passes the
      atom-count filter; so all-(0, 0) ranges with a missing mass raise nothing. */
  lemma GenerateFails(atomRanges: seq<AtomRange>, masses: MassTable, minMass: real, maxMass: real,
                      maxTotalAtoms: int)
    ensures Generate(atomRanges, masses, minMass, maxMass, maxTotalAtoms).Err? <==>
              !KeysHaveMasses(atomRanges, masses) &&
              exists c :: InBounds(c, atomRanges) && AtomCountOk(Zip(RangeKeys(atomRanges), c), maxTotalAtoms)
    ensures Generate(atomRanges, masses, minMass, maxMass, maxTotalAtoms).Err? ==>
              exists k :: 0 <= k < |atomRanges| && atomRanges[k].element !in masses &&
                Generate(atomRanges, masses, minMass, maxMass, maxTotalAtoms).error == MissingMassEntry(atomRanges[k].element)
  {
    var keys, combos := RangeKeys(atomRanges), Product(atomRanges);
    SieveFails(keys, combos, masses, minMass, maxMass, maxTotalAtoms);
    var g := Generate(atomRanges, masses, minMass, maxMass, maxTotalAtoms);
    if g.Err? {
      var i :| 0 <= i < |combos| && AtomCountOk(Zip(keys, combos[i]), maxTotalAtoms) &&
               !Covered(Zip(keys, combos[i]), masses);
      ProductMembership(atomRanges, combos[i]);
      CoveredZip(atomRanges, masses, combos[i]);
    }
    if !KeysHaveMasses(atomRanges, masses) &&
       exists c :: InBounds(c, atomRanges) && AtomCountOk(Zip(keys, c), maxTotalAtoms) {
      var c :| InBounds(c, atomRanges) && AtomCountOk(Zip(keys, c), maxTotalAtoms);
      ProductMembership(atomRanges, c);
      CoveredZip(atomRanges, masses, c);
      var i :| 0 <= i < |combos| && combos[i] == c;
    }
  }

  /** Laziness does not matter: once the generator has yielded a formula it cannot raise
      later, so collecting its yields first and then processing them is the same as
      processing each as it comes. */
  lemma NoErrorAfterYield(atomRanges: seq<AtomRange>, masses: MassTable, minMass: real, maxMass: real,
                          maxTotalAtoms: int, i: nat, out: seq<Formula>)
    requires i <= |Product(atomRanges)|
    requires Sieve(RangeKeys(atomRanges), Product(atomRanges)[..i], masses, minMass, maxMass, maxTotalAtoms) == Ok(out)
    requires out != []
    ensures Generate(atomRanges, masses, minMass, maxMass, maxTotalAtoms).Ok?
  {
    var keys, combos := RangeKeys(atomRanges), Product(atomRanges);
    SieveSound(keys, combos[..i], masses, minMass, maxMass, maxTotalAtoms, out);
    var a :| 0 <= a < i && out[0] == Zip(keys, combos[..i][a]);
    ProductMembership(atomRanges, combos[a]);
    assert combos[..i][a] == combos[a];
    CoveredZip(atomRanges, masses, combos[a]);
    GenerateFails(atomRanges, masses, minMass, maxMass, maxTotalAtoms);
  }

  /** If every range is (0, 0) the only point has no atom, so nothing is yielded. */
  lemma GenerateAllZeroRanges(atomRanges: seq<AtomRange>, masses: MassTable, minMass: real, maxMass: real,
                              maxTotalAtoms: int)
    requires forall k :: 0 <= k < |atomRanges| ==> atomRanges[k].lo == 0 && atomRanges[k].hi == 0
    ensures Generate(atomRanges, masses, minMass, maxMass, maxTotalAtoms) == Ok([])
  {
    var keys := RangeKeys(atomRanges);
    forall c | InBounds(c, atomRanges) ensures !AtomCountOk(Zip(keys, c), maxTotalAtoms) {
      ZeroCounts(Zip(keys, c));
    }
    GenerateFails(atomRanges, masses, minMass, maxMass, maxTotalAtoms);
    var g := Generate(atomRanges, masses, minMass, maxMass, maxTotalAtoms);
    if g.value != [] {
      GenerateSound(atomRanges, masses, minMass, maxMass, maxTotalAtoms, g.value, 0);
      assert forall i :: 0 <= i < |g.value[0]| ==> g.value[0][i].count == Counts(g.value[0])[i];
      ZeroCounts(g.value[0]);
    }
  }

  lemma {:induction false} ZeroCounts(f: Formula)
    requires forall i :: 0 <= i < |f| ==> f[i].count == 0
    ensures TotalCount(f) == 0
  {
    if f != [] {
      ZeroCounts(f[1..]);
    }
  }

  /** A range with min > max is empty, so the whole product is empty and nothing is
      yielded; no error is raised for it. */
  lemma GenerateEmptyRange(atomRanges: seq<AtomRange>, masses: MassTable, minMass: real, maxMass: real,
                           maxTotalAtoms: int, k: nat)
    requires k < |atomRanges| && atomRanges[k].lo > atomRanges[k].hi
    ensures Generate(atomRanges, masses, minMass, maxMass, maxTotalAtoms) == Ok([])
  {
    var combos := Product(atomRanges);
    if combos != [] {
      ProductMembership(atomRanges, combos[0]);
      assert false;
    }
  }
}
