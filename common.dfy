/** Shared vocabulary of the formula-search engine: element symbols, formulas as
    ordered dictionaries of atom counts, atom ranges, candidate results and the
    errors the engine can raise. */
module Common {

  /** An element symbol such as "C" or "Cl"; it is only ever compared and looked up. */
  type Element = string

  /** One `symbol: count` item of a formula dictionary. */
  datatype Entry = Entry(element: Element, count: int)

  /** A formula dictionary: its items in insertion order. A dictionary never holds
      a key twice (see DistinctKeys). */
  type Formula = seq<Entry>

  /** Element symbol to monoisotopic mass (exact rationals instead of floats). */
  type MassTable = map<Element, real>

  /** One `symbol: (min, max)` item of the atom-range dictionary; both ends inclusive. */
  datatype AtomRange = AtomRange(element: Element, lo: int, hi: int)

  /** One accepted candidate of a search: the record built by find_molecular_formulas. */
  datatype Candidate = Candidate(formula: Formula, mass: real, mz: real, deviation: real, unsaturation: real)

  /** The exceptions the engine can raise. */
  datatype SearchError =
    | MissingMassEntry(element: Element)  // KeyError on the mass table
    | UnknownValence(element: Element)    // KeyError on the valence table
    | DivisionByZero                      // ZeroDivisionError in the deviation

  datatype Option<T> = None | Some(value: T)

  datatype Result<T> = Ok(value: T) | Err(error: SearchError)

  predicate DistinctKeys(f: Formula)
  {
    forall i, j :: 0 <= i < j < |f| ==> f[i].element != f[j].element
  }

  /** The symbols of a formula, in order. */
  function Elements(f: Formula): seq<Element>
  {
    seq(|f|, i requires 0 <= i < |f| => f[i].element)
  }

  /** The counts of a formula, in order (the dictionary's values()). */
  function Counts(f: Formula): seq<int>
  {
    seq(|f|, i requires 0 <= i < |f| => f[i].count)
  }

  /** `dict(zip(keys, counts))`: pairs up keys and counts, stopping at the shorter one. */
  function Zip(keys: seq<Element>, counts: seq<int>): Formula
  {
    var n := if |keys| <= |counts| then |keys| else |counts|;
    seq(n, i requires 0 <= i < n => Entry(keys[i], counts[i]))
  }

  lemma ZipRoundTrip(keys: seq<Element>, counts: seq<int>)
    requires |keys| == |counts|
    ensures Elements(Zip(keys, counts)) == keys
    ensures Counts(Zip(keys, counts)) == counts
  {
  }

  /** `formula.get(k, 0)`: the count stored under `k`, or 0 when `k` is absent. */
  function Get(f: Formula, k: Element): (n: int)
    ensures (forall i :: 0 <= i < |f| ==> f[i].element != k) ==> n == 0
  {
    if f == [] then 0
    else if f[0].element == k then f[0].count
    else Get(f[1..], k)
  }

  /** In a dictionary, `get` returns the count of the one item with that key. */
  lemma {:induction false} GetEntry(f: Formula, i: nat)
    requires DistinctKeys(f)
    requires i < |f|
    ensures Get(f, f[i].element) == f[i].count
  {
    if i > 0 {
      assert f[1..][i - 1] == f[i];
      assert DistinctKeys(f[1..]) by {
        forall a, b | 0 <= a < b < |f[1..]| ensures f[1..][a].element != f[1..][b].element {
          assert f[1..][a] == f[a + 1] && f[1..][b] == f[b + 1];
        }
      }
      GetEntry(f[1..], i - 1);
    }
  }

  /** On a dictionary, `get` of a key splits into the first item's share and the rest's. */
  lemma GetCons(f: Formula, k: Element)
    requires DistinctKeys(f) && f != []
    ensures Get(f, k) == (if f[0].element == k then f[0].count else 0) + Get(f[1..], k)
  {
    if f[0].element == k {
      assert forall i :: 0 <= i < |f[1..]| ==> f[1..][i].element == f[i + 1].element != k;
    }
  }

  lemma DistinctTail(f: Formula)
    requires DistinctKeys(f) && f != []
    ensures DistinctKeys(f[1..])
  {
    forall a, b | 0 <= a < b < |f[1..]| ensures f[1..][a].element != f[1..][b].element {
      assert f[1..][a] == f[a + 1] && f[1..][b] == f[b + 1];
    }
  }

  /** `get` on a dictionary depends only on its items, not on their order. */
  lemma GetPermutation(f: Formula, g: Formula, k: Element)
    requires DistinctKeys(f) && DistinctKeys(g)
    requires multiset(f) == multiset(g)
    ensures Get(f, k) == Get(g, k)
  {
    if exists i :: 0 <= i < |f| && f[i].element == k {
      var i :| 0 <= i < |f| && f[i].element == k;
      assert f[i] in multiset(g);
      var j :| 0 <= j < |g| && g[j] == f[i];
      GetEntry(f, i);
      GetEntry(g, j);
    } else {
      forall j | 0 <= j < |g| ensures g[j].element != k {
        assert g[j] in multiset(f);
      }
    }
  }

  /** `sum(formula.values())`: the total atom count. */
  function TotalCount(f: Formula): int
  {
    if f == [] then 0 else f[0].count + TotalCount(f[1..])
  }

  /** The first symbol of `f` (in item order) that `known` lacks, if any. */
  function FirstMissing(f: Formula, known: set<Element>): (r: Option<Element>)
    ensures r.None? <==> forall i :: 0 <= i < |f| ==> f[i].element in known
    ensures r.Some? ==> r.value !in known
    ensures r.Some? ==> exists i :: 0 <= i < |f| && f[i].element == r.value &&
                          forall j :: 0 <= j < i ==> f[j].element in known
  {
    if f == [] then None
    else if f[0].element !in known then Some(f[0].element)
    else
      var r := FirstMissing(f[1..], known);
      assert r.Some? ==> exists i :: 0 <= i < |f| && f[i].element == r.value &&
                           forall j :: 0 <= j < i ==> f[j].element in known by {
        if r.Some? {
          var i :| 0 <= i < |f[1..]| && f[1..][i].element == r.value &&
                   forall j :: 0 <= j < i ==> f[1..][j].element in known;
          forall j | 0 <= j < i + 1 ensures f[j].element in known {
            if j > 0 { assert f[j] == f[1..][j - 1]; }
          }
          assert f[i + 1] == f[1..][i];
        }
      }
      assert r.None? ==> forall i :: 0 <= i < |f| ==> f[i].element in known by {
        if r.None? {
          forall i | 0 <= i < |f| ensures f[i].element in known {
            if i > 0 { assert f[i] == f[1..][i - 1]; }
          }
        }
      }
      r
  }
}
