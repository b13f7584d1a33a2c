/** The valence check. Both sides of its comparison are the same weighted sum over
    the same valence table, so on a dictionary it can only answer true (or raise
    for a symbol the table lacks). It is reproduced as it stands; the search does
    not call it. */
module Valence {
  import opened Common

  /** The maximum valence of each symbol the valence check knows. */
  const VALENCY: map<Element, int> :=
    map["C" := 4, "H" := 1, "N" := 3, "O" := 2, "S" := 2, "F" := 1, "Cl" := 7, "Br" := 7, "I" := 7]

  /** `totalBonds`: the nine known symbols, each read with `get(symbol, 0)` and weighted
      by its valence written out as a literal. */
  function TotalBonds(f: Formula): int
  {
    4 * Get(f, "C") + 1 * Get(f, "H") + 3 * Get(f, "N") + 2 * Get(f, "O") + 2 * Get(f, "S")
    + 1 * Get(f, "F") + 7 * Get(f, "Cl") + 7 * Get(f, "Br") + 7 * Get(f, "I")
  }

  /** `maxPossibleBonds`: Σ VALENCY[symbol] * count over the formula's items. */
  function MaxPossibleBonds(f: Formula): int
    requires forall i :: 0 <= i < |f| ==> f[i].element in VALENCY
  {
    if f == [] then 0 else VALENCY[f[0].element] * f[0].count + MaxPossibleBonds(f[1..])
  }

  /** is_valid_formula: `totalBonds <= maxPossibleBonds`, or the KeyError raised while
      summing `maxPossibleBonds` at the first item whose symbol has no valence. */
  function IsValidFormula(f: Formula): (r: Result<bool>)
    ensures r.Err? <==> exists i :: 0 <= i < |f| && f[i].element !in VALENCY
    ensures r.Err? ==> r.error.UnknownValence? && r.error.element !in VALENCY &&
                       exists i :: 0 <= i < |f| && f[i].element == r.error.element &&
                         forall j :: 0 <= j < i ==> f[j].element in VALENCY
  {
    match FirstMissing(f, VALENCY.Keys)
    case Some(k) => Err(UnknownValence(k))
    case None => Ok(TotalBonds(f) <= MaxPossibleBonds(f))
  }

  /** What an item `e: n` contributes to `get(k, 0)`. */
  function Share(e: Element, n: int, k: Element): int
  {
    if e == k then n else 0
  }

  /** What an item `e: n` contributes to `totalBonds`. */
  function BondShare(e: Element, n: int): int
  {
    4 * Share(e, n, "C") + 1 * Share(e, n, "H") + 3 * Share(e, n, "N") + 2 * Share(e, n, "O")
    + 2 * Share(e, n, "S") + 1 * Share(e, n, "F") + 7 * Share(e, n, "Cl") + 7 * Share(e, n, "Br")
    + 7 * Share(e, n, "I")
  }

  /** Peeling the first item off a dictionary peels its share off `totalBonds`. */
  lemma TotalBondsCons(f: Formula)
    requires DistinctKeys(f) && f != []
    ensures TotalBonds(f) == BondShare(f[0].element, f[0].count) + TotalBonds(f[1..])
  {
    assert Get(f[1..], f[0].element) == 0 by {
      assert forall i :: 0 <= i < |f[1..]| ==> f[1..][i].element == f[i + 1].element != f[0].element;
    }
  }

  /** For a known symbol, its share of `totalBonds` is its valence times its count. */
  lemma BondShareIsValency(e: Element, n: int)
    requires e in VALENCY
    ensures BondShare(e, n) == VALENCY[e] * n
  {
  }

  /** For a dictionary over known symbols the two sums agree. */
  lemma {:induction false} BondSumsAgree(f: Formula)
    requires DistinctKeys(f)
    requires forall i :: 0 <= i < |f| ==> f[i].element in VALENCY
    ensures TotalBonds(f) == MaxPossibleBonds(f)
  {
    if f != [] {
      DistinctTail(f);
      TotalBondsCons(f);
      BondShareIsValency(f[0].element, f[0].count);
      assert forall i :: 0 <= i < |f[1..]| ==> f[1..][i] == f[i + 1];
      BondSumsAgree(f[1..]);
    }
  }

  /** The valence check is vacuous: on a dictionary whose symbols all have a valence it returns
      true, and otherwise it raises; it never returns false. */
  lemma ValenceCheckIsVacuous(f: Formula)
    requires DistinctKeys(f)
    ensures IsValidFormula(f) != Ok(false)
    ensures (forall i :: 0 <= i < |f| ==> f[i].element in VALENCY) ==> IsValidFormula(f) == Ok(true)
  {
    if forall i :: 0 <= i < |f| ==> f[i].element in VALENCY {
      BondSumsAgree(f);
    }
  }
}
