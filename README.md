# CATculator formula search, modelled in Dafny

CATculator finds candidate molecular formulas for a measured mass. Its engine, `models/base.py`, has five parts:

- `calculate_mass`: the monoisotopic mass of a formula.
- `calculate_unsaturation`: its double-bond equivalents (DBE).
- `is_valid_formula`: a valence check.
- `generate_formulas`: an enumerator over per-element atom-count ranges.
- `find_molecular_formulas`: the search. It builds a ppm mass window around the de-ionised target mass, runs the enumerator, keeps formulas whose unsaturation is in range, builds one record per survivor and sorts the records by |ppm deviation|.

This project models that engine and proves what it computes.

Representation:

- A formula dictionary is a sequence of `Entry(element, count)` items in insertion order (`Common.Formula`). Item order fixes the enumeration order and the tie order of the sort.
- Masses, tolerances, deviations and unsaturation are exact `real`s.
- Python exceptions become a `Result`:
  - `MissingMassEntry` for the `KeyError` on the mass table;
  - `UnknownValence` for the `KeyError` on the valence table;
  - `DivisionByZero` for the `ZeroDivisionError` in the deviation.

Modules, following the program's structure:

- `Common`: formulas, `get`, errors.
- `MassModel`: `calculate_mass`, `calculate_unsaturation`.
- `Valence`: `is_valid_formula`.
- `SearchSpace`: `range`, `itertools.product`.
- `Enumerator`: `generate_formulas`.
- `Sorting`: `list.sort` with `key=abs(deviation)`.
- `Search`: `find_molecular_formulas`.

Three behaviours of the code matter to callers:

- No `InvalidRange` error is raised. A range with min > max is an empty `range`, so nothing is enumerated and the result is empty (`Enumerator.GenerateEmptyRange`).
- Mass-table coverage is not checked up front. The `KeyError` comes from `calculate_mass` on the first tuple that passes the atom-count filter. So a key without a mass raises nothing when every tuple has zero atoms (`Enumerator.GenerateFails`). It still happens before anything is yielded (`Enumerator.NoErrorAfterYield`).
- The division by zero is not guarded. It is reachable only when a yielded formula has mass 0 and its unsaturation is in range (`Search.SearchErrors`). That cannot happen with positive masses and non-negative lower bounds (`Search.SearchSucceeds`).

## Model

| member | source | states |
|---|---|---|
| MassModel.Mass | models/base.py:12 | The generator sum Σ mass[symbol]·count over the items, for a formula whose symbols all have a mass. It has no contract of its own; its properties are stated by `MassModel.CalculateMass`, `MassAdditive`, `MassAppend`, `MassOfZeroCounts`, `MassPermutation` and `MassPositive`. |
| MassModel.CalculateMass | models/base.py:5-12 | Succeeds exactly when every symbol has a mass; the value is then Σ mass[symbol]·count. Otherwise the error names the first symbol, in item order, that has no mass. |
| MassModel.MassAdditive | models/base.py:12 | Summing the counts of two formulas over the same symbols sums their masses. |
| MassModel.MassOfZeroCounts | models/base.py:12 | A formula whose counts are all 0 has mass 0. |
| MassModel.MassAppend | models/base.py:12 | The mass of two item lists written one after the other is the sum of their masses. |
| MassModel.MassPermutation | models/base.py:12 | The mass does not depend on the order of the items. |
| MassModel.MassPositive | models/base.py:12 | With positive masses and non-negative counts the mass is ≥ 0, and > 0 once there is at least one atom. |
| MassModel.Unsaturation | models/base.py:14-34 | `calculate_unsaturation`: C − (H + F + Cl + Br + I)/2 + N/2 + 1, each count read with `get(symbol, 0)`, in exact arithmetic. It has no contract of its own; what it means is stated by `UnsaturationIsItemSum`, `UnsaturationIgnoresOtherElements`, `UnsaturationWithoutDbeElements` and `UnsaturationPermutation`. |
| MassModel.UnsaturationIsItemSum | models/base.py:14-34 | On a dictionary, C − (H+F+Cl+Br+I)/2 + N/2 + 1 (absent symbols read as 0) equals 1 + Σ weight(symbol)·count. The weight is +1 for C, +1/2 for N, −1/2 for H and each halogen, 0 otherwise. |
| MassModel.UnsaturationIgnoresOtherElements | models/base.py:22-34 | Symbols other than C, H, N and the halogens never change the index. |
| MassModel.UnsaturationWithoutDbeElements | models/base.py:22-34 | A formula with no C, H, N or halogen (only O, S, …) has unsaturation exactly 1. |
| MassModel.UnsaturationPermutation | models/base.py:22-28 | The index does not depend on the order of a dictionary's items. |
| Valence.TotalBonds | models/base.py:47-57 | `totalBonds`: the nine known symbols read with `get(symbol, 0)`, each weighted by its valence written as a literal. It has no contract of its own; `Valence.BondSumsAgree` relates it to `maxPossibleBonds`. |
| Valence.MaxPossibleBonds | models/base.py:60 | `maxPossibleBonds`: Σ valency[symbol]·count over the items, defined when every symbol has a valence (otherwise `Valence.IsValidFormula` raises). It has no contract of its own; `Valence.BondSumsAgree` shows it equals `totalBonds` on a dictionary. |
| Valence.IsValidFormula | models/base.py:36-63 | Raises exactly when some symbol has no valence, naming the first such symbol in item order; otherwise returns the comparison. |
| Valence.BondSumsAgree | models/base.py:47-60 | For a dictionary over known symbols, the literal-weighted `totalBonds` equals the table-weighted `maxPossibleBonds`. |
| Valence.ValenceCheckIsVacuous | models/base.py:44-63 | On a dictionary the valence check never returns false; over known symbols it returns true. |
| SearchSpace.Product | models/base.py:76-78 | `product(*ranges)`: the first range varies slowest, each of its values followed by every point of the remaining ranges. It has no contract of its own; `SearchSpace.ProductMembership`, `ProductOrdered` and `ProductLength` state what it contains, its order and its size. |
| SearchSpace.Interval | models/base.py:76 | `range(lo, hi + 1)`: hi − lo + 1 consecutive values starting at lo, or none when lo > hi. |
| SearchSpace.ProductMembership | models/base.py:76-78 | A count tuple is a point of the product exactly when it has one count per range, each within its inclusive bounds. |
| SearchSpace.ProductOrdered | models/base.py:78 | The product lists its points in strictly increasing lexicographic order. |
| SearchSpace.ProductLength | models/base.py:76-78 | The product has Π (hi − lo + 1) points, an empty range counting 0. |
| Enumerator.Sieve | models/base.py:78-91 | The body of the `for combo` loop over a list of count tuples: skip a total of 0 or more than maxTotalAtoms, otherwise compute the mass (raising for a missing symbol) and keep the formula when the mass is in [minMass, maxMass]. It has no contract of its own; the `Sieve…` and `Generate…` lemmas state its results. |
| Enumerator.Generate | models/base.py:65-91 | `generate_formulas` as the list of its yields, or its error: `Enumerator.Sieve` over the product of the ranges with the keys in `atomRanges` order. It has no contract of its own; `GenerateSound`, `GenerateComplete`, `GenerateOrdered`, `GenerateFails` and `NoErrorAfterYield` state what it yields. |
| Enumerator.GenerateFormulas | models/base.py:65-91 | The loop with its `continue`/`yield` filter yields exactly the list `Enumerator.Generate` describes, including its error. |
| Enumerator.SieveErrPersists | models/base.py:78-91 | Once the loop has raised, the rest of the tuples change nothing. |
| Enumerator.GenerateSound | models/base.py:76-91 | Each yielded formula has exactly the keys of the atom ranges, each count within its range, and a mass in [minMass, maxMass]. Its total atom count is non-zero, at most maxTotalAtoms, and at least 1 when no lower bound is negative. |
| Enumerator.GenerateComplete | models/base.py:78-91 | Every point of the product that passes the atom-count and mass filters is yielded. |
| Enumerator.GenerateOrdered | models/base.py:78-91 | Yields come in strictly increasing lexicographic order of their counts, so no formula is yielded twice. |
| Enumerator.GenerateFails | models/base.py:79-87 | Raises exactly when some key has no mass and some point passes the atom-count filter; the error names a key without a mass. |
| Enumerator.NoErrorAfterYield | models/base.py:78-91 | Once a formula has been yielded the generator cannot raise later, so collecting the yields eagerly gives the lazy behaviour. |
| Enumerator.GenerateAllZeroRanges | models/base.py:80-84 | If every range is (0, 0), nothing is yielded and nothing is raised. |
| Enumerator.GenerateEmptyRange | models/base.py:76-78 | A range with min > max makes the product empty: nothing is yielded, no error. |
| Sorting.Insert | models/base.py:130 | One insertion step: the new record goes after the last record whose abs(deviation) is at most its own. It has no contract of its own; `Sorting.InsertAt` is proved against it. |
| Sorting.SortSpec | models/base.py:130 | `list.sort(key=abs(deviation))` as a stable insertion sort. It has no contract of its own; `SortSpecSorted`, `SortSpecPermutation`, `SortSpecStable`, `SortSpecIdempotent` and `StableSortIsUnique` state that it is the one sorted, stable permutation. |
| Sorting.SortByDeviation | models/base.py:130 | The in-place sort leaves the array equal to the stable insertion sort of its old contents. |
| Sorting.InsertAt | models/base.py:130 | One in-place insertion step places a[i] after the last element of a[..i] whose key is at most its own, and touches nothing beyond i. |
| Sorting.SortSpecSorted | models/base.py:130 | The sorted list is non-decreasing in abs(deviation). |
| Sorting.SortSpecPermutation | models/base.py:130 | The sorted list is a permutation of its input. |
| Sorting.SortSpecStable | models/base.py:130 | For every key value, the elements with that abs(deviation) keep their input order. |
| Sorting.SortSpecIdempotent | models/base.py:130 | Sorting the sorted list again changes nothing. |
| Sorting.StableSortIsUnique | models/base.py:130 | Any sorted arrangement that keeps the input order among equal keys is this sort's result, so every stable sort (Python's included) gives the same list. |
| Search.MassWindow | models/base.py:105-108 | The window: exactMass = targetMass − ionization, and minMass/maxMass = exactMass ∓ (ppm/1e6)·exactMass. Its contract states the exact mass; `Search.MassWindowShape` and `MassWindowMeaning` state what the bounds mean. |
| Search.MassWindowShape | models/base.py:105-108 | The window is symmetric about exactMass, 2·ppm parts per million of it wide, and a single point when ppm = 0. |
| Search.MassWindowMeaning | models/base.py:105-108 | For ppm ≥ 0, every mass in the window is within ppm·abs(exactMass)/1e6 of exactMass; for exactMass ≥ 0 the window is exactly those masses. |
| Search.Deviation | models/base.py:119 | `deviationppm` = ((exactMass − mass)/mass)·1e6, defined for a non-zero mass (a zero mass is the `ZeroDivisionError` modelled in `Search.Collect`). It has no contract of its own; `Search.DeviationMeaning` and `DeviationSign` state what it means. |
| Search.DeviationMeaning | models/base.py:119 | deviation·mass = (exactMass − mass)·1e6. |
| Search.Collect | models/base.py:111-127 | The record loop over the yielded formulas: compute the mass (raising for a missing symbol) and the unsaturation, and for an unsaturation in the inclusive range append a record with mass, m/z, deviation and unsaturation (raising on mass 0). It has no contract of its own; `CollectFails` and the `Search…` lemmas state its results. |
| Search.Search | models/base.py:93-131 | `find_molecular_formulas`: the window, `Enumerator.Generate` with the default maxTotalAtoms of 150, `Search.Collect`, then `Sorting.SortSpec` of the records. It has no contract of its own; `SearchSound`, `SearchComplete`, `SearchOrdered`, `SearchIsStableSort`, `SearchWithinTolerance`, `SearchSucceeds` and `SearchErrors` state what it returns. |
| Search.FindMolecularFormulas | models/base.py:93-131 | The method (enumeration, the record loop, the in-place sort) returns exactly `Search.Search`, and its list is sorted by abs(deviation). |
| Search.CollectCandidates | models/base.py:111-127 | The record loop returns exactly `Search.Collect`, including an early `KeyError` or `ZeroDivisionError`. |
| Search.CollectFails | models/base.py:114-127 | The record loop raises exactly when some formula lacks a mass, or has its unsaturation in range and mass 0. If every formula has its masses, the error is a division by zero. |
| Search.SearchSound | models/base.py:104-127 | Every record describes its formula: mass, m/z = mass + ionization, the ppm deviation and the unsaturation. The mass is non-zero and in the window, the unsaturation is in the inclusive range. The formula has the atom-range keys and in-range counts. Its total atom count is non-zero and at most 150, and at least 1 when no lower bound is negative. |
| Search.SearchComplete | models/base.py:104-127 | Every point of the search space that passes the atom-count filter, with its mass in the window and its unsaturation in range, has a record. |
| Search.SearchOrdered | models/base.py:114-131 | The result is sorted by abs(deviation), equal abs(deviation)s come in enumeration order, and no formula has two records. |
| Search.SearchIsStableSort | models/base.py:111-131 | The result is a permutation of the collected records, sorted, and stable for every key value. |
| Search.SearchResortIsIdentity | models/base.py:130-131 | Re-sorting the result by abs(deviation) leaves it unchanged. |
| Search.DeviationSign | models/base.py:119 | For a positive mass the deviation is positive exactly when mass < exactMass, zero exactly when they are equal, and negative exactly when mass > exactMass. |
| Search.SearchWithinTolerance | models/base.py:105-119 | For ppm ≥ 0 every record has abs(deviation)·abs(mass) ≤ ppm·abs(exactMass). |
| Search.SearchSucceeds | models/base.py:93-131 | With a mass for every key, positive masses and no negative lower bound, the search raises nothing. |
| Search.SearchErrors | models/base.py:93-131 | The search can raise only a missing mass for one of the atom-range keys, or a division by zero. The division by zero needs a covered point of mass 0 whose unsaturation is in range, with 0 in the window. It never raises a valence error. |
| Search.SearchNothingToEnumerate | models/base.py:76-91 | All-(0, 0) ranges, or any range with min > max, give an empty result and no error. |

## Left out

- The `print` of the mass window (models/base.py:109) is output only and is not modelled.
- Floating point: every mass, tolerance, DBE value and deviation is an exact rational. No claim is made about float rounding. A record therefore satisfies `Search.Describes` as exact arithmetic, not bit-for-bit.
- Generator laziness: `generate_formulas` is modelled as the finite list of its yields, and the search processes that list afterwards. `Enumerator.NoErrorAfterYield` shows why this changes nothing: a laziness-dependent difference would need an error after a yield.
- Python's sort algorithm (timsort) is modelled by an insertion sort. The result is the same because a sorted, stable arrangement is unique (`Sorting.StableSortIsUnique`).
- Integer counts are unbounded Dafny `int`s, as Python integers are. Non-integer range bounds (a `TypeError` in `range`) cannot be expressed.
- The unused imports (`periodictable.elements` and `math.isclose`) in models/base.py are not modelled.
- `molecularFormula.py` (interactive prompts, tables, printing, configuration data) is not part of this model. Its tables would be caller-supplied inputs here.
- `test.py`, which only prints data from a third-party library, is not part of this model.
- `is_valid_formula` is modelled as written, and the search does not call it, as in the source.
