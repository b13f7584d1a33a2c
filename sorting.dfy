/** The final ordering of a search: a stable sort of the candidates by the absolute value
    of their ppm deviation (`list.sort(key=lambda x: abs(x["deviation"]))`). Python's sort
    is stable; it is modelled by an insertion sort, and the lemmas show that a sorted,
    stable arrangement is unique, so any stable sort gives the same list. */
module Sorting {
  import opened Common

  function Abs(x: real): real
  {
    if x < 0.0 then -x else x
  }

  /** The sort key: |deviation|. */
  function Key(c: Candidate): real
  {
    Abs(c.deviation)
  }

  predicate Sorted(s: seq<Candidate>)
  {
    forall i, j :: 0 <= i < j < |s| ==> Key(s[i]) <= Key(s[j])
  }

  /** `x` placed after the last element of `t` whose key is at most its own; walking in
      from the right, every element with a larger key moves one place up. */
  function Insert(x: Candidate, t: seq<Candidate>): seq<Candidate>
    decreases |t|
  {
    if t == [] || Key(t[|t| - 1]) <= Key(x) then t + [x]
    else Insert(x, t[..|t| - 1]) + [t[|t| - 1]]
  }

  /** Stable insertion sort by Key: each element in turn inserted into the sorted prefix. */
  function SortSpec(s: seq<Candidate>): seq<Candidate>
    decreases |s|
  {
    if s == [] then [] else Insert(s[|s| - 1], SortSpec(s[..|s| - 1]))
  }

  /** The elements of `s` with key `k`, in their order in `s`. */
  function WithKey(s: seq<Candidate>, k: real): seq<Candidate>
    decreases |s|
  {
    if s == [] then []
    else if Key(s[|s| - 1]) == k then WithKey(s[..|s| - 1], k) + [s[|s| - 1]]
    else WithKey(s[..|s| - 1], k)
  }

  /** In place insertion sort of an array by Key. */
  method SortByDeviation(a: array<Candidate>)
    modifies a
    ensures a[..] == SortSpec(old(a[..]))
  {
    ghost var orig := a[..];
    var i := 0;
    while i < a.Length
      invariant 0 <= i <= a.Length
      invariant a[..i] == SortSpec(orig[..i])
      invariant a[i..] == orig[i..]
    {
      assert a[i] == orig[i] by { assert a[i..][0] == orig[i..][0]; }
      InsertAt(a, i);
      assert orig[..i + 1][..i] == orig[..i];
      i := i + 1;
    }
    assert a[..a.Length] == a[..];
    assert orig[..a.Length] == orig;
  }

  /** One step of the insertion sort: moves a[i] down into the prefix a[..i], shifting
      each larger-keyed element one place up. */
  method InsertAt(a: array<Candidate>, i: nat)
    requires i < a.Length
    modifies a
    ensures a[..i + 1] == Insert(old(a[i]), old(a[..i]))
    ensures a[i + 1..] == old(a[i + 1..])
  {
    ghost var t := a[..i];
    ghost var before := a[..];
    var x := a[i];
    var j := i;
    assert t[..i] == t && t[i..] == [];
    while j > 0 && Key(a[j - 1]) > Key(x)
      invariant 0 <= j <= i
      invariant forall k :: 0 <= k < j ==> a[k] == t[k]
      invariant forall k :: j < k <= i ==> a[k] == t[k - 1]
      invariant forall k :: i < k < a.Length ==> a[k] == before[k]
      invariant forall k :: j <= k < i ==> Key(t[k]) > Key(x)
    {
      a[j] := a[j - 1];
      j := j - 1;
    }
    InsertPosition(x, t, j);
    a[j] := x;
    Assemble(a[..], before, t, x, i, j);
  }

  /** `x` goes right after the last element whose key is at most its own. */
  lemma {:induction false} InsertPosition(x: Candidate, t: seq<Candidate>, j: nat)
    requires j <= |t|
    requires forall k :: j <= k < |t| ==> Key(t[k]) > Key(x)
    requires j == 0 || Key(t[j - 1]) <= Key(x)
    ensures Insert(x, t) == t[..j] + [x] + t[j..]
    decreases |t|
  {
    if j < |t| {
      var n := |t|;
      var p := t[..n - 1];
      assert forall k :: j <= k < |p| ==> p[k] == t[k];
      assert j > 0 ==> p[j - 1] == t[j - 1];
      InsertPosition(x, p, j);
      assert p[..j] == t[..j];
      assert t[j..] == p[j..] + [t[n - 1]];
    } else {
      assert t[..j] == t;
    }
  }

  /** The array after one insertion step, read back as a sequence. */
  lemma Assemble(s: seq<Candidate>, before: seq<Candidate>, t: seq<Candidate>, x: Candidate, i: nat, j: nat)
    requires |s| == |before| && i < |s| && |t| == i && j <= i
    requires forall k :: 0 <= k < j ==> s[k] == t[k]
    requires s[j] == x
    requires forall k :: j < k <= i ==> s[k] == t[k - 1]
    requires forall k :: i < k < |s| ==> s[k] == before[k]
    ensures s[..i + 1] == t[..j] + [x] + t[j..]
    ensures s[i + 1..] == before[i + 1..]
  {
    var u := t[..j] + [x] + t[j..];
    assert |u| == i + 1;
    forall k | 0 <= k <= i ensures s[k] == u[k] {
      if k < j {
        assert u[k] == t[k];
      } else if k > j {
        assert u[k] == t[k - 1];
      }
    }
  }

  lemma {:induction false} InsertMultiset(x: Candidate, t: seq<Candidate>)
    ensures multiset(Insert(x, t)) == multiset(t) + multiset{x}
    decreases |t|
  {
    if !(t == [] || Key(t[|t| - 1]) <= Key(x)) {
      InsertMultiset(x, t[..|t| - 1]);
      assert t == t[..|t| - 1] + [t[|t| - 1]];
    }
  }

  /** The sort only rearranges: its result is a permutation of its input. */
  lemma {:induction false} SortSpecPermutation(s: seq<Candidate>)
    ensures multiset(SortSpec(s)) == multiset(s)
    decreases |s|
  {
    if s != [] {
      SortSpecPermutation(s[..|s| - 1]);
      InsertMultiset(s[|s| - 1], SortSpec(s[..|s| - 1]));
      assert s == s[..|s| - 1] + [s[|s| - 1]];
    }
  }

  lemma SortedPrefix(t: seq<Candidate>, n: nat)
    requires Sorted(t) && n <= |t|
    ensures Sorted(t[..n])
  {
    assert forall i :: 0 <= i < n ==> t[..n][i] == t[i];
  }

  /** Appending an element whose key is at least every other key keeps a list sorted. */
  lemma SortedAppend(q: seq<Candidate>, y: Candidate)
    requires Sorted(q)
    requires forall i :: 0 <= i < |q| ==> Key(q[i]) <= Key(y)
    ensures Sorted(q + [y])
  {
    var r := q + [y];
    forall i, j | 0 <= i < j < |r| ensures Key(r[i]) <= Key(r[j]) {
      assert r[i] == q[i];
      if j < |q| {
        assert r[j] == q[j];
      }
    }
  }

  lemma {:induction false} InsertSorted(x: Candidate, t: seq<Candidate>)
    requires Sorted(t)
    ensures Sorted(Insert(x, t))
    decreases |t|
  {
    var n := |t|;
    if t == [] || Key(t[n - 1]) <= Key(x) {
      SortedAppend(t, x);
    } else {
      var p := t[..n - 1];
      SortedPrefix(t, n - 1);
      InsertSorted(x, p);
      InsertMultiset(x, p);
      var q := Insert(x, p);
      forall i | 0 <= i < |q| ensures Key(q[i]) <= Key(t[n - 1]) {
        assert q[i] in multiset(p) + multiset{x};
        if q[i] != x {
          assert q[i] in multiset(p);
          var a :| 0 <= a < |p| && p[a] == q[i];
          assert p[a] == t[a];
        }
      }
      SortedAppend(q, t[n - 1]);
    }
  }

  /** The sort's result is non-decreasing in |deviation|. */
  lemma {:induction false} SortSpecSorted(s: seq<Candidate>)
    ensures Sorted(SortSpec(s))
    decreases |s|
  {
    if s != [] {
      SortSpecSorted(s[..|s| - 1]);
      InsertSorted(s[|s| - 1], SortSpec(s[..|s| - 1]));
    }
  }

  lemma WithKeyAppend(s: seq<Candidate>, x: Candidate, k: real)
    ensures WithKey(s + [x], k) == WithKey(s, k) + (if Key(x) == k then [x] else [])
  {
    assert (s + [x])[..|s|] == s;
  }

  /** Inserting `x` adds it at the end of the elements sharing its key. */
  lemma {:induction false} InsertWithKey(x: Candidate, t: seq<Candidate>, k: real)
    ensures WithKey(Insert(x, t), k) == WithKey(t, k) + (if Key(x) == k then [x] else [])
    decreases |t|
  {
    if t == [] || Key(t[|t| - 1]) <= Key(x) {
      WithKeyAppend(t, x, k);
    } else {
      var n := |t|;
      var p := t[..n - 1];
      InsertWithKey(x, p, k);
      WithKeyAppend(Insert(x, p), t[n - 1], k);
      assert t == p + [t[n - 1]];
      WithKeyAppend(p, t[n - 1], k);
    }
  }

  /** The sort is stable: elements with equal |deviation| keep their input order. */
  lemma {:induction false} SortSpecStable(s: seq<Candidate>, k: real)
    ensures WithKey(SortSpec(s), k) == WithKey(s, k)
    decreases |s|
  {
    if s != [] {
      var n := |s|;
      SortSpecStable(s[..n - 1], k);
      InsertWithKey(s[n - 1], SortSpec(s[..n - 1]), k);
      assert s == s[..n - 1] + [s[n - 1]];
      WithKeyAppend(s[..n - 1], s[n - 1], k);
    }
  }

  /** Sorting a sorted list leaves it unchanged. */
  lemma {:induction false} SortSpecOfSorted(s: seq<Candidate>)
    requires Sorted(s)
    ensures SortSpec(s) == s
    decreases |s|
  {
    if s != [] {
      var n := |s|;
      var p, x := s[..n - 1], s[n - 1];
      SortedPrefix(s, n - 1);
      SortSpecOfSorted(p);
      assert SortSpec(s) == Insert(x, p);
      if p != [] {
        assert p[|p| - 1] == s[n - 2];
        assert Key(s[n - 2]) <= Key(x);
      }
      assert Insert(x, p) == p + [x];
      assert p + [x] == s;
    }
  }

  /** Re-sorting the output by the same key leaves it unchanged. */
  lemma SortSpecIdempotent(s: seq<Candidate>)
    ensures SortSpec(SortSpec(s)) == SortSpec(s)
  {
    SortSpecSorted(s);
    SortSpecOfSorted(SortSpec(s));
  }

  lemma {:induction false} WithKeyMembers(s: seq<Candidate>, k: real)
    ensures forall i :: 0 <= i < |WithKey(s, k)| ==> WithKey(s, k)[i] in s && Key(WithKey(s, k)[i]) == k
    decreases |s|
  {
    if s != [] {
      WithKeyMembers(s[..|s| - 1], k);
      assert forall y :: y in s[..|s| - 1] ==> y in s;
    }
  }

  lemma WithKeyLast(s: seq<Candidate>)
    requires s != []
    ensures WithKey(s, Key(s[|s| - 1])) != []
  {
  }

  /** In a sorted list, a key that occurs at all is at most the last element's key. */
  lemma KeyAtMostLast(t: seq<Candidate>, k: real)
    requires Sorted(t) && WithKey(t, k) != []
    ensures k <= Key(t[|t| - 1])
  {
    WithKeyMembers(t, k);
    var y := WithKey(t, k)[0];
    var i :| 0 <= i < |t| && t[i] == y;
    assert i < |t| - 1 ==> Key(t[i]) <= Key(t[|t| - 1]);
  }

  /** Two sorted lists that agree on the elements of every key end with the same element. */
  lemma SameLast(t1: seq<Candidate>, t2: seq<Candidate>)
    requires Sorted(t1) && Sorted(t2) && t1 != [] && t2 != []
    requires forall k :: WithKey(t1, k) == WithKey(t2, k)
    ensures t1[|t1| - 1] == t2[|t2| - 1]
  {
    var x1, x2 := t1[|t1| - 1], t2[|t2| - 1];
    WithKeyLast(t1);
    WithKeyLast(t2);
    assert WithKey(t2, Key(x1)) == WithKey(t1, Key(x1));
    assert WithKey(t1, Key(x2)) == WithKey(t2, Key(x2));
    KeyAtMostLast(t2, Key(x1));
    KeyAtMostLast(t1, Key(x2));
    var w1, w2 := WithKey(t1, Key(x1)), WithKey(t2, Key(x1));
    assert w1[|w1| - 1] == x1;
    assert w2[|w2| - 1] == x2;
  }

  /** Dropping the same last element keeps the lists in agreement on every key. */
  lemma PrefixesAgree(p1: seq<Candidate>, p2: seq<Candidate>, x: Candidate)
    requires forall k :: WithKey(p1 + [x], k) == WithKey(p2 + [x], k)
    ensures forall k :: WithKey(p1, k) == WithKey(p2, k)
  {
    forall k ensures WithKey(p1, k) == WithKey(p2, k) {
      assert WithKey(p1 + [x], k) == WithKey(p2 + [x], k);
      WithKeyAppend(p1, x, k);
      WithKeyAppend(p2, x, k);
      var w := WithKey(p1 + [x], k);
      if Key(x) == k {
        assert WithKey(p1, k) == w[..|w| - 1];
        assert WithKey(p2, k) == w[..|w| - 1];
      }
    }
  }

  /** Two sorted lists that agree on the elements of every key, in order, are equal. */
  lemma {:induction false} SortedStableUnique(t1: seq<Candidate>, t2: seq<Candidate>)
    requires Sorted(t1) && Sorted(t2)
    requires forall k :: WithKey(t1, k) == WithKey(t2, k)
    ensures t1 == t2
    decreases |t1| + |t2|
  {
    if t1 == [] && t2 == [] {
    } else if t2 == [] {
      WithKeyLast(t1);
      assert false;
    } else if t1 == [] {
      WithKeyLast(t2);
      assert false;
    } else {
      var n1, n2 := |t1|, |t2|;
      SameLast(t1, t2);
      var p1, p2, x := t1[..n1 - 1], t2[..n2 - 1], t1[n1 - 1];
      assert t1 == p1 + [x] && t2 == p2 + [x];
      PrefixesAgree(p1, p2, x);
      SortedPrefix(t1, n1 - 1);
      SortedPrefix(t2, n2 - 1);
      SortedStableUnique(p1, p2);
    }
  }

  /** Any arrangement of the input that is sorted by |deviation| and keeps the input order
      among equal keys is exactly SortSpec's: every stable sort gives this list. */
  lemma StableSortIsUnique(s: seq<Candidate>, t: seq<Candidate>)
    requires Sorted(t)
    requires forall k :: WithKey(t, k) == WithKey(s, k)
    ensures t == SortSpec(s)
  {
    SortSpecSorted(s);
    forall k ensures WithKey(t, k) == WithKey(SortSpec(s), k) {
      SortSpecStable(s, k);
    }
    SortedStableUnique(t, SortSpec(s));
  }
}
