/**
 * Ordering of integer sequences: the contract of `sort.Ints` (an ascending
 * permutation), and the canonical sorted, duplicate-free form of a sequence
 * that the placeholder collector produces.
 */
module Sorting {

  predicate Sorted(s: seq<int>) {
    forall i, j :: 0 <= i < j < |s| ==> s[i] <= s[j]
  }

  predicate StrictlyIncreasing(s: seq<int>) {
    forall i, j :: 0 <= i < j < |s| ==> s[i] < s[j]
  }

  ghost function Elems(s: seq<int>): set<int> {
    set x | x in s
  }

  /** Inserts `x` before the first element of `s` that is not below it. */
  function Insert(x: int, s: seq<int>): (r: seq<int>)
    ensures |r| == |s| + 1
  {
    if s == [] then [x]
    else if x <= s[0] then [x] + s
    else [s[0]] + Insert(x, s[1..])
  }

  /** Insertion adds `x` and loses nothing. */
  lemma {:induction false} InsertMultiset(x: int, s: seq<int>)
    ensures multiset(Insert(x, s)) == multiset(s) + multiset{x}
  {
    if s != [] && x > s[0] {
      var rest := Insert(x, s[1..]);
      InsertMultiset(x, s[1..]);
      assert Insert(x, s) == [s[0]] + rest;
      assert multiset([s[0]] + rest) == multiset{s[0]} + multiset(rest);
      assert multiset(s) == multiset{s[0]} + multiset(s[1..]) by {
        assert s == [s[0]] + s[1..];
      }
    }
  }

  /** Insertion into a sorted sequence keeps it sorted. */
  lemma {:induction false} InsertSorted(x: int, s: seq<int>)
    requires Sorted(s)
    ensures Sorted(Insert(x, s))
    ensures Insert(x, s)[0] == if s == [] || x <= s[0] then x else s[0]
  {
    if s != [] && x > s[0] {
      var rest := Insert(x, s[1..]);
      InsertSorted(x, s[1..]);
      var r := [s[0]] + rest;
      assert Insert(x, s) == r;
      forall i, j | 0 <= i < j < |r| ensures r[i] <= r[j] {
        if i > 0 {
          assert rest[i - 1] <= rest[j - 1];
        } else {
          assert rest[0] <= rest[j - 1];
        }
      }
    }
  }

  /** An ascending permutation of `s`: what `sort.Ints` leaves in the slice. */
  function Sort(s: seq<int>): (r: seq<int>)
    ensures Sorted(r) && multiset(r) == multiset(s)
    ensures |r| == |s|
  {
    if s == [] then []
    else
      var init := Sort(s[..|s| - 1]);
      var x := s[|s| - 1];
      assert Sorted(Insert(x, init)) by { InsertSorted(x, init); }
      assert multiset(Insert(x, init)) == multiset(s) by {
        InsertMultiset(x, init);
        assert s == s[..|s| - 1] + [x];
      }
      Insert(x, init)
  }

  /** Adds `x` to a strictly increasing sequence unless it is already there. */
  function InsertUnique(x: int, s: seq<int>): seq<int> {
    if s == [] then [x]
    else if x < s[0] then [x] + s
    else if x == s[0] then s
    else [s[0]] + InsertUnique(x, s[1..])
  }

  /** The values of a sequence with one element in front. */
  lemma ElemsCons(a: int, s: seq<int>)
    ensures Elems([a] + s) == {a} + Elems(s)
  {
    assert forall y :: y in [a] + s <==> y == a || y in s;
  }

  /** Adding a value adds it to the values, whatever the order. */
  lemma {:induction false} InsertUniqueElems(x: int, s: seq<int>)
    ensures Elems(InsertUnique(x, s)) == Elems(s) + {x}
  {
    if s == [] {
      ElemsCons(x, []);
    } else if x < s[0] {
      ElemsCons(x, s);
    } else if x > s[0] {
      InsertUniqueElems(x, s[1..]);
      ElemsCons(s[0], s[1..]);
      ElemsCons(s[0], InsertUnique(x, s[1..]));
      assert s == [s[0]] + s[1..];
    }
  }

  /** Adding a value to a strictly increasing sequence keeps the order strict. */
  lemma {:induction false} InsertUniqueIncreasing(x: int, s: seq<int>)
    requires StrictlyIncreasing(s)
    ensures StrictlyIncreasing(InsertUnique(x, s))
    ensures InsertUnique(x, s) != [] && InsertUnique(x, s)[0] == if s == [] || x <= s[0] then x else s[0]
  {
    if s != [] && x > s[0] {
      var rest := InsertUnique(x, s[1..]);
      InsertUniqueIncreasing(x, s[1..]);
      var r := [s[0]] + rest;
      assert InsertUnique(x, s) == r;
      forall i, j | 0 <= i < j < |r| ensures r[i] < r[j] {
        if i > 0 {
          assert rest[i - 1] < rest[j - 1];
        } else {
          assert rest[0] <= rest[j - 1];
        }
      }
    }
  }

  /** The strictly increasing sequence holding exactly the values of `s`. */
  function SortedSet(s: seq<int>): (r: seq<int>)
    ensures StrictlyIncreasing(r) && Elems(r) == Elems(s)
  {
    if s == [] then []
    else
      var init := SortedSet(s[..|s| - 1]);
      InsertUniqueIncreasing(s[|s| - 1], init);
      InsertUniqueElems(s[|s| - 1], init);
      assert Elems(s) == Elems(s[..|s| - 1]) + {s[|s| - 1]} by {
        assert s == s[..|s| - 1] + [s[|s| - 1]];
      }
      InsertUnique(s[|s| - 1], init)
  }

  lemma EmptyElems(s: seq<int>)
    ensures s == [] <==> Elems(s) == {}
  {
    if s != [] {
      assert s[0] in Elems(s);
    }
  }

  /**
   * A strictly increasing sequence is determined by its set of values: two
   * of them holding the same values are equal.
   */
  lemma {:induction false} StrictlyIncreasingUnique(a: seq<int>, b: seq<int>)
    requires StrictlyIncreasing(a) && StrictlyIncreasing(b)
    requires Elems(a) == Elems(b)
    ensures a == b
  {
    EmptyElems(a);
    EmptyElems(b);
    if a != [] && b != [] {
      assert a[0] in Elems(b);
      assert b[0] in Elems(a);
      assert a[0] == b[0];
      assert Elems(a[1..]) == Elems(a) - {a[0]} by {
        assert a == [a[0]] + a[1..];
      }
      assert Elems(b[1..]) == Elems(b) - {b[0]} by {
        assert b == [b[0]] + b[1..];
      }
      StrictlyIncreasingUnique(a[1..], b[1..]);
      assert a == [a[0]] + a[1..];
      assert b == [b[0]] + b[1..];
    }
  }

  /**
   * Adding a value no smaller than every element of a strictly increasing
   * sequence appends it, unless it equals the last element.
   */
  lemma {:induction false} InsertUniqueAtEnd(x: int, s: seq<int>)
    requires StrictlyIncreasing(s)
    requires s != [] ==> s[|s| - 1] <= x
    ensures InsertUnique(x, s) == if s != [] && s[|s| - 1] == x then s else s + [x]
  {
    if s != [] {
      var t := s[1..];
      assert s == [s[0]] + t;
      if |s| == 1 {
        assert s[|s| - 1] == s[0];
      } else {
        assert s[0] < s[|s| - 1];
        assert t[|t| - 1] == s[|s| - 1];
        InsertUniqueAtEnd(x, t);
      }
    }
  }

  /** Permutations of each other hold the same values. */
  lemma PermutationElems(a: seq<int>, b: seq<int>)
    requires multiset(a) == multiset(b)
    ensures Elems(a) == Elems(b)
  {
    forall x ensures x in Elems(a) <==> x in Elems(b) {
      assert x in a <==> x in multiset(a);
      assert x in b <==> x in multiset(b);
    }
  }

  /** Drops every element equal to the one before it. */
  function Dedup(s: seq<int>): seq<int> {
    if |s| <= 1 then s
    else Dedup(s[..|s| - 1]) + if s[|s| - 2] == s[|s| - 1] then [] else [s[|s| - 1]]
  }

  lemma DedupStep(s: seq<int>, i: nat)
    requires 1 <= i < |s|
    ensures Dedup(s[..i + 1]) == Dedup(s[..i]) + if s[i - 1] == s[i] then [] else [s[i]]
  {
    assert s[..i + 1][..i] == s[..i];
  }

  lemma {:induction false} DedupLast(s: seq<int>)
    requires s != []
    ensures Dedup(s) != [] && Dedup(s)[|Dedup(s)| - 1] == s[|s| - 1]
  {
    if |s| > 1 {
      DedupLast(s[..|s| - 1]);
    }
  }

  /**
   * On a sorted sequence, dropping repeated neighbours leaves the strictly
   * increasing sequence of its values.
   */
  lemma {:induction false} DedupSorted(s: seq<int>)
    requires Sorted(s)
    ensures Dedup(s) == SortedSet(s)
  {
    if |s| > 1 {
      var n := |s| - 1;
      var init := s[..n];
      var t := SortedSet(init);
      assert Dedup(init) == t && t != [] && t[|t| - 1] == s[n - 1] by {
        DedupSorted(init);
        DedupLast(init);
      }
      assert InsertUnique(s[n], t) == if s[n - 1] == s[n] then t else t + [s[n]] by {
        InsertUniqueAtEnd(s[n], t);
      }
      assert SortedSet(s) == InsertUnique(s[n], t);
      assert Dedup(s) == Dedup(init) + if s[n - 1] == s[n] then [] else [s[n]];
    } else if |s| == 1 {
      assert SortedSet(s) == InsertUnique(s[0], SortedSet([]));
    }
  }
}
