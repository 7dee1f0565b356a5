/** In-place sorting of an array by a caller-supplied order, standing for
    JavaScript's `Array.prototype.sort`. The array method is specified by
    `Sort`, a stable insertion sort on sequences, and what `Sort` promises
    (ordered, a permutation, equivalent elements in their original order)
    is proved about it. */
module Sorting {
  import Seqs

  /** `before(x, y)`: `x` may stand before `y`. A total preorder: any two
      elements are comparable, and the relation is transitive. */
  ghost predicate TotalPreorder<T(!new)>(before: (T, T) -> bool) {
    && (forall x, y :: before(x, y) || before(y, x))
    && (forall x, y, z :: before(x, y) && before(y, z) ==> before(x, z))
  }

  ghost predicate SortedBy<T>(s: seq<T>, before: (T, T) -> bool) {
    forall i, j :: 0 <= i < j < |s| ==> before(s[i], s[j])
  }

  /** Neither of `x` and `y` has to stand before the other: a tie. */
  ghost predicate Equivalent<T>(before: (T, T) -> bool, x: T, y: T) {
    before(x, y) && before(y, x)
  }

  /** The elements of `s` tied with `c`, in their order in `s`. */
  ghost function Equivalents<T>(s: seq<T>, before: (T, T) -> bool, c: T): seq<T>
  {
    if s == [] then []
    else Equivalents(s[..|s| - 1], before, c) + (if Equivalent(before, c, s[|s| - 1]) then [s[|s| - 1]] else [])
  }

  /** `x` put into `s` from the back: it moves left past every element that
      may not stand before it, and stops behind the first one that may. */
  ghost function InsertBack<T>(s: seq<T>, x: T, before: (T, T) -> bool): seq<T>
  {
    if s == [] then [x]
    else if before(s[|s| - 1], x) then s + [x]
    else InsertBack(s[..|s| - 1], x, before) + [s[|s| - 1]]
  }

  /** Insertion sort as a function: each element in turn is put into the
      sorted prefix before it. */
  ghost function Sort<T>(s: seq<T>, before: (T, T) -> bool): seq<T>
  {
    if s == [] then [] else InsertBack(Sort(s[..|s| - 1], before), s[|s| - 1], before)
  }

  lemma {:induction false} InsertBackPermutes<T>(s: seq<T>, x: T, before: (T, T) -> bool)
    ensures multiset(InsertBack(s, x, before)) == multiset(s) + multiset{x}
  {
    if s != [] && !before(s[|s| - 1], x) {
      InsertBackPermutes(s[..|s| - 1], x, before);
      assert s == s[..|s| - 1] + [s[|s| - 1]];
    }
  }

  lemma {:induction false} InsertBackSorted<T(!new)>(s: seq<T>, x: T, before: (T, T) -> bool)
    requires TotalPreorder(before)
    requires SortedBy(s, before)
    ensures SortedBy(InsertBack(s, x, before), before)
  {
    if s == [] {
    } else if before(s[|s| - 1], x) {
      var r := s + [x];
      forall i, j | 0 <= i < j < |r| ensures before(r[i], r[j]) {
        if j == |s| && i < |s| - 1 {
          assert before(s[i], s[|s| - 1]);
        }
      }
    } else {
      var init, last := s[..|s| - 1], s[|s| - 1];
      InsertBackSorted(init, x, before);
      InsertBackPermutes(init, x, before);
      var t := InsertBack(init, x, before);
      var r := t + [last];
      forall i, j | 0 <= i < j < |r| ensures before(r[i], r[j]) {
        if j == |t| {
          assert r[i] in multiset(init) + multiset{x} by {
            assert r[i] in multiset(t);
          }
          if r[i] != x {
            var k :| 0 <= k < |init| && init[k] == r[i];
            assert before(s[k], s[|s| - 1]);
          }
        }
      }
    }
  }

  lemma {:induction false} EquivalentsAppend<T>(a: seq<T>, b: seq<T>, before: (T, T) -> bool, c: T)
    ensures Equivalents(a + b, before, c) == Equivalents(a, before, c) + Equivalents(b, before, c)
  {
    if b == [] {
      assert a + b == a;
    } else {
      EquivalentsAppend(a, b[..|b| - 1], before, c);
      assert (a + b)[..|a + b| - 1] == a + b[..|b| - 1];
    }
  }

  /** An element of `s` tied with `c` has a place in the class of `c`. */
  lemma {:induction false} EquivalentsHas<T>(s: seq<T>, before: (T, T) -> bool, c: T, k: nat) returns (m: nat)
    requires k < |s| && Equivalent(before, c, s[k])
    ensures m < |Equivalents(s, before, c)| && Equivalents(s, before, c)[m] == s[k]
  {
    var init := s[..|s| - 1];
    if k == |s| - 1 {
      m := |Equivalents(init, before, c)|;
    } else {
      m := EquivalentsHas(init, before, c, k);
    }
  }

  /** The class of `c` lists its members in their order in `s`: any two of
      its places come from two places of `s` in the same order. */
  lemma {:induction false} EquivalentsInOrder<T>(s: seq<T>, before: (T, T) -> bool, c: T, k1: nat, k2: nat)
    returns (p: nat, q: nat)
    requires k1 < k2 < |Equivalents(s, before, c)|
    ensures p < q < |s|
    ensures s[p] == Equivalents(s, before, c)[k1] && s[q] == Equivalents(s, before, c)[k2]
  {
    var init := s[..|s| - 1];
    var e := Equivalents(init, before, c);
    if k2 < |e| {
      p, q := EquivalentsInOrder(init, before, c, k1, k2);
    } else {
      p := EquivalentsIndex(init, before, c, k1);
      q := |s| - 1;
    }
  }

  /** Every place of the class of `c` comes from a place of `s`. */
  lemma {:induction false} EquivalentsIndex<T>(s: seq<T>, before: (T, T) -> bool, c: T, k: nat) returns (p: nat)
    requires k < |Equivalents(s, before, c)|
    ensures p < |s| && s[p] == Equivalents(s, before, c)[k]
  {
    var init := s[..|s| - 1];
    if k < |Equivalents(init, before, c)| {
      p := EquivalentsIndex(init, before, c, k);
    } else {
      p := |s| - 1;
    }
  }

  /** A sequence whose every element is tied with `c` is its own class. */
  lemma {:induction false} AllTied<T>(s: seq<T>, before: (T, T) -> bool, c: T)
    requires forall k :: 0 <= k < |s| ==> Equivalent(before, c, s[k])
    ensures Equivalents(s, before, c) == s
  {
    if s != [] {
      AllTied(s[..|s| - 1], before, c);
    }
  }

  /** Inserting `x` keeps the elements tied with `c` where they were, and
      puts `x` behind them when it is tied with `c` too. */
  lemma {:induction false} InsertBackStable<T(!new)>(s: seq<T>, x: T, before: (T, T) -> bool, c: T)
    requires TotalPreorder(before)
    ensures Equivalents(InsertBack(s, x, before), before, c)
      == Equivalents(s, before, c) + (if Equivalent(before, c, x) then [x] else [])
  {
    if s == [] {
      assert [x][..0] == [];
    } else if before(s[|s| - 1], x) {
      assert (s + [x])[..|s|] == s;
    } else {
      var init, last := s[..|s| - 1], s[|s| - 1];
      InsertBackStable(init, x, before, c);
      assert !(Equivalent(before, c, x) && Equivalent(before, c, last)) by {
        assert before(last, c) && before(c, x) ==> before(last, x);
      }
      InsertBackStableStep(init, last, x, before, c);
    }
  }

  /** The step of `InsertBackStable` where `x` moves left past `last`: as
      `last` and `x` are not both tied with `c`, their order does not show
      in the class of `c`. */
  lemma InsertBackStableStep<T>(init: seq<T>, last: T, x: T, before: (T, T) -> bool, c: T)
    requires !before(last, x)
    requires Equivalents(InsertBack(init, x, before), before, c)
      == Equivalents(init, before, c) + (if Equivalent(before, c, x) then [x] else [])
    requires !(Equivalent(before, c, x) && Equivalent(before, c, last))
    ensures Equivalents(InsertBack(init + [last], x, before), before, c)
      == Equivalents(init + [last], before, c) + (if Equivalent(before, c, x) then [x] else [])
  {
    var s := init + [last];
    var t := InsertBack(init, x, before);
    var ex := if Equivalent(before, c, x) then [x] else [];
    var el := if Equivalent(before, c, last) then [last] else [];
    assert s[..|s| - 1] == init && s[|s| - 1] == last;
    assert InsertBack(s, x, before) == t + [last];
    assert Equivalents(s, before, c) == Equivalents(init, before, c) + el;
    assert (t + [last])[..|t|] == t && (t + [last])[|t|] == last;
    assert Equivalents(t + [last], before, c) == Equivalents(t, before, c) + el;
    assert ex + el == el + ex;
    Seqs.AppendAssociates(Equivalents(init, before, c), ex, el);
    Seqs.AppendAssociates(Equivalents(init, before, c), el, ex);
  }

  /** What `Sort` promises under a total preorder: the result is ordered,
      is a permutation of the input, and lists the elements of each class of
      tied elements in their input order (the sort is stable). */
  lemma SortIsStableSort<T(!new)>(s: seq<T>, before: (T, T) -> bool)
    requires TotalPreorder(before)
    ensures SortedBy(Sort(s, before), before)
    ensures multiset(Sort(s, before)) == multiset(s)
    ensures forall c :: Equivalents(Sort(s, before), before, c) == Equivalents(s, before, c)
  {
    SortSorted(s, before);
    SortPermutes(s, before);
    forall c ensures Equivalents(Sort(s, before), before, c) == Equivalents(s, before, c) {
      SortStable(s, before, c);
    }
  }

  lemma {:induction false} SortSorted<T(!new)>(s: seq<T>, before: (T, T) -> bool)
    requires TotalPreorder(before)
    ensures SortedBy(Sort(s, before), before)
  {
    if s != [] {
      SortSorted(s[..|s| - 1], before);
      InsertBackSorted(Sort(s[..|s| - 1], before), s[|s| - 1], before);
    }
  }

  lemma {:induction false} SortPermutes<T>(s: seq<T>, before: (T, T) -> bool)
    ensures multiset(Sort(s, before)) == multiset(s)
  {
    if s != [] {
      var init, last := s[..|s| - 1], s[|s| - 1];
      calc {
        multiset(Sort(s, before));
        multiset(InsertBack(Sort(init, before), last, before));
        { InsertBackPermutes(Sort(init, before), last, before); }
        multiset(Sort(init, before)) + multiset{last};
        { SortPermutes(init, before); }
        multiset(init) + multiset{last};
        { assert s == init + [last]; }
        multiset(s);
      }
    }
  }

  lemma {:induction false} SortStable<T(!new)>(s: seq<T>, before: (T, T) -> bool, c: T)
    requires TotalPreorder(before)
    ensures Equivalents(Sort(s, before), before, c) == Equivalents(s, before, c)
  {
    if s != [] {
      SortStable(s[..|s| - 1], before, c);
      InsertBackStable(Sort(s[..|s| - 1], before), s[|s| - 1], before, c);
    }
  }

  /** Insertion sort in place: the array ends up as `Sort` of its old
      contents, hence ordered, permuted and stable. */
  method InsertionSort<T(!new)>(a: array<T>, before: (T, T) -> bool)
    requires TotalPreorder(before)
    modifies a
    ensures a[..] == Sort(old(a[..]), before)
    ensures SortedBy(a[..], before)
    ensures multiset(a[..]) == old(multiset(a[..]))
    ensures forall c :: Equivalents(a[..], before, c) == Equivalents(old(a[..]), before, c)
  {
    ghost var s := a[..];
    var i := 0;
    while i < a.Length
      invariant 0 <= i <= a.Length
      invariant a[..i] == Sort(s[..i], before)
      invariant a[i..] == s[i..]
    {
      assert a[i] == s[i] && a[i + 1..] == s[i + 1..] by {
        assert a[i..][0] == a[i] && s[i..][0] == s[i];
        assert a[i..][1..] == a[i + 1..] && s[i..][1..] == s[i + 1..];
      }
      Insert(a, i, before);
      assert s[..i + 1][..i] == s[..i] && s[..i + 1][i] == s[i];
      i := i + 1;
    }
    assert a[..] == a[..a.Length] && s == s[..a.Length];
    SortIsStableSort(s, before);
  }

  /** One step of the sort: puts `a[i]` into the prefix `a[..i]`. */
  method Insert<T>(a: array<T>, i: nat, before: (T, T) -> bool)
    requires i < a.Length
    modifies a
    ensures a[..i + 1] == InsertBack(old(a[..i]), old(a[i]), before)
    ensures a[i + 1..] == old(a[i + 1..])
  {
    ghost var s, x, rest := a[..i], a[i], a[i + 1..];
    assert a[..] == s[..i] + [x] + s[i..] + rest by {
      assert s[..i] == s && s[i..] == [];
    }
    assert InsertBack(s, x, before) == InsertBack(s[..i], x, before) + s[i..] by {
      assert s[..i] == s && s[i..] == [];
    }
    var j := i;
    while 0 < j && !before(a[j - 1], a[j])
      invariant 0 <= j <= i
      invariant a[..] == s[..j] + [x] + s[j..] + rest
      invariant InsertBack(s, x, before) == InsertBack(s[..j], x, before) + s[j..]
    {
      MovedLeft(s, x, rest, j);
      InsertBackStep(s, x, before, j);
      Swap(a, j - 1, j);
      j := j - 1;
    }
    Placed(s, x, rest, j);
    assert a[j] == x && (0 < j ==> a[j - 1] == s[j - 1]) by {
      assert a[j] == a[..][j] && (0 < j ==> a[j - 1] == a[..][j - 1]);
    }
    assert InsertBack(s[..j], x, before) == s[..j] + [x];
    assert a[..i + 1] == a[..][..i + 1];
  }

  /** The array as a sequence, with `x` at `j`, before and after `x`
      changes place with its left neighbour. */
  lemma MovedLeft<T>(s: seq<T>, x: T, rest: seq<T>, j: nat)
    requires 0 < j <= |s|
    ensures var t := s[..j] + [x] + s[j..] + rest;
      t[j - 1] == s[j - 1] && t[j] == x &&
      t[j - 1 := x][j := s[j - 1]] == s[..j - 1] + [x] + s[j - 1..] + rest
  {
    var t := s[..j] + [x] + s[j..] + rest;
    var u := s[..j - 1] + [x] + s[j - 1..] + rest;
    assert |t[j - 1 := x][j := s[j - 1]]| == |u|;
    forall k | 0 <= k < |u| ensures t[j - 1 := x][j := s[j - 1]][k] == u[k] {
    }
  }

  lemma InsertBackStep<T>(s: seq<T>, x: T, before: (T, T) -> bool, j: nat)
    requires 0 < j <= |s|
    requires !before(s[j - 1], x)
    ensures InsertBack(s[..j], x, before) + s[j..] == InsertBack(s[..j - 1], x, before) + s[j - 1..]
  {
    assert s[..j][..j - 1] == s[..j - 1];
    assert s[j - 1..] == [s[j - 1]] + s[j..];
  }

  /** Where the loop stops, the first `|s| + 1` elements are the prefix,
      `x`, and the rest of `s`. */
  lemma Placed<T>(s: seq<T>, x: T, rest: seq<T>, j: nat)
    requires j <= |s|
    ensures var t := s[..j] + [x] + s[j..] + rest;
      t[..|s| + 1] == s[..j] + [x] + s[j..] && t[j] == x && (0 < j ==> t[j - 1] == s[j - 1])
  {
  }

  /** Exchanges two elements. */
  method Swap<T>(a: array<T>, i: nat, j: nat)
    requires i < j < a.Length
    modifies a
    ensures a[..] == old(a[..])[i := old(a[j])][j := old(a[i])]
  {
    a[i], a[j] := a[j], a[i];
  }
}
