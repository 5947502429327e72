/** Strict orders, sorted sequences and the library sorts (`slices.Sort`, `semver.Sort`). */
module Ordering {

  /** `less` is a strict total order on the elements of `s`. */
  ghost predicate StrictOrderOn<T(!new)>(less: (T, T) -> bool, s: set<T>) {
    && (forall x | x in s :: !less(x, x))
    && (forall x, y {:trigger less(x, y)} | x in s && y in s :: x == y || less(x, y) || less(y, x))
    && (forall x, y, z {:trigger less(x, y), less(y, z)} |
         x in s && y in s && z in s && less(x, y) && less(y, z) :: less(x, z))
  }

  ghost predicate Increasing<T(!new)>(less: (T, T) -> bool, xs: seq<T>) {
    forall i, j | 0 <= i < j < |xs| :: less(xs[i], xs[j])
  }

  ghost predicate NoDuplicates<T(!new)>(xs: seq<T>) {
    forall i, j | 0 <= i < j < |xs| :: xs[i] != xs[j]
  }

  function Elements<T>(xs: seq<T>): set<T> {
    set x | x in xs
  }

  lemma ElementsEmpty<T>(xs: seq<T>)
    ensures Elements(xs) == {} <==> xs == []
  {
    if xs != [] {
      assert xs[0] in Elements(xs);
    }
  }

  lemma ElementsCons<T>(x: T, xs: seq<T>)
    ensures Elements([x] + xs) == {x} + Elements(xs)
  {
    assert forall y | y in Elements(xs) :: y in xs;
  }

  function Insert<T(!new)>(less: (T, T) -> bool, x: T, xs: seq<T>): (r: seq<T>)
    ensures Elements(r) == Elements(xs) + {x}
    ensures |r| == |xs| + 1
  {
    if xs == [] then [x]
    else if less(x, xs[0]) then
      ElementsCons(x, xs);
      [x] + xs
    else
      ElementsCons(xs[0], xs[1..]);
      ElementsCons(xs[0], Insert(less, x, xs[1..]));
      assert xs == [xs[0]] + xs[1..];
      [xs[0]] + Insert(less, x, xs[1..])
  }

  /** The library sort, as an insertion sort. */
  function Sort<T(!new)>(less: (T, T) -> bool, xs: seq<T>): (r: seq<T>)
    ensures Elements(r) == Elements(xs)
    ensures |r| == |xs|
  {
    if xs == [] then []
    else
      assert xs == [xs[0]] + xs[1..];
      Insert(less, xs[0], Sort(less, xs[1..]))
  }

  lemma {:induction false} InsertIncreasing<T(!new)>(less: (T, T) -> bool, x: T, xs: seq<T>)
    requires StrictOrderOn(less, Elements(xs) + {x})
    requires Increasing(less, xs)
    requires x !in xs
    ensures Increasing(less, Insert(less, x, xs))
  {
    var s := Elements(xs) + {x};
    assert forall y | y in xs :: y in s;
    if xs != [] && !less(x, xs[0]) {
      assert Elements(xs[1..]) + {x} <= s;
      InsertIncreasing(less, x, xs[1..]);
      var rest := Insert(less, x, xs[1..]);
      forall k | 0 <= k < |rest| ensures less(xs[0], rest[k]) {
        assert rest[k] in Elements(rest);
        if rest[k] != x {
          assert rest[k] in xs[1..];
        }
      }
    }
  }

  lemma {:induction false} SortIncreasing<T(!new)>(less: (T, T) -> bool, xs: seq<T>)
    requires StrictOrderOn(less, Elements(xs))
    requires NoDuplicates(xs)
    ensures Increasing(less, Sort(less, xs))
  {
    if xs != [] {
      assert xs == [xs[0]] + xs[1..];
      assert Elements(xs[1..]) <= Elements(xs);
      SortIncreasing(less, xs[1..]);
      var rest := Sort(less, xs[1..]);
      assert xs[0] !in xs[1..];
      assert xs[0] !in Elements(rest);
      assert Elements(rest) + {xs[0]} == Elements(xs);
      InsertIncreasing(less, xs[0], rest);
    }
  }

  /** A sorted sequence is determined by its elements, so the order in which a Go map
      hands out its keys never shows in a sorted result. */
  lemma {:induction false} IncreasingUnique<T(!new)>(less: (T, T) -> bool, a: seq<T>, b: seq<T>)
    requires StrictOrderOn(less, Elements(a))
    requires Increasing(less, a) && Increasing(less, b)
    requires Elements(a) == Elements(b)
    ensures a == b
  {
    ElementsEmpty(a);
    ElementsEmpty(b);
    if a != [] {
      SameLeast(less, a, b);
      TailElements(less, a);
      TailElements(less, b);
      IncreasingUnique(less, a[1..], b[1..]);
      assert a == [a[0]] + a[1..] && b == [b[0]] + b[1..];
    }
  }

  lemma SameLeast<T(!new)>(less: (T, T) -> bool, a: seq<T>, b: seq<T>)
    requires StrictOrderOn(less, Elements(a))
    requires Increasing(less, a) && Increasing(less, b)
    requires Elements(a) == Elements(b)
    requires a != [] && b != []
    ensures a[0] == b[0]
  {
    assert a[0] in Elements(b) && b[0] in Elements(a);
    var i :| 0 <= i < |b| && b[i] == a[0];
    var j :| 0 <= j < |a| && a[j] == b[0];
  }

  lemma TailElements<T(!new)>(less: (T, T) -> bool, a: seq<T>)
    requires a != []
    requires StrictOrderOn(less, Elements(a))
    requires Increasing(less, a)
    ensures Elements(a[1..]) == Elements(a) - {a[0]}
    ensures StrictOrderOn(less, Elements(a[1..]))
  {
    assert a == [a[0]] + a[1..];
    assert a[0] in Elements(a);
    assert a[0] !in a[1..];
    assert Elements(a[1..]) <= Elements(a);
  }

  /** An order on a set is an order on each of its subsets. */
  lemma StrictOrderOnSubset<T(!new)>(less: (T, T) -> bool, s: set<T>, t: set<T>)
    requires StrictOrderOn(less, t)
    requires s <= t
    ensures StrictOrderOn(less, s)
  {
  }

  lemma IncreasingNoDuplicates<T(!new)>(less: (T, T) -> bool, xs: seq<T>)
    requires Increasing(less, xs)
    requires forall x | x in xs :: !less(x, x)
    ensures NoDuplicates(xs)
  {
    forall i, j | 0 <= i < j < |xs| ensures xs[i] != xs[j] {
      assert less(xs[i], xs[j]) && xs[i] in xs;
    }
  }

  lemma {:induction false} NoDuplicatesCardinality<T(!new)>(xs: seq<T>)
    requires NoDuplicates(xs)
    ensures |Elements(xs)| == |xs|
  {
    if xs != [] {
      assert xs == [xs[0]] + xs[1..];
      NoDuplicatesCardinality(xs[1..]);
      assert xs[0] !in xs[1..];
      assert Elements(xs) == Elements(xs[1..]) + {xs[0]};
    }
  }

  /** Some enumeration of a set, as a Go map iteration hands it out. */
  ghost function Enumerate<T(!new)>(s: set<T>): (r: seq<T>)
    ensures Elements(r) == s
    ensures NoDuplicates(r)
  {
    if s == {} then []
    else
      var x :| x in s;
      var rest := Enumerate(s - {x});
      ElementsCons(x, rest);
      assert x !in Elements(rest);
      assert x !in rest;
      [x] + rest
  }

  /** The one sorted sequence with exactly the elements of `s`. */
  ghost function SortedSeq<T(!new)>(less: (T, T) -> bool, s: set<T>): (r: seq<T>)
    requires StrictOrderOn(less, s)
    ensures Elements(r) == s
    ensures Increasing(less, r)
  {
    SortIncreasing(less, Enumerate(s));
    Sort(less, Enumerate(s))
  }

  lemma SortIsSortedSeq<T(!new)>(less: (T, T) -> bool, xs: seq<T>)
    requires StrictOrderOn(less, Elements(xs))
    requires NoDuplicates(xs)
    ensures Sort(less, xs) == SortedSeq(less, Elements(xs))
  {
    SortIncreasing(less, xs);
    IncreasingUnique(less, Sort(less, xs), SortedSeq(less, Elements(xs)));
  }

  lemma AppendElement<T(!new)>(xs: seq<T>, x: T)
    requires NoDuplicates(xs)
    requires x !in Elements(xs)
    ensures NoDuplicates(xs + [x])
    ensures Elements(xs + [x]) == Elements(xs) + {x}
  {
    assert forall y | y in xs :: y in Elements(xs);
  }

  lemma ConcatDistinct<T(!new)>(a: seq<T>, b: seq<T>)
    requires forall x | x in a :: x !in b
    ensures NoDuplicates(a + b) <==> NoDuplicates(a) && NoDuplicates(b)
  {
    var c := a + b;
    if NoDuplicates(c) {
      assert forall i | 0 <= i < |a| :: a[i] == c[i];
      forall i, j | 0 <= i < j < |b| ensures b[i] != b[j] {
        assert c[|a| + i] != c[|a| + j];
      }
    }
    if NoDuplicates(a) && NoDuplicates(b) {
      forall i, j | 0 <= i < j < |c| ensures c[i] != c[j] {
        assert i < |a| ==> c[i] in a;
        assert j >= |a| ==> c[j] in b;
      }
    }
  }

  /** Lists the keys of a map, in whatever order they come out. */
  method Keys<T(!new, ==)>(keys: set<T>) returns (r: seq<T>)
    ensures Elements(r) == keys
    ensures NoDuplicates(r)
  {
    r := [];
    var todo := keys;
    while todo != {}
      invariant todo <= keys
      invariant Elements(r) == keys - todo
      invariant NoDuplicates(r)
      decreases |todo|
    {
      var k :| k in todo;
      AppendElement(r, k);
      r := r + [k];
      todo := todo - {k};
    }
  }

  /** Lists the keys of a map and sorts them: the result does not depend on the map's own order. */
  method SortedKeys<T(!new, ==)>(less: (T, T) -> bool, keys: set<T>) returns (r: seq<T>)
    requires StrictOrderOn(less, keys)
    ensures r == SortedSeq(less, keys)
  {
    r := Keys(keys);
    SortIsSortedSeq(less, r);
    r := Sort(less, r);
  }

  // ---------- Positions in a sorted sequence ----------

  lemma SamePositions<T(!new)>(less: (T, T) -> bool, xs: seq<T>, i: nat, j: nat)
    requires StrictOrderOn(less, Elements(xs)) && Increasing(less, xs)
    requires i < |xs| && j < |xs|
    ensures i < j <==> less(xs[i], xs[j])
  {
    assert xs[i] in Elements(xs) && xs[j] in Elements(xs);
  }

  /** The part of a sorted sequence from position `lo` up to `hi` holds the elements that lie
      between the two in the order. */
  lemma SliceByOrder<T(!new)>(less: (T, T) -> bool, xs: seq<T>, lo: nat, hi: nat)
    requires StrictOrderOn(less, Elements(xs)) && Increasing(less, xs)
    requires lo <= hi < |xs|
    ensures Elements(xs[lo..hi]) == set x | x in Elements(xs) && !less(x, xs[lo]) && less(x, xs[hi])
    ensures |Elements(xs[lo..hi])| == hi - lo
  {
    var part := xs[lo..hi];
    forall i | 0 <= i < |xs| ensures lo <= i < hi <==> !less(xs[i], xs[lo]) && less(xs[i], xs[hi]) {
      SamePositions(less, xs, i, lo);
      SamePositions(less, xs, i, hi);
    }
    assert forall k | 0 <= k < |part| :: part[k] == xs[lo + k];
    forall x | x in Elements(xs) && !less(x, xs[lo]) && less(x, xs[hi]) ensures x in Elements(part) {
      var i :| 0 <= i < |xs| && xs[i] == x;
      assert part[i - lo] == x;
    }
    assert forall x | x in part :: x in Elements(xs);
    IncreasingNoDuplicates(less, part);
    NoDuplicatesCardinality(part);
  }

  /** The part of a sorted sequence up to and including position `idx` holds the elements that
      are not above it. */
  lemma PrefixByOrder<T(!new)>(less: (T, T) -> bool, xs: seq<T>, idx: nat)
    requires StrictOrderOn(less, Elements(xs)) && Increasing(less, xs)
    requires idx < |xs|
    ensures Elements(xs[..idx + 1]) == set x | x in Elements(xs) && !less(xs[idx], x)
    ensures Increasing(less, xs[..idx + 1])
  {
    var part := xs[..idx + 1];
    forall i | 0 <= i < |xs| ensures i <= idx <==> !less(xs[idx], xs[i]) {
      SamePositions(less, xs, idx, i);
    }
    assert forall k | 0 <= k < |part| :: part[k] == xs[k];
    forall x | x in Elements(xs) && !less(xs[idx], x) ensures x in Elements(part) {
      var i :| 0 <= i < |xs| && xs[i] == x;
      assert part[i] == x;
    }
  }

  lemma CountBetween<T(!new)>(less: (T, T) -> bool, xs: seq<T>, lo: nat, idx: nat)
    requires StrictOrderOn(less, Elements(xs)) && Increasing(less, xs)
    requires lo <= idx < |xs|
    ensures var below := set x | x in Elements(xs) && less(x, xs[idx]);
            var window := set x | x in below && !less(x, xs[lo]);
            |below| == idx && |window| == idx - lo
  {
    SliceByOrder(less, xs, 0, idx);
    SliceByOrder(less, xs, lo, idx);
    var below := set x | x in Elements(xs) && less(x, xs[idx]);
    var window := set x | x in below && !less(x, xs[lo]);
    forall x | x in Elements(xs) ensures !less(x, xs[0]) {
      var i :| 0 <= i < |xs| && xs[i] == x;
      SamePositions(less, xs, i, 0);
    }
    assert below == Elements(xs[0..idx]);
    assert window == Elements(xs[lo..idx]);
  }

  /** `slices.Index`. */
  function IndexIn<T(==)>(xs: seq<T>, x: T): (idx: int)
    ensures -1 <= idx < |xs|
    ensures 0 <= idx ==> xs[idx] == x && x !in xs[..idx]
    ensures idx < 0 ==> x !in xs
  {
    if xs == [] then -1
    else if xs[0] == x then 0
    else
      var i := IndexIn(xs[1..], x);
      assert xs == [xs[0]] + xs[1..];
      if i < 0 then -1
      else
        assert xs[..i + 1] == [xs[0]] + xs[1..][..i];
        i + 1
  }

  /** Adding elements above `a` to a sorted sequence changes nothing up to `a`. */
  lemma SamePrefix<T(!new)>(less: (T, T) -> bool, s1: seq<T>, s2: seq<T>, a: T)
    requires StrictOrderOn(less, Elements(s1)) && Increasing(less, s1)
    requires StrictOrderOn(less, Elements(s2)) && Increasing(less, s2)
    requires Elements(s1) <= Elements(s2)
    requires forall s | s in Elements(s2) - Elements(s1) :: less(a, s)
    requires !less(a, a)
    ensures IndexIn(s1, a) == IndexIn(s2, a)
    ensures 0 <= IndexIn(s1, a) ==> forall k | 0 <= k <= IndexIn(s1, a) :: s1[k] == s2[k]
  {
    var i1, i2 := IndexIn(s1, a), IndexIn(s2, a);
    assert forall s :: s in s1 <==> s in Elements(s1);
    assert forall s :: s in s2 <==> s in Elements(s2);
    if a in s1 {
      PrefixByOrder(less, s1, i1);
      PrefixByOrder(less, s2, i2);
      var p1, p2 := s1[..i1 + 1], s2[..i2 + 1];
      assert Elements(p1) == Elements(p2);
      StrictOrderOnSubset(less, Elements(p1), Elements(s1));
      IncreasingUnique(less, p1, p2);
      assert |p1| == i1 + 1 && |p2| == i2 + 1;
      assert forall k | 0 <= k <= i1 :: s1[k] == p1[k] && s2[k] == p2[k];
    }
  }

  /** Go's order on strings: code point by code point, a proper prefix first. */
  predicate StringLess(a: string, b: string) {
    if b == "" then false
    else if a == "" then true
    else a[0] < b[0] || (a[0] == b[0] && StringLess(a[1..], b[1..]))
  }

  lemma {:induction false} StringLessTotal(a: string, b: string)
    ensures !StringLess(a, a)
    ensures !(StringLess(a, b) && StringLess(b, a))
    ensures a == b || StringLess(a, b) || StringLess(b, a)
  {
    if a != "" {
      StringLessTotal(a[1..], if b == "" then a[1..] else b[1..]);
      assert a == [a[0]] + a[1..];
      if b != "" {
        assert b == [b[0]] + b[1..];
      }
    }
  }

  lemma {:induction false} StringLessTransitive(a: string, b: string, c: string)
    requires StringLess(a, b) && StringLess(b, c)
    ensures StringLess(a, c)
  {
    if a != "" && a[0] == b[0] && b[0] == c[0] {
      StringLessTransitive(a[1..], b[1..], c[1..]);
    }
  }

  lemma StringLessIsStrictOrder(s: set<string>)
    ensures StrictOrderOn(StringLess, s)
  {
    forall x, y | x in s && y in s
      ensures !StringLess(x, x) && (x == y || StringLess(x, y) || StringLess(y, x))
    {
      StringLessTotal(x, y);
    }
    forall x, y, z | x in s && y in s && z in s && StringLess(x, y) && StringLess(y, z)
      ensures StringLess(x, z)
    {
      StringLessTransitive(x, y, z);
    }
  }

  /** The strings of a set in Go's order. */
  ghost function SortedStrings(s: set<string>): (r: seq<string>)
    ensures Elements(r) == s
    ensures Increasing(StringLess, r)
  {
    StringLessIsStrictOrder(s);
    SortedSeq(StringLess, s)
  }
}
