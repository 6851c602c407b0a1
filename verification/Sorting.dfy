/** Sequences: the stable sort the program relies on throughout (`sort.SliceStable` in Go,
    `Array.prototype.sort` in TypeScript, and one hand-written insertion sort). */
module Sorting {

  ghost predicate TotalPreorder<T(!new)>(leq: (T, T) -> bool) {
    && (forall x, y :: leq(x, y) || leq(y, x))
    && (forall x, y, z :: leq(x, y) && leq(y, z) ==> leq(x, z))
  }

  ghost predicate Sorted<T>(leq: (T, T) -> bool, s: seq<T>) {
    forall i, j :: 0 <= i < j < |s| ==> leq(s[i], s[j])
  }

  /** Puts `x` after every element that may stand before it. */
  function InsertLast<T>(leq: (T, T) -> bool, s: seq<T>, x: T): (r: seq<T>)
    ensures |r| == |s| + 1
  {
    if s == [] then [x]
    else if leq(s[|s| - 1], x) then s + [x]
    else InsertLast(leq, s[..|s| - 1], x) + [s[|s| - 1]]
  }

  function StableSort<T>(leq: (T, T) -> bool, s: seq<T>): (r: seq<T>)
    ensures |r| == |s|
  {
    if s == [] then [] else InsertLast(leq, StableSort(leq, s[..|s| - 1]), s[|s| - 1])
  }

  lemma {:induction false} InsertLastPerm<T>(leq: (T, T) -> bool, s: seq<T>, x: T)
    ensures multiset(InsertLast(leq, s, x)) == multiset(s) + multiset{x}
  {
    if s != [] && !leq(s[|s| - 1], x) {
      InsertLastPerm(leq, s[..|s| - 1], x);
      assert s == s[..|s| - 1] + [s[|s| - 1]];
    }
  }

  /** The result is a rearrangement of the input. */
  lemma {:induction false} StableSortPerm<T>(leq: (T, T) -> bool, s: seq<T>)
    ensures multiset(StableSort(leq, s)) == multiset(s)
  {
    if s != [] {
      var u, x := s[..|s| - 1], s[|s| - 1];
      StableSortPerm(leq, u);
      InsertLastPerm(leq, StableSort(leq, u), x);
      assert s == u + [x];
    }
  }

  lemma InsertBelow<T(!new)>(leq: (T, T) -> bool, u: seq<T>, x: T, y: T)
    requires leq(x, y) && forall i :: 0 <= i < |u| ==> leq(u[i], y)
    ensures forall i :: 0 <= i < |InsertLast(leq, u, x)| ==> leq(InsertLast(leq, u, x)[i], y)
  {
    var r := InsertLast(leq, u, x);
    InsertLastPerm(leq, u, x);
    SameElements(r, u + [x]);
    forall i | 0 <= i < |r| ensures leq(r[i], y) {
      assert r[i] in r && r[i] in u + [x];
    }
  }

  lemma {:induction false} InsertLastSorted<T(!new)>(leq: (T, T) -> bool, s: seq<T>, x: T)
    requires TotalPreorder(leq) && Sorted(leq, s)
    ensures Sorted(leq, InsertLast(leq, s, x))
  {
    if s != [] {
      var u, y := s[..|s| - 1], s[|s| - 1];
      if leq(y, x) {
        assert forall i :: 0 <= i < |u| ==> leq(u[i], y) && s[i] == u[i];
      } else {
        InsertLastSorted(leq, u, x);
        InsertBelow(leq, u, x, y);
      }
    }
  }

  /** The result is sorted, for every total preorder. */
  lemma {:induction false} StableSortSorted<T(!new)>(leq: (T, T) -> bool, s: seq<T>)
    requires TotalPreorder(leq)
    ensures Sorted(leq, StableSort(leq, s))
  {
    if s != [] {
      StableSortSorted(leq, s[..|s| - 1]);
      InsertLastSorted(leq, StableSort(leq, s[..|s| - 1]), s[|s| - 1]);
    }
  }

  function Filter<T>(p: T -> bool, s: seq<T>): (r: seq<T>)
    ensures |r| <= |s|
  {
    if s == [] then []
    else if p(s[|s| - 1]) then Filter(p, s[..|s| - 1]) + [s[|s| - 1]]
    else Filter(p, s[..|s| - 1])
  }

  lemma {:induction false} FilterMembers<T>(p: T -> bool, s: seq<T>)
    ensures forall x :: x in Filter(p, s) ==> x in s && p(x)
    ensures forall x :: x in s && p(x) ==> x in Filter(p, s)
  {
    if s != [] {
      FilterMembers(p, s[..|s| - 1]);
      assert s == s[..|s| - 1] + [s[|s| - 1]];
    }
  }

  lemma {:induction false} FilterConcat<T>(p: T -> bool, s: seq<T>, t: seq<T>)
    ensures Filter(p, s + t) == Filter(p, s) + Filter(p, t)
  {
    if t == [] {
      assert s + t == s;
      assert Filter(p, s) + [] == Filter(p, s);
    } else {
      var u, x := t[..|t| - 1], t[|t| - 1];
      FilterConcat(p, s, u);
      assert s + t == (s + u) + [x];
    }
  }

  /** Elements that are tied with each other keep their order: `p` picks out one class
      of ties, and the sort leaves that subsequence as it was. */
  lemma {:induction false} StableSortStable<T>(leq: (T, T) -> bool, s: seq<T>, p: T -> bool)
    requires Tied(leq, s, p)
    ensures Filter(p, StableSort(leq, s)) == Filter(p, s)
  {
    if s != [] {
      var u, x := s[..|s| - 1], s[|s| - 1];
      StableSortStable(leq, u, p);
      StableSortPerm(leq, u);
      StableSortLast(leq, u, StableSort(leq, u), x, p);
      assert s == u + [x];
    }
  }

  /** All elements that `p` picks out are tied. */
  predicate Tied<T>(leq: (T, T) -> bool, s: seq<T>, p: T -> bool) {
    forall i, j :: 0 <= i < |s| && 0 <= j < |s| && p(s[i]) && p(s[j]) ==> leq(s[i], s[j])
  }

  lemma StableSortLast<T>(leq: (T, T) -> bool, u: seq<T>, r: seq<T>, x: T, p: T -> bool)
    requires multiset(r) == multiset(u) && Filter(p, r) == Filter(p, u)
    requires forall i :: 0 <= i < |u| && p(u[i]) && p(x) ==> leq(u[i], x)
    ensures Filter(p, InsertLast(leq, r, x)) == Filter(p, u + [x])
  {
    StillBelow(leq, u, r, x, p);
    InsertLastStable(leq, r, x, p);
  }

  lemma StillBelow<T>(leq: (T, T) -> bool, u: seq<T>, r: seq<T>, x: T, p: T -> bool)
    requires multiset(r) == multiset(u)
    requires forall i :: 0 <= i < |u| && p(u[i]) && p(x) ==> leq(u[i], x)
    ensures forall i :: 0 <= i < |r| && p(r[i]) && p(x) ==> leq(r[i], x)
  {
    SameElements(r, u);
    forall i | 0 <= i < |r| && p(r[i]) && p(x) ensures leq(r[i], x) {
      assert r[i] in u;
    }
  }

  lemma {:induction false} InsertLastStable<T>(leq: (T, T) -> bool, s: seq<T>, x: T, p: T -> bool)
    requires forall i :: 0 <= i < |s| && p(s[i]) && p(x) ==> leq(s[i], x)
    ensures Filter(p, InsertLast(leq, s, x)) == Filter(p, s + [x])
  {
    if s != [] && !leq(s[|s| - 1], x) {
      var u, y := s[..|s| - 1], s[|s| - 1];
      InsertLastStable(leq, u, x, p);
      assert !p(x) || !p(y);
    }
  }

  /** No two different elements of `s` are tied. */
  ghost predicate NoTies<T>(leq: (T, T) -> bool, s: seq<T>) {
    forall x, y :: x in s && y in s && leq(x, y) && leq(y, x) ==> x == y
  }

  /** A sorted arrangement is unique once no two different elements are tied. */
  lemma {:induction false} SortedUnique<T(!new)>(leq: (T, T) -> bool, s: seq<T>, t: seq<T>)
    requires TotalPreorder(leq) && Sorted(leq, s) && Sorted(leq, t)
    requires multiset(s) == multiset(t) && NoTies(leq, s)
    ensures s == t
  {
    assert |multiset(s)| == |s| && |multiset(t)| == |t|;
    if s != [] {
      SameLast(leq, s, t);
      DropLast(s);
      DropLast(t);
      SortedUnique(leq, s[..|s| - 1], t[..|t| - 1]);
    }
  }

  lemma SameLast<T(!new)>(leq: (T, T) -> bool, s: seq<T>, t: seq<T>)
    requires TotalPreorder(leq) && Sorted(leq, s) && Sorted(leq, t) && s != [] && t != []
    requires multiset(s) == multiset(t) && NoTies(leq, s)
    ensures s[|s| - 1] == t[|t| - 1]
  {
    var x, y := s[|s| - 1], t[|t| - 1];
    SortedLast(leq, s, t);
    SortedLast(leq, t, s);
    SameElements(s, t);
    assert x in s && y in t && leq(x, y) && leq(y, x);
  }

  lemma DropLast<T>(s: seq<T>)
    requires s != []
    ensures s == s[..|s| - 1] + [s[|s| - 1]]
    ensures multiset(s[..|s| - 1]) == multiset(s) - multiset{s[|s| - 1]}
    ensures forall x :: x in s[..|s| - 1] ==> x in s
  {
    assert s == s[..|s| - 1] + [s[|s| - 1]];
  }

  /** The last element of a sorted sequence is an upper bound of any arrangement of it. */
  lemma SortedLast<T(!new)>(leq: (T, T) -> bool, s: seq<T>, t: seq<T>)
    requires TotalPreorder(leq) && Sorted(leq, s) && s != []
    requires multiset(s) == multiset(t)
    ensures forall x :: x in t ==> leq(x, s[|s| - 1])
  {
    forall x | x in t ensures leq(x, s[|s| - 1]) {
      assert x in multiset(s);
      var i :| 0 <= i < |s| && s[i] == x;
      assert leq(s[i], s[i]);
    }
  }

  /** Sorting forgets the order of its input once no two different elements are tied. */
  lemma SortIgnoresOrder<T(!new)>(leq: (T, T) -> bool, s: seq<T>, t: seq<T>)
    requires TotalPreorder(leq)
    requires multiset(s) == multiset(t) && NoTies(leq, s)
    ensures StableSort(leq, s) == StableSort(leq, t)
  {
    StableSortSorted(leq, s);
    StableSortSorted(leq, t);
    StableSortPerm(leq, s);
    StableSortPerm(leq, t);
    SameElements(StableSort(leq, s), s);
    SortedUnique(leq, StableSort(leq, s), StableSort(leq, t));
  }

  lemma ConcatAssociative<T>(a: seq<T>, b: seq<T>, c: seq<T>)
    ensures (a + b) + c == a + (b + c)
  {
  }

  /** Elements above `x` stay behind it. */
  lemma {:induction false} InsertLastBelow<T>(leq: (T, T) -> bool, s: seq<T>, above: seq<T>, x: T)
    requires forall i :: 0 <= i < |above| ==> !leq(above[i], x)
    ensures InsertLast(leq, s + above, x) == InsertLast(leq, s, x) + above
  {
    if above == [] {
      assert s + above == s;
    } else {
      var u, y := above[..|above| - 1], above[|above| - 1];
      InsertLastBelow(leq, s, u, x);
      assert above == u + [y];
      ConcatAssociative(s, u, [y]);
      ConcatAssociative(InsertLast(leq, s, x), u, [y]);
    }
  }

  lemma SameElements<T>(s: seq<T>, t: seq<T>)
    requires multiset(s) == multiset(t)
    ensures forall x :: x in s <==> x in t
  {
    forall x ensures x in s <==> x in t {
      assert x in s <==> x in multiset(s);
      assert x in t <==> x in multiset(t);
    }
  }

  lemma {:induction false} FilterAll<T>(p: T -> bool, s: seq<T>)
    requires forall x :: x in s ==> p(x)
    ensures Filter(p, s) == s
  {
    if s != [] {
      FilterAll(p, s[..|s| - 1]);
      assert s == s[..|s| - 1] + [s[|s| - 1]];
    }
  }

  lemma {:induction false} FilterNone<T>(p: T -> bool, s: seq<T>)
    requires forall x :: x in s ==> !p(x)
    ensures Filter(p, s) == []
  {
    if s != [] {
      FilterNone(p, s[..|s| - 1]);
    }
  }

  /** Filtering three stretches of which only one can pass. */
  lemma FilterStretch<T>(p: T -> bool, a: seq<T>, b: seq<T>, c: seq<T>)
    requires forall x :: x in a || x in c ==> !p(x)
    ensures Filter(p, a + b + c) == Filter(p, b)
  {
    FilterConcat(p, a + b, c);
    FilterConcat(p, a, b);
    FilterNone(p, a);
    FilterNone(p, c);
    assert [] + Filter(p, b) + [] == Filter(p, b);
  }

  /** A stretch that passes, then one that does not. */
  lemma FilterHead<T>(p: T -> bool, a: seq<T>, b: seq<T>)
    requires forall x :: x in a ==> p(x)
    requires forall x :: x in b ==> !p(x)
    ensures Filter(p, a + b) == a
  {
    FilterConcat(p, a, b);
    FilterAll(p, a);
    FilterNone(p, b);
  }

  // ---------------------------------------------------------------- distinct elements

  predicate AllDistinct<T(==)>(s: seq<T>) {
    forall i, j :: 0 <= i < j < |s| ==> s[i] != s[j]
  }

  lemma Twice<T>(s: seq<T>, i: nat, j: nat)
    requires i < j < |s| && s[i] == s[j]
    ensures multiset(s)[s[i]] >= 2
  {
    assert s == s[..j] + [s[j]] + s[j + 1..];
    assert s[..j][i] == s[i];
    assert s[i] in multiset(s[..j]);
  }

  lemma AtMostOnce<T>(s: seq<T>, x: T)
    requires AllDistinct(s)
    ensures multiset(s)[x] <= 1
  {
    if x in s {
      var k :| 0 <= k < |s| && s[k] == x;
      assert s == s[..k] + [s[k]] + s[k + 1..];
      assert x !in s[..k] && x !in s[k + 1..];
    }
  }

  /** A rearrangement repeats nothing that was not repeated before. */
  lemma DistinctPermutes<T>(s: seq<T>, t: seq<T>)
    requires AllDistinct(s) && multiset(s) == multiset(t)
    ensures AllDistinct(t)
  {
    forall i, j | 0 <= i < j < |t| ensures t[i] != t[j] {
      if t[i] == t[j] {
        Twice(t, i, j);
        AtMostOnce(s, t[i]);
      }
    }
  }

  // ---------------------------------------------------------------- gathering

  /** What `f` yields for each element, one after the other. */
  function Gather<S, T>(f: S -> seq<T>, s: seq<S>): seq<T> {
    if s == [] then [] else Gather(f, s[..|s| - 1]) + f(s[|s| - 1])
  }

  lemma {:induction false} GatherMembers<S, T>(f: S -> seq<T>, s: seq<S>, y: T)
    ensures y in Gather(f, s) <==> exists x :: x in s && y in f(x)
  {
    if s != [] {
      var u, last := s[..|s| - 1], s[|s| - 1];
      GatherMembers(f, u, y);
      assert s == u + [last];
    }
  }

  /** A filter that passes all of one part and nothing of the others. */
  lemma {:induction false} GatherOne<S, T>(f: S -> seq<T>, s: seq<S>, x: S, p: T -> bool)
    requires AllDistinct(s) && Filter(p, f(x)) == f(x)
    requires forall y :: y in s && y != x ==> Filter(p, f(y)) == []
    ensures Filter(p, Gather(f, s)) == if x in s then f(x) else []
  {
    if s != [] {
      var u, last := s[..|s| - 1], s[|s| - 1];
      GatherOne(f, u, x, p);
      FilterConcat(p, Gather(f, u), f(last));
      assert s == u + [last];
    }
  }

  /** The parts one after the other. */
  function Concat<T>(parts: seq<seq<T>>): seq<T> {
    if parts == [] then [] else Concat(parts[..|parts| - 1]) + parts[|parts| - 1]
  }
}
