/** `Array.prototype.sort(comparefn)` as a stable insertion sort.

    ECMA-262 requires the sort to be stable and, when `comparefn` is a
    consistent comparator for the elements, fixes the result completely:
    it is the one permutation that is ordered by `comparefn` and keeps
    elements that compare equal in their original order (`SortUnique`).
    When the comparator is not consistent the order is left to the
    engine; the model then still promises a permutation, and fixes one
    particular order, the one insertion sort produces. */
module ArraySort {

  /** Inserts `x` in front of the first element it is not greater than. */
  function Insert<T>(x: T, ys: seq<T>, cmp: (T, T) -> int): (r: seq<T>)
    ensures multiset(r) == multiset(ys) + multiset{x}
  {
    if |ys| == 0 then [x]
    else if cmp(x, ys[0]) > 0 then
      assert ys == [ys[0]] + ys[1..];
      [ys[0]] + Insert(x, ys[1..], cmp)
    else [x] + ys
  }

  /** `s.sort(cmp)`: the result is always a permutation of `s`. */
  function Sort<T>(s: seq<T>, cmp: (T, T) -> int): (r: seq<T>)
    ensures multiset(r) == multiset(s)
  {
    if |s| == 0 then []
    else
      assert s == [s[0]] + s[1..];
      Insert(s[0], Sort(s[1..], cmp), cmp)
  }

  /** `cmp` is a consistent comparator on the elements of `dom`: it is
      antisymmetric and `cmp(a, b) <= 0` is transitive. */
  ghost predicate ConsistentOn<T>(cmp: (T, T) -> int, dom: seq<T>) {
    && (forall a, b :: a in dom && b in dom ==> cmp(a, b) == -cmp(b, a))
    && (forall a, b, c :: a in dom && b in dom && c in dom && cmp(a, b) <= 0 && cmp(b, c) <= 0 ==> cmp(a, c) <= 0)
  }

  ghost predicate Sorted<T>(cmp: (T, T) -> int, s: seq<T>) {
    forall i, j :: 0 <= i < j < |s| ==> cmp(s[i], s[j]) <= 0
  }

  /** The elements of `s` that compare equal to `k`, in their order in `s`. */
  function Ties<T>(s: seq<T>, k: T, cmp: (T, T) -> int): seq<T> {
    if |s| == 0 then []
    else (if cmp(s[0], k) == 0 then [s[0]] else []) + Ties(s[1..], k, cmp)
  }

  lemma ConsSorted<T>(h: T, t: seq<T>, cmp: (T, T) -> int)
    requires Sorted(cmp, t)
    requires forall e :: e in t ==> cmp(h, e) <= 0
    ensures Sorted(cmp, [h] + t)
  {
    var r := [h] + t;
    forall i, j | 0 <= i < j < |r|
      ensures cmp(r[i], r[j]) <= 0
    {
      assert r[j] == t[j - 1];
      if i > 0 {
        assert r[i] == t[i - 1];
      }
    }
  }

  lemma {:induction false} InsertSorted<T>(x: T, ys: seq<T>, cmp: (T, T) -> int, dom: seq<T>)
    requires ConsistentOn(cmp, dom)
    requires x in dom && forall y :: y in ys ==> y in dom
    requires Sorted(cmp, ys)
    ensures Sorted(cmp, Insert(x, ys, cmp))
  {
    if |ys| > 0 {
      var y := ys[0];
      if cmp(x, y) > 0 {
        var tail := Insert(x, ys[1..], cmp);
        assert Sorted(cmp, ys[1..]) by {
          forall i, j | 0 <= i < j < |ys| - 1
            ensures cmp(ys[1..][i], ys[1..][j]) <= 0
          {
            assert ys[1..][i] == ys[i + 1] && ys[1..][j] == ys[j + 1];
          }
        }
        InsertSorted(x, ys[1..], cmp, dom);
        forall e | e in tail
          ensures cmp(y, e) <= 0
        {
          assert e in multiset(tail);
          if e == x {
            assert cmp(y, x) == -cmp(x, y);
          } else {
            assert e in ys[1..];
            var j :| 0 <= j < |ys[1..]| && ys[1..][j] == e;
            assert ys[j + 1] == e;
          }
        }
        ConsSorted(y, tail, cmp);
      } else {
        forall e | e in ys
          ensures cmp(x, e) <= 0
        {
          var j :| 0 <= j < |ys| && ys[j] == e;
          if j > 0 {
            assert cmp(y, e) <= 0;
          }
        }
        ConsSorted(x, ys, cmp);
      }
    }
  }

  /** With a consistent comparator the result is ordered by it. */
  lemma {:induction false} SortSorted<T>(s: seq<T>, cmp: (T, T) -> int)
    requires ConsistentOn(cmp, s)
    ensures Sorted(cmp, Sort(s, cmp))
  {
    SortSortedIn(s, cmp, s);
  }

  lemma {:induction false} SortSortedIn<T>(s: seq<T>, cmp: (T, T) -> int, dom: seq<T>)
    requires ConsistentOn(cmp, dom)
    requires forall x :: x in s ==> x in dom
    ensures Sorted(cmp, Sort(s, cmp))
  {
    if |s| > 0 {
      SortSortedIn(s[1..], cmp, dom);
      var sorted := Sort(s[1..], cmp);
      forall y | y in sorted
        ensures y in dom
      {
        assert y in multiset(sorted);
        assert y in s[1..];
      }
      InsertSorted(s[0], sorted, cmp, dom);
    }
  }

  lemma TiesAppend<T>(a: seq<T>, b: seq<T>, k: T, cmp: (T, T) -> int)
    ensures Ties(a + b, k, cmp) == Ties(a, k, cmp) + Ties(b, k, cmp)
  {
    if |a| > 0 {
      assert (a + b)[1..] == a[1..] + b;
      TiesAppend(a[1..], b, k, cmp);
    } else {
      assert a + b == b;
    }
  }

  lemma {:induction false} InsertTies<T>(x: T, ys: seq<T>, k: T, cmp: (T, T) -> int, dom: seq<T>)
    requires ConsistentOn(cmp, dom)
    requires x in dom && k in dom && forall y :: y in ys ==> y in dom
    ensures Ties(Insert(x, ys, cmp), k, cmp) == Ties([x] + ys, k, cmp)
  {
    if |ys| > 0 && cmp(x, ys[0]) > 0 {
      var y, rest := ys[0], ys[1..];
      assert ys == [y] + rest;
      assert Insert(x, ys, cmp) == [y] + Insert(x, rest, cmp);
      InsertTies(x, rest, k, cmp, dom);
      TiesAppend([y], Insert(x, rest, cmp), k, cmp);
      TiesAppend([x], rest, k, cmp);
      TiesAppend([y], rest, k, cmp);
      TiesAppend([x], ys, k, cmp);
      GreaterNotBothTie(x, y, k, cmp, dom);
      var tx, ty, tr := Ties([x], k, cmp), Ties([y], k, cmp), Ties(rest, k, cmp);
      assert tx == [] || ty == [];
      calc {
        Ties(Insert(x, ys, cmp), k, cmp);
        ty + (tx + tr);
        tx + (ty + tr);
        Ties([x] + ys, k, cmp);
      }
    }
  }

  /** Two elements of which the first is greater cannot both tie with `k`. */
  lemma GreaterNotBothTie<T>(x: T, y: T, k: T, cmp: (T, T) -> int, dom: seq<T>)
    requires ConsistentOn(cmp, dom)
    requires x in dom && y in dom && k in dom && cmp(x, y) > 0
    ensures Ties([x], k, cmp) == [] || Ties([y], k, cmp) == []
  {
    assert Ties([x], k, cmp) == (if cmp(x, k) == 0 then [x] else []) + Ties([x][1..], k, cmp);
    assert Ties([y], k, cmp) == (if cmp(y, k) == 0 then [y] else []) + Ties([y][1..], k, cmp);
    assert cmp(y, k) == 0 ==> cmp(k, y) == 0;
  }

  /** Stability: the elements that tie with any `k` keep their order. */
  lemma {:induction false} SortStable<T>(s: seq<T>, k: T, cmp: (T, T) -> int)
    requires ConsistentOn(cmp, s) && k in s
    ensures Ties(Sort(s, cmp), k, cmp) == Ties(s, k, cmp)
  {
    SortStableIn(s, k, cmp, s);
  }

  lemma {:induction false} SortStableIn<T>(s: seq<T>, k: T, cmp: (T, T) -> int, dom: seq<T>)
    requires ConsistentOn(cmp, dom)
    requires k in dom && forall x :: x in s ==> x in dom
    ensures Ties(Sort(s, cmp), k, cmp) == Ties(s, k, cmp)
  {
    if |s| > 0 {
      SortStableIn(s[1..], k, cmp, dom);
      var sorted := Sort(s[1..], cmp);
      forall y | y in sorted
        ensures y in dom
      {
        assert y in multiset(sorted);
        assert y in s[1..];
      }
      InsertTies(s[0], sorted, k, cmp, dom);
      TiesAppend([s[0]], sorted, k, cmp);
      TiesAppend([s[0]], s[1..], k, cmp);
      assert s == [s[0]] + s[1..];
    }
  }

  /** The heads of two sorted permutations of each other tie. */
  lemma SortedHeadsTie<T>(u: seq<T>, v: seq<T>, cmp: (T, T) -> int, dom: seq<T>)
    requires ConsistentOn(cmp, dom)
    requires forall x :: x in u ==> x in dom
    requires multiset(u) == multiset(v) && |u| > 0
    requires Sorted(cmp, u) && Sorted(cmp, v)
    ensures |v| > 0 && cmp(u[0], v[0]) == 0 && cmp(v[0], u[0]) == 0
  {
    assert |v| == |multiset(v)| == |multiset(u)| == |u|;
    var a, b := u[0], v[0];
    assert b in multiset(u);
    assert a in multiset(v);
    var j :| 0 <= j < |u| && u[j] == b;
    var i :| 0 <= i < |v| && v[i] == a;
    assert a in dom && b in dom;
    assert cmp(a, b) <= 0 by {
      if j > 0 { assert cmp(u[0], u[j]) <= 0; } else { assert cmp(a, a) == -cmp(a, a); }
    }
    assert cmp(b, a) <= 0 by {
      if i > 0 { assert cmp(v[0], v[i]) <= 0; } else { assert cmp(b, b) == -cmp(b, b); }
    }
    assert cmp(a, b) == -cmp(b, a);
  }

  lemma SortedTail<T>(u: seq<T>, cmp: (T, T) -> int)
    requires Sorted(cmp, u) && |u| > 0
    ensures Sorted(cmp, u[1..])
  {
    forall i, j | 0 <= i < j < |u| - 1
      ensures cmp(u[1..][i], u[1..][j]) <= 0
    {
      assert u[1..][i] == u[i + 1] && u[1..][j] == u[j + 1];
    }
  }

  /** Equal tie classes after a common head give equal tie classes of the
      tails. */
  lemma TailTies<T>(u: seq<T>, v: seq<T>, cmp: (T, T) -> int, dom: seq<T>)
    requires |u| > 0 && |v| > 0 && u[0] == v[0]
    requires forall k :: k in dom ==> Ties(u, k, cmp) == Ties(v, k, cmp)
    ensures forall k :: k in dom ==> Ties(u[1..], k, cmp) == Ties(v[1..], k, cmp)
  {
    var a := u[0];
    assert u == [a] + u[1..] && v == [a] + v[1..];
    forall k | k in dom
      ensures Ties(u[1..], k, cmp) == Ties(v[1..], k, cmp)
    {
      TiesAppend([a], u[1..], k, cmp);
      TiesAppend([a], v[1..], k, cmp);
      var h := Ties([a], k, cmp);
      assert Ties(u[1..], k, cmp) == Ties(u, k, cmp)[|h|..];
      assert Ties(v[1..], k, cmp) == Ties(v, k, cmp)[|h|..];
    }
  }

  /** Heads that tie and open equal tie classes are the same element. */
  lemma TiedHeadsEqual<T>(u: seq<T>, v: seq<T>, cmp: (T, T) -> int)
    requires |u| > 0 && |v| > 0
    requires cmp(u[0], u[0]) == 0 && cmp(v[0], u[0]) == 0
    requires Ties(u, u[0], cmp) == Ties(v, u[0], cmp)
    ensures u[0] == v[0]
  {
    var a, b := u[0], v[0];
    assert u == [a] + u[1..] && v == [b] + v[1..];
    TiesAppend([a], u[1..], a, cmp);
    TiesAppend([b], v[1..], a, cmp);
    assert Ties(u, a, cmp)[0] == a;
    assert Ties(v, a, cmp)[0] == b;
  }

  /** Removing equal heads from two permutations of each other leaves
      permutations of each other. */
  lemma TailMultisets<T>(u: seq<T>, v: seq<T>)
    requires |u| > 0 && |v| > 0 && u[0] == v[0]
    requires multiset(u) == multiset(v)
    ensures multiset(u[1..]) == multiset(v[1..])
  {
    assert u == [u[0]] + u[1..] && v == [v[0]] + v[1..];
    assert multiset(u) == multiset{u[0]} + multiset(u[1..]);
    assert multiset(v) == multiset{v[0]} + multiset(v[1..]);
    assert multiset(u[1..]) == multiset(u) - multiset{u[0]};
    assert multiset(v[1..]) == multiset(v) - multiset{v[0]};
  }

  /** Two sequences ordered by a consistent comparator that agree on every
      class of ties are equal. */
  lemma {:induction false} SortedTiesEqual<T>(u: seq<T>, v: seq<T>, cmp: (T, T) -> int, dom: seq<T>)
    requires ConsistentOn(cmp, dom)
    requires forall x :: x in u ==> x in dom
    requires multiset(u) == multiset(v)
    requires Sorted(cmp, u) && Sorted(cmp, v)
    requires forall k :: k in dom ==> Ties(u, k, cmp) == Ties(v, k, cmp)
    ensures u == v
  {
    if |u| == 0 {
      assert |v| == |multiset(v)| == 0;
    } else {
      SortedHeadsTie(u, v, cmp, dom);
      assert u[0] in dom;
      assert cmp(u[0], u[0]) == 0;
      TiedHeadsEqual(u, v, cmp);
      TailTies(u, v, cmp, dom);
      assert u == [u[0]] + u[1..] && v == [v[0]] + v[1..];
      TailMultisets(u, v);
      SortedTail(u, cmp);
      SortedTail(v, cmp);
      SortedTiesEqual(u[1..], v[1..], cmp, dom);
    }
  }

  /** Any permutation of `s` that is ordered by a consistent `cmp` and keeps
      the order of ties is the result of `Sort`: the model's sort agrees
      with every stable sort the engine may use. */
  lemma SortUnique<T>(s: seq<T>, t: seq<T>, cmp: (T, T) -> int)
    requires ConsistentOn(cmp, s)
    requires multiset(t) == multiset(s)
    requires Sorted(cmp, t)
    requires forall k :: k in s ==> Ties(t, k, cmp) == Ties(s, k, cmp)
    ensures t == Sort(s, cmp)
  {
    var r := Sort(s, cmp);
    SortSorted(s, cmp);
    forall k | k in s
      ensures Ties(r, k, cmp) == Ties(t, k, cmp)
    {
      SortStable(s, k, cmp);
    }
    forall x | x in r
      ensures x in s
    {
      assert x in multiset(r);
    }
    SortedTiesEqual(r, t, cmp, s);
  }

  // ---------------------------------------------------------------------
  // the default comparison of `sort()` without a comparefn
  // ---------------------------------------------------------------------

  /** The `<` of two strings: `a` is a proper prefix of `b`, or `a` has the
      smaller code unit where the two first differ. */
  predicate LessThan(a: string, b: string) {
    if |a| == 0 then |b| > 0
    else if |b| == 0 then false
    else if a[0] != b[0] then a[0] < b[0]
    else LessThan(a[1..], b[1..])
  }

  /** The comparison `sort()` uses when it is given no comparefn. */
  function DefaultCompare(a: string, b: string): int {
    if LessThan(a, b) then -1 else if LessThan(b, a) then 1 else 0
  }

  lemma {:induction false} LessThanTrichotomy(a: string, b: string)
    ensures a == b || LessThan(a, b) || LessThan(b, a)
    ensures !(LessThan(a, b) && LessThan(b, a))
    ensures !LessThan(a, a)
  {
    if |a| > 0 && |b| > 0 {
      LessThanTrichotomy(a[1..], b[1..]);
      if a[0] == b[0] && a[1..] == b[1..] {
        assert a == [a[0]] + a[1..] && b == [b[0]] + b[1..];
      }
    }
    if |a| > 0 {
      LessThanTrichotomy(a[1..], a[1..]);
    }
  }

  lemma {:induction false} LessThanTransitive(a: string, b: string, c: string)
    requires LessThan(a, b) && LessThan(b, c)
    ensures LessThan(a, c)
  {
    if |a| > 0 && a[0] == b[0] && b[0] == c[0] {
      LessThanTransitive(a[1..], b[1..], c[1..]);
    }
  }

  /** The default comparison is consistent on every array of strings, and
      ties exactly the equal strings. */
  lemma DefaultCompareConsistent(dom: seq<string>)
    ensures ConsistentOn(DefaultCompare, dom)
    ensures forall a, b :: DefaultCompare(a, b) == 0 <==> a == b
  {
    forall a, b
      ensures DefaultCompare(a, b) == -DefaultCompare(b, a)
      ensures DefaultCompare(a, b) == 0 <==> a == b
    {
      LessThanTrichotomy(a, b);
    }
    forall a, b, c | DefaultCompare(a, b) <= 0 && DefaultCompare(b, c) <= 0
      ensures DefaultCompare(a, c) <= 0
    {
      LessThanTrichotomy(a, b);
      LessThanTrichotomy(b, c);
      LessThanTrichotomy(a, c);
      if LessThan(a, b) && LessThan(b, c) {
        LessThanTransitive(a, b, c);
      }
      if LessThan(c, a) {
        if LessThan(a, b) {
          LessThanTransitive(c, a, b);
        } else if LessThan(b, c) {
          LessThanTransitive(b, c, a);
        }
      }
    }
  }

  /** `strings.sort()` is the ascending arrangement of the same strings. */
  lemma DefaultSortOrdered(s: seq<string>)
    ensures multiset(Sort(s, DefaultCompare)) == multiset(s)
    ensures forall i, j :: 0 <= i < j < |Sort(s, DefaultCompare)| ==>
      !LessThan(Sort(s, DefaultCompare)[j], Sort(s, DefaultCompare)[i])
  {
    DefaultCompareConsistent(s);
    SortSorted(s, DefaultCompare);
    var r := Sort(s, DefaultCompare);
    forall i, j | 0 <= i < j < |r|
      ensures !LessThan(r[j], r[i])
    {
      assert DefaultCompare(r[i], r[j]) <= 0;
      LessThanTrichotomy(r[i], r[j]);
    }
  }
}
