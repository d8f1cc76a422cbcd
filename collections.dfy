/** Ordering and listing of collections: Python's comparison of strings,
    sorted() of a set, list() of a set (whose order Python leaves unspecified)
    and the order-preserving de-duplication of a list. */
module Collections {

  /** Python's `a < b` on str: lexicographic on code points, a proper prefix first. */
  predicate StrLt(a: string, b: string)
  {
    if a == [] then b != []
    else if b == [] then false
    else if a[0] == b[0] then StrLt(a[1..], b[1..])
    else a[0] < b[0]
  }

  lemma {:induction false} StrLtIrreflexive(a: string)
    ensures !StrLt(a, a)
  {
    if a != [] {
      StrLtIrreflexive(a[1..]);
    }
  }

  lemma {:induction false} StrLtTransitive(a: string, b: string, c: string)
    requires StrLt(a, b) && StrLt(b, c)
    ensures StrLt(a, c)
  {
    if a != [] && b != [] && c != [] && a[0] == b[0] == c[0] {
      StrLtTransitive(a[1..], b[1..], c[1..]);
    }
  }

  lemma {:induction false} StrLtTotal(a: string, b: string)
    requires a != b
    ensures StrLt(a, b) || StrLt(b, a)
  {
    if a != [] && b != [] && a[0] == b[0] {
      assert a == [a[0]] + a[1..] && b == [b[0]] + b[1..];
      StrLtTotal(a[1..], b[1..]);
    }
  }

  /** lt is irreflexive, transitive and relates any two distinct values. */
  ghost predicate StrictTotalOrder<T(!new)>(lt: (T, T) -> bool)
  {
    && (forall x :: !lt(x, x))
    && (forall x, y, z :: lt(x, y) && lt(y, z) ==> lt(x, z))
    && (forall x, y :: x == y || lt(x, y) || lt(y, x))
  }

  lemma StrLtIsStrictTotalOrder()
    ensures StrictTotalOrder(StrLt)
  {
    forall a: string ensures !StrLt(a, a) {
      StrLtIrreflexive(a);
    }
    forall a: string, b: string, c: string | StrLt(a, b) && StrLt(b, c) ensures StrLt(a, c) {
      StrLtTransitive(a, b, c);
    }
    forall a: string, b: string ensures a == b || StrLt(a, b) || StrLt(b, a) {
      if a != b {
        StrLtTotal(a, b);
      }
    }
  }

  /** s is strictly increasing under lt. */
  predicate SortedBy<T>(s: seq<T>, lt: (T, T) -> bool)
  {
    forall i, j | 0 <= i < j < |s| :: lt(s[i], s[j])
  }

  predicate NoDuplicates<T(==)>(s: seq<T>)
  {
    forall i, j | 0 <= i < j < |s| :: s[i] != s[j]
  }

  lemma SortedHasNoDuplicates<T(!new)>(s: seq<T>, lt: (T, T) -> bool)
    requires StrictTotalOrder(lt) && SortedBy(s, lt)
    ensures NoDuplicates(s)
  {
  }

  /** A least element of a non-empty set. */
  ghost function Minimum<T(!new)>(S: set<T>, lt: (T, T) -> bool): (m: T)
    requires StrictTotalOrder(lt) && S != {}
    ensures m in S && forall y | y in S && y != m :: lt(m, y)
    decreases |S|
  {
    var x :| x in S;
    if S - {x} == {} then
      assert S == {x};
      x
    else
      var m := Minimum(S - {x}, lt);
      if lt(x, m) then
        assert forall y | y in S && y != x :: y == m || (y in S - {x} && lt(m, y));
        x
      else
        assert forall y | y in S && y != m :: y == x || y in S - {x};
        m
  }

  /** sorted(S) for a set S: its elements in increasing order. */
  method SortSet<T(!new, ==)>(S: set<T>, lt: (T, T) -> bool) returns (r: seq<T>)
    requires StrictTotalOrder(lt)
    ensures SortedBy(r, lt)
    ensures forall x :: x in r <==> x in S
  {
    r := [];
    var rest := S;
    while rest != {}
      invariant rest <= S
      invariant SortedBy(r, lt)
      invariant forall x :: x in r <==> x in S && x !in rest
      invariant forall x, y | x in r && y in rest :: lt(x, y)
      decreases |rest|
    {
      ghost var least := Minimum(rest, lt);
      var m :| m in rest && forall y | y in rest && y != m :: lt(m, y);
      r := r + [m];
      rest := rest - {m};
    }
  }

  /** The members of S in the order they have in order. */
  function Filter<T(==, !new)>(order: seq<T>, S: set<T>): (r: seq<T>)
    ensures forall x :: x in r <==> x in order && x in S
  {
    if order == [] then []
    else (if order[0] in S then [order[0]] else []) + Filter(order[1..], S)
  }

  /** Nothing is kept from an empty set. */
  lemma {:induction false} FilterOfEmpty<T(!new)>(order: seq<T>)
    ensures Filter(order, {}) == []
  {
    if order != [] {
      FilterOfEmpty(order[1..]);
    }
  }

  /** Filtering keeps the order of an increasing sequence. */
  lemma {:induction false} FilterSorted<T(!new)>(order: seq<T>, S: set<T>, lt: (T, T) -> bool)
    requires SortedBy(order, lt)
    ensures SortedBy(Filter(order, S), lt)
  {
    if order != [] {
      var rest := Filter(order[1..], S);
      FilterSorted(order[1..], S, lt);
      forall k | 0 <= k < |rest| ensures lt(order[0], rest[k]) {
        assert rest[k] in order[1..];
        var m :| 1 <= m < |order| && order[m] == rest[k];
      }
    }
  }

  /** sorted(S) for a set of strings. */
  method SortStrings(S: set<string>) returns (r: seq<string>)
    ensures SortedBy(r, StrLt)
    ensures forall x :: x in r <==> x in S
  {
    StrLtIsStrictTotalOrder();
    r := SortSet(S, StrLt);
  }

  /** Two increasing sequences with the same elements are equal, so the result
      of SortSet does not depend on the order in which it picks elements. */
  lemma {:induction false} SortedUnique<T(!new)>(a: seq<T>, b: seq<T>, lt: (T, T) -> bool)
    requires StrictTotalOrder(lt) && SortedBy(a, lt) && SortedBy(b, lt)
    requires forall x :: x in a <==> x in b
    ensures a == b
  {
    assert a != [] ==> a[0] in b;
    assert b != [] ==> b[0] in a;
    if a != [] && b != [] {
      var a0, b0 := a[0], b[0];
      var i :| 0 <= i < |a| && a[i] == b0;
      var j :| 0 <= j < |b| && b[j] == a0;
      assert i == 0 || lt(a0, b0);
      assert j == 0 || lt(b0, a0);
      assert a0 == b0;
      forall x ensures x in a[1..] <==> x in b[1..] {
        if x in a[1..] {
          var i :| 1 <= i < |a| && a[i] == x;
          assert x != a[0] && x in b;
        }
        if x in b[1..] {
          var j :| 1 <= j < |b| && b[j] == x;
          assert x != b[0] && x in a;
        }
      }
      SortedUnique(a[1..], b[1..], lt);
      assert a == [a[0]] + a[1..] && b == [b[0]] + b[1..];
    }
  }

  /** A set drawn from a fixed increasing list comes out of sorting as the
      matching sub-list of that list. */
  lemma SortedSubsetIsFilter<T(!new)>(r: seq<T>, order: seq<T>, S: set<T>, lt: (T, T) -> bool)
    requires StrictTotalOrder(lt) && SortedBy(order, lt) && SortedBy(r, lt)
    requires forall x | x in S :: x in order
    requires forall x :: x in r <==> x in S
    ensures r == Filter(order, S)
  {
    FilterSorted(order, S, lt);
    SortedUnique(r, Filter(order, S), lt);
  }

  /** list(S) for a set S: each element once, in an order Python leaves unspecified. */
  method ListOfSet<T(==)>(S: set<T>) returns (r: seq<T>)
    ensures NoDuplicates(r)
    ensures forall x :: x in r <==> x in S
  {
    r := [];
    var rest := S;
    while rest != {}
      invariant rest <= S
      invariant NoDuplicates(r)
      invariant forall x :: x in r <==> x in S && x !in rest
      decreases |rest|
    {
      var x :| x in rest;
      r := r + [x];
      rest := rest - {x};
    }
  }

  /** The first index at which x occurs in xs. */
  function FirstIndexOf<T(==)>(xs: seq<T>, x: T): (r: nat)
    requires x in xs
    ensures r < |xs| && xs[r] == x && x !in xs[..r]
  {
    if xs[0] == x then 0
    else
      var k := FirstIndexOf(xs[1..], x);
      assert xs[..k + 1] == [xs[0]] + xs[1..][..k];
      k + 1
  }

  /** The non-empty strings of xs, each kept at its first occurrence: the loop
      `if b and b not in seen: seen.add(b); out.append(b)`. */
  function FirstSeen(xs: seq<string>): (r: seq<string>)
    ensures |r| <= |xs|
  {
    if xs == [] then []
    else
      var init, x := xs[..|xs| - 1], xs[|xs| - 1];
      FirstSeen(init) + (if x != [] && x !in init then [x] else [])
  }

  /** The `seen`-set loop that computes FirstSeen. */
  method KeepFirstSeen(xs: seq<string>) returns (out: seq<string>)
    ensures out == FirstSeen(xs)
  {
    out := [];
    var seen: set<string> := {};
    for i := 0 to |xs|
      invariant out == FirstSeen(xs[..i])
      invariant forall x :: x in seen <==> x in xs[..i] && x != []
    {
      var b := xs[i];
      assert xs[..i + 1] == xs[..i] + [b];
      assert xs[..i + 1][..i] == xs[..i];
      if b != [] && b !in seen {
        seen := seen + {b};
        out := out + [b];
      }
    }
    assert xs[..|xs|] == xs;
  }

  /** FirstSeen keeps exactly the non-empty values of xs. */
  lemma {:induction false} FirstSeenMembers(xs: seq<string>)
    ensures forall x :: x in FirstSeen(xs) <==> x in xs && x != []
  {
    if xs != [] {
      var init := xs[..|xs| - 1];
      FirstSeenMembers(init);
      assert xs == init + [xs[|xs| - 1]];
    }
  }

  /** FirstSeen lists each value once. */
  lemma {:induction false} FirstSeenNoDuplicates(xs: seq<string>)
    ensures NoDuplicates(FirstSeen(xs))
  {
    if xs != [] {
      var init := xs[..|xs| - 1];
      FirstSeenNoDuplicates(init);
      FirstSeenMembers(init);
    }
  }

  lemma FirstIndexOfExtended(init: seq<string>, x: string, y: string)
    requires y in init
    ensures FirstIndexOf(init + [x], y) == FirstIndexOf(init, y)
  {
    var xs := init + [x];
    var k, k' := FirstIndexOf(xs, y), FirstIndexOf(init, y);
    assert xs[k'] == y && xs[..k'] == init[..k'];
    assert forall m | 0 <= m < k' :: xs[m] != y;
    assert forall m | 0 <= m < k :: xs[m] != y;
  }

  /** One pair of positions of FirstSeen(init + [x]), given the order for init. */
  lemma FirstSeenOrderStep(init: seq<string>, x: string, i: nat, j: nat)
    requires forall y | y in FirstSeen(init) :: y in init
    requires forall a, b | 0 <= a < b < |FirstSeen(init)| ::
      FirstIndexOf(init, FirstSeen(init)[a]) < FirstIndexOf(init, FirstSeen(init)[b])
    requires i < j < |FirstSeen(init + [x])|
    ensures FirstSeen(init + [x])[i] in init + [x] && FirstSeen(init + [x])[j] in init + [x]
    ensures FirstIndexOf(init + [x], FirstSeen(init + [x])[i]) < FirstIndexOf(init + [x], FirstSeen(init + [x])[j])
  {
    var xs := init + [x];
    assert xs[..|xs| - 1] == init && xs[|xs| - 1] == x;
    var r, r0 := FirstSeen(xs), FirstSeen(init);
    FirstSeenMembers(init);
    assert r[i] == r0[i] && r[i] in init;
    FirstIndexOfExtended(init, x, r[i]);
    if j < |r0| {
      assert r[j] == r0[j] && r[j] in init;
      FirstIndexOfExtended(init, x, r[j]);
    } else {
      assert r[j] == x && x !in init;
    }
  }

  /** FirstSeen lists values in the order of their first occurrence in xs. */
  lemma {:induction false} FirstSeenOrder(xs: seq<string>)
    ensures forall x | x in FirstSeen(xs) :: x in xs
    ensures forall i, j | 0 <= i < j < |FirstSeen(xs)| ::
      FirstIndexOf(xs, FirstSeen(xs)[i]) < FirstIndexOf(xs, FirstSeen(xs)[j])
  {
    if xs != [] {
      var init, x := xs[..|xs| - 1], xs[|xs| - 1];
      FirstSeenOrder(init);
      assert xs == init + [x];
      forall i, j | 0 <= i < j < |FirstSeen(xs)|
        ensures FirstIndexOf(xs, FirstSeen(xs)[i]) < FirstIndexOf(xs, FirstSeen(xs)[j])
      {
        FirstSeenOrderStep(init, x, i, j);
      }
    }
    FirstSeenMembers(xs);
  }
}
