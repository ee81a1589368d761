/** What `sort.Slice` promises: some ordered permutation, not a stable one. */
module Sorting {

  ghost predicate Sorted<T>(s: seq<T>, le: (T, T) -> bool) {
    forall i, j :: 0 <= i < j < |s| ==> le(s[i], s[j])
  }

  /** `le` compares the elements of `s` totally and transitively. */
  ghost predicate Orders<T>(le: (T, T) -> bool, s: seq<T>) {
    && (forall a, b :: a in s && b in s ==> le(a, b) || le(b, a))
    && (forall a, b, c :: a in s && b in s && c in s && le(a, b) && le(b, c) ==> le(a, c))
  }

  /** Only equal elements of `s` tie. */
  ghost predicate TiesAreEqual<T>(le: (T, T) -> bool, s: seq<T>) {
    forall a, b :: a in s && b in s && le(a, b) && le(b, a) ==> a == b
  }

  ghost predicate IsSortOf<T>(r: seq<T>, s: seq<T>, le: (T, T) -> bool) {
    multiset(r) == multiset(s) && Sorted(r, le)
  }

  function Insert<T>(x: T, s: seq<T>, le: (T, T) -> bool): (r: seq<T>)
    ensures multiset(r) == multiset(s) + multiset{x}
  {
    if s == [] then [x]
    else
      assert s == [s[0]] + s[1..];
      if le(x, s[0]) then [x] + s else [s[0]] + Insert(x, s[1..], le)
  }

  function Sort<T>(s: seq<T>, le: (T, T) -> bool): (r: seq<T>)
    ensures multiset(r) == multiset(s)
  {
    if s == [] then []
    else
      assert s == [s[0]] + s[1..];
      Insert(s[0], Sort(s[1..], le), le)
  }

  lemma SameElements<T>(s: seq<T>, t: seq<T>)
    requires multiset(s) == multiset(t)
    ensures |s| == |t|
    ensures forall x :: x in s ==> x in t
  {
    assert |multiset(s)| == |s| && |multiset(t)| == |t|;
    forall x | x in s ensures x in t { assert x in multiset(s); }
  }

  lemma {:induction false} InsertSorts<T>(x: T, s: seq<T>, le: (T, T) -> bool)
    requires Sorted(s, le) && Orders(le, s + [x])
    ensures Sorted(Insert(x, s, le), le)
  {
    if s != [] && !le(x, s[0]) {
      var t := s[1..];
      assert Orders(le, t + [x]) by { assert forall y :: y in t + [x] ==> y in s + [x]; }
      InsertSorts(x, t, le);
      var r := Insert(x, t, le);
      forall y | y in r ensures le(s[0], y) {
        assert y in multiset(r);
        if y != x {
          assert y in t;
        } else {
          assert x in s + [x] && s[0] in s + [x];
        }
      }
    } else if s != [] {
      forall i | 0 <= i < |s| ensures le(x, s[i]) {
        assert x in s + [x] && s[0] in s + [x] && s[i] in s + [x];
      }
    }
  }

  lemma {:induction false} SortSorts<T>(s: seq<T>, le: (T, T) -> bool)
    requires Orders(le, s)
    ensures IsSortOf(Sort(s, le), s, le)
  {
    if s != [] {
      SortSorts(s[1..], le);
      var t := Sort(s[1..], le);
      SameElements(t, s[1..]);
      assert forall y :: y in t + [s[0]] ==> y in s;
      InsertSorts(s[0], t, le);
    }
  }

  /** `sort.Slice`. Callers see the contract only, so what they prove holds of any correct sort. */
  method SortSlice<T>(s: seq<T>, le: (T, T) -> bool) returns (r: seq<T>)
    requires Orders(le, s)
    ensures IsSortOf(r, s, le)
  {
    SortSorts(s, le);
    r := Sort(s, le);
  }

  lemma SameTails<T>(r: seq<T>, t: seq<T>)
    requires r != [] && t != [] && r[0] == t[0] && multiset(r) == multiset(t)
    ensures multiset(r[1..]) == multiset(t[1..])
    ensures r[1..] == t[1..] ==> r == t
  {
    assert r == [r[0]] + r[1..] && t == [t[0]] + t[1..];
    assert multiset(r[1..]) == multiset(r) - multiset{r[0]};
    assert multiset(t[1..]) == multiset(t) - multiset{t[0]};
  }

  lemma SortedTail<T>(s: seq<T>, le: (T, T) -> bool)
    requires s != [] && Sorted(s, le)
    ensures Sorted(s[1..], le)
    ensures TiesAreEqual(le, s) ==> TiesAreEqual(le, s[1..])
  {
    assert forall x :: x in s[1..] ==> x in s;
  }

  lemma SameHead<T>(r: seq<T>, t: seq<T>, le: (T, T) -> bool)
    requires multiset(r) == multiset(t) && Sorted(r, le) && Sorted(t, le) && r != [] && t != []
    requires TiesAreEqual(le, r)
    ensures r[0] == t[0]
  {
    SameElements(r, t);
    SameElements(t, r);
    assert r[0] in t && t[0] in r;
    var i :| 0 <= i < |t| && t[i] == r[0];
    var j :| 0 <= j < |r| && r[j] == t[0];
  }

  lemma {:induction false} SortUnique<T>(r: seq<T>, t: seq<T>, le: (T, T) -> bool)
    requires multiset(r) == multiset(t) && Sorted(r, le) && Sorted(t, le) && TiesAreEqual(le, r)
    ensures r == t
  {
    SameElements(r, t);
    if r != [] {
      SameHead(r, t, le);
      SameTails(r, t);
      SortedTail(r, le);
      SortedTail(t, le);
      SortUnique(r[1..], t[1..], le);
    }
  }

  lemma TwoOrders<T>(s: seq<T>, le: (T, T) -> bool) returns (r: seq<T>, t: seq<T>)
    requires Orders(le, s) && !TiesAreEqual(le, s)
    ensures IsSortOf(r, s, le) && IsSortOf(t, s, le) && r != t
  {
    var a, b :| a in s && b in s && le(a, b) && le(b, a) && a != b;
    SortSorts(s, le);
    r := Sort(s, le);
    SameElements(s, r);
    SameElements(r, s);
    var i :| 0 <= i < |r| && r[i] == a;
    var j :| 0 <= j < |r| && r[j] == b;
    t := r[i := b][j := a];
    SwapTie(r, i, j, le);
    assert t[i] != r[i];
  }

  /** The sorted order of `s` is unique exactly when no two different elements tie. */
  lemma SortUniqueIff<T>(s: seq<T>, le: (T, T) -> bool)
    requires Orders(le, s)
    ensures TiesAreEqual(le, s) <==>
            forall r, t :: IsSortOf(r, s, le) && IsSortOf(t, s, le) ==> r == t
  {
    if TiesAreEqual(le, s) {
      forall r, t | IsSortOf(r, s, le) && IsSortOf(t, s, le) ensures r == t {
        SameElements(r, s);
        SortUnique(r, t, le);
      }
    } else {
      var r, t := TwoOrders(s, le);
    }
  }

  lemma SwapTie<T>(r: seq<T>, i: nat, j: nat, le: (T, T) -> bool)
    requires i < |r| && j < |r| && i != j
    requires Sorted(r, le) && Orders(le, r) && le(r[i], r[j]) && le(r[j], r[i])
    ensures Sorted(r[i := r[j]][j := r[i]], le)
    ensures multiset(r[i := r[j]][j := r[i]]) == multiset(r)
  {
    var t := r[i := r[j]][j := r[i]];
    forall m, n | 0 <= m < n < |t| ensures le(t[m], t[n]) {
      assert r[m] in r && r[n] in r && r[i] in r && r[j] in r;
      assert le(r[m], r[n]);
      assert t[m] == (if m == i then r[j] else if m == j then r[i] else r[m]);
      assert t[n] == (if n == i then r[j] else if n == j then r[i] else r[n]);
    }
  }
}
