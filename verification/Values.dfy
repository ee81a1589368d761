/** The value types every component shares (runtime/types.go). */
module Values {

  datatype Option<+T> = None | Some(value: T)

  type Path = string

  /** A typed value; `Value interface{}` appears here as its printed form. */
  datatype TypedValue = TypedValue(typ: string, repr: string)

  /** The state manager's `data` map. */
  type Data = map<Path, TypedValue>

  function Lookup(d: Data, p: Path): Option<TypedValue> {
    if p in d then Some(d[p]) else None
  }

  /** Two states give the same answer for every path in `paths`. */
  ghost predicate AgreeOn(paths: set<Path>, d1: Data, d2: Data) {
    forall p :: p in paths ==> Lookup(d1, p) == Lookup(d2, p)
  }

  /** `x` occurs in `s` at most once. */
  ghost predicate NoDuplicates<T>(s: seq<T>) {
    forall i, j :: 0 <= i < j < |s| ==> s[i] != s[j]
  }

  /** `order` lists the elements of `s`, each once: one possible iteration order of a Go map. */
  ghost predicate Enumerates<T>(order: seq<T>, s: set<T>) {
    && NoDuplicates(order)
    && (forall x :: x in order ==> x in s)
    && (forall x :: x in s ==> x in order)
  }

  /** `append(s[:i], s[i+1:]...)` at the first position holding `x`. */
  function RemoveFirst<T(==)>(s: seq<T>, x: T): (r: seq<T>)
  {
    if s == [] then []
    else if s[0] == x then s[1..]
    else [s[0]] + RemoveFirst(s[1..], x)
  }

  lemma {:induction false} RemoveFirstMultiset<T>(s: seq<T>, x: T)
    ensures multiset(RemoveFirst(s, x)) == multiset(s) - multiset{x}
  {
    if s != [] {
      assert s == [s[0]] + s[1..];
      RemoveFirstMultiset(s[1..], x);
    }
  }

  lemma RemoveFirstTimes<T>(s: seq<T>, x: T, y: T)
    ensures multiset(RemoveFirst(s, x))[y] ==
            if y == x && multiset(s)[y] > 0 then multiset(s)[y] - 1 else multiset(s)[y]
  {
    RemoveFirstMultiset(s, x);
  }

  lemma TwiceCounts<T>(s: seq<T>, i: nat, j: nat)
    requires i < j < |s| && s[i] == s[j]
    ensures multiset(s)[s[i]] >= 2
  {
    assert s == s[..i + 1] + s[i + 1..];
    assert s[..i + 1][i] == s[i] && s[i + 1..][j - i - 1] == s[i];
    assert s[i] in multiset(s[..i + 1]) && s[i] in multiset(s[i + 1..]);
  }

  lemma OnceEach<T>(s: seq<T>)
    requires forall x :: x in s ==> multiset(s)[x] <= 1
    ensures NoDuplicates(s)
  {
    forall i, j | 0 <= i < j < |s| ensures s[i] != s[j] {
      assert s[i] in s;
      if s[i] == s[j] { TwiceCounts(s, i, j); }
    }
  }

  lemma {:induction false} RemoveFirstAbsent<T>(s: seq<T>, x: T)
    requires x !in s
    ensures RemoveFirst(s, x) == s
  {
    if s != [] { RemoveFirstAbsent(s[1..], x); }
  }

  /** The elements satisfying `keep`, in their order. */
  function Filter<T>(s: seq<T>, keep: T -> bool): (r: seq<T>)
    ensures forall x :: x in r ==> x in s && keep(x)
    ensures forall x :: x in s && keep(x) ==> x in r
  {
    if s == [] then []
    else
      assert s == [s[0]] + s[1..];
      if keep(s[0]) then [s[0]] + Filter(s[1..], keep) else Filter(s[1..], keep)
  }

  lemma {:induction false} FilterSnoc<T>(s: seq<T>, x: T, keep: T -> bool)
    ensures Filter(s + [x], keep) == Filter(s, keep) + (if keep(x) then [x] else [])
  {
    if s == [] {
      assert s + [x] == [x];
    } else {
      FilterSnoc(s[1..], x, keep);
      assert (s + [x])[1..] == s[1..] + [x];
    }
  }

  lemma {:induction false} CountOne<T>(s: seq<T>, x: T)
    requires NoDuplicates(s)
    ensures multiset(s)[x] == if x in s then 1 else 0
  {
    if s != [] {
      assert s == [s[0]] + s[1..];
      CountOne(s[1..], x);
    }
  }

  lemma {:induction false} RemoveFirstAt<T>(s: seq<T>, x: T, i: nat)
    requires i < |s| && s[i] == x && x !in s[..i]
    ensures RemoveFirst(s, x) == s[..i] + s[i + 1..]
  {
    if i > 0 {
      assert s[0] == s[..i][0];
      assert s[1..][..i - 1] == s[..i][1..];
      RemoveFirstAt(s[1..], x, i - 1);
    }
  }

  /** The splice of `RemoveFirst`, as the Go loops do it: find the position, cut, break. */
  method SpliceOut<T(==)>(s: seq<T>, x: T) returns (r: seq<T>)
    ensures r == RemoveFirst(s, x)
  {
    var i := 0;
    while i < |s|
      invariant 0 <= i <= |s|
      invariant x !in s[..i]
    {
      if s[i] == x {
        RemoveFirstAt(s, x, i);
        return s[..i] + s[i + 1..];
      }
      i := i + 1;
    }
    RemoveFirstAbsent(s, x);
    return s;
  }

  function RemoveTimes<T(==)>(s: seq<T>, x: T, k: nat): (r: seq<T>)
  {
    if k == 0 then s else RemoveFirst(RemoveTimes(s, x, k - 1), x)
  }

  /** `s` with every `x` removed. */
  function Without<T(==)>(s: seq<T>, x: T): (r: seq<T>) {
    if s == [] then [] else (if s[0] == x then [] else [s[0]]) + Without(s[1..], x)
  }

  lemma {:induction false} WithoutRemoveFirst<T>(s: seq<T>, x: T)
    ensures Without(RemoveFirst(s, x), x) == Without(s, x)
  {
    if s != [] && s[0] != x {
      WithoutRemoveFirst(s[1..], x);
      assert RemoveFirst(s, x)[1..] == RemoveFirst(s[1..], x);
    }
  }

  lemma {:induction false} FilterNothing<T>(s: seq<T>, keep: T -> bool)
    requires forall x :: x in s ==> keep(x)
    ensures Filter(s, keep) == s
  {
    if s != [] { FilterNothing(s[1..], keep); }
  }

  lemma {:induction false} WithoutNothing<T>(s: seq<T>, x: T)
    requires x !in s
    ensures Without(s, x) == s
  {
    if s != [] { WithoutNothing(s[1..], x); }
  }

  lemma {:induction false} WithoutSnoc<T>(s: seq<T>, x: T)
    ensures Without(s + [x], x) == Without(s, x)
  {
    if s == [] {
      assert s + [x] == [x];
    } else {
      WithoutSnoc(s[1..], x);
      assert (s + [x])[1..] == s[1..] + [x];
    }
  }

  lemma {:induction false} WithoutTimes<T>(s: seq<T>, x: T, y: T)
    ensures multiset(Without(s, x))[y] == if y != x then multiset(s)[y] else 0
  {
    if s != [] {
      assert s == [s[0]] + s[1..];
      WithoutTimes(s[1..], x, y);
    }
  }

  lemma {:induction false} RemoveTimesFacts<T>(s: seq<T>, x: T, k: nat)
    requires k <= multiset(s)[x]
    ensures multiset(RemoveTimes(s, x, k))[x] == multiset(s)[x] - k
    ensures Without(RemoveTimes(s, x, k), x) == Without(s, x)
  {
    if k > 0 {
      RemoveTimesFacts(s, x, k - 1);
      RemoveFirstMultiset(RemoveTimes(s, x, k - 1), x);
      WithoutRemoveFirst(RemoveTimes(s, x, k - 1), x);
    }
  }

  /** Splicing out the first `x` as often as `x` occurs leaves the sequence without `x`. */
  lemma RemoveAllIsWithout<T>(s: seq<T>, x: T)
    ensures RemoveTimes(s, x, multiset(s)[x]) == Without(s, x)
  {
    var r := RemoveTimes(s, x, multiset(s)[x]);
    RemoveTimesFacts(s, x, multiset(s)[x]);
    assert x !in r by { assert multiset(r)[x] == 0; }
    WithoutNothing(r, x);
  }
}
