/** Go's order on strings. */
module Strings {
  import opened Sorting

  predicate StrLe(s: string, t: string) {
    if s == [] then true
    else if t == [] then false
    else if s[0] != t[0] then s[0] < t[0]
    else StrLe(s[1..], t[1..])
  }

  lemma {:induction false} StrLeTotal(s: string, t: string)
    ensures StrLe(s, t) || StrLe(t, s)
  {
    if s != [] && t != [] && s[0] == t[0] { StrLeTotal(s[1..], t[1..]); }
  }

  lemma {:induction false} StrLeTransitive(s: string, t: string, u: string)
    requires StrLe(s, t) && StrLe(t, u)
    ensures StrLe(s, u)
  {
    if s != [] && s[0] == t[0] && t[0] == u[0] { StrLeTransitive(s[1..], t[1..], u[1..]); }
  }

  lemma {:induction false} StrLeAntisymmetric(s: string, t: string)
    requires StrLe(s, t) && StrLe(t, s)
    ensures s == t
  {
    if s != [] {
      StrLeAntisymmetric(s[1..], t[1..]);
      assert s == [s[0]] + s[1..] && t == [t[0]] + t[1..];
    }
  }

  /** `s` has the smaller character at the first difference. */
  ghost predicate Smaller(s: string, t: string) {
    exists i :: SmallerAt(s, t, i)
  }

  ghost predicate SmallerAt(s: string, t: string, i: int) {
    0 <= i < |s| && i < |t| && s[i] < t[i] && forall j :: 0 <= j < i ==> s[j] == t[j]
  }

  lemma SmallerTail(s: string, t: string)
    requires s != [] && t != [] && s[0] == t[0]
    ensures Smaller(s, t) <==> Smaller(s[1..], t[1..])
  {
    forall i | SmallerAt(s, t, i) ensures Smaller(s[1..], t[1..]) { assert SmallerAt(s[1..], t[1..], i - 1); }
    forall i | SmallerAt(s[1..], t[1..], i) ensures Smaller(s, t) {
      assert forall j :: 1 <= j <= i + 1 ==> s[j] == s[1..][j - 1] && t[j] == t[1..][j - 1];
      assert SmallerAt(s, t, i + 1);
    }
  }

  lemma PrefixTail(s: string, t: string)
    requires s != [] && t != [] && s[0] == t[0]
    ensures s <= t <==> s[1..] <= t[1..]
  {
    assert s == [s[0]] + s[1..] && t == [t[0]] + t[1..];
  }

  /** Strings are in dictionary order: a prefix first, otherwise the smaller character at the
      first difference. */
  lemma {:induction false} StrLeIff(s: string, t: string)
    ensures StrLe(s, t) <==> s <= t || Smaller(s, t)
  {
    if s != [] && t != [] {
      if s[0] == t[0] {
        StrLeIff(s[1..], t[1..]);
        SmallerTail(s, t);
        PrefixTail(s, t);
      } else if s[0] < t[0] {
        assert SmallerAt(s, t, 0);
      }
    }
  }

  lemma StrLeOrders(s: seq<string>)
    ensures Orders(StrLe, s) && TiesAreEqual(StrLe, s)
  {
    forall a, b | a in s && b in s ensures StrLe(a, b) || StrLe(b, a) { StrLeTotal(a, b); }
    forall a, b, c | a in s && b in s && c in s && StrLe(a, b) && StrLe(b, c) ensures StrLe(a, c) {
      StrLeTransitive(a, b, c);
    }
    forall a, b | a in s && b in s && StrLe(a, b) && StrLe(b, a) ensures a == b { StrLeAntisymmetric(a, b); }
  }

  /** `sort.Strings`. */
  method SortStrings(s: seq<string>) returns (r: seq<string>)
    ensures r == Sort(s, StrLe) && IsSortOf(r, s, StrLe)
  {
    StrLeOrders(s);
    SortSorts(s, StrLe);
    r := SortSlice(s, StrLe);
    StrLeOrders(r);
    SortUnique(r, Sort(s, StrLe), StrLe);
  }
}
