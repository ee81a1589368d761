/** Slices that share an array. AddNode keeps the caller's slice (planning/planner.go:44);
    `append(s[:i], s[i+1:]...)` (99) writes through to the cells behind it, and so does
    `append(s, x)` (80) when there is a spare cell. When does the graph stay consistent? */
module SharedSlices {
  import opened Values
  import opened Adjacency

  /** The cells of an array after cell `i` was spliced out of a slice of its first `n`. */
  function Spliced<T>(cells: seq<T>, n: nat, i: nat): seq<T>
    requires i < n <= |cells|
  {
    cells[..i] + cells[i + 1..n] + cells[n - 1..]
  }

  /** Where `x` first occurs. */
  predicate FirstAt<T(==)>(s: seq<T>, x: T, i: nat) {
    i < |s| && s[i] == x && x !in s[..i]
  }

  /** What `append` copies. */
  method ShiftLeft(a: array<string>, n: nat, i: nat)
    requires i < n <= a.Length
    modifies a
    ensures a[..] == Spliced(old(a[..]), n, i)
  {
    ghost var cells := a[..];
    var j := i;
    while j < n - 1
      invariant i <= j <= n - 1
      invariant forall k :: i <= k < j ==> a[k] == cells[k + 1]
      invariant forall k :: 0 <= k < i || j <= k < a.Length ==> a[k] == cells[k]
    {
      a[j] := a[j + 1];
      j := j + 1;
    }
    forall k | 0 <= k < a.Length ensures a[..][k] == Spliced(cells, n, i)[k] {
      if k < i {
      } else if k < n - 1 {
        assert Spliced(cells, n, i)[k] == cells[i + 1..n][k - i];
      }
    }
  }

  method Search(a: array<string>, n: nat, x: string) returns (i: nat)
    requires n <= a.Length
    ensures if x in a[..n] then FirstAt(a[..n], x, i) else i == n
  {
    i := 0;
    while i < n && a[i] != x
      invariant 0 <= i <= n && x !in a[..i]
    {
      i := i + 1;
    }
    assert a[..n][..i] == a[..i];
  }

  lemma SplicedIsRemoved(cells: seq<string>, n: nat, x: string, i: nat)
    requires n <= |cells| && FirstAt(cells[..n], x, i)
    ensures Spliced(cells, n, i)[..n - 1] == RemoveFirst(cells[..n], x)
  {
    RemoveFirstAt(cells[..n], x, i);
    assert Spliced(cells, n, i)[..n - 1] == cells[..n][..i] + cells[..n][i + 1..];
  }

  /** The cells and the length after one search and splice. */
  function CutCells(cells: seq<string>, n: nat, x: string): (seq<string>, nat)
    requires n <= |cells|
  {
    if x in cells[..n] then (Spliced(cells, n, IndexOf(cells[..n], x)), n - 1) else (cells, n)
  }

  function IndexOf(s: seq<string>, x: string): (i: nat)
    requires x in s
    ensures FirstAt(s, x, i)
  {
    if s[0] == x then 0
    else
      var i := IndexOf(s[1..], x);
      assert s[..i + 1] == [s[0]] + s[1..][..i];
      i + 1
  }

  lemma FirstUnique<T>(s: seq<T>, x: T, i: nat, j: nat)
    requires FirstAt(s, x, i) && FirstAt(s, x, j)
    ensures i == j
  {
  }

  /** The search loop and the splice, on the array itself. */
  method CutInPlace(a: array<string>, n: nat, x: string) returns (m: nat)
    requires n <= a.Length
    modifies a
    ensures (a[..], m) == CutCells(old(a[..]), n, x)
    ensures m <= n && a[..m] == RemoveFirst(old(a[..n]), x)
  {
    ghost var cells := a[..];
    assert cells[..n] == a[..n];
    var i := Search(a, n, x);
    if i == n {
      RemoveFirstAbsent(cells[..n], x);
      return n;
    }
    FirstUnique(cells[..n], x, i, IndexOf(cells[..n], x));
    SplicedIsRemoved(cells, n, x, i);
    ShiftLeft(a, n, i);
    assert a[..n - 1] == a[..][..n - 1];
    return n - 1;
  }

  /** A second slice of the same `n` cells reads what it read before exactly when the
      cells from the cut on were all equal. */
  lemma SharedUnharmedIff<T>(cells: seq<T>, n: nat, i: nat)
    requires i < n <= |cells|
    ensures Spliced(cells, n, i)[..n] == cells[..n] <==> forall j :: i <= j < n - 1 ==> cells[j] == cells[j + 1]
  {
    var after := Spliced(cells, n, i)[..n];
    assert |after| == n && forall j :: 0 <= j < n ==>
      after[j] == if j < i then cells[j] else if j < n - 1 then cells[j + 1] else cells[n - 1];
    if after == cells[..n] {
      forall j | i <= j < n - 1 ensures cells[j] == cells[j + 1] { assert after[j] == cells[..n][j]; }
    }
  }

  // ---------- cuts through one array ----------

  /** The cells of an array and, for each goal that has a slice of it, the slice's length. */
  datatype Shared = Shared(cells: seq<string>, lens: map<string, nat>)

  ghost predicate Fits(st: Shared) { forall g :: g in st.lens ==> st.lens[g] <= |st.cells| }

  function ReadBy(st: Shared, g: string): seq<string>
    requires g in st.lens && st.lens[g] <= |st.cells|
  {
    st.cells[..st.lens[g]]
  }

  /** RemoveNode cuts `x` out of the list of `g`. */
  function CutBy(st: Shared, g: string, x: string): Shared
    requires g in st.lens && st.lens[g] <= |st.cells|
  {
    var (cells, n) := CutCells(st.cells, st.lens[g], x);
    Shared(cells, st.lens[g := n])
  }

  function Whole(cells: seq<string>, goals: set<string>): Shared { Shared(cells, map g | g in goals :: |cells|) }

  /** The loop over the dependents; those with lists of their own do not touch the array. */
  function CutEach(st: Shared, turns: seq<string>, x: string): (r: Shared)
    requires Fits(st)
    ensures Fits(r) && r.lens.Keys == st.lens.Keys && |r.cells| == |st.cells|
  {
    if turns == [] then st
    else
      var u := CutEach(st, turns[..|turns| - 1], x);
      var g := turns[|turns| - 1];
      if g in u.lens then CutBy(u, g, x) else u
  }

  /** `cells` after `m` effective cuts: what is left, filled up with the last cell. */
  function After(cells: seq<string>, x: string, m: nat): seq<string>
    requires cells != []
  {
    var left := RemoveTimes(cells, x, m);
    left + Repeat(cells[|cells| - 1], if |left| <= |cells| then |cells| - |left| else 0)
  }

  lemma {:induction false} LeftOver(cells: seq<string>, x: string, m: nat)
    requires cells != []
    ensures |RemoveTimes(cells, x, m)| <= |cells|
    ensures forall y :: y in RemoveTimes(cells, x, m) ==> y in cells
    ensures var left := RemoveTimes(cells, x, m);
            (left != [] && (cells[|cells| - 1] != x || x in left)) ==> left[|left| - 1] == cells[|cells| - 1]
    ensures cells[|cells| - 1] != x ==> RemoveTimes(cells, x, m) != []
  {
    if m > 0 {
      LeftOver(cells, x, m - 1);
      RemoveFirstLast(RemoveTimes(cells, x, m - 1), x);
    }
  }

  /** A splice keeps the last element, unless it takes it. */
  lemma {:induction false} RemoveFirstLast(s: seq<string>, x: string)
    ensures |RemoveFirst(s, x)| == (if x in s then |s| - 1 else |s|)
    ensures forall y :: y in RemoveFirst(s, x) ==> y in s
    ensures var r := RemoveFirst(s, x);
            r != [] && (s[|s| - 1] != x || x in r) ==> r[|r| - 1] == s[|s| - 1]
    ensures s != [] && s[|s| - 1] != x ==> RemoveFirst(s, x) != []
  {
    if s != [] && s[0] != x { RemoveFirstLast(s[1..], x); }
  }

  /** One effective cut takes the cells from `After(m)` to `After(m + 1)`. */
  lemma CutAfter(cells: seq<string>, x: string, m: nat, n: nat)
    requires cells != [] && |RemoveTimes(cells, x, m)| <= n <= |cells| && |After(cells, x, m)| == |cells|
    requires x in After(cells, x, m)[..n]
    ensures CutCells(After(cells, x, m), n, x) == (After(cells, x, m + 1), n - 1)
    ensures |RemoveTimes(cells, x, m + 1)| <= n - 1
  {
    if x in RemoveTimes(cells, x, m) { CutLeft(cells, x, m, n); } else { CutFill(cells, x, m, n); }
  }

  lemma IndexInPrefix(left: seq<string>, rest: seq<string>, n: nat, x: string)
    requires x in left && |left| <= n <= |left| + |rest|
    ensures x in (left + rest)[..n] && IndexOf((left + rest)[..n], x) == IndexOf(left, x)
  {
    var c, j := (left + rest)[..n], IndexOf(left, x);
    assert c[j] == x && c[..j] == left[..j];
    FirstUnique(c, x, IndexOf(c, x), j);
  }

  lemma CutLeft(cells: seq<string>, x: string, m: nat, n: nat)
    requires cells != [] && |RemoveTimes(cells, x, m)| <= n <= |cells| && |After(cells, x, m)| == |cells|
    requires x in RemoveTimes(cells, x, m)
    ensures CutCells(After(cells, x, m), n, x) == (After(cells, x, m + 1), n - 1)
    ensures |RemoveTimes(cells, x, m + 1)| <= n - 1
  {
    var left, last := RemoveTimes(cells, x, m), cells[|cells| - 1];
    var fill := |cells| - |left|;
    LeftOver(cells, x, m);
    RemoveFirstLast(left, x);
    IndexInPrefix(left, Repeat(last, fill), n, x);
    RemoveFirstAt(left, x, IndexOf(left, x));
    FilledCut(left, last, fill, n, IndexOf(left, x));
    assert RemoveTimes(cells, x, m + 1) == RemoveFirst(left, x);
  }

  lemma CutFill(cells: seq<string>, x: string, m: nat, n: nat)
    requires cells != [] && |RemoveTimes(cells, x, m)| <= n <= |cells| && |After(cells, x, m)| == |cells|
    requires x in After(cells, x, m)[..n] && x !in RemoveTimes(cells, x, m)
    ensures CutCells(After(cells, x, m), n, x) == (After(cells, x, m + 1), n - 1)
    ensures |RemoveTimes(cells, x, m + 1)| <= n - 1
  {
    var c, left := After(cells, x, m), RemoveTimes(cells, x, m);
    var i := IndexOf(c[..n], x);
    LeftOver(cells, x, m);
    RemoveFirstAbsent(left, x);
    assert forall k :: 0 <= k < |left| ==> c[..n][k] == left[k];
    AllLast(left, x, |cells| - |left|, n, i);
  }

  lemma FilledCut(left: seq<string>, last: string, fill: nat, n: nat, j: nat)
    requires j < |left| <= n <= |left| + fill && left[|left| - 1] == last
    ensures Spliced(left + Repeat(last, fill), n, j) == left[..j] + left[j + 1..] + Repeat(last, fill + 1)
  {
  }

  lemma AllLast(left: seq<string>, last: string, fill: nat, n: nat, i: nat)
    requires |left| <= i < n <= |left| + fill
    ensures Spliced(left + Repeat(last, fill), n, i) == left + Repeat(last, fill)
  {
  }

  lemma LeftSize(cells: seq<string>, x: string, m: nat)
    ensures m <= Times(cells, x) ==>
              |RemoveTimes(cells, x, m)| == |cells| - m && Times(RemoveTimes(cells, x, m), x) == Times(cells, x) - m
    ensures m >= Times(cells, x) ==> RemoveTimes(cells, x, m) == Without(cells, x)
  {
    if m > 0 { LeftSize(cells, x, m - 1); }
    if 0 < m <= Times(cells, x) {
      var left := RemoveTimes(cells, x, m - 1);
      assert x in multiset(left);
      RemoveFirstLast(left, x);
      RemoveFirstTimes(left, x, x);
    }
    if m == Times(cells, x) { RemoveAllIsWithout(cells, x); }
    if m > Times(cells, x) {
      WithoutTimes(cells, x, x);
      assert x !in multiset(Without(cells, x));
      RemoveFirstAbsent(Without(cells, x), x);
    }
  }

  /** Where the loop stands after `m` effective cuts. */
  ghost predicate At(st: Shared, cells: seq<string>, x: string, m: nat) {
    && cells != [] && st.cells == After(cells, x, m) && |st.cells| == |cells|
    && (cells[|cells| - 1] != x ==> m <= Times(cells, x))
    && (forall g :: g in st.lens ==> |RemoveTimes(cells, x, m)| <= st.lens[g] <= |cells|)
    && (forall g, h :: g in st.lens && h in st.lens && g != h ==>
         (|cells| - st.lens[g]) + (|cells| - st.lens[h]) <= m)
  }

  /** A turn finds `x` while some is left, and after that only if the cells were filled up with it. */
  lemma Finds(cells: seq<string>, x: string, m: nat, n: nat)
    requires cells != [] && |RemoveTimes(cells, x, m)| <= n <= |cells| && |After(cells, x, m)| == |cells|
    requires cells[|cells| - 1] != x ==> m <= Times(cells, x)
    ensures x in After(cells, x, m)[..n] <==>
            m < Times(cells, x) || (cells[|cells| - 1] == x && n > |RemoveTimes(cells, x, m)|)
  {
    var c, left := After(cells, x, m), RemoveTimes(cells, x, m);
    LeftSize(cells, x, m);
    LeftSize(cells, x, Times(cells, x));
    WithoutTimes(cells, x, x);
    assert x in left <==> x in multiset(left);
    assert c[..n] == left + Repeat(cells[|cells| - 1], n - |left|);
    if cells[|cells| - 1] == x && n > |left| { assert c[..n][|left|] == x; }
    if x in left { assert c[..n][IndexOf(left, x)] == x; }
  }

  lemma AtCut(st: Shared, cells: seq<string>, x: string, m: nat, g: string)
    requires At(st, cells, x, m) && g in st.lens && x in ReadBy(st, g)
    ensures At(Shared(After(cells, x, m + 1), st.lens[g := st.lens[g] - 1]), cells, x, m + 1)
  {
    Finds(cells, x, m, st.lens[g]);
    CutAfter(cells, x, m, st.lens[g]);
    RemoveFirstLast(RemoveTimes(cells, x, m), x);
    LeftOver(cells, x, m + 1);
    SpreadCut(|cells|, st.lens, m, g);
    var lens := st.lens[g := st.lens[g] - 1];
    assert forall h :: h in lens ==> |RemoveTimes(cells, x, m + 1)| <= lens[h] <= |cells|;
  }

  /** Two lengths stay within m cuts of the whole, together, when one of them loses a cell to one more cut. */
  lemma SpreadCut(n: nat, lens: map<string, nat>, m: nat, g: string)
    requires g in lens && lens[g] > 0
    requires forall a, b :: a in lens && b in lens && a != b ==> (n - lens[a]) + (n - lens[b]) <= m
    ensures var cut := lens[g := lens[g] - 1];
            forall a, b :: a in cut && b in cut && a != b ==> (n - cut[a]) + (n - cut[b]) <= m + 1
  {
  }

  /** What one turn of `g` does. */
  lemma Turn(st: Shared, cells: seq<string>, x: string, m: nat, g: string)
    requires At(st, cells, x, m) && g in st.lens
    ensures if x in ReadBy(st, g)
            then CutBy(st, g, x) == Shared(After(cells, x, m + 1), st.lens[g := st.lens[g] - 1])
            else CutBy(st, g, x) == st
  {
    if x in ReadBy(st, g) {
      CutAfter(cells, x, m, st.lens[g]);
    } else {
      assert st.lens[g := st.lens[g]] == st.lens;
    }
  }

  lemma TurnAt(st: Shared, cells: seq<string>, x: string, m: nat, g: string) returns (m': nat)
    requires At(st, cells, x, m) && g in st.lens
    ensures At(CutBy(st, g, x), cells, x, m')
    ensures m' - m == st.lens[g] - CutBy(st, g, x).lens[g]
  {
    Turn(st, cells, x, m, g);
    if x in ReadBy(st, g) {
      AtCut(st, cells, x, m, g);
      return m + 1;
    }
    return m;
  }

  lemma Unroll(st: Shared, turns: seq<string>, x: string)
    requires Fits(st) && turns != []
    ensures var u := CutEach(st, turns[..|turns| - 1], x);
            CutEach(st, turns, x) == if turns[|turns| - 1] in st.lens then CutBy(u, turns[|turns| - 1], x) else u
  {
  }

  lemma Unshared(cells: seq<string>, goals: set<string>, x: string)
    requires cells != []
    ensures At(Whole(cells, goals), cells, x, 0)
  {
    assert After(cells, x, 0) == cells;
  }

  /** Wherever the loop stands, it stands `At` some count; with one goal that count is its own. */
  lemma {:induction false} Loop(cells: seq<string>, goals: set<string>, turns: seq<string>, x: string) returns (m: nat)
    requires cells != []
    ensures At(CutEach(Whole(cells, goals), turns, x), cells, x, m)
    ensures forall g :: goals == {g} ==> m == |cells| - CutEach(Whole(cells, goals), turns, x).lens[g]
  {
    Unshared(cells, goals, x);
    if turns == [] { return 0; }
    var k := |turns| - 1;
    m := Loop(cells, goals, turns[..k], x);
    Unroll(Whole(cells, goals), turns, x);
    if turns[k] in goals {
      m := TurnAt(CutEach(Whole(cells, goals), turns[..k], x), cells, x, m, turns[k]);
    }
  }

  /** Where the cells fill up with `x`, or nobody else shares them, each turn of `g` finds `x`. */
  lemma {:induction false} OwnTurns(cells: seq<string>, goals: set<string>, turns: seq<string>, x: string, g: string)
    requires cells != [] && g in goals && (cells[|cells| - 1] == x || goals == {g})
    requires Times(turns, g) <= Times(cells, x)
    ensures CutEach(Whole(cells, goals), turns, x).lens[g] == |cells| - Times(turns, g)
  {
    if turns != [] {
      var k := |turns| - 1;
      var u := CutEach(Whole(cells, goals), turns[..k], x);
      assert turns == turns[..k] + [turns[k]];
      OwnTurns(cells, goals, turns[..k], x, g);
      Unroll(Whole(cells, goals), turns, x);
      var m := Loop(cells, goals, turns[..k], x);
      if turns[k] in goals {
        Turn(u, cells, x, m, turns[k]);
        if turns[k] == g {
          Finds(cells, x, m, u.lens[g]);
          LeftSize(cells, x, m);
          LeftSize(cells, x, Times(cells, x));
        }
      }
    }
  }

  // ---------- what every goal reads in the end ----------

  /** Every goal that shares the array has its turn as often as the array mentions `x`. */
  ghost predicate FullTurns(cells: seq<string>, goals: set<string>, turns: seq<string>, x: string) {
    forall g :: g in goals ==> Times(turns, g) == Times(cells, x)
  }

  /** Sharing does no harm: `x` is not there, or it is last, or only one goal has the array. */
  ghost predicate Harmless(cells: seq<string>, goals: set<string>, x: string) {
    x !in cells || cells[|cells| - 1] == x || forall g, h :: g in goals && h in goals ==> g == h
  }

  lemma HarmlessReads(cells: seq<string>, goals: set<string>, turns: seq<string>, x: string, g: string)
    requires FullTurns(cells, goals, turns, x) && Harmless(cells, goals, x) && g in goals && x in cells
    ensures ReadBy(CutEach(Whole(cells, goals), turns, x), g) == Without(cells, x)
  {
    var st := CutEach(Whole(cells, goals), turns, x);
    if cells[|cells| - 1] != x { assert goals == {g}; }
    OwnTurns(cells, goals, turns, x, g);
    var m := Loop(cells, goals, turns, x);
    LeftSize(cells, x, m);
    LeftSize(cells, x, Times(cells, x));
    assert |RemoveTimes(cells, x, m)| == st.lens[g];
    assert st.cells[..st.lens[g]] == RemoveTimes(cells, x, m);
  }

  lemma {:induction false} NobodysTurn(st: Shared, turns: seq<string>, x: string)
    requires Fits(st) && forall g :: g in turns ==> g !in st.lens
    ensures CutEach(st, turns, x) == st
  {
    if turns != [] { NobodysTurn(st, turns[..|turns| - 1], x); }
  }

  lemma AbsentReads(cells: seq<string>, goals: set<string>, turns: seq<string>, x: string, g: string)
    requires FullTurns(cells, goals, turns, x) && g in goals && x !in cells
    ensures ReadBy(CutEach(Whole(cells, goals), turns, x), g) == Without(cells, x)
  {
    assert x !in multiset(cells);
    forall h | h in turns ensures h !in goals { assert h in multiset(turns); }
    NobodysTurn(Whole(cells, goals), turns, x);
    WithoutNothing(cells, x);
  }

  /** More than it should: `x` still, or the last cell too often. */
  ghost predicate Misread(cells: seq<string>, x: string, read: seq<string>)
    requires cells != []
  {
    x in read || Times(read, cells[|cells| - 1]) > Times(Without(cells, x), cells[|cells| - 1])
  }

  lemma HarmfulReads(cells: seq<string>, goals: set<string>, turns: seq<string>, x: string) returns (e: string)
    requires !Harmless(cells, goals, x)
    ensures e in goals && Misread(cells, x, ReadBy(CutEach(Whole(cells, goals), turns, x), e))
  {
    var g, h :| g in goals && h in goals && g != h;
    var st := CutEach(Whole(cells, goals), turns, x);
    var m := Loop(cells, goals, turns, x);
    assert x in multiset(cells);
    e := if st.lens[g] > |cells| - Times(cells, x) then g else h;
    assert st.lens[e] > |cells| - Times(cells, x);
    LongMisreads(cells, x, m, st.lens[e]);
  }

  lemma LongMisreads(cells: seq<string>, x: string, m: nat, n: nat)
    requires cells != [] && m <= Times(cells, x) && |cells| - Times(cells, x) < n <= |cells|
    requires |RemoveTimes(cells, x, m)| <= n && |After(cells, x, m)| == |cells|
    ensures Misread(cells, x, After(cells, x, m)[..n])
  {
    var left, last := RemoveTimes(cells, x, m), cells[|cells| - 1];
    var read := After(cells, x, m)[..n];
    assert read == left + Repeat(last, n - |left|);
    LeftSize(cells, x, m);
    if m < Times(cells, x) {
      assert x in multiset(left);
    } else {
      TimesRepeat(last, n - |left|, last);
    }
  }

  lemma MisreadDiffers(cells: seq<string>, x: string, read: seq<string>)
    requires cells != [] && Misread(cells, x, read)
    ensures read != Without(cells, x)
  {
    WithoutTimes(cells, x, x);
    assert x !in multiset(Without(cells, x));
  }

  /** After all turns every goal reads the list without `x` exactly when sharing did no harm,
      whatever the order of the turns. */
  lemma SharedCutsIff(cells: seq<string>, goals: set<string>, turns: seq<string>, x: string)
    requires FullTurns(cells, goals, turns, x)
    ensures (forall g :: g in goals ==> ReadBy(CutEach(Whole(cells, goals), turns, x), g) == Without(cells, x))
            <==> Harmless(cells, goals, x)
  {
    if Harmless(cells, goals, x) {
      forall g | g in goals ensures ReadBy(CutEach(Whole(cells, goals), turns, x), g) == Without(cells, x) {
        if x in cells { HarmlessReads(cells, goals, turns, x, g); } else { AbsentReads(cells, goals, turns, x, g); }
      }
    } else {
      var e := HarmfulReads(cells, goals, turns, x);
      MisreadDiffers(cells, x, ReadBy(CutEach(Whole(cells, goals), turns, x), e));
    }
  }

  // ---------- the mirror ----------

  /** `goals` were added over one slice with these cells; the other lists are their owners'. */
  ghost predicate Sharing(v: View, goals: set<string>, cells: seq<string>) {
    forall g :: g in goals ==> g in v && v[g].dependees == cells
  }

  /** RemoveNode on such a graph: the turns are the dependents of `x`. */
  function RemoveShared(v: View, x: string, goals: set<string>, cells: seq<string>): (w: View)
    requires x in v
    ensures w.Keys == v.Keys - {x}
  {
    var st := CutEach(Whole(cells, goals), v[x].dependents, x);
    var r := RemoveNode(v, x);
    map d | d in r :: if d in goals then r[d].(dependees := ReadBy(st, d)) else r[d]
  }

  /** The mirror survives the removal of `x`, for any graph and any number of goals that share a
      slice, exactly when `x` is not in the slice, or is its last element, or one goal has it. */
  lemma SharedMirrorIff(v: View, x: string, goals: set<string>, cells: seq<string>)
    requires Consistent(v) && x in v && x !in goals && Sharing(v, goals, cells)
    ensures Consistent(RemoveShared(v, x, goals, cells)) <==> Harmless(cells, goals, x)
  {
    forall g | g in goals ensures Times(v[x].dependents, g) == Times(cells, x) { assert MirroredAt(v, g, x); }
    RemoveNodeConsistent(v, x);
    if Harmless(cells, goals, x) {
      HarmlessRemoval(v, x, goals, cells);
    } else {
      HarmfulRemoval(v, x, goals, cells);
    }
  }

  lemma HarmlessRemoval(v: View, x: string, goals: set<string>, cells: seq<string>)
    requires Consistent(v) && x in v && x !in goals && Sharing(v, goals, cells)
    requires FullTurns(cells, goals, v[x].dependents, x) && Harmless(cells, goals, x)
    ensures RemoveShared(v, x, goals, cells) == RemoveNode(v, x)
  {
    SharedCutsIff(cells, goals, v[x].dependents, x);
    RemoveNodeIsErase(v, x);
    SameView(RemoveShared(v, x, goals, cells), RemoveNode(v, x));
  }

  lemma HarmfulRemoval(v: View, x: string, goals: set<string>, cells: seq<string>)
    requires Consistent(v) && x in v && x !in goals && Sharing(v, goals, cells)
    requires !Harmless(cells, goals, x) && Consistent(RemoveNode(v, x))
    ensures !Consistent(RemoveShared(v, x, goals, cells))
  {
    var w, r, last := RemoveShared(v, x, goals, cells), RemoveNode(v, x), cells[|cells| - 1];
    var e := HarmfulReads(cells, goals, v[x].dependents, x);
    assert v[e].dependees == cells && last in cells && last in multiset(v[e].dependees);
    assert Times(v[e].dependees, last) > 0;
    if x in w[e].dependees {
      assert x in multiset(w[e].dependees);
      assert Times(w[e].dependees, x) > 0 && x !in w;
    } else {
      RemoveNodeIsErase(v, x);
      assert r[e].dependees == Without(cells, x);
      assert MirroredAt(r, e, last);
      assert w[last].dependents == r[last].dependents;
      assert !MirroredAt(w, e, last);
    }
  }

  // ---------- appends through one array ----------

  /** What two goals that share a slice of `n` cells read after one appended `p` and then the
      other `q`: with a spare cell both write it, without one each gets an array of its own. */
  function AppendBoth(cells: seq<string>, n: nat, p: string, q: string): (seq<string>, seq<string>)
    requires n <= |cells|
  {
    if n < |cells| then
      var after := cells[n := p][n := q];
      (after[..n + 1], after[..n + 1])
    else (cells + [p], cells + [q])
  }

  /** AddDependency(a, p) and then AddDependency(b, q) when `a` and `b` share such a slice. */
  function AppendShared(v: View, a: string, p: string, b: string, q: string, cells: seq<string>, n: nat): View
    requires n <= |cells|
  {
    var u := AddDependency(AddDependency(v, a, p), b, q);
    WithDependees(WithDependees(u, a, AppendBoth(cells, n, p, q).0), b, AppendBoth(cells, n, p, q).1)
  }

  lemma AddedDependees(v: View, from: string, to: string, d: string)
    requires from in v && d in v
    ensures var w := AddDependency(v, from, to);
            && d in w && to in w
            && w[d].dependees == if d == from then v[d].dependees + [to] else v[d].dependees
  {
  }

  lemma BothAdded(v: View, a: string, p: string, b: string, q: string)
    requires a in v && b in v && a != b
    ensures var u := AddDependency(AddDependency(v, a, p), b, q);
            && a in u && b in u && p in u
            && u[a].dependees == v[a].dependees + [p] && u[b].dependees == v[b].dependees + [q]
  {
    var v1 := AddDependency(v, a, p);
    AddedDependees(v, a, p, a);
    AddedDependees(v, a, p, b);
    AddedDependees(v1, b, q, a);
    AddedDependees(v1, b, q, b);
    AddedDependees(v1, b, q, p);
  }

  /** The graph that AddDependency means to build. */
  function Intended(v: View, a: string, p: string, b: string, q: string): View {
    AddDependency(AddDependency(v, a, p), b, q)
  }

  lemma IntendedConsistent(v: View, a: string, p: string, b: string, q: string)
    requires Consistent(v)
    ensures Consistent(Intended(v, a, p, b, q)) && Backed(Intended(v, a, p, b, q))
  {
    AddDependencyConsistent(v, a, p);
    AddDependencyConsistent(AddDependency(v, a, p), b, q);
    ConsistentIsBacked(Intended(v, a, p, b, q));
  }

  lemma HarmlessAppends(v: View, a: string, p: string, b: string, q: string, cells: seq<string>, n: nat)
    requires a in v && b in v && a != b && n <= |cells| && v[a].dependees == v[b].dependees == cells[..n]
    requires n == |cells| || p == q
    ensures AppendShared(v, a, p, b, q, cells, n) == Intended(v, a, p, b, q)
  {
    BothAdded(v, a, p, b, q);
    AppendReads(cells, n, p, q);
    SameLists(Intended(v, a, p, b, q), a, cells[..n] + [p], b, cells[..n] + [q]);
  }

  lemma HarmfulAppends(v: View, a: string, p: string, b: string, q: string, cells: seq<string>, n: nat)
    requires a in v && b in v && a != b && n < |cells| && v[a].dependees == v[b].dependees == cells[..n]
    ensures var u, w := Intended(v, a, p, b, q), AppendShared(v, a, p, b, q, cells, n);
            && w.Keys == u.Keys && a in u && p in u && u[a].dependees == cells[..n] + [p]
            && w[p].dependents == u[p].dependents && w[a].dependees == cells[..n] + [q]
  {
    BothAdded(v, a, p, b, q);
    AppendReads(cells, n, p, q);
  }

  /** Two appends through a shared slice keep the mirror, and keep the graph backed, exactly when
      there was no spare cell or both appended the same id. */
  lemma SharedAppendIff(v: View, a: string, p: string, b: string, q: string, cells: seq<string>, n: nat)
    requires Consistent(v) && a in v && b in v && a != b && n <= |cells|
    requires v[a].dependees == v[b].dependees == cells[..n]
    ensures Consistent(AppendShared(v, a, p, b, q, cells, n)) <==> n == |cells| || p == q
    ensures Backed(AppendShared(v, a, p, b, q, cells, n)) <==> n == |cells| || p == q
  {
    IntendedConsistent(v, a, p, b, q);
    if n == |cells| || p == q {
      HarmlessAppends(v, a, p, b, q, cells, n);
    } else {
      HarmfulAppends(v, a, p, b, q, cells, n);
      Overwritten(Intended(v, a, p, b, q), AppendShared(v, a, p, b, q, cells, n), a, p, q, cells[..n]);
    }
  }

  lemma SameLists(u: View, a: string, s: seq<string>, b: string, t: seq<string>)
    requires a in u && b in u && a != b && u[a].dependees == s && u[b].dependees == t
    ensures WithDependees(WithDependees(u, a, s), b, t) == u
  {
    SameView(WithDependees(WithDependees(u, a, s), b, t), u);
  }

  lemma AppendReads(cells: seq<string>, n: nat, p: string, q: string)
    requires n <= |cells|
    ensures AppendBoth(cells, n, p, q).1 == cells[..n] + [q]
    ensures AppendBoth(cells, n, p, q).0 == cells[..n] + [if n == |cells| then p else q]
  {
  }

  lemma ConsistentIsBacked(v: View)
    requires Consistent(v)
    ensures Backed(v)
  {
    forall a, b | b in v && Times(v[b].dependents, a) > 0 ensures BackedAt(v, a, b) { assert MirroredAt(v, a, b); }
  }

  lemma Overwritten(u: View, w: View, a: string, p: string, q: string, s: seq<string>)
    requires Consistent(u) && a in u && p in u && u[a].dependees == s + [p] && p != q
    requires w.Keys == u.Keys && w[p].dependents == u[p].dependents && w[a].dependees == s + [q]
    ensures !Consistent(w) && !Backed(w)
  {
    assert MirroredAt(u, a, p);
    assert Times(w[p].dependents, a) > Times(w[a].dependees, p);
    assert !MirroredAt(w, a, p) && !BackedAt(w, a, p);
  }
}
