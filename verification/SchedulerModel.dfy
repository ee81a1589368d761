/** runtime/scheduler.go as values: the order of items, the queue, and what each
    call may do to it. */
module SchedulerModel {
  import opened Values
  import opened Sorting
  import opened Strings

  datatype Item = Item(
    id: string,
    goalID: string,
    priority: int,
    clock: nat,
    executeAt: int,
    deadline: int,
    typ: string)

  /** Times are nanoseconds since Go's zero time, which is 0. */
  const SECOND := 1_000_000_000
  const UNIX_EPOCH := 62_135_596_800

  /** `time.Unix(int64(clock), 0)`. */
  function UnixTime(clock: nat): int { (UNIX_EPOCH + clock) * SECOND }

  /** compareItems. */
  function Compare(a: Item, b: Item): int {
    if a.deadline != 0 && b.deadline != 0 && a.deadline < b.deadline then -1
    else if a.deadline != 0 && b.deadline != 0 && a.deadline > b.deadline then 1
    else if a.deadline != 0 && b.deadline == 0 then -1
    else if a.deadline == 0 && b.deadline != 0 then 1
    else if a.executeAt < b.executeAt then -1
    else if a.executeAt > b.executeAt then 1
    else if a.priority != b.priority then if a.priority > b.priority then -1 else 1
    else if a.clock != b.clock then if a.clock < b.clock then -1 else 1
    else if a.id == b.id then 0
    else if StrLe(a.id, b.id) then -1
    else 1
  }

  predicate ItemLe(a: Item, b: Item) { Compare(a, b) <= 0 }

  predicate SameKey(a: Item, b: Item) {
    a.deadline == b.deadline && a.executeAt == b.executeAt && a.priority == b.priority
    && a.clock == b.clock && a.id == b.id
  }

  /** The comparison is antisymmetric and ties only on equal keys. */
  lemma CompareAntisymmetric(a: Item, b: Item)
    ensures Compare(a, b) == -Compare(b, a)
    ensures Compare(a, b) == 0 <==> SameKey(a, b)
  {
    StrLeTotal(a.id, b.id);
    if StrLe(a.id, b.id) && StrLe(b.id, a.id) { StrLeAntisymmetric(a.id, b.id); }
  }

  lemma CompareTransitive(a: Item, b: Item, c: Item)
    requires ItemLe(a, b) && ItemLe(b, c)
    ensures ItemLe(a, c)
  {
    StrLeTotal(a.id, a.id);
    if StrLe(a.id, b.id) && StrLe(b.id, c.id) { StrLeTransitive(a.id, b.id, c.id); }
  }

  lemma ItemLeOrders(q: seq<Item>)
    ensures Orders(ItemLe, q)
  {
    forall a, b | a in q && b in q ensures ItemLe(a, b) || ItemLe(b, a) { CompareAntisymmetric(a, b); }
    forall a, b, c | a in q && b in q && c in q && ItemLe(a, b) && ItemLe(b, c) ensures ItemLe(a, c) {
      CompareTransitive(a, b, c);
    }
  }

  ghost predicate DistinctIds(q: seq<Item>) {
    forall i, j :: 0 <= i < j < |q| ==> q[i].id != q[j].id
  }

  lemma DistinctTiesAreEqual(q: seq<Item>)
    requires DistinctIds(q)
    ensures TiesAreEqual(ItemLe, q)
  {
    forall a, b | a in q && b in q && ItemLe(a, b) && ItemLe(b, a) ensures a == b {
      CompareAntisymmetric(a, b);
    }
  }

  /** With distinct ids the sorted queue is the only one with its items. */
  lemma SortedQueueUnique(q: seq<Item>, r: seq<Item>, t: seq<Item>)
    requires DistinctIds(q) && IsSortOf(r, q, ItemLe) && IsSortOf(t, q, ItemLe)
    ensures r == t
  {
    ItemLeOrders(q);
    DistinctTiesAreEqual(q);
    SortUniqueIff(q, ItemLe);
  }

  /** `a` may stand before `b`: deadlines first and ascending, then earlier execution, higher
      priority, earlier clock and smaller id. */
  predicate MayPrecede(a: Item, b: Item) {
    && (a.deadline == 0 ==> b.deadline == 0)
    && (a.deadline != 0 && b.deadline != 0 ==> a.deadline <= b.deadline)
    && (a.deadline == b.deadline ==> a.executeAt <= b.executeAt)
    && (a.deadline == b.deadline && a.executeAt == b.executeAt ==> a.priority >= b.priority)
    && (a.deadline == b.deadline && a.executeAt == b.executeAt && a.priority == b.priority ==> a.clock <= b.clock)
    && (a.deadline == b.deadline && a.executeAt == b.executeAt && a.priority == b.priority && a.clock == b.clock ==>
         StrLe(a.id, b.id))
  }

  /** A queue is sorted exactly when every item may stand before all later ones. */
  lemma SortedIff(q: seq<Item>)
    ensures Sorted(q, ItemLe) <==> forall i, j :: 0 <= i < j < |q| ==> MayPrecede(q[i], q[j])
  {
    forall i, j | 0 <= i < j < |q| ensures ItemLe(q[i], q[j]) <==> MayPrecede(q[i], q[j]) {
      StrLeTotal(q[i].id, q[i].id);
      StrLeTotal(q[i].id, q[j].id);
    }
  }

  /** Hence the first item of a sorted queue may stand before every other one. */
  lemma FirstMayPrecede(q: seq<Item>)
    requires Sorted(q, ItemLe) && q != []
    ensures forall x :: x in q ==> MayPrecede(q[0], x)
  {
    SortedIff(q);
    StrLeTotal(q[0].id, q[0].id);
  }

  // ---------- looking ahead ----------

  /** Next: the first queued item that is not before `wall`, in either mode. */
  function Upcoming(q: seq<Item>, wall: int): (r: Option<Item>)
    ensures r.Some? ==> r.value in q && r.value.executeAt >= wall
    ensures r.None? ==> forall x :: x in q ==> x.executeAt < wall
  {
    if q == [] then None
    else if q[0].executeAt >= wall then Some(q[0])
    else Upcoming(q[1..], wall)
  }

  /** All items before the answer are before `wall`. */
  lemma {:induction false} UpcomingIsFirst(q: seq<Item>, wall: int) returns (i: nat)
    requires Upcoming(q, wall).Some?
    ensures i < |q| && Upcoming(q, wall) == Some(q[i]) && forall j :: 0 <= j < i ==> q[j].executeAt < wall
  {
    if q[0].executeAt >= wall { return 0; }
    var k := UpcomingIsFirst(q[1..], wall);
    assert forall j :: 0 < j <= k ==> q[j] == q[1..][j - 1];
    return k + 1;
  }

  function Latest(q: seq<Item>): (r: int)
    ensures forall x :: x in q ==> x.executeAt <= r
  {
    if q == [] then 0
    else
      var m := Latest(q[1..]);
      if q[0].executeAt > m then q[0].executeAt else m
  }

  /** Next never depends on the wall clock only when nothing is queued: strict mode does not protect it. */
  lemma UpcomingDeterministicIff(q: seq<Item>)
    ensures (forall wall1, wall2 :: Upcoming(q, wall1) == Upcoming(q, wall2)) <==> q == []
  {
    if q != [] {
      assert Upcoming(q, q[0].executeAt) == Some(q[0]);
      assert Upcoming(q, Latest(q) + 1).None?;
    }
  }

  // ---------- removal by id ----------

  function RemoveId(q: seq<Item>, id: string): seq<Item> {
    if q == [] then [] else if q[0].id == id then q[1..] else [q[0]] + RemoveId(q[1..], id)
  }

  predicate Due(x: Item, now: int) { x.executeAt <= now }

  lemma {:induction false} RemoveIdAt(q: seq<Item>, id: string, i: nat)
    requires i < |q| && q[i].id == id && forall j :: 0 <= j < i ==> q[j].id != id
    ensures RemoveId(q, id) == q[..i] + q[i + 1..]
  {
    if i > 0 {
      RemoveIdAt(q[1..], id, i - 1);
      assert q[..i] == [q[0]] + q[1..][..i - 1];
    }
  }

  lemma {:induction false} RemoveIdAbsent(q: seq<Item>, id: string)
    requires forall j :: 0 <= j < |q| ==> q[j].id != id
    ensures RemoveId(q, id) == q
  {
    if q != [] { RemoveIdAbsent(q[1..], id); }
  }

  function DueIn(q: seq<Item>, now: int): seq<Item> { Filter(q, x => Due(x, now)) }

  function NotDueIn(q: seq<Item>, now: int): seq<Item> { Filter(q, x => !Due(x, now)) }

  /** processScheduledItems: for each listed item cut the first one with its id. */
  function RemoveEach(q: seq<Item>, listed: seq<Item>): seq<Item>
    decreases listed
  {
    if listed == [] then q else RemoveEach(RemoveId(q, listed[0].id), listed[1..])
  }

  /** No item that stays comes before a due one with the same id. */
  ghost predicate NoLateTwin(q: seq<Item>, now: int) {
    forall i, j :: 0 <= i < j < |q| && q[i].id == q[j].id && Due(q[j], now) ==> Due(q[i], now)
  }

  ghost predicate Mentions(listed: seq<Item>, id: string) {
    exists i :: 0 <= i < |listed| && listed[i].id == id
  }

  lemma {:induction false} RemoveEachPast(x: Item, q: seq<Item>, listed: seq<Item>)
    requires !Mentions(listed, x.id)
    ensures RemoveEach([x] + q, listed) == [x] + RemoveEach(q, listed)
    decreases listed
  {
    if listed != [] {
      assert listed[0].id != x.id;
      assert RemoveId([x] + q, listed[0].id) == [x] + RemoveId(q, listed[0].id) by { assert ([x] + q)[1..] == q; }
      assert forall i :: 0 <= i < |listed[1..]| ==> listed[1..][i] == listed[i + 1];
      RemoveEachPast(x, RemoveId(q, listed[0].id), listed[1..]);
    }
  }

  /** How many due items have this id. */
  function DueCount(q: seq<Item>, id: string, now: int): nat {
    if q == [] then 0 else (if q[0].id == id && Due(q[0], now) then 1 else 0) + DueCount(q[1..], id, now)
  }

  function MentionCount(listed: seq<Item>, id: string): nat {
    if listed == [] then 0 else (if listed[0].id == id then 1 else 0) + MentionCount(listed[1..], id)
  }

  lemma {:induction false} RemoveIdCount(q: seq<Item>, x: string, id: string, now: int)
    ensures DueCount(RemoveId(q, x), id, now) >= DueCount(q, id, now) - if x == id then 1 else 0
  {
    if q != [] && q[0].id != x {
      RemoveIdCount(q[1..], x, id, now);
      assert RemoveId(q, x)[1..] == RemoveId(q[1..], x);
    }
  }

  lemma {:induction false} RemoveEachCount(q: seq<Item>, listed: seq<Item>, id: string, now: int)
    ensures DueCount(RemoveEach(q, listed), id, now) >= DueCount(q, id, now) - MentionCount(listed, id)
    decreases listed
  {
    if listed != [] {
      RemoveIdCount(q, listed[0].id, id, now);
      RemoveEachCount(RemoveId(q, listed[0].id), listed[1..], id, now);
    }
  }

  /** If an item that is not due comes first under its id, it is cut in place of a due one. */
  lemma {:induction false} RemoveEachMisses(x: Item, q: seq<Item>, listed: seq<Item>, now: int)
    requires !Due(x, now) && Mentions(listed, x.id)
    ensures DueCount(RemoveEach([x] + q, listed), x.id, now) >= DueCount(q, x.id, now) - MentionCount(listed, x.id) + 1
    decreases listed
  {
    assert ([x] + q)[1..] == q;
    if listed[0].id == x.id {
      RemoveEachCount(q, listed[1..], x.id, now);
    } else {
      var i :| 0 <= i < |listed| && listed[i].id == x.id;
      assert listed[1..][i - 1].id == x.id;
      RemoveIdCount(q, listed[0].id, x.id, now);
      RemoveEachMisses(x, RemoveId(q, listed[0].id), listed[1..], now);
    }
  }

  lemma {:induction false} MentionsCounted(listed: seq<Item>, id: string)
    ensures Mentions(listed, id) <==> MentionCount(listed, id) > 0
  {
    if listed != [] {
      MentionsCounted(listed[1..], id);
      if Mentions(listed, id) && listed[0].id != id {
        var i :| 0 <= i < |listed| && listed[i].id == id;
        assert listed[1..][i - 1].id == id;
      }
      if Mentions(listed[1..], id) {
        var i :| 0 <= i < |listed[1..]| && listed[1..][i].id == id;
        assert listed[i + 1].id == id;
      }
    }
  }

  lemma {:induction false} DueCounted(q: seq<Item>, id: string, now: int, j: int)
    requires 0 <= j < |q| && q[j].id == id && Due(q[j], now)
    ensures DueCount(q, id, now) > 0
  {
    if j > 0 { DueCounted(q[1..], id, now, j - 1); }
  }

  lemma {:induction false} DueFound(q: seq<Item>, id: string, now: int) returns (j: int)
    requires DueCount(q, id, now) > 0
    ensures 0 <= j < |q| && q[j].id == id && Due(q[j], now)
  {
    if q[0].id == id && Due(q[0], now) { return 0; }
    j := DueFound(q[1..], id, now);
    j := j + 1;
  }

  lemma {:induction false} DueInCount(q: seq<Item>, id: string, now: int)
    ensures MentionCount(DueIn(q, now), id) == DueCount(q, id, now)
  {
    if q != [] {
      DueInCount(q[1..], id, now);
      if Due(q[0], now) { assert DueIn(q, now)[1..] == DueIn(q[1..], now); }
    }
  }

  lemma {:induction false} NotDueCount(q: seq<Item>, id: string, now: int)
    ensures DueCount(NotDueIn(q, now), id, now) == 0
  {
    if q != [] {
      NotDueCount(q[1..], id, now);
      if !Due(q[0], now) { assert NotDueIn(q, now)[1..] == NotDueIn(q[1..], now); }
    }
  }

  lemma NoLateTwinTail(q: seq<Item>, now: int)
    requires q != []
    ensures NoLateTwin(q, now) <==> NoLateTwin(q[1..], now) && (Due(q[0], now) || DueCount(q[1..], q[0].id, now) == 0)
  {
    if NoLateTwin(q, now) {
      assert forall i :: 0 <= i < |q[1..]| ==> q[1..][i] == q[i + 1];
      if !Due(q[0], now) && DueCount(q[1..], q[0].id, now) > 0 {
        var j := DueFound(q[1..], q[0].id, now);
      }
    } else {
      var i, j :| 0 <= i < j < |q| && q[i].id == q[j].id && Due(q[j], now) && !Due(q[i], now);
      assert q[1..][j - 1] == q[j];
      if i == 0 { DueCounted(q[1..], q[0].id, now, j - 1); } else { assert q[1..][i - 1] == q[i]; }
    }
  }

  /** The in-place removal leaves exactly the items that are not yet due, in order,
      if and only if no such item precedes a due one with its id. */
  lemma {:induction false} RemoveDueIff(q: seq<Item>, now: int)
    ensures RemoveEach(q, DueIn(q, now)) == NotDueIn(q, now) <==> NoLateTwin(q, now)
  {
    if q != [] {
      var x, rest := q[0], q[1..];
      var listed := DueIn(rest, now);
      assert q == [x] + rest;
      NoLateTwinTail(q, now);
      RemoveDueIff(rest, now);
      DueInCount(rest, x.id, now);
      MentionsCounted(listed, x.id);
      if Due(x, now) {
        assert DueIn(q, now) == [x] + listed && DueIn(q, now)[1..] == listed;
      } else if Mentions(listed, x.id) {
        RemoveEachMisses(x, rest, listed, now);
        NotDueCount(q, x.id, now);
      } else {
        RemoveEachPast(x, rest, listed);
        assert NotDueIn(q, now) == [x] + NotDueIn(rest, now);
        assert ([x] + RemoveEach(rest, listed))[1..] == RemoveEach(rest, listed);
        assert ([x] + NotDueIn(rest, now))[1..] == NotDueIn(rest, now);
      }
    }
  }

  lemma DistinctNoLateTwin(q: seq<Item>, now: int)
    requires DistinctIds(q)
    ensures RemoveEach(q, DueIn(q, now)) == NotDueIn(q, now)
  {
    RemoveDueIff(q, now);
  }

  /** A sorted queue whose items with a deadline are all due has no late twin, whatever its ids. */
  lemma SortedNoLateTwin(q: seq<Item>, now: int)
    requires Sorted(q, ItemLe) && forall x :: x in q && x.deadline != 0 ==> Due(x, now)
    ensures NoLateTwin(q, now)
  {
    forall i, j | 0 <= i < j < |q| && Due(q[j], now) ensures Due(q[i], now) {
      assert q[i] in q && ItemLe(q[i], q[j]);
    }
  }

  // ---------- splitting ----------

  lemma {:induction false} FilterSorted(q: seq<Item>, keep: Item -> bool)
    requires Sorted(q, ItemLe)
    ensures Sorted(Filter(q, keep), ItemLe)
  {
    if q != [] {
      FilterSorted(q[1..], keep);
      var f := Filter(q[1..], keep);
      forall i | 0 <= i < |f| ensures ItemLe(q[0], f[i]) {
        assert f[i] in q[1..];
        var k :| 0 <= k < |q[1..]| && q[1..][k] == f[i];
        assert q[k + 1] == f[i];
      }
    }
  }

  lemma {:induction false} FilterDistinct(q: seq<Item>, keep: Item -> bool)
    requires DistinctIds(q)
    ensures DistinctIds(Filter(q, keep))
  {
    if q != [] {
      FilterDistinct(q[1..], keep);
      var f := Filter(q[1..], keep);
      forall i | 0 <= i < |f| ensures q[0].id != f[i].id {
        assert f[i] in q[1..];
        var k :| 0 <= k < |q[1..]| && q[1..][k] == f[i];
        assert q[k + 1] == f[i];
      }
    }
  }

  /** The due and the remaining part together are the queue: nothing lost, nothing doubled. */
  lemma {:induction false} SplitConserves(q: seq<Item>, now: int)
    ensures multiset(DueIn(q, now)) + multiset(NotDueIn(q, now)) == multiset(q)
  {
    if q != [] {
      assert q == [q[0]] + q[1..];
      SplitConserves(q[1..], now);
    }
  }
}
