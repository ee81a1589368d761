/** The path locks of runtime/state_manager.go:149-207, and what they count. */
module Locks {
  import opened Values
  import opened StateModel

  const FREE := PathLock("", 0)

  function LockAt(locks: Locks, p: Path): PathLock {
    if p in locks then locks[p] else FREE
  }

  /** Lock: path by path until the first one another owner holds; earlier paths stay locked. */
  function LockFrom(locks: Locks, paths: seq<Path>, owner: string): (Locks, Option<Error>)
    decreases paths
  {
    if paths == [] then (locks, None)
    else
      var l := LockAt(locks, paths[0]);
      if l.owner != "" && l.owner != owner then (locks, Some(ErrPathLocked))
      else LockFrom(locks[paths[0] := PathLock(owner, l.refs + 1)], paths[1..], owner)
  }

  function Lock(locks: Locks, paths: seq<Path>, owner: string): (Locks, Option<Error>) {
    if "" in paths then (locks, Some(ErrInvalidPath)) else LockFrom(locks, paths, owner)
  }

  function UnlockOne(locks: Locks, p: Path, owner: string): Locks {
    if p !in locks || locks[p].owner != owner then locks
    else
      var refs := locks[p].refs - 1;
      locks[p := PathLock(if refs == 0 then "" else owner, refs)]
  }

  function Unlock(locks: Locks, paths: seq<Path>, owner: string): Locks {
    if paths == [] then locks else Unlock(UnlockOne(locks, paths[0], owner), paths[1..], owner)
  }

  /** A path has an owner exactly when its count is positive. */
  ghost predicate Valid(locks: Locks) {
    forall p :: p in locks ==> locks[p].refs >= 0 && (locks[p].owner == "" <==> locks[p].refs == 0)
  }

  // ---------- the acquisitions the table stands for ----------

  /** The acquisitions that were not released yet. */
  type Held = multiset<(Path, string)>

  ghost predicate HeldByOther(h: Held, p: Path, owner: string) {
    exists o :: o != owner && (p, o) in h
  }

  ghost function Acquire(h: Held, paths: seq<Path>, owner: string): Held
    decreases paths
  {
    if paths == [] || HeldByOther(h, paths[0], owner) then h
    else Acquire(h + multiset{(paths[0], owner)}, paths[1..], owner)
  }

  ghost function Release(h: Held, paths: seq<Path>, owner: string): Held {
    if paths == [] then h else Release(h - multiset{(paths[0], owner)}, paths[1..], owner)
  }

  /** The table counts each owner's unreleased acquisitions, and one owner per path. */
  ghost predicate Represents(locks: Locks, h: Held) {
    && Valid(locks)
    && forall p, o :: h[(p, o)] == if p in locks && locks[p].owner == o && o != "" then locks[p].refs else 0
  }

  lemma {:induction false} LockRepresents(locks: Locks, h: Held, paths: seq<Path>, owner: string)
    requires Represents(locks, h) && owner != ""
    ensures Represents(LockFrom(locks, paths, owner).0, Acquire(h, paths, owner))
    decreases paths
  {
    if paths != [] {
      var p := paths[0];
      var l := LockAt(locks, p);
      if l.owner != "" && l.owner != owner {
        assert (p, l.owner) in h by { assert h[(p, l.owner)] == l.refs; }
        assert HeldByOther(h, p, owner);
      } else {
        forall o | o != owner ensures (p, o) !in h { assert h[(p, o)] == 0; }
        LockRepresents(locks[p := PathLock(owner, l.refs + 1)], h + multiset{(p, owner)}, paths[1..], owner);
      }
    }
  }

  lemma {:induction false} UnlockRepresents(locks: Locks, h: Held, paths: seq<Path>, owner: string)
    requires Represents(locks, h) && owner != ""
    ensures Represents(Unlock(locks, paths, owner), Release(h, paths, owner))
  {
    if paths != [] {
      var p := paths[0];
      assert (p, owner) in h <==> h[(p, owner)] > 0;
      assert Represents(UnlockOne(locks, p, owner), h - multiset{(p, owner)});
      UnlockRepresents(UnlockOne(locks, p, owner), h - multiset{(p, owner)}, paths[1..], owner);
    }
  }

  /** The position of the first path that another owner holds. */
  ghost predicate FirstConflict(h: Held, paths: seq<Path>, owner: string, k: nat) {
    && k <= |paths|
    && (forall i :: 0 <= i < k ==> !HeldByOther(h, paths[i], owner))
    && (k < |paths| ==> HeldByOther(h, paths[k], owner))
  }

  /** Whether a table entry stops the owner is a matter of who holds the path. */
  lemma ConflictAt(locks: Locks, h: Held, p: Path, owner: string)
    requires Represents(locks, h) && owner != ""
    ensures HeldByOther(h, p, owner) <==> LockAt(locks, p).owner != "" && LockAt(locks, p).owner != owner
  {
    var l := LockAt(locks, p);
    if l.owner != "" { assert h[(p, l.owner)] == l.refs; }
    if HeldByOther(h, p, owner) {
      var o :| o != owner && (p, o) in h;
      assert h[(p, o)] > 0;
    }
  }

  lemma {:induction false} FindConflict(h: Held, paths: seq<Path>, owner: string) returns (k: nat)
    ensures FirstConflict(h, paths, owner, k)
  {
    if paths == [] { return 0; }
    k := FindConflict(h, paths[..|paths| - 1], owner);
    if k == |paths| - 1 && !HeldByOther(h, paths[k], owner) { k := k + 1; }
  }

  lemma SameOthers(h: Held, p: Path, owner: string, q: Path)
    ensures HeldByOther(h + multiset{(p, owner)}, q, owner) <==> HeldByOther(h, q, owner)
  {
    forall o | o != owner ensures (q, o) in h + multiset{(p, owner)} <==> (q, o) in h { }
  }

  lemma ConflictTail(h: Held, paths: seq<Path>, owner: string, k: nat)
    requires FirstConflict(h, paths, owner, k) && k > 0
    ensures FirstConflict(h + multiset{(paths[0], owner)}, paths[1..], owner, k - 1)
  {
    forall q ensures HeldByOther(h + multiset{(paths[0], owner)}, q, owner) <==> HeldByOther(h, q, owner) {
      SameOthers(h, paths[0], owner, q);
    }
  }

  lemma FirstCounts(paths: seq<Path>, k: nat, p: Path)
    requires 0 < k <= |paths|
    ensures multiset(paths[..k])[p] == (if paths[0] == p then 1 else 0) + multiset(paths[1..][..k - 1])[p]
  {
    assert paths[..k] == [paths[0]] + paths[1..][..k - 1];
  }

  /** A Lock call acquires every mention up to the first path that another owner holds. */
  lemma {:induction false} AcquireCounts(h: Held, paths: seq<Path>, owner: string, k: nat, p: Path, o: string)
    requires FirstConflict(h, paths, owner, k)
    ensures Acquire(h, paths, owner)[(p, o)] == h[(p, o)] + if o == owner then multiset(paths[..k])[p] else 0
    decreases k
  {
    if k > 0 {
      ConflictTail(h, paths, owner, k);
      AcquireCounts(h + multiset{(paths[0], owner)}, paths[1..], owner, k - 1, p, o);
      FirstCounts(paths, k, p);
    }
  }

  lemma OneLock(locks: Locks, h: Held, p: Path, owner: string)
    requires Represents(locks, h) && owner != "" && !HeldByOther(h, p, owner)
    ensures Represents(locks[p := PathLock(owner, LockAt(locks, p).refs + 1)], h + multiset{(p, owner)})
  {
    ConflictAt(locks, h, p, owner);
    LockRepresents(locks, h, [p], owner);
    assert [p][1..] == [];
    assert Acquire(h, [p], owner) == h + multiset{(p, owner)};
  }

  /** It answers an error exactly when there is such a path. */
  lemma {:induction false} LockFromAnswers(locks: Locks, h: Held, paths: seq<Path>, owner: string, k: nat)
    requires Represents(locks, h) && owner != "" && FirstConflict(h, paths, owner, k)
    ensures LockFrom(locks, paths, owner).1 == if k == |paths| then None else Some(ErrPathLocked)
    decreases k
  {
    if paths != [] {
      ConflictAt(locks, h, paths[0], owner);
      if k > 0 {
        var l := LockAt(locks, paths[0]);
        OneLock(locks, h, paths[0], owner);
        ConflictTail(h, paths, owner, k);
        LockFromAnswers(
          locks[paths[0] := PathLock(owner, l.refs + 1)], h + multiset{(paths[0], owner)}, paths[1..], owner, k - 1);
      }
    }
  }

  /** Lock answers ErrInvalidPath exactly for an empty path, and else no error exactly when
      nobody else holds any of the paths; then every mention was acquired. */
  lemma LockAnswers(locks: Locks, h: Held, paths: seq<Path>, owner: string)
    requires Represents(locks, h) && owner != ""
    ensures Lock(locks, paths, owner).1 == Some(ErrInvalidPath) <==> "" in paths
    ensures "" !in paths ==>
              (Lock(locks, paths, owner).1 == None <==> forall p :: p in paths ==> !HeldByOther(h, p, owner))
    ensures "" !in paths && (exists p :: p in paths && HeldByOther(h, p, owner)) ==>
              Lock(locks, paths, owner).1 == Some(ErrPathLocked)
    ensures Lock(locks, paths, owner).1 == None ==>
              forall p, o :: Acquire(h, paths, owner)[(p, o)] ==
                h[(p, o)] + if o == owner then multiset(paths)[p] else 0
  {
    var k := FindConflict(h, paths, owner);
    LockFromAnswers(locks, h, paths, owner, k);
    if k == |paths| {
      assert paths[..k] == paths;
      forall p, o ensures Acquire(h, paths, owner)[(p, o)] == h[(p, o)] + if o == owner then multiset(paths)[p] else 0 {
        AcquireCounts(h, paths, owner, k, p, o);
      }
    } else {
      assert paths[k] in paths;
    }
  }

  datatype Op = LockOp(paths: seq<Path>, owner: string) | UnlockOp(paths: seq<Path>, owner: string)

  function RunOps(ops: seq<Op>): Locks {
    if ops == [] then map[]
    else
      var locks := RunOps(ops[..|ops| - 1]);
      match ops[|ops| - 1]
      case LockOp(paths, owner) => Lock(locks, paths, owner).0
      case UnlockOp(paths, owner) => Unlock(locks, paths, owner)
  }

  ghost function RunHeld(ops: seq<Op>): Held {
    if ops == [] then multiset{}
    else
      var h := RunHeld(ops[..|ops| - 1]);
      match ops[|ops| - 1]
      case LockOp(paths, owner) => if "" in paths then h else Acquire(h, paths, owner)
      case UnlockOp(paths, owner) => Release(h, paths, owner)
  }

  /** Over every run of non-empty owners the counts are the unreleased acquisitions. */
  lemma {:induction false} CountsAreAcquisitions(ops: seq<Op>)
    requires forall i :: 0 <= i < |ops| ==> ops[i].owner != ""
    ensures Represents(RunOps(ops), RunHeld(ops))
  {
    if ops != [] {
      var n := |ops| - 1;
      CountsAreAcquisitions(ops[..n]);
      match ops[n]
      case LockOp(paths, owner) =>
        if "" !in paths { LockRepresents(RunOps(ops[..n]), RunHeld(ops[..n]), paths, owner); }
      case UnlockOp(paths, owner) => UnlockRepresents(RunOps(ops[..n]), RunHeld(ops[..n]), paths, owner);
    }
  }

  /** Hence no two owners hold the same path. */
  lemma OneOwner(locks: Locks, h: Held, p: Path, o: string, q: string)
    requires Represents(locks, h) && (p, o) in h && (p, q) in h
    ensures o == q && IsHeld(locks, p)
  {
    assert h[(p, o)] > 0 && h[(p, q)] > 0;
  }

  // ---------- the empty owner ----------

  /** Locking for the empty owner spoils the table exactly when it locks a path. */
  lemma EmptyOwnerLockIff(locks: Locks, paths: seq<Path>)
    requires Valid(locks)
    ensures Valid(Lock(locks, paths, "").0) <==> paths == [] || "" in paths || IsHeld(locks, paths[0])
  {
    if paths != [] && "" !in paths && !IsHeld(locks, paths[0]) {
      var l := LockAt(locks, paths[0]);
      CountWithoutOwner(locks[paths[0] := PathLock("", l.refs + 1)], paths[1..], paths[0]);
    }
  }

  lemma {:induction false} CountWithoutOwner(locks: Locks, paths: seq<Path>, p: Path)
    requires p in locks && locks[p].owner == "" && locks[p].refs > 0
    ensures !Valid(LockFrom(locks, paths, "").0)
    decreases paths
  {
    if paths == [] {
      assert !Valid(locks);
    } else {
      var l := LockAt(locks, paths[0]);
      if l.owner != "" {
        assert !Valid(locks);
      } else {
        CountWithoutOwner(locks[paths[0] := PathLock("", l.refs + 1)], paths[1..], p);
      }
    }
  }

  /** Unlocking for the empty owner spoils it exactly when it meets an unlocked entry. */
  lemma {:induction false} EmptyOwnerUnlockIff(locks: Locks, paths: seq<Path>)
    requires Valid(locks)
    ensures Valid(Unlock(locks, paths, "")) <==> forall p :: p in paths && p in locks ==> IsHeld(locks, p)
  {
    if paths != [] {
      var p := paths[0];
      if p in locks && !IsHeld(locks, p) {
        NegativeStays(UnlockOne(locks, p, ""), paths[1..], p);
      } else {
        EmptyOwnerUnlockIff(locks, paths[1..]);
        assert forall q :: q in paths <==> q == p || q in paths[1..];
      }
    }
  }

  lemma {:induction false} NegativeStays(locks: Locks, paths: seq<Path>, p: Path)
    requires p in locks && locks[p].refs < 0
    ensures !Valid(Unlock(locks, paths, ""))
  {
    if paths == [] {
      assert !Valid(locks);
    } else {
      NegativeStays(UnlockOne(locks, paths[0], ""), paths[1..], p);
    }
  }
}
