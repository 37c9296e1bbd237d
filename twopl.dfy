/** Strict two-phase locking over records guarded by reader-writer locks: the growing
    phase locks every touched key in ascending order (exclusive for a key with the WRITE
    bit, shared for a key that is only read) and reads it under the lock; the shrinking
    phase writes the write keys and releases every lock in one final pass. */
module TwoPL {
  import opened Common

  /** A reader-writer lock's state: the number of readers and whether a writer holds it. */
  datatype Record = Record(val: int, readers: nat, writer: bool)

  /** A writer excludes readers. */
  predicate RwOk(r: Record) { r.writer ==> r.readers == 0 }

  predicate StoreOk(db: array<Record>)
    reads db
  {
    forall k :: 0 <= k < db.Length ==> RwOk(db[k])
  }

  datatype Mode = Exclusive | Shared | Unlocked

  /** The lock mode of a key: `wrlock` when its mask has the WRITE bit, `rdlock` when it
      is exactly READ, no lock when untouched. */
  function ModeFor(a: Access): (m: Mode)
    ensures m == Exclusive <==> a.write
    ensures m == Shared <==> a.ReadOnly()
    ensures m == Unlocked <==> !a.Touched()
  {
    if a.write then Exclusive else if a.read then Shared else Unlocked
  }

  /** Whether a lock in state `r` can be granted in mode `m` without waiting. */
  predicate Grantable(r: Record, m: Mode) {
    match m
    case Exclusive => !r.writer && r.readers == 0
    case Shared => !r.writer
    case Unlocked => true
  }

  /** The state after granting mode `m`. */
  function Acquired(r: Record, m: Mode): Record {
    match m
    case Exclusive => r.(writer := true)
    case Shared => r.(readers := r.readers + 1)
    case Unlocked => r
  }

  /** Whether the lock is held in mode `m`. */
  predicate Holds(r: Record, m: Mode) {
    match m
    case Exclusive => r.writer
    case Shared => !r.writer && r.readers > 0
    case Unlocked => true
  }

  /** `pthread_rwlock_unlock`: releases the writer if there is one, else one reader. */
  function Release(r: Record): Record {
    if r.writer then r.(writer := false)
    else if r.readers > 0 then r.(readers := r.readers - 1)
    else r
  }

  /** Granting a mode and releasing it restores the lock, and in between it is held in
      that mode; a lock that excluded readers under a writer still does. */
  lemma ReleaseUndoesAcquire(r: Record, m: Mode)
    requires Grantable(r, m)
    ensures Holds(Acquired(r, m), m)
    ensures RwOk(r) ==> RwOk(Acquired(r, m))
    ensures m != Unlocked ==> Release(Acquired(r, m)) == r
  {
  }

  /** One attempt of `pthread_rwlock_wrlock` or `pthread_rwlock_rdlock`: granted when the
      lock allows mode `m`, otherwise the thread would wait and nothing changes. */
  method TryLock(db: array<Record>, k: nat, m: Mode) returns (acquired: bool)
    requires k < db.Length && m != Unlocked
    modifies db
    ensures acquired == Grantable(old(db[k]), m)
    ensures db[k] == if acquired then Acquired(old(db[k]), m) else old(db[k])
    ensures forall j :: 0 <= j < db.Length && j != k ==> db[j] == old(db[j])
  {
    var r := db[k];
    if m == Exclusive && !r.writer && r.readers == 0 {
      db[k] := r.(writer := true);
      return true;
    } else if m == Shared && !r.writer {
      db[k] := r.(readers := r.readers + 1);
      return true;
    }
    return false;
  }

  /** `pthread_rwlock_unlock`. */
  method Unlock(db: array<Record>, k: nat)
    requires k < db.Length
    modifies db
    ensures db[k] == Release(old(db[k]))
    ensures forall j :: 0 <= j < db.Length && j != k ==> db[j] == old(db[j])
  {
    var r := db[k];
    if r.writer {
      db[k] := r.(writer := false);
    } else if r.readers > 0 {
      db[k] := r.(readers := r.readers - 1);
    }
  }

  // ---------------------------------------------------------------- the trace

  /** What a transaction does to one record, in program order. */
  datatype Event = Acquire(key: nat, mode: Mode) | Load(key: nat) | Store(key: nat) | Free(key: nat)

  /** The growing phase's events for key `k`: lock it if touched, then read it if read. */
  function GrowKey(types: seq<Access>, k: nat): seq<Event>
    requires k < |types|
  {
    (if types[k].Touched() then [Acquire(k, ModeFor(types[k]))] else []) +
    (if types[k].read then [Load(k)] else [])
  }

  /** The growing phase's events over keys `[lo, hi)`, in ascending key order. */
  function GrowEvents(types: seq<Access>, lo: nat, hi: nat): seq<Event>
    requires lo <= hi <= |types|
    decreases hi
  {
    if hi == lo then [] else GrowEvents(types, lo, hi - 1) + GrowKey(types, hi - 1)
  }

  /** The shrinking phase's events for key `k`: write it if written, then unlock it if
      touched. */
  function ShrinkKey(types: seq<Access>, k: nat): seq<Event>
    requires k < |types|
  {
    (if types[k].write then [Store(k)] else []) +
    (if types[k].Touched() then [Free(k)] else [])
  }

  /** The shrinking phase's events over keys `[0, hi)`. */
  function ShrinkEvents(types: seq<Access>, hi: nat): seq<Event>
    requires hi <= |types|
  {
    if hi == 0 then [] else ShrinkEvents(types, hi - 1) + ShrinkKey(types, hi - 1)
  }

  predicate KeysWithin(e: seq<Event>, lo: int, hi: int) {
    forall i :: 0 <= i < |e| ==> lo <= e[i].key < hi
  }

  predicate KeysAscending(e: seq<Event>) {
    forall i, j :: 0 <= i < j < |e| ==> e[i].key <= e[j].key
  }

  /** Every read of a key comes right after the lock request of that key, in its mode. */
  predicate LoadsLocked(types: seq<Access>, e: seq<Event>) {
    forall i :: 0 <= i < |e| && e[i].Load? ==>
      e[i].key < |types| && types[e[i].key].read &&
      i > 0 && e[i - 1] == Acquire(e[i].key, ModeFor(types[e[i].key]))
  }

  /** Every write of a key has the WRITE bit and comes right before that key's unlock. */
  predicate StoresThenFree(types: seq<Access>, e: seq<Event>) {
    forall i :: 0 <= i < |e| && e[i].Store? ==>
      e[i].key < |types| && types[e[i].key].write && i + 1 < |e| && e[i + 1] == Free(e[i].key)
  }

  predicate OnlyGrowing(e: seq<Event>) {
    forall i :: 0 <= i < |e| ==> e[i].Acquire? || e[i].Load?
  }

  predicate OnlyShrinking(e: seq<Event>) {
    forall i :: 0 <= i < |e| ==> e[i].Store? || e[i].Free?
  }

  /** The growing phase only locks and reads, in ascending key order within its range. */
  lemma {:induction false} GrowingShape(types: seq<Access>, lo: nat, hi: nat)
    requires lo <= hi <= |types|
    ensures OnlyGrowing(GrowEvents(types, lo, hi))
    ensures KeysWithin(GrowEvents(types, lo, hi), lo, hi)
    ensures KeysAscending(GrowEvents(types, lo, hi))
    decreases hi
  {
    if hi > lo {
      GrowingShape(types, lo, hi - 1);
      var p, q := GrowEvents(types, lo, hi - 1), GrowKey(types, hi - 1);
      var e := p + q;
      assert forall i :: 0 <= i < |q| ==> q[i].key == hi - 1 && (q[i].Acquire? || q[i].Load?);
      forall i | 0 <= i < |e|
        ensures lo <= e[i].key < hi && (e[i].Acquire? || e[i].Load?)
      {
        assert e[i] == if i < |p| then p[i] else q[i - |p|];
      }
      forall i, j | 0 <= i < j < |e|
        ensures e[i].key <= e[j].key
      {
        assert e[i] == if i < |p| then p[i] else q[i - |p|];
        assert e[j] == if j < |p| then p[j] else q[j - |p|];
      }
    }
  }

  /** The growing phase reads each key right after requesting that key's lock in the
      key's mode. */
  lemma {:induction false} GrowingLoads(types: seq<Access>, lo: nat, hi: nat)
    requires lo <= hi <= |types|
    ensures LoadsLocked(types, GrowEvents(types, lo, hi))
    decreases hi
  {
    if hi > lo {
      GrowingLoads(types, lo, hi - 1);
      var p, q := GrowEvents(types, lo, hi - 1), GrowKey(types, hi - 1);
      var e := p + q;
      assert types[hi - 1].read ==> q == [Acquire(hi - 1, ModeFor(types[hi - 1])), Load(hi - 1)];
      assert !types[hi - 1].read ==> forall i :: 0 <= i < |q| ==> q[i].Acquire?;
      forall i | 0 <= i < |e| && e[i].Load?
        ensures e[i].key < |types| && types[e[i].key].read && i > 0 && e[i - 1] == Acquire(e[i].key, ModeFor(types[e[i].key]))
      {
        if i < |p| {
          assert e[i] == p[i] && e[i - 1] == p[i - 1];
        } else {
          assert e[i] == q[i - |p|] && e[i - 1] == q[i - 1 - |p|];
        }
      }
    }
  }

  /** The keys the growing phase locks over `[lo, hi)` are the touched keys there. */
  lemma {:induction false} GrowingLocks(types: seq<Access>, lo: nat, hi: nat, k: nat)
    requires lo <= hi <= |types|
    ensures (exists m :: Acquire(k, m) in GrowEvents(types, lo, hi)) <==> lo <= k < hi && types[k].Touched()
    decreases hi
  {
    if hi > lo {
      GrowingLocks(types, lo, hi - 1, k);
      if k == hi - 1 && types[k].Touched() {
        assert Acquire(k, ModeFor(types[k])) in GrowKey(types, k);
      }
    } else {
      assert GrowEvents(types, lo, hi) == [];
    }
  }

  /** The shrinking phase only writes and unlocks, keys within its range. */
  lemma {:induction false} ShrinkingShape(types: seq<Access>, hi: nat)
    requires hi <= |types|
    ensures OnlyShrinking(ShrinkEvents(types, hi))
    ensures KeysWithin(ShrinkEvents(types, hi), 0, hi)
    decreases hi
  {
    if hi > 0 {
      ShrinkingShape(types, hi - 1);
      var p, q := ShrinkEvents(types, hi - 1), ShrinkKey(types, hi - 1);
      var e := p + q;
      assert forall i :: 0 <= i < |q| ==> q[i].key == hi - 1 && (q[i].Store? || q[i].Free?);
      forall i | 0 <= i < |e|
        ensures 0 <= e[i].key < hi && (e[i].Store? || e[i].Free?)
      {
        assert e[i] == if i < |p| then p[i] else q[i - |p|];
      }
    }
  }

  /** The shrinking phase writes only keys with the WRITE bit, each right before
      unlocking it. */
  lemma {:induction false} ShrinkingStores(types: seq<Access>, hi: nat)
    requires hi <= |types|
    ensures StoresThenFree(types, ShrinkEvents(types, hi))
    decreases hi
  {
    if hi > 0 {
      ShrinkingStores(types, hi - 1);
      var p, q := ShrinkEvents(types, hi - 1), ShrinkKey(types, hi - 1);
      var e := p + q;
      assert types[hi - 1].write ==> q == [Store(hi - 1), Free(hi - 1)];
      assert !types[hi - 1].write ==> forall i :: 0 <= i < |q| ==> q[i].Free?;
      forall i | 0 <= i < |e| && e[i].Store?
        ensures e[i].key < |types| && types[e[i].key].write && i + 1 < |e| && e[i + 1] == Free(e[i].key)
      {
        if i < |p| {
          assert e[i] == p[i] && e[i + 1] == p[i + 1];
        } else {
          assert e[i] == q[i - |p|] && e[i + 1] == q[i + 1 - |p|];
        }
      }
    }
  }

  /** The shrinking events of one key unlock it iff it is touched. */
  lemma KeyFrees(types: seq<Access>, j: nat, k: nat)
    requires j < |types|
    ensures Free(k) in ShrinkKey(types, j) <==> k == j && types[j].Touched()
  {
    var w: seq<Event> := if types[j].write then [Store(j)] else [];
    var f: seq<Event> := if types[j].Touched() then [Free(j)] else [];
    assert ShrinkKey(types, j) == w + f;
    assert Free(k) !in w;
  }

  /** The keys the shrinking phase unlocks are the touched keys. */
  lemma {:induction false} ShrinkingFrees(types: seq<Access>, hi: nat, k: nat)
    requires hi <= |types|
    ensures Free(k) in ShrinkEvents(types, hi) <==> k < hi && types[k].Touched()
    decreases hi
  {
    if hi > 0 {
      ShrinkingFrees(types, hi - 1, k);
      KeyFrees(types, hi - 1, k);
      var p, q := ShrinkEvents(types, hi - 1), ShrinkKey(types, hi - 1);
      assert ShrinkEvents(types, hi) == p + q;
      assert Free(k) in p + q <==> Free(k) in p || Free(k) in q;
    }
  }

  /** The whole transaction is two-phase: every lock is taken before any is released. */
  lemma LocksBeforeFrees(types: seq<Access>)
    ensures var e := GrowEvents(types, 0, |types|) + ShrinkEvents(types, |types|);
      forall i, j :: 0 <= i < |e| && 0 <= j < |e| && e[i].Free? && e[j].Acquire? ==> j < i
  {
    var g := GrowEvents(types, 0, |types|);
    var s := ShrinkEvents(types, |types|);
    GrowingShape(types, 0, |types|);
    ShrinkingShape(types, |types|);
    var e := g + s;
    assert forall i :: 0 <= i < |g| ==> e[i] == g[i];
    assert forall i :: |g| <= i < |e| ==> e[i] == s[i - |g|];
  }

  /** The keys released are exactly the keys locked. */
  lemma FreesMatchLocks(types: seq<Access>, k: nat)
    ensures (exists m :: Acquire(k, m) in GrowEvents(types, 0, |types|)) <==>
      Free(k) in ShrinkEvents(types, |types|)
  {
    GrowingLocks(types, 0, |types|, k);
    ShrinkingFrees(types, |types|, k);
  }

  // ---------------------------------------------------------------- the phases

  /** The growing phase from key `from`: each touched key is locked in its mode, and each
      read key read under that lock into `values`. It stops at a touched key whose lock
      cannot be granted (the thread would wait there) and returns it as `at`; `at` is the
      number of records when every key was passed. `events` is what it did, in order. */
  method Growing(db: array<Record>, types: seq<Access>, from: nat, values: seq<int>)
    returns (at: nat, values': seq<int>, ghost events: seq<Event>)
    requires |types| == |values| == db.Length && from <= db.Length
    modifies db
    ensures from <= at <= db.Length && |values'| == db.Length
    ensures events == GrowEvents(types, from, at)
    ensures at < db.Length ==> types[at].Touched() && !Grantable(old(db[at]), ModeFor(types[at]))
    ensures forall k :: from <= k < at ==> Grantable(old(db[k]), ModeFor(types[k]))
    ensures forall k :: 0 <= k < db.Length ==>
      db[k] == if from <= k < at then Acquired(old(db[k]), ModeFor(types[k])) else old(db[k])
    ensures forall k :: 0 <= k < db.Length ==>
      values'[k] == if from <= k < at && types[k].read then old(db[k].val) else values[k]
  {
    at, values', events := from, values, [];
    while at < db.Length
      invariant from <= at <= db.Length && |values'| == db.Length
      invariant events == GrowEvents(types, from, at)
      invariant forall k :: from <= k < at ==> Grantable(old(db[k]), ModeFor(types[k]))
      invariant forall k :: 0 <= k < db.Length ==>
        db[k] == if from <= k < at then Acquired(old(db[k]), ModeFor(types[k])) else old(db[k])
      invariant forall k :: 0 <= k < db.Length ==>
        values'[k] == if from <= k < at && types[k].read then old(db[k].val) else values[k]
    {
      var m := ModeFor(types[at]);
      if m != Unlocked {
        var acquired := TryLock(db, at, m);
        if !acquired {
          return;
        }
        events := events + [Acquire(at, m)];
      }
      if types[at].read {
        values' := values'[at := db[at].val];
        events := events + [Load(at)];
      }
      at := at + 1;
    }
  }

  /** The shrinking phase: each write key gets `values[k]`, and each touched key is
      unlocked; `events` is what it did, in order. */
  method Shrinking(db: array<Record>, types: seq<Access>, values: seq<int>) returns (ghost events: seq<Event>)
    requires |types| == |values| == db.Length
    modifies db
    ensures events == ShrinkEvents(types, db.Length)
    ensures forall k :: 0 <= k < db.Length ==>
      db[k] == (if types[k].Touched() then Release(old(db[k])) else old(db[k]))
               .(val := if types[k].write then values[k] else old(db[k].val))
  {
    events := [];
    var k := 0;
    while k < db.Length
      invariant 0 <= k <= db.Length
      invariant events == ShrinkEvents(types, k)
      invariant forall j :: 0 <= j < db.Length ==>
        db[j] == if j < k
                 then (if types[j].Touched() then Release(old(db[j])) else old(db[j]))
                      .(val := if types[j].write then values[j] else old(db[j].val))
                 else old(db[j])
    {
      if types[k].write {
        db[k] := db[k].(val := values[k]);
        events := events + [Store(k)];
      }
      if types[k].Touched() {
        Unlock(db, k);
        events := events + [Free(k)];
      }
      k := k + 1;
    }
  }

  // ---------------------------------------------------------------- one transaction

  /** How a transaction ends: committed, or waiting on the lock of a touched key with the
      keys before it still locked. */
  datatype Outcome = Committed | Blocked(key: nat)

  /** One transaction of `worker`: reset, the read/write set `types`, growing phase,
      modify, shrinking phase. A committed transaction leaves every lock as it found it
      and gives each write key the value read plus its READ steps (0 for a key only
      written). It commits iff every lock it asks for can be granted, and otherwise
      waits at the first that cannot; `trace` is its events, which `LocksBeforeFrees` and `FreesMatchLocks`
      show are two-phase. */
  method RunTransaction(db: array<Record>, steps: seq<Step>)
    returns (outcome: Outcome, types: seq<Access>, ghost trace: seq<Event>)
    requires KeysIn(steps, db.Length)
    requires StoreOk(db)
    modifies db
    ensures |types| == db.Length && forall k :: 0 <= k < db.Length ==> types[k] == AccessOf(steps, k)
    ensures StoreOk(db)
    ensures outcome.Committed? <==> forall k :: 0 <= k < db.Length ==> Grantable(old(db[k]), ModeFor(types[k]))
    ensures outcome.Blocked? ==>
      outcome.key < db.Length && types[outcome.key].Touched() &&
      !Grantable(old(db[outcome.key]), ModeFor(types[outcome.key]))
    ensures outcome.Blocked? ==> forall k :: 0 <= k < outcome.key ==> Grantable(old(db[k]), ModeFor(types[k]))
    ensures outcome.Blocked? ==> forall k :: 0 <= k < db.Length ==>
      db[k] == if k < outcome.key then Acquired(old(db[k]), ModeFor(types[k])) else old(db[k])
    ensures outcome.Committed? ==> trace == GrowEvents(types, 0, db.Length) + ShrinkEvents(types, db.Length)
    ensures outcome.Committed? ==> forall k :: 0 <= k < db.Length ==>
      db[k] == old(db[k]).(val := if types[k].write
                                  then (if types[k].read then old(db[k].val) else 0) + ReadCount(steps, k)
                                  else old(db[k].val))
  {
    var values := seq(db.Length, _ => 0);
    types := AccessSet(steps, db.Length);
    var at;
    ghost var grown;
    at, values, grown := Growing(db, types, 0, values);
    forall k | 0 <= k < at
      ensures RwOk(db[k])
    {
      ReleaseUndoesAcquire(old(db[k]), ModeFor(types[k]));
    }
    if at < db.Length {
      return Blocked(at), types, grown;
    }
    values := ApplyReads(steps, values);
    ghost var locked := db[..];
    ghost var shrunk := Shrinking(db, types, values);
    forall k | 0 <= k < db.Length
      ensures db[k] == old(db[k]).(val := if types[k].write then values[k] else old(db[k].val))
    {
      ReleaseUndoesAcquire(old(db[k]), ModeFor(types[k]));
      assert locked[k] == Acquired(old(db[k]), ModeFor(types[k]));
    }
    return Committed, types, grown + shrunk;
  }
}
