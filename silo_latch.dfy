/** Silo-style optimistic concurrency control with a boolean latch per record: a
    transaction reads values and TIDs, latches its write set in ascending key order,
    validates the TIDs it read, takes a commit TID above every TID it touched, and
    installs its writes. */
module SiloLatch {
  import opened Common

  /** A record of `Database`: its value, the TID of its last writer, and its latch. */
  datatype Record = Record(val: int, tid: int, lock: bool)

  /** One compare-and-swap attempt of `my_lock`: the latch flips from false to true and
      the attempt succeeds, or the latch is already held and nothing changes. The spin
      around it is the caller's: `LockWriteSet` stops at a held latch. */
  method TryLock(db: array<Record>, k: nat) returns (acquired: bool)
    requires k < db.Length
    modifies db
    ensures acquired == !old(db[k].lock)
    ensures db[k] == old(db[k]).(lock := true)
    ensures forall j :: 0 <= j < db.Length && j != k ==> db[j] == old(db[j])
  {
    if !db[k].lock {
      db[k] := db[k].(lock := true);
      return true;
    }
    return false;
  }

  /** `my_unlock`: the latch is cleared. */
  method Unlock(db: array<Record>, k: nat)
    requires k < db.Length
    modifies db
    ensures db[k] == old(db[k]).(lock := false)
    ensures forall j :: 0 <= j < db.Length && j != k ==> db[j] == old(db[j])
  {
    db[k] := db[k].(lock := false);
  }

  /** The read phase: `val[k]` and `tid[k]` take the record's value and TID for every key
      with the READ bit; the other entries keep what they held. */
  method ReadPhase(db: array<Record>, types: seq<Access>, val: seq<int>, tid: seq<int>)
    returns (val': seq<int>, tid': seq<int>)
    requires |types| == |val| == |tid| == db.Length
    ensures |val'| == |tid'| == db.Length
    ensures forall k :: 0 <= k < db.Length ==>
      val'[k] == (if types[k].read then db[k].val else val[k]) &&
      tid'[k] == (if types[k].read then db[k].tid else tid[k])
  {
    val', tid' := val, tid;
    var k := 0;
    while k < db.Length
      invariant 0 <= k <= db.Length && |val'| == |tid'| == db.Length
      invariant forall j :: 0 <= j < db.Length ==>
        val'[j] == (if types[j].read && j < k then db[j].val else val[j]) &&
        tid'[j] == (if types[j].read && j < k then db[j].tid else tid[j])
    {
      if types[k].read {
        val' := val'[k := db[k].val];
        tid' := tid'[k := db[k].tid];
      }
      k := k + 1;
    }
  }

  /** Phase 1: latch every key with the WRITE bit, in ascending order, starting at key
      `from`. Where `my_lock` would spin on a held latch the phase stops and returns that
      key as `at`; otherwise `at` is the number of records. The latches taken are exactly
      those of the write keys in `[from, at)`, and each of them was clear. */
  method LockWriteSet(db: array<Record>, types: seq<Access>, from: nat) returns (at: nat)
    requires |types| == db.Length && from <= db.Length
    modifies db
    ensures from <= at <= db.Length
    ensures at < db.Length ==> types[at].write && old(db[at].lock)
    ensures forall k :: 0 <= k < db.Length ==>
      db[k] == if from <= k < at && types[k].write then old(db[k]).(lock := true) else old(db[k])
    ensures forall k :: from <= k < at && types[k].write ==> !old(db[k].lock)
  {
    at := from;
    while at < db.Length
      invariant from <= at <= db.Length
      invariant forall k :: 0 <= k < db.Length ==>
        db[k] == if from <= k < at && types[k].write then old(db[k]).(lock := true) else old(db[k])
      invariant forall k :: from <= k < at && types[k].write ==> !old(db[k].lock)
    {
      if types[at].write {
        var acquired := TryLock(db, at);
        if !acquired {
          return;
        }
      }
      at := at + 1;
    }
  }

  /** The validation rule: a read key whose TID moved, or a read-only key whose latch is
      held by someone. */
  predicate Invalid(r: Record, a: Access, readTid: int) {
    (a.read && readTid != r.tid) || (a.ReadOnly() && r.lock)
  }

  /** Phase 2: the transaction passes iff no key is invalid. */
  method Validate(db: array<Record>, types: seq<Access>, tid: seq<int>) returns (ok: bool)
    requires |types| == |tid| == db.Length
    ensures ok == forall k :: 0 <= k < db.Length ==> !Invalid(db[k], types[k], tid[k])
  {
    var k := 0;
    while k < db.Length
      invariant 0 <= k <= db.Length
      invariant forall j :: 0 <= j < k ==> !Invalid(db[j], types[j], tid[j])
    {
      if (types[k].read && tid[k] != db[k].tid) || (types[k].ReadOnly() && db[k].lock) {
        return false;
      }
      k := k + 1;
    }
    return true;
  }

  /** The abort path: every key with the WRITE bit is unlatched. */
  method UnlockWriteSet(db: array<Record>, types: seq<Access>)
    requires |types| == db.Length
    modifies db
    ensures forall k :: 0 <= k < db.Length ==>
      db[k] == if types[k].write then old(db[k]).(lock := false) else old(db[k])
  {
    var k := 0;
    while k < db.Length
      invariant 0 <= k <= db.Length
      invariant forall j :: 0 <= j < db.Length ==>
        db[j] == if j < k && types[j].write then old(db[j]).(lock := false) else old(db[j])
    {
      if types[k].write {
        Unlock(db, k);
      }
      k := k + 1;
    }
  }

  /** The commit TID: one more than the greatest TID among the touched records (0 when
      none is greater). It exceeds every touched record's TID and is at least 1, and it
      is the least such number. */
  method CommitTid(db: array<Record>, types: seq<Access>) returns (ct: int)
    requires |types| == db.Length
    ensures ct >= 1
    ensures forall k :: 0 <= k < db.Length && types[k].Touched() ==> db[k].tid < ct
    ensures ct == 1 || exists k :: 0 <= k < db.Length && types[k].Touched() && db[k].tid == ct - 1
  {
    var m := 0;
    var k := 0;
    while k < db.Length
      invariant 0 <= k <= db.Length && m >= 0
      invariant forall j :: 0 <= j < k && types[j].Touched() ==> db[j].tid <= m
      invariant m == 0 || exists j :: 0 <= j < k && types[j].Touched() && db[j].tid == m
    {
      if types[k].Touched() {
        var t := db[k].tid;
        if t > m {
          m := t;
        }
      }
      k := k + 1;
    }
    ct := m + 1;
  }

  /** Phase 3: every key with the WRITE bit gets `val[k]`, the commit TID and a cleared
      latch; the other records are untouched. */
  method WritePhase(db: array<Record>, types: seq<Access>, val: seq<int>, ct: int)
    requires |types| == |val| == db.Length
    modifies db
    ensures forall k :: 0 <= k < db.Length ==>
      db[k] == if types[k].write then Record(val[k], ct, false) else old(db[k])
  {
    var k := 0;
    while k < db.Length
      invariant 0 <= k <= db.Length
      invariant forall j :: 0 <= j < db.Length ==>
        db[j] == if j < k && types[j].write then Record(val[j], ct, false) else old(db[j])
    {
      if types[k].write {
        db[k] := Record(val[k], ct, db[k].lock);
        Unlock(db, k);
      }
      k := k + 1;
    }
  }

  // ---------------------------------------------------------------- one attempt

  /** How an attempt ends: committed with its TID, aborted by validation, or stopped at
      the write key whose latch another transaction holds, with the latches of the
      write keys before it still held. */
  datatype Outcome = Committed(tid: int) | Aborted | Blocked(key: nat)

  /** No key the transaction touches is latched. */
  predicate Unobstructed(rs: seq<Record>, types: seq<Access>)
    requires |types| == |rs|
  {
    forall k :: 0 <= k < |rs| && types[k].Touched() ==> !rs[k].lock
  }

  /** Some write key is latched. */
  predicate WriteKeyLatched(rs: seq<Record>, types: seq<Access>)
    requires |types| == |rs|
  {
    exists k :: 0 <= k < |rs| && types[k].write && rs[k].lock
  }

  /** Once phase 1 has latched every write key of records `before`, giving `after`, and
      the read phase took the TIDs `tid`, validation passes iff nothing obstructed the
      attempt. */
  lemma ValidatesIffUnobstructed(before: seq<Record>, after: seq<Record>, types: seq<Access>, tid: seq<int>, ok: bool)
    requires |before| == |after| == |types| == |tid|
    requires forall k :: 0 <= k < |before| ==>
      after[k] == if types[k].write then before[k].(lock := true) else before[k]
    requires forall k :: 0 <= k < |before| && types[k].write ==> !before[k].lock
    requires forall k :: 0 <= k < |before| && types[k].read ==> tid[k] == before[k].tid
    requires ok == forall k :: 0 <= k < |after| ==> !Invalid(after[k], types[k], tid[k])
    ensures ok == Unobstructed(before, types) && !WriteKeyLatched(before, types)
  {
    if !ok {
      var k :| 0 <= k < |after| && Invalid(after[k], types[k], tid[k]);
      assert types[k].ReadOnly() && before[k].lock;
    }
  }

  /** One attempt of `worker` from the `retry` label, for a transaction whose masks are
      `types` (the OR of its step kinds): read, modify, latch, validate, commit.
      Within one attempt only latches move, so it commits iff no key it touches is
      latched; otherwise it blocks at the first latched write key, or aborts when only
      read-only keys are latched. An abort leaves the store exactly as it was; a commit gives every write key
      `val[k]` (the value read plus its READ steps, 0 for a key only written) and a TID
      above every TID the transaction touched. */
  method RunAttempt(db: array<Record>, steps: seq<Step>, types: seq<Access>) returns (outcome: Outcome)
    requires KeysIn(steps, db.Length) && |types| == db.Length
    requires forall k :: 0 <= k < db.Length ==> types[k] == AccessOf(steps, k)
    modifies db
    ensures outcome.Committed? <==> Unobstructed(old(db[..]), types)
    ensures outcome.Blocked? <==> WriteKeyLatched(old(db[..]), types)
    ensures outcome.Aborted? ==> db[..] == old(db[..])
    ensures outcome.Blocked? ==> outcome.key < db.Length && types[outcome.key].write && old(db[outcome.key].lock)
    ensures outcome.Blocked? ==> forall k :: 0 <= k < outcome.key && types[k].write ==> !old(db[k].lock)
    ensures outcome.Blocked? ==> forall k :: 0 <= k < db.Length ==>
      db[k] == if k < outcome.key && types[k].write then old(db[k]).(lock := true) else old(db[k])
    ensures outcome.Committed? ==> outcome.tid >= 1 && forall k :: 0 <= k < db.Length ==>
      (types[k].Touched() ==> old(db[k].tid) < outcome.tid) &&
      db[k] == if types[k].write
               then Record((if types[k].read then old(db[k].val) else 0) + ReadCount(steps, k), outcome.tid, false)
               else old(db[k])
  {
    ghost var before := db[..];
    var val, tid := seq(db.Length, _ => 0), seq(db.Length, _ => 0);
    val, tid := ReadPhase(db, types, val, tid);
    val := ApplyReads(steps, val);
    var at := LockWriteSet(db, types, 0);
    if at < db.Length {
      assert before[at].lock;
      return Blocked(at);
    }
    var ok := Validate(db, types, tid);
    ValidatesIffUnobstructed(before, db[..], types, tid, ok);
    if !ok {
      UnlockWriteSet(db, types);
      assert forall k :: 0 <= k < db.Length && types[k].write ==> !old(db[k].lock);
      assert db[..] == old(db[..]);
      return Aborted;
    }
    var ct := CommitTid(db, types);
    WritePhase(db, types, val, ct);
    return Committed(ct);
  }
}
