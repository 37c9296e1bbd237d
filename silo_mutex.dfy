/** The Silo-style variant whose records carry a mutex plus a `locked` flag that other
    transactions read during validation: phase 1 walks the keys in ascending order,
    locking each write key and reading each read key, and folds the read TIDs into the
    commit TID as it goes. */
module SiloMutex {
  import opened Common

  /** A record of `Database`: value, TID of the last writer, whether its mutex is held,
      and the `locked` flag that `LOCK` raises once it holds the mutex. */
  datatype Record = Record(val: int, tid: int, held: bool, locked: bool)

  /** The flag is only ever raised by the holder of the mutex. */
  predicate Coherent(r: Record) { r.locked ==> r.held }

  predicate StoreOk(db: array<Record>)
    reads db
  {
    forall k :: 0 <= k < db.Length ==> Coherent(db[k])
  }

  /** One attempt of `LOCK(k)`: the mutex is taken and the flag raised, or the mutex is
      already held and nothing changes (the thread would wait there). */
  method TryLock(db: array<Record>, k: nat) returns (acquired: bool)
    requires k < db.Length
    modifies db
    ensures acquired == !old(db[k].held)
    ensures acquired ==> db[k] == old(db[k]).(held := true, locked := true)
    ensures !acquired ==> db[k] == old(db[k])
    ensures forall j :: 0 <= j < db.Length && j != k ==> db[j] == old(db[j])
  {
    if db[k].held {
      return false;
    }
    db[k] := db[k].(held := true);
    db[k] := db[k].(locked := true);
    return true;
  }

  /** `UNLOCK(k)`: the flag is lowered, then the mutex released. */
  method Unlock(db: array<Record>, k: nat)
    requires k < db.Length
    modifies db
    ensures db[k] == old(db[k]).(held := false, locked := false)
    ensures forall j :: 0 <= j < db.Length && j != k ==> db[j] == old(db[j])
  {
    db[k] := db[k].(locked := false);
    db[k] := db[k].(held := false);
  }

  /** Phase 1 from key `from` with the accumulated `val`, `tid` and commit TID `ct`: each
      write key is locked, then each read key is read and its TID folded into `ct`. It
      stops at a write key whose mutex is held and returns that key as `at` (the number
      of records when every key was passed); keys from `at` on are untouched. */
  method LockAndRead(db: array<Record>, types: seq<Access>, from: nat, val: seq<int>, tid: seq<int>, ct: int)
    returns (at: nat, val': seq<int>, tid': seq<int>, ct': int)
    requires |types| == |val| == |tid| == db.Length && from <= db.Length
    modifies db
    ensures from <= at <= db.Length && |val'| == |tid'| == db.Length
    ensures at < db.Length ==> types[at].write && old(db[at].held)
    ensures forall k :: 0 <= k < db.Length ==>
      db[k] == (if from <= k < at && types[k].write then old(db[k]).(held := true, locked := true) else old(db[k]))
    ensures forall k :: from <= k < at && types[k].write ==> !old(db[k].held)
    ensures forall k :: 0 <= k < db.Length ==>
      val'[k] == (if from <= k < at && types[k].read then old(db[k].val) else val[k]) &&
      tid'[k] == (if from <= k < at && types[k].read then old(db[k].tid) else tid[k])
    ensures ct <= ct' && forall k :: from <= k < at && types[k].read ==> old(db[k].tid) <= ct'
    ensures ct' == ct || exists k :: from <= k < at && types[k].read && old(db[k].tid) == ct'
  {
    at, val', tid', ct' := from, val, tid, ct;
    while at < db.Length
      invariant from <= at <= db.Length && |val'| == |tid'| == db.Length
      invariant forall k :: 0 <= k < db.Length ==>
        db[k] == (if from <= k < at && types[k].write then old(db[k]).(held := true, locked := true) else old(db[k]))
      invariant forall k :: from <= k < at && types[k].write ==> !old(db[k].held)
      invariant forall k :: 0 <= k < db.Length ==>
        val'[k] == (if from <= k < at && types[k].read then old(db[k].val) else val[k]) &&
        tid'[k] == (if from <= k < at && types[k].read then old(db[k].tid) else tid[k])
      invariant ct <= ct' && forall k :: from <= k < at && types[k].read ==> old(db[k].tid) <= ct'
      invariant ct' == ct || exists k :: from <= k < at && types[k].read && old(db[k].tid) == ct'
    {
      if types[at].write {
        var acquired := TryLock(db, at);
        if !acquired {
          return;
        }
      }
      if types[at].read {
        var t := db[at].tid;
        val' := val'[at := db[at].val];
        tid' := tid'[at := t];
        if t > ct' {
          ct' := t;
        }
      }
      at := at + 1;
    }
  }

  /** The validation rule: a read key whose TID moved, or a read-only key whose flag
      another transaction has raised. */
  predicate Invalid(r: Record, a: Access, readTid: int) {
    (a.read && readTid != r.tid) || (a.ReadOnly() && r.locked)
  }

  /** Phase 2: the transaction passes iff no key is invalid. */
  method Validate(db: array<Record>, types: seq<Access>, tid: seq<int>) returns (ok: bool)
    requires |types| == |tid| == db.Length
    ensures ok == forall k :: 0 <= k < db.Length ==> !Invalid(db[k], types[k], tid[k])
  {
    var k := 0;
    while k < db.Length
      invariant 0 <= k <= db.Length
      invariant forall j :: 0 <= j < k ==> !Invalid(db[j], types[j], tid[j])
    {
      if (types[k].read && tid[k] != db[k].tid) || (types[k].ReadOnly() && db[k].locked) {
        return false;
      }
      k := k + 1;
    }
    return true;
  }

  /** The abort path: every key with the WRITE bit is unlocked. */
  method UnlockWriteSet(db: array<Record>, types: seq<Access>)
    requires |types| == db.Length
    modifies db
    ensures forall k :: 0 <= k < db.Length ==>
      db[k] == if types[k].write then old(db[k]).(held := false, locked := false) else old(db[k])
  {
    var k := 0;
    while k < db.Length
      invariant 0 <= k <= db.Length
      invariant forall j :: 0 <= j < db.Length ==>
        db[j] == if j < k && types[j].write then old(db[j]).(held := false, locked := false) else old(db[j])
    {
      if types[k].write {
        Unlock(db, k);
      }
      k := k + 1;
    }
  }

  /** The commit TID: the accumulated read maximum `ct` raised to every write key's
      current TID, plus one; so it exceeds `ct` and every write key's TID, and is the
      least number that does. */
  method CommitTid(db: array<Record>, types: seq<Access>, ct: int) returns (r: int)
    requires |types| == db.Length
    ensures r > ct
    ensures forall k :: 0 <= k < db.Length && types[k].write ==> db[k].tid < r
    ensures r == ct + 1 || exists k :: 0 <= k < db.Length && types[k].write && db[k].tid == r - 1
  {
    var m := ct;
    var k := 0;
    while k < db.Length
      invariant 0 <= k <= db.Length && m >= ct
      invariant forall j :: 0 <= j < k && types[j].write ==> db[j].tid <= m
      invariant m == ct || exists j :: 0 <= j < k && types[j].write && db[j].tid == m
    {
      if types[k].write {
        var t := db[k].tid;
        if t > m {
          m := t;
        }
      }
      k := k + 1;
    }
    r := m + 1;
  }

  /** Phase 3: every key with the WRITE bit gets `val[k]` and the commit TID and is
      unlocked; the other records are untouched. */
  method WritePhase(db: array<Record>, types: seq<Access>, val: seq<int>, ct: int)
    requires |types| == |val| == db.Length
    modifies db
    ensures forall k :: 0 <= k < db.Length ==>
      db[k] == if types[k].write then Record(val[k], ct, false, false) else old(db[k])
  {
    var k := 0;
    while k < db.Length
      invariant 0 <= k <= db.Length
      invariant forall j :: 0 <= j < db.Length ==>
        db[j] == if j < k && types[j].write then Record(val[j], ct, false, false) else old(db[j])
    {
      if types[k].write {
        db[k] := db[k].(val := val[k], tid := ct);
        Unlock(db, k);
      }
      k := k + 1;
    }
  }

  // ---------------------------------------------------------------- one attempt

  /** How an attempt ends: committed with its TID, aborted by validation, or waiting on
      the mutex of a write key, with the write keys before it still locked. */
  datatype Outcome = Committed(tid: int) | Aborted | Blocked(key: nat)

  /** No write key's mutex is held and no read-only key's flag is raised. */
  predicate Unobstructed(rs: seq<Record>, types: seq<Access>)
    requires |types| == |rs|
  {
    forall k :: 0 <= k < |rs| ==> !(types[k].write && rs[k].held) && !(types[k].ReadOnly() && rs[k].locked)
  }

  /** Some write key's mutex is held. */
  predicate WriteKeyHeld(rs: seq<Record>, types: seq<Access>)
    requires |types| == |rs|
  {
    exists k :: 0 <= k < |rs| && types[k].write && rs[k].held
  }

  /** Once phase 1 has locked every write key of records `before`, giving `after`, and
      read the TIDs `tid`, validation passes iff nothing obstructed the attempt. */
  lemma ValidatesIffUnobstructed(before: seq<Record>, after: seq<Record>, types: seq<Access>, tid: seq<int>, ok: bool)
    requires |before| == |after| == |types| == |tid|
    requires forall k :: 0 <= k < |before| ==>
      after[k] == if types[k].write then before[k].(held := true, locked := true) else before[k]
    requires forall k :: 0 <= k < |before| && types[k].write ==> !before[k].held
    requires forall k :: 0 <= k < |before| && types[k].read ==> tid[k] == before[k].tid
    requires ok == forall k :: 0 <= k < |after| ==> !Invalid(after[k], types[k], tid[k])
    ensures ok == Unobstructed(before, types) && !WriteKeyHeld(before, types)
  {
    if !ok {
      var k :| 0 <= k < |after| && Invalid(after[k], types[k], tid[k]);
      assert types[k].ReadOnly() && before[k].locked;
    }
  }

  /** One attempt of `worker` from the `retry` label, for a transaction whose masks are
      `types`. Every operation keeps each record's flag under its mutex. Within one
      attempt only mutexes and flags move, so it commits iff no write key's mutex is
      held and no read-only key's flag is raised; otherwise it blocks at the first write
      key whose mutex is held, or aborts when there is none. An abort leaves
      the store exactly as it was; a commit gives every write key `val[k]` (the value
      read plus its READ steps, 0 for a key only written) and a TID above every TID the
      transaction touched. */
  method RunAttempt(db: array<Record>, steps: seq<Step>, types: seq<Access>) returns (outcome: Outcome)
    requires KeysIn(steps, db.Length) && |types| == db.Length
    requires forall k :: 0 <= k < db.Length ==> types[k] == AccessOf(steps, k)
    requires StoreOk(db)
    modifies db
    ensures StoreOk(db)
    ensures outcome.Committed? <==> Unobstructed(old(db[..]), types)
    ensures outcome.Blocked? <==> WriteKeyHeld(old(db[..]), types)
    ensures outcome.Aborted? ==> db[..] == old(db[..])
    ensures outcome.Blocked? ==> outcome.key < db.Length && types[outcome.key].write && old(db[outcome.key].held)
    ensures outcome.Blocked? ==> forall k :: 0 <= k < outcome.key && types[k].write ==> !old(db[k].held)
    ensures outcome.Blocked? ==> forall k :: 0 <= k < db.Length ==>
      db[k] == if k < outcome.key && types[k].write then old(db[k]).(held := true, locked := true) else old(db[k])
    ensures outcome.Committed? ==> outcome.tid >= 1 && forall k :: 0 <= k < db.Length ==>
      (types[k].Touched() ==> old(db[k].tid) < outcome.tid) &&
      db[k] == if types[k].write
               then Record((if types[k].read then old(db[k].val) else 0) + ReadCount(steps, k), outcome.tid, false, false)
               else old(db[k])
  {
    ghost var before := db[..];
    var val, tid := seq(db.Length, _ => 0), seq(db.Length, _ => 0);
    var at, ct;
    at, val, tid, ct := LockAndRead(db, types, 0, val, tid, 0);
    if at < db.Length {
      assert before[at].held;
      return Blocked(at);
    }
    val := ApplyReads(steps, val);
    var ok := Validate(db, types, tid);
    ValidatesIffUnobstructed(before, db[..], types, tid, ok);
    if !ok {
      UnlockWriteSet(db, types);
      assert forall k :: 0 <= k < db.Length && types[k].write ==> !old(db[k].held) && !old(db[k].locked);
      assert db[..] == old(db[..]);
      return Aborted;
    }
    ct := CommitTid(db, types, ct);
    WritePhase(db, types, val, ct);
    return Committed(ct);
  }
}
