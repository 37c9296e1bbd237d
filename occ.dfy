/** Backward- and forward-oriented optimistic concurrency control over an array of
    integer records: a transaction reads, validates its read set against the write
    sets of the transactions that committed since it started, then writes and
    appends its access masks to the commit log. */
module Occ {
  import opened Common

  // ---------------------------------------------------------------- the active set

  /** `delete_from_set(a, n, item)`: the first occurrence of `item` in `a[..n]` is taken
      out, the entries after it shift left by one and `n` drops by one; with no
      occurrence nothing changes. Slots from the new `n` on keep their old contents. */
  method DeleteFromSet(a: array<int>, n: nat, item: int) returns (n': nat)
    requires n <= a.Length
    modifies a
    ensures n' == if item in old(a[..n]) then n - 1 else n
    ensures a[..n'] == RemoveFirst(old(a[..n]), item)
    ensures forall i :: n' <= i < a.Length ==> a[i] == old(a[i])
  {
    ghost var s := a[..n];
    var at := FindSlot(a, n, item);
    assert item in s <==> at < n;
    n' := if at < n then n - 1 else n;
    ShiftLeft(a, at, n');
    if at < n {
      ghost var r := s[..at] + s[at + 1..];
      assert forall p :: 0 <= p < n' ==> a[p] == r[p];
      assert a[..n'] == r;
    } else {
      assert a[..n'] == s;
    }
  }

  /** The first loop of `delete_from_set`: the first slot below `n` holding `item`, or
      `n` when there is none. */
  method FindSlot(a: array<int>, n: nat, item: int) returns (i: nat)
    requires n <= a.Length
    ensures i == IndexOf(a[..n], item)
  {
    i := 0;
    while i < n
      invariant 0 <= i <= n
      invariant forall p :: 0 <= p < i ==> a[p] != item
    {
      if a[i] == item {
        return;
      }
      i := i + 1;
    }
  }

  /** The second loop of `delete_from_set`: slots `[at, m)` take the contents of the
      slot after them; every other slot keeps its contents. */
  method ShiftLeft(a: array<int>, at: nat, m: nat)
    requires at <= m && (at == m || m < a.Length)
    modifies a
    ensures forall p :: 0 <= p < a.Length ==> a[p] == if at <= p < m then old(a[p + 1]) else old(a[p])
  {
    var i := at;
    while i < m
      invariant at <= i <= m
      invariant forall p :: 0 <= p < a.Length ==> a[p] == if at <= p < i then old(a[p + 1]) else old(a[p])
    {
      a[i] := a[i + 1];
      i := i + 1;
    }
  }

  // ---------------------------------------------------------------- validation rules

  /** `theirs` writes a key `mine` reads (`theirs.types[k] & WRITE && mine.types[k] & READ`). */
  predicate ReadConflict(theirs: seq<Access>, mine: seq<Access>) {
    exists k :: 0 <= k < |theirs| && k < |mine| && theirs[k].write && mine[k].read
  }

  /** `theirs` writes a key `mine` reads or writes (the forward rule against active
      transactions). */
  predicate TouchConflict(theirs: seq<Access>, mine: seq<Access>) {
    exists k :: 0 <= k < |theirs| && k < |mine| && theirs[k].write && mine[k].Touched()
  }

  /** No transaction committed in the window `[from, to)` of the log writes a key `mine`
      reads. */
  predicate WindowClear(log: seq<seq<Access>>, from: int, to: int, mine: seq<Access>)
    requires 0 <= from && to <= |log|
  {
    forall i :: from <= i < to ==> !ReadConflict(log[i], mine)
  }

  /** The inner loop of validation: does `theirs` write a key `mine` reads (or, with
      `touched`, touches)? */
  method ScanKeys(theirs: seq<Access>, mine: seq<Access>, touched: bool) returns (conflict: bool)
    requires |theirs| == |mine|
    ensures conflict == if touched then TouchConflict(theirs, mine) else ReadConflict(theirs, mine)
  {
    var k := 0;
    while k < |mine|
      invariant 0 <= k <= |mine|
      invariant forall j :: 0 <= j < k ==> !(theirs[j].write && (if touched then mine[j].Touched() else mine[j].read))
    {
      if theirs[k].write && (if touched then mine[k].Touched() else mine[k].read) {
        return true;
      }
      k := k + 1;
    }
    return false;
  }

  // ---------------------------------------------------------------- the store

  /** The shared state: `Database`, the commit log `tx_seq` with its length
      `tid_global`, and the active set `act_tx[..act_tx_len]` of the forward build. */
  class Store {
    const n: nat
    const db: array<int>
    const txSeq: array<seq<Access>>
    var tidGlobal: nat
    const actTx: array<int>
    var actLen: nat
    /** `history[i]`: the records when the log held `i` entries */
    ghost var history: seq<seq<int>>

    ghost predicate Valid()
      reads this, db, txSeq, actTx
    {
      db.Length == n && db != actTx &&
      tidGlobal <= txSeq.Length && actLen <= actTx.Length &&
      (forall i :: 0 <= i < tidGlobal ==> |txSeq[i]| == n) &&
      |history| == tidGlobal + 1 && history[tidGlobal] == db[..] &&
      (forall i :: 0 <= i <= tidGlobal ==> |history[i]| == n) &&
      (forall i, k :: 0 <= i < tidGlobal && 0 <= k < n && !txSeq[i][k].write ==>
        history[i + 1][k] == history[i][k])
    }

    /** The committed prefix of the log. */
    ghost function Log(): seq<seq<Access>>
      reads this, txSeq
      requires tidGlobal <= txSeq.Length
    {
      txSeq[..tidGlobal]
    }

    /** A store of `n` records with room for `capacity` commits and `threads` active
        transactions. */
    constructor (n: nat, init: seq<int>, capacity: nat, threads: nat)
      requires |init| == n
      ensures Valid() && fresh(db) && fresh(txSeq) && fresh(actTx)
      ensures db[..] == init && tidGlobal == 0 && actLen == 0
      ensures txSeq.Length == capacity && actTx.Length == threads
    {
      this.n := n;
      db := new int[n](i requires 0 <= i < n => init[i]);
      txSeq := new seq<Access>[capacity](_ => []);
      tidGlobal := 0;
      actTx := new int[threads](_ => 0);
      actLen := 0;
      new;
      history := [db[..]];
    }

    /** Read phase: note the log position, OR every step's kind into `types`, and copy
        `Database[k]` for every READ step. Keys not read keep the contents `values` had. */
    method ReadPhase(steps: seq<Step>, types: seq<Access>, values: seq<int>)
      returns (tidStart: nat, types': seq<Access>, values': seq<int>)
      requires Valid() && KeysIn(steps, n) && |types| == n && |values| == n
      ensures tidStart == tidGlobal && |types'| == n && |values'| == n
      ensures forall k :: 0 <= k < n ==> types'[k] == types[k].Or(AccessOf(steps, k))
      ensures forall k :: 0 <= k < n ==>
        values'[k] == if AccessOf(steps, k).read then db[k] else values[k]
    {
      tidStart := tidGlobal;
      types', values' := types, values;
      var i := 0;
      while i < |steps|
        invariant 0 <= i <= |steps| && |types'| == n && |values'| == n
        invariant forall k :: 0 <= k < n ==> types'[k] == types[k].Or(AccessOf(steps[..i], k))
        invariant forall k :: 0 <= k < n ==>
          values'[k] == if AccessOf(steps[..i], k).read then db[k] else values[k]
      {
        assert steps[..i + 1][..i] == steps[..i];
        var k := steps[i].key;
        types' := types'[k := types'[k].Or(KindBit(steps[i].kind))];
        if steps[i].kind == Read {
          values' := values'[k := db[k]];
        }
        i := i + 1;
      }
      assert steps[..i] == steps;
    }

    /** Backward validation under the giant lock: the window is `[tidStart, tid_end)`
        with `tid_end` the current log length; the transaction passes iff no entry in it
        writes a key this one reads. */
    method ValidateBackward(tidStart: nat, types: seq<Access>) returns (ok: bool, tidEnd: nat)
      requires Valid() && tidStart <= tidGlobal && |types| == n
      ensures tidEnd == tidGlobal
      ensures ok == WindowClear(Log(), tidStart, tidEnd, types)
    {
      tidEnd := tidGlobal;
      var i := tidStart;
      while i < tidEnd
        invariant tidStart <= i <= tidEnd
        invariant WindowClear(Log(), tidStart, i, types)
      {
        var c := ScanKeys(txSeq[i], types, false);
        if c {
          return false, tidEnd;
        }
        i := i + 1;
      }
      return true, tidEnd;
    }

    /** Write phase and commit: `Database[k] = values[k]` for every key with the WRITE
        bit, then the masks go to `tx_seq[tid_global]` and `tid_global` grows by one. */
    method Commit(types: seq<Access>, values: seq<int>)
      requires Valid() && tidGlobal < txSeq.Length && |types| == n && |values| == n
      modifies this, db, txSeq
      ensures Valid()
      ensures forall k :: 0 <= k < n ==> db[k] == if types[k].write then values[k] else old(db[k])
      ensures tidGlobal == old(tidGlobal) + 1
      ensures Log() == old(Log()) + [types]
      ensures actLen == old(actLen) && history[..tidGlobal] == old(history)
    {
      ghost var log := Log();
      ghost var before := db[..];
      var k := 0;
      while k < n
        invariant 0 <= k <= n && db.Length == n
        invariant unchanged(this) && unchanged(txSeq)
        invariant forall j :: 0 <= j < k ==> db[j] == if types[j].write then values[j] else old(db[j])
        invariant forall j :: k <= j < n ==> db[j] == old(db[j])
      {
        if types[k].write {
          db[k] := values[k];
        }
        k := k + 1;
      }
      txSeq[tidGlobal] := types;
      assert txSeq[..tidGlobal] == log;
      assert forall j :: 0 <= j < n && !types[j].write ==> db[..][j] == before[j];
      history := history + [db[..]];
      tidGlobal := tidGlobal + 1;
      assert Log() == log + [types];
    }

    // ------------------------------------------------------------ forward build

    /** Forward build, under the lock: note the log position as `tid_end`, copy the
        active set as the snapshot, and add this transaction `me` to the active set. */
    method Enter(me: int) returns (tidEnd: nat, snapshot: seq<int>)
      requires Valid() && actLen < actTx.Length
      modifies this, actTx
      ensures Valid()
      ensures tidEnd == tidGlobal && snapshot == old(actTx[..actLen])
      ensures actLen == old(actLen) + 1 && actTx[..actLen] == snapshot + [me]
      ensures tidGlobal == old(tidGlobal) && history == old(history)
    {
      tidEnd := tidGlobal;
      snapshot := actTx[..actLen];
      actTx[actLen] := me;
      actLen := actLen + 1;
      assert actTx[..actLen] == snapshot + [me];
    }

    /** Forward validation of `me`: abort when a transaction committed in
        `[tidStart, tidEnd)` writes a key `me` reads, or when one of the snapshot's
        transactions, whose current masks are `peer`, writes a key `me` reads or
        writes; `me` then leaves the active set. */
    method ValidateForward(me: int, tidStart: nat, tidEnd: nat, types: seq<Access>,
                           snapshot: seq<int>, peer: map<int, seq<Access>>) returns (ok: bool)
      requires Valid() && tidStart <= tidEnd <= tidGlobal && |types| == n
      requires forall j :: 0 <= j < |snapshot| ==> snapshot[j] in peer && |peer[snapshot[j]]| == n
      modifies this, actTx
      ensures Valid() && tidGlobal == old(tidGlobal) && history == old(history)
      ensures ok == (WindowClear(Log(), tidStart, tidEnd, types) &&
                     forall j :: 0 <= j < |snapshot| ==> !TouchConflict(peer[snapshot[j]], types))
      ensures ok ==> actLen == old(actLen) && actTx[..] == old(actTx[..])
      ensures !ok ==> actTx[..actLen] == RemoveFirst(old(actTx[..actLen]), me)
    {
      var i := tidStart;
      while i < tidEnd
        invariant tidStart <= i <= tidEnd
        invariant unchanged(this) && unchanged(actTx)
        invariant WindowClear(Log(), tidStart, i, types)
      {
        var c := ScanKeys(txSeq[i], types, false);
        if c {
          assert actTx[..actLen] == old(actTx[..actLen]);
          Leave(me);
          return false;
        }
        i := i + 1;
      }
      var j := 0;
      while j < |snapshot|
        invariant 0 <= j <= |snapshot|
        invariant unchanged(this) && unchanged(actTx)
        invariant forall p :: 0 <= p < j ==> !TouchConflict(peer[snapshot[p]], types)
      {
        var c := ScanKeys(peer[snapshot[j]], types, true);
        if c {
          assert actTx[..actLen] == old(actTx[..actLen]);
          Leave(me);
          return false;
        }
        j := j + 1;
      }
      return true;
    }

    /** Leaving the active set under the lock: `delete_from_set(act_tx, &act_tx_len, me)`. */
    method Leave(me: int)
      requires Valid()
      modifies this, actTx
      ensures Valid()
      ensures actTx[..actLen] == RemoveFirst(old(actTx[..actLen]), me)
      ensures actLen == if me in old(actTx[..actLen]) then old(actLen) - 1 else old(actLen)
      ensures tidGlobal == old(tidGlobal) && history == old(history)
    {
      actLen := DeleteFromSet(actTx, actLen, me);
    }

    // ------------------------------------------------------------ one attempt

    /** One attempt of the default (backward) build, run without interference: read
        phase, modify, validation and commit. The window is empty, so the attempt commits;
        every key with the WRITE bit receives the value read plus the number of READ
        steps on it (for a key only written, what `values` held plus nothing). */
    method RunBackward(steps: seq<Step>, types: seq<Access>, values: seq<int>) returns (committed: bool)
      requires Valid() && KeysIn(steps, n) && |types| == n && |values| == n
      requires tidGlobal < txSeq.Length
      modifies this, db, txSeq
      ensures Valid() && committed
      ensures tidGlobal == old(tidGlobal) + 1
      ensures forall k :: 0 <= k < n ==>
        db[k] == if types[k].write || AccessOf(steps, k).write
                 then (if AccessOf(steps, k).read then old(db[k]) else values[k]) + ReadCount(steps, k)
                 else old(db[k])
      ensures |Log()| == old(|Log()|) + 1 && Log()[..old(tidGlobal)] == old(Log())
      ensures forall k :: 0 <= k < n ==> Log()[old(tidGlobal)][k] == types[k].Or(AccessOf(steps, k))
    {
      var tidStart, types', values' := ReadPhase(steps, types, values);
      values' := ApplyReads(steps, values');
      var ok, tidEnd := ValidateBackward(tidStart, types');
      if ok {
        Commit(types', values');
      }
      committed := ok;
    }

    /** One attempt of the forward build after its read and modify phases, run without
        interference: enter the active set, validate against the transactions active at
        entry (whose current masks are `peer`), and on success write, append `types` to the
        commit log and leave.
        The attempt commits iff none of them writes a key `me` touches; either way `me`
        ends outside the active set, which is left as it was found. */
    method RunForward(me: int, types: seq<Access>, values: seq<int>, peer: map<int, seq<Access>>)
      returns (committed: bool)
      requires Valid() && |types| == n && |values| == n
      requires tidGlobal < txSeq.Length && actLen < actTx.Length && me !in actTx[..actLen]
      requires forall j :: 0 <= j < actLen ==> actTx[j] in peer && |peer[actTx[j]]| == n
      modifies this, db, txSeq, actTx
      ensures Valid()
      ensures committed == forall j :: 0 <= j < old(actLen) ==> !TouchConflict(peer[old(actTx[j])], types)
      ensures actTx[..actLen] == old(actTx[..actLen])
      ensures tidGlobal == old(tidGlobal) + (if committed then 1 else 0)
      ensures forall k :: 0 <= k < n ==> db[k] == if committed && types[k].write then values[k] else old(db[k])
      ensures Log() == if committed then old(Log()) + [types] else old(Log())
    {
      ghost var active := actTx[..actLen];
      var tidStart := tidGlobal;
      var tidEnd, snapshot := Enter(me);
      committed := ValidateForward(me, tidStart, tidEnd, types, snapshot, peer);
      if committed {
        Commit(types, values);
        Leave(me);
      }
      RemoveAppended(active, me);
    }

    // ------------------------------------------------------------ what validation buys

    /** Validation is what makes the reads current: when no transaction committed in
        `[from, tidGlobal)` writes a key `types` reads, every such key holds the value it
        had when the log was `from` entries long. */
    lemma {:induction false} ClearWindowKeepsReads(from: nat, types: seq<Access>)
      requires Valid() && from <= tidGlobal && |types| == n
      requires WindowClear(Log(), from, tidGlobal, types)
      ensures forall k :: 0 <= k < n && types[k].read ==> db[k] == history[from][k]
    {
      forall k | 0 <= k < n && types[k].read
        ensures db[k] == history[from][k]
      {
        var i := from;
        while i < tidGlobal
          invariant from <= i <= tidGlobal
          invariant history[i][k] == history[from][k]
        {
          assert !ReadConflict(Log()[i], types);
          assert !txSeq[i][k].write;
          i := i + 1;
        }
        assert db[..][k] == db[k];
      }
    }
  }
}
