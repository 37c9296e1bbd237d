/** The timestamp tracker and the per-attempt step loop of the C++ MVTO benchmark. */
module MvtoWorker {
  import opened Common
  import opened MvtoList

  /** `transaction_end` collects garbage when the new oldest timestamp is more than
      this far ahead of the one that ended. */
  const GcDistance := 10

  /** Ending `ts` on the active list `l` triggers a collection: `ts` is the front, a new
      front exists, it is positive and more than `GcDistance` ahead. */
  predicate TriggersGc(l: seq<int>, ts: int)
  {
    |l| > 1 && l[0] == ts && l[1] > 0 && l[1] - l[0] > GcDistance
  }

  /** The collection level: the new front of the active list. */
  function GcLevel(l: seq<int>): int
    requires |l| > 1
  {
    l[1]
  }

  /** When ending `ts` triggers a collection, its level is the oldest timestamp still
      active, so every remaining active transaction is at or above it and strictly
      above the ending one. */
  lemma GcLevelIsOldestActive(l: seq<int>, ts: int)
    requires Ascending(l) && TriggersGc(l, ts)
    ensures RemoveFirst(l, ts) == l[1..]
    ensures forall t :: t in RemoveFirst(l, ts) ==> GcLevel(l) <= t
    ensures GcLevel(l) > ts + GcDistance
  {
    assert IndexOf(l, ts) == 0;
    forall t | t in l[1..] ensures GcLevel(l) <= t {
      var k :| 0 <= k < |l[1..]| && l[1..][k] == t;
      assert l[k + 1] == t;
    }
  }

  /** The list part of `transaction_end` on the active list `l`: the front is popped
      when it is `ts`, otherwise the first occurrence of `ts` is erased. The level is the
      new front when a collection is due, and 0 otherwise. */
  method EndList(l: seq<int>, ts: int) returns (r: seq<int>, level: int)
    requires l != []
    ensures r == RemoveFirst(l, ts)
    ensures level == if TriggersGc(l, ts) then GcLevel(l) else 0
  {
    var ts0 := l[0];
    var ts1 := 0;
    if ts0 == ts {
      assert IndexOf(l, ts) == 0;
      r := l[1..];
      if r != [] {
        ts1 := r[0];
      }
    } else {
      r := EraseFirst(l, ts);
      return r, 0;
    }
    level := if ts1 > 0 && ts1 - ts0 > GcDistance then ts1 else 0;
  }

  /** The erase loop of `transaction_end`: the first occurrence of `ts` leaves the list,
      and a list without it is returned unchanged. */
  method EraseFirst(l: seq<int>, ts: int) returns (r: seq<int>)
    ensures r == RemoveFirst(l, ts)
  {
    var i := 0;
    while i < |l|
      invariant 0 <= i <= |l|
      invariant forall p :: 0 <= p < i ==> l[p] != ts
    {
      if l[i] == ts {
        assert IndexOf(l, ts) == i;
        return l[..i] + l[i + 1..];
      }
      i := i + 1;
    }
    assert IndexOf(l, ts) == |l|;
    return l;
  }

  /** `TimeStampGenerator`: the next timestamp, the list of active timestamps oldest
      first, and the number of collections run. */
  class TimeStampGenerator {
    var globalTs: int
    var tsList: seq<int>
    var gcCount: nat
    /** every timestamp handed out so far */
    ghost var issued: set<int>

    ghost predicate Valid()
      reads this
    {
      globalTs >= 1 &&
      Ascending(tsList) &&
      (forall t :: t in tsList ==> t in issued) &&
      (forall t :: t in issued ==> 0 < t < globalTs)
    }

    /** A fresh generator starts at timestamp 1 with no active transactions. */
    constructor ()
      ensures Valid()
      ensures globalTs == 1 && tsList == [] && gcCount == 0 && issued == {}
    {
      globalTs := 1;
      tsList := [];
      gcCount := 0;
      issued := {};
    }

    /** `get_timestamp`: hands out the next timestamp and appends it to the active list;
        it was never handed out before and is above every active one. */
    method GetTimestamp() returns (ts: int)
      requires Valid()
      modifies this
      ensures Valid()
      ensures ts == old(globalTs) && globalTs == ts + 1 && ts >= 1
      ensures ts !in old(issued) && issued == old(issued) + {ts}
      ensures forall t :: t in old(tsList) ==> t < ts
      ensures tsList == old(tsList) + [ts]
      ensures gcCount == old(gcCount)
    {
      ts := globalTs;
      forall i | 0 <= i < |tsList| ensures tsList[i] < ts {
        assert tsList[i] in tsList;
      }
      globalTs := globalTs + 1;
      tsList := tsList + [ts];
      issued := issued + {ts};
    }

    /** The list maintenance of `transaction_end`: the front is popped when it is `ts`,
        otherwise the first occurrence of `ts` is erased; returns the collection level,
        or 0 when no collection is due. */
    method Retire(ts: int) returns (level: int)
      requires Valid() && tsList != []
      modifies this
      ensures Valid()
      ensures tsList == RemoveFirst(old(tsList), ts)
      ensures forall t :: t in tsList <==> t in old(tsList) && t != ts
      ensures level == if TriggersGc(old(tsList), ts) then GcLevel(old(tsList)) else 0
      ensures globalTs == old(globalTs) && issued == old(issued) && gcCount == old(gcCount)
    {
      RemoveFirstAscending(tsList, ts);
      tsList, level := EndList(tsList, ts);
    }

    /** `transaction_end(ts)`: retires `ts` and, when due, counts a collection and runs
        `gc` at the new oldest timestamp on every record of the store. */
    method TransactionEnd(ts: int, db: array<DataItem>)
      requires Valid() && tsList != []
      requires StoreOk(db)
      modifies this, Items(db)
      ensures Valid() && StoreOk(db)
      ensures tsList == RemoveFirst(old(tsList), ts)
      ensures globalTs == old(globalTs) && issued == old(issued)
      ensures gcCount == old(gcCount) + (if TriggersGc(old(tsList), ts) then 1 else 0)
      ensures forall k :: 0 <= k < db.Length ==>
        db[k].chain == (if TriggersGc(old(tsList), ts) then GcChain(old(db[k].chain), GcLevel(old(tsList))) else old(db[k].chain)) &&
        db[k].marks == (if TriggersGc(old(tsList), ts) then GcMarks(old(db[k].marks), GcLevel(old(tsList))) else old(db[k].marks))
    {
      var level := Retire(ts);
      if level != 0 {
        gcCount := gcCount + 1;
        CollectStore(db, level);
      }
    }
  }

  /** The collection loop of `transaction_end`: `gc(level)` on every record in turn. */
  method CollectStore(db: array<DataItem>, level: int)
    requires StoreOk(db)
    modifies Items(db)
    ensures StoreOk(db)
    ensures forall k :: 0 <= k < db.Length ==>
      db[k].chain == GcChain(old(db[k].chain), level) && db[k].marks == GcMarks(old(db[k].marks), level)
  {
    var i := 0;
    while i < db.Length
      invariant 0 <= i <= db.Length
      invariant StoreOk(db)
      invariant forall k :: 0 <= k < i ==>
        db[k].chain == GcChain(old(db[k].chain), level) && db[k].marks == GcMarks(old(db[k].marks), level)
      invariant forall k :: i <= k < db.Length ==>
        db[k].chain == old(db[k].chain) && db[k].marks == old(db[k].marks)
    {
      db[i].Gc(level);
      i := i + 1;
    }
  }

  /** The records of the store. */
  ghost function Items(db: array<DataItem>): set<DataItem>
    reads db
  {
    set k | 0 <= k < db.Length :: db[k]
  }

  /** The store `DataItem database[NUM_DATA]`: distinct, well-formed records. */
  ghost predicate StoreOk(db: array<DataItem>)
    reads db, Items(db)
  {
    (forall i, j :: 0 <= i < j < db.Length ==> db[i] != db[j]) &&
    (forall k :: 0 <= k < db.Length ==> db[k].Valid())
  }

  /** The records of the store as values. */
  ghost function Snapshot(db: array<DataItem>): seq<Item>
    reads db, Items(db)
  {
    seq(db.Length, k requires 0 <= k < db.Length reads db, Items(db) => Item(db[k].chain, db[k].marks))
  }

  // ---------------------------------------------------------------- the step loop

  /** One record as a value: its version chain and its read marks. */
  datatype Item = Item(chain: seq<Version>, marks: seq<Mark>)

  predicate ItemOk(it: Item) {
    ChainOk(it.chain) && MarksDescending(it.marks)
  }

  predicate ItemsOk(items: seq<Item>) {
    forall k :: 0 <= k < |items| ==> ItemOk(items[k])
  }

  /** Where an attempt stands: the records, the worker's `values` map, and whether a
      write has been rejected. */
  datatype Progress = Progress(items: seq<Item>, values: map<int, int>, rejected: bool)

  /** One step at timestamp `ts`: a READ stores `read(ts) + 1` for its key; a WRITE
      writes the stored value (0 when the key was not read) and is rejected, changing
      nothing, when a read mark straddles `ts`. Every record stays well-formed. */
  function DoStep(p: Progress, s: Step, ts: int): (r: Progress)
    requires ItemsOk(p.items) && 0 <= s.key < |p.items|
    ensures |r.items| == |p.items| && ItemsOk(r.items)
  {
    var it := p.items[s.key];
    match s.kind
    case Read =>
      MarkedDescending(it.marks, it.chain[0].version, ts);
      var marks := if ts > it.chain[0].version + 1 then Marked(it.marks, it.chain[0].version, ts) else it.marks;
      Progress(p.items[s.key := Item(it.chain, marks)], p.values[s.key := Visible(it.chain, ts) + 1], false)
    case Write =>
      var v := if s.key in p.values then p.values[s.key] else 0;
      if Blocks(it.marks, ts) then Progress(p.items, p.values, true)
      else
        InstallSpec(it.chain, ts, v);
        Progress(p.items[s.key := Item(Install(it.chain, ts, v), it.marks)], p.values, false)
  }

  /** The step loop of one attempt: steps run in order until one is rejected; every
      record stays well-formed. */
  function RunSteps(items: seq<Item>, steps: seq<Step>, ts: int): (r: Progress)
    requires ItemsOk(items) && KeysIn(steps, |items|)
    ensures |r.items| == |items| && ItemsOk(r.items)
    decreases |steps|
  {
    if steps == [] then Progress(items, map[], false)
    else
      var front := steps[..|steps| - 1];
      assert KeysIn(front, |items|);
      var p := RunSteps(items, front, ts);
      if p.rejected then p else DoStep(p, steps[|steps| - 1], ts)
  }

  /** Once a write is rejected no later step runs. */
  lemma {:induction false} RunStopsAtReject(items: seq<Item>, steps: seq<Step>, more: seq<Step>, ts: int)
    requires ItemsOk(items) && KeysIn(steps + more, |items|)
    requires KeysIn(steps, |items|) && RunSteps(items, steps, ts).rejected
    ensures RunSteps(items, steps + more, ts) == RunSteps(items, steps, ts)
    decreases |more|
  {
    if more == [] {
      assert steps + more == steps;
    } else {
      var m := more[..|more| - 1];
      assert (steps + more)[..|steps + more| - 1] == steps + m;
      assert KeysIn(steps + m, |items|);
      RunStopsAtReject(items, steps, m, ts);
    }
  }

  /** A rejected attempt does not undo its earlier writes: the records are exactly
      those left by the steps before the rejected write, which itself changed nothing. */
  lemma {:induction false} RejectKeepsEarlierWrites(items: seq<Item>, steps: seq<Step>, ts: int)
    requires ItemsOk(items) && KeysIn(steps, |items|)
    requires RunSteps(items, steps, ts).rejected
    ensures exists i :: (0 <= i < |steps| && steps[i].kind == Write &&
      !RunSteps(items, steps[..i], ts).rejected &&
      RunSteps(items, steps, ts).items == RunSteps(items, steps[..i], ts).items)
    decreases |steps|
  {
    var i := |steps| - 1;
    var front := steps[..i];
    assert KeysIn(front, |items|);
    if RunSteps(items, front, ts).rejected {
      RejectKeepsEarlierWrites(items, front, ts);
      var j :| 0 <= j < |front| && front[j].kind == Write &&
        !RunSteps(items, front[..j], ts).rejected &&
        RunSteps(items, front, ts).items == RunSteps(items, front[..j], ts).items;
      assert front[..j] == steps[..j];
    } else {
      assert steps[i].kind == Write;
    }
  }

  /** A record no step names is left as it was. */
  lemma {:induction false} RunLeavesOthers(items: seq<Item>, steps: seq<Step>, ts: int, k: int)
    requires ItemsOk(items) && KeysIn(steps, |items|) && 0 <= k < |items|
    requires forall i :: 0 <= i < |steps| ==> steps[i].key != k
    ensures RunSteps(items, steps, ts).items[k] == items[k]
    decreases |steps|
  {
    if steps != [] {
      var front := steps[..|steps| - 1];
      assert KeysIn(front, |items|);
      RunLeavesOthers(items, front, ts, k);
    }
  }

  /** A record that the attempt only reads keeps its version chain. */
  lemma {:induction false} RunReadsKeepChain(items: seq<Item>, steps: seq<Step>, ts: int, k: int)
    requires ItemsOk(items) && KeysIn(steps, |items|) && 0 <= k < |items|
    requires !AccessOf(steps, k).write
    ensures RunSteps(items, steps, ts).items[k].chain == items[k].chain
    decreases |steps|
  {
    if steps != [] {
      var front := steps[..|steps| - 1];
      assert KeysIn(front, |items|);
      RunReadsKeepChain(items, front, ts, k);
    }
  }

  /** Record `k` of `p` and the worker's `values` agree with the per-key rules `r`, where
      `seen` is what a read of `k` returned before the attempt: the held value is `r`'s,
      and a read at `ts` returns the value `r` last wrote, or `seen`. */
  ghost predicate AgreesOn(p: Progress, k: int, ts: int, r: KeyRun, seen: int)
    requires 0 <= k < |p.items| && ItemsOk(p.items)
  {
    (k in p.values <==> r.held.Some?) &&
    (r.held.Some? ==> p.values[k] == r.held.value) &&
    Visible(p.items[k].chain, ts) == (if r.written.Some? then r.written.value else seen)
  }

  /** An attempt at `ts >= 0` that is not rejected treats each key by the per-key rules
      `MvtoKeyRun`: what it holds for the key and what a read at `ts` returns depend only
      on the key's own steps and on what a read of it returned before the attempt. */
  lemma {:induction false} RunFollowsKeyRules(items: seq<Item>, steps: seq<Step>, ts: int, k: int)
    requires ItemsOk(items) && KeysIn(steps, |items|) && 0 <= k < |items| && ts >= 0
    requires !RunSteps(items, steps, ts).rejected
    ensures AgreesOn(RunSteps(items, steps, ts), k, ts,
                     MvtoKeyRun(steps, k, Visible(items[k].chain, ts)), Visible(items[k].chain, ts))
    decreases |steps|
  {
    if steps != [] {
      var front := steps[..|steps| - 1];
      assert KeysIn(front, |items|);
      var p := RunSteps(items, front, ts);
      assert !p.rejected;
      RunFollowsKeyRules(items, front, ts, k);
      StepFollowsKeyRules(p, steps[|steps| - 1], ts, k, MvtoKeyRun(front, k, Visible(items[k].chain, ts)), Visible(items[k].chain, ts));
    }
  }

  /** One step that is not rejected keeps record `k` in agreement with `KeyStep`. */
  lemma StepFollowsKeyRules(p: Progress, s: Step, ts: int, k: int, r: KeyRun, seen: int)
    requires ItemsOk(p.items) && 0 <= s.key < |p.items| && 0 <= k < |p.items| && ts >= 0
    requires AgreesOn(p, k, ts, r, seen) && !DoStep(p, s, ts).rejected
    ensures AgreesOn(DoStep(p, s, ts), k, ts, KeyStep(r, s, k, seen), seen)
  {
    var q := DoStep(p, s, ts);
    var it := p.items[s.key];
    if s.key != k {
      assert q.items[k] == p.items[k];
      assert q.values.Keys - {s.key} == p.values.Keys - {s.key};
      assert k in q.values ==> q.values[k] == p.values[k];
    } else if s.kind == Read {
      assert q.items[k].chain == it.chain;
      assert q.values == p.values[k := Visible(it.chain, ts) + 1];
    } else {
      var v := if k in p.values then p.values[k] else 0;
      assert q.items[k].chain == Install(it.chain, ts, v) && q.values == p.values;
      ReadOwnWrite(it.chain, ts, v);
    }
  }

  /** A committed attempt at `ts >= 0` leaves, on every record it wrote, a version
      stamped `ts`; a read at `ts` there returns what the attempt wrote last, by the
      per-key rules. */
  lemma {:induction false} RunInstallsVersion(items: seq<Item>, steps: seq<Step>, ts: int, k: int)
    requires ItemsOk(items) && KeysIn(steps, |items|) && 0 <= k < |items| && ts >= 0
    requires AccessOf(steps, k).write && !RunSteps(items, steps, ts).rejected
    ensures exists v :: Version(ts, v) in RunSteps(items, steps, ts).items[k].chain
    ensures Visible(RunSteps(items, steps, ts).items[k].chain, ts) ==
      MvtoKeyRun(steps, k, Visible(items[k].chain, ts)).written.value
    decreases |steps|
  {
    RunFollowsKeyRules(items, steps, ts, k);
    var front := steps[..|steps| - 1];
    var last := steps[|steps| - 1];
    assert KeysIn(front, |items|);
    var p := RunSteps(items, front, ts);
    var it := p.items[k];
    if last.key == k && last.kind == Write {
      var v := if k in p.values then p.values[k] else 0;
      InstallAdds(it.chain, ts, v);
    } else {
      RunInstallsVersion(items, front, ts, k);
      var v :| Version(ts, v) in it.chain;
      if last.key == k {
        assert RunSteps(items, steps, ts).items[k].chain == it.chain;
      }
    }
  }

  /** Running one more step is one more `DoStep` unless a write was rejected; once a
      step is rejected, the whole run ends where it stopped. */
  lemma RunOneMore(items: seq<Item>, steps: seq<Step>, i: int, ts: int)
    requires ItemsOk(items) && KeysIn(steps, |items|) && 0 <= i < |steps|
    ensures KeysIn(steps[..i], |items|) && KeysIn(steps[..i + 1], |items|)
    ensures RunSteps(items, steps[..i + 1], ts) ==
      var p := RunSteps(items, steps[..i], ts);
      if p.rejected then p else DoStep(p, steps[i], ts)
    ensures RunSteps(items, steps[..i + 1], ts).rejected ==>
      RunSteps(items, steps, ts) == RunSteps(items, steps[..i + 1], ts)
  {
    assert steps[..i + 1][..i] == steps[..i];
    if RunSteps(items, steps[..i + 1], ts).rejected {
      assert steps[..i + 1] + steps[i + 1..] == steps;
      RunStopsAtReject(items, steps[..i + 1], steps[i + 1..], ts);
    }
  }

  /** One step of the `worker` loop against the store. */
  method ExecuteStep(db: array<DataItem>, s: Step, ts: int, values: map<int, int>) returns (ok: bool, values': map<int, int>)
    requires StoreOk(db) && 0 <= s.key < db.Length
    modifies db[s.key]
    ensures StoreOk(db)
    ensures ItemsOk(old(Snapshot(db)))
    ensures DoStep(Progress(old(Snapshot(db)), values, false), s, ts) == Progress(Snapshot(db), values', !ok)
  {
    ghost var p := Progress(Snapshot(db), values, false);
    var key := s.key;
    if s.kind == Read {
      var v := db[key].Read(ts);
      values' := values[key := v + 1];
      ok := true;
    } else {
      var v := if key in values then values[key] else 0;
      ok := db[key].Write(ts, v);
      values' := values;
    }
    assert Snapshot(db) == p.items[key := Item(db[key].chain, db[key].marks)];
  }

  /** The step loop of `worker` for one attempt at timestamp `ts`: runs the steps against
      the store and stops at the first rejected write. */
  method ExecuteSteps(db: array<DataItem>, steps: seq<Step>, ts: int) returns (ok: bool, values: map<int, int>)
    requires StoreOk(db) && KeysIn(steps, db.Length)
    modifies Items(db)
    ensures StoreOk(db)
    ensures ItemsOk(old(Snapshot(db)))
    ensures Snapshot(db) == RunSteps(old(Snapshot(db)), steps, ts).items
    ensures values == RunSteps(old(Snapshot(db)), steps, ts).values
    ensures ok == !RunSteps(old(Snapshot(db)), steps, ts).rejected
  {
    ghost var start := Snapshot(db);
    values := map[];
    ok := true;
    var i := 0;
    while i < |steps|
      invariant 0 <= i <= |steps|
      invariant StoreOk(db) && ItemsOk(start)
      invariant RunSteps(start, steps[..i], ts) == Progress(Snapshot(db), values, false)
    {
      RunOneMore(start, steps, i, ts);
      ok, values := ExecuteStep(db, steps[i], ts, values);
      if !ok {
        return;
      }
      i := i + 1;
    }
    assert steps[..i] == steps;
  }

  /** One attempt of `worker`: take a timestamp, run the steps, end the timestamp
      whether the attempt committed or a write was rejected. Run alone, the attempt
      leaves the active list as it found it, so its own end never triggers a collection;
      a rejected attempt is retried by the caller with a fresh timestamp. */
  method RunAttempt(tsg: TimeStampGenerator, db: array<DataItem>, steps: seq<Step>) returns (committed: bool, ts: int)
    requires tsg.Valid() && StoreOk(db) && KeysIn(steps, db.Length)
    modifies tsg, Items(db)
    ensures tsg.Valid() && StoreOk(db)
    ensures ts == old(tsg.globalTs) && tsg.globalTs == ts + 1 && ts !in old(tsg.issued)
    ensures tsg.tsList == old(tsg.tsList) && tsg.gcCount == old(tsg.gcCount)
    ensures ItemsOk(old(Snapshot(db)))
    ensures committed == !RunSteps(old(Snapshot(db)), steps, ts).rejected
    ensures Snapshot(db) == RunSteps(old(Snapshot(db)), steps, ts).items
  {
    ts := tsg.GetTimestamp();
    var values;
    committed, values := ExecuteSteps(db, steps, ts);
    assert !TriggersGc(tsg.tsList, ts);
    ghost var after := Snapshot(db);
    tsg.TransactionEnd(ts, db);
    assert forall k :: 0 <= k < db.Length ==> Snapshot(db)[k] == after[k];
    RemoveAppended(old(tsg.tsList), ts);
  }
}
