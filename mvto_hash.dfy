/** The Ruby MVTO benchmark: a record keeps its versions in a hash from version to
    value, the greatest version written so far, and a hash from a version to the
    newest reader of it; `InvokeTID` hands out transaction ids and triggers the
    collection. */
module MvtoHash {
  import opened Common

  // ---------------------------------------------------------------- read

  /** `v` is what the version search of `read(tid)` settles on: the greatest key in
      `(0, tid]`, or 0 when the keys hold none. */
  ghost predicate IsFloor(keys: set<int>, tid: int, v: int) {
    (v == 0 || (v in keys && 0 < v <= tid)) &&
    forall w :: w in keys && 0 < w <= tid ==> w <= v
  }

  /** The search has exactly one answer, whatever order the keys come in. */
  lemma FloorUnique(keys: set<int>, tid: int, a: int, b: int)
    requires IsFloor(keys, tid, a) && IsFloor(keys, tid, b)
    ensures a == b
  {
    if a != 0 {
      assert b >= a;
    }
    if b != 0 {
      assert a >= b;
    }
  }

  /** Every finite key set has an answer. */
  lemma {:induction false} FloorExists(keys: set<int>, tid: int)
    ensures exists v :: IsFloor(keys, tid, v)
    decreases |keys|
  {
    if keys == {} {
      assert IsFloor(keys, tid, 0);
    } else {
      SomeElement(keys);
      var x :| x in keys;
      FloorExists(keys - {x}, tid);
      var v :| IsFloor(keys - {x}, tid, v);
      var best := if 0 < x <= tid && x > v then x else v;
      forall w | w in keys && 0 < w <= tid ensures w <= best {
        if w != x {
          assert w in keys - {x};
        }
      }
      assert IsFloor(keys, tid, best);
    }
  }

  /** The version a read at `tid` answers from. */
  ghost function Floor(keys: set<int>, tid: int): (v: int)
    ensures IsFloor(keys, tid, v)
  {
    FloorExists(keys, tid);
    var v :| IsFloor(keys, tid, v);
    v
  }

  /** The version search of `read`: starting from 0, keep every key `v` with
      `version < v <= tid`. */
  method FloorKey(keys: set<int>, tid: int) returns (version: int)
    ensures IsFloor(keys, tid, version)
  {
    version := 0;
    var rest := keys;
    while rest != {}
      invariant rest <= keys
      invariant version == 0 || (version in keys && 0 < version <= tid)
      invariant forall w :: w in keys && w !in rest && 0 < w <= tid ==> w <= version
      decreases |rest|
    {
      SomeElement(rest);
      var v :| v in rest;
      if version < v && v <= tid {
        version := v;
      }
      rest := rest - {v};
    }
  }

  /** The newest-reader entry of `version` after a read at `tid`: raised to `tid`, or
      `tid` when there was none. */
  function Raised(maxTid: map<int, int>, version: int, tid: int): (h: int)
    ensures h >= tid
    ensures version in maxTid ==> h >= maxTid[version] && (h == tid || h == maxTid[version])
    ensures version !in maxTid ==> h == tid
  {
    if version !in maxTid || tid > maxTid[version] then tid else maxTid[version]
  }

  // ---------------------------------------------------------------- write

  /** Some reader entry `(v, t)` has `v < version < t`: a reader at `t` already read a
      version older than `version`, so writing `version` would change what it saw. */
  predicate Blocks(maxTid: map<int, int>, version: int) {
    exists v :: v in maxTid && v < version < maxTid[v]
  }

  /** The conflict loop of `write`, over a copy of the reader entries. */
  method FindBlocker(maxTid: map<int, int>, version: int) returns (blocked: bool)
    ensures blocked == Blocks(maxTid, version)
  {
    var rest := maxTid.Keys;
    while rest != {}
      invariant rest <= maxTid.Keys
      invariant forall v :: v in maxTid && v !in rest ==> !(v < version < maxTid[v])
      decreases |rest|
    {
      SomeElement(rest);
      var v :| v in rest;
      if v < version && version < maxTid[v] {
        return true;
      }
      rest := rest - {v};
    }
    return false;
  }

  // ---------------------------------------------------------------- gc

  /** The versions `gc(tid)` deletes: every key in `(0, tid)` below the greatest
      version. */
  function Doomed(values: map<int, int>, maxVersion: int, tid: int): (d: set<int>)
    ensures d <= values.Keys
  {
    set v | v in values && 0 < v < tid && v < maxVersion
  }

  /** The deletion loop of `gc`: for every key of `values`, delete it from both
      hashes when it is doomed. */
  method CollectVersions(values: map<int, int>, maxTid: map<int, int>, maxVersion: int, tid: int)
    returns (values': map<int, int>, maxTid': map<int, int>)
    ensures values' == values - Doomed(values, maxVersion, tid)
    ensures maxTid' == maxTid - Doomed(values, maxVersion, tid)
  {
    var d := Doomed(values, maxVersion, tid);
    values', maxTid' := values, maxTid;
    var rest := values.Keys;
    while rest != {}
      invariant rest <= values.Keys
      invariant values' == values - (d - rest)
      invariant maxTid' == maxTid - (d - rest)
      decreases |rest|
    {
      SomeElement(rest);
      var v :| v in rest;
      DropStep(values, values', d, rest, v);
      DropStep(maxTid, maxTid', d, rest, v);
      if 0 < v && v < tid && v < maxVersion {
        values' := values' - {v};
        maxTid' := maxTid' - {v};
      }
      rest := rest - {v};
    }
  }

  /** One step of the deletion loop: visiting `v` deletes it when it is doomed. */
  lemma DropStep(m: map<int, int>, cur: map<int, int>, d: set<int>, rest: set<int>, v: int)
    requires cur == m - (d - rest) && v in rest
    ensures (if v in d then cur - {v} else cur) == m - (d - (rest - {v}))
  {
    if v in d {
      assert d - (rest - {v}) == (d - rest) + {v};
    } else {
      assert d - (rest - {v}) == d - rest;
    }
  }

  /** A collection deletes only doomed versions, so it spares version 0 and the greatest
      version; running it again deletes nothing more. */
  lemma DoomedSpares(values: map<int, int>, maxVersion: int, tid: int)
    ensures 0 !in Doomed(values, maxVersion, tid) && maxVersion !in Doomed(values, maxVersion, tid)
    ensures Doomed(values - Doomed(values, maxVersion, tid), maxVersion, tid) == {}
  {
    var d := Doomed(values, maxVersion, tid);
    var r := values - d;
    assert forall v :: v in r ==> v !in d;
  }

  /** A collection keeps a read's answer when the version that answered it is not doomed:
      version 0, the greatest version, or a version at or above `tid`. */
  lemma GcKeepsRead(values: map<int, int>, maxVersion: int, tid: int, readTid: int)
    requires Floor(values.Keys, readTid) !in Doomed(values, maxVersion, tid)
    ensures Floor((values - Doomed(values, maxVersion, tid)).Keys, readTid) == Floor(values.Keys, readTid)
  {
    var keys := values.Keys;
    var r := (values - Doomed(values, maxVersion, tid)).Keys;
    var f := Floor(keys, readTid);
    assert r <= keys;
    assert IsFloor(r, readTid, f);
    FloorUnique(r, readTid, f, Floor(r, readTid));
  }

  /** The collection can delete the version a later read needs: with versions
      `{0: 0, 5: 1, 20: 2}` and greatest version 20, `gc(10)` deletes 5, and a read at
      12 that answered from 5 now answers from the baseline 0. */
  lemma GcDropsFloor()
    ensures Floor(map[0 := 0, 5 := 1, 20 := 2].Keys, 12) == 5
    ensures Doomed(map[0 := 0, 5 := 1, 20 := 2], 20, 10) == {5}
    ensures Floor((map[0 := 0, 5 := 1, 20 := 2] - {5}).Keys, 12) == 0
  {
    var m := map[0 := 0, 5 := 1, 20 := 2];
    assert m.Keys == {0, 5, 20};
    assert IsFloor(m.Keys, 12, 5);
    FloorUnique(m.Keys, 12, 5, Floor(m.Keys, 12));
    assert (m - {5}).Keys == {0, 20};
    assert IsFloor((m - {5}).Keys, 12, 0);
    FloorUnique((m - {5}).Keys, 12, 0, Floor((m - {5}).Keys, 12));
    assert Doomed(m, 20, 10) == {5};
  }

  // ---------------------------------------------------------------- the record

  /** The record invariant: version 0 and the greatest version are present and no key
      exceeds the greatest version. */
  predicate HashOk(values: map<int, int>, maxVersion: int) {
    0 in values && maxVersion in values && forall v :: v in values ==> v <= maxVersion
  }

  /** The record `DataItem` of the Ruby benchmark. */
  class DataItem {
    var maxVersion: int
    var values: map<int, int>
    var maxTid: map<int, int>

    ghost predicate Valid()
      reads this
    {
      HashOk(values, maxVersion)
    }

    /** A new record: version 0 holds 0, no readers. */
    constructor ()
      ensures Valid()
      ensures maxVersion == 0 && values == map[0 := 0] && maxTid == map[]
    {
      maxVersion := 0;
      values := map[0 := 0];
      maxTid := map[];
    }

    /** `read(tid)`: the value of the greatest version at most `tid` (version 0 when none
        is positive, so the lookup always succeeds); a read more than one past the
        greatest version records itself as a reader of that version. */
    method Read(tid: int) returns (value: int)
      requires Valid()
      modifies this
      ensures Valid()
      ensures Floor(old(values).Keys, tid) in old(values)
      ensures value == old(values)[Floor(old(values).Keys, tid)]
      ensures values == old(values) && maxVersion == old(maxVersion)
      ensures maxTid == if tid > old(maxVersion) + 1
                        then old(maxTid)[old(maxVersion) := Raised(old(maxTid), old(maxVersion), tid)]
                        else old(maxTid)
    {
      var floor := Floor(values.Keys, tid);
      if tid >= maxVersion {
        var version := maxVersion;
        value := values[version];
        if tid > version + 1 {
          if version !in maxTid || tid > maxTid[version] {
            maxTid := maxTid[version := tid];
          }
        }
        assert IsFloor(values.Keys, tid, version);
        FloorUnique(values.Keys, tid, version, floor);
      } else {
        var version := FloorKey(values.Keys, tid);
        FloorUnique(values.Keys, tid, version, floor);
        value := values[version];
      }
    }

    /** `write(version, value)`: rejected, changing nothing, when a reader entry straddles
        `version`; otherwise the hash maps `version` to `value` and the greatest version
        is raised to `version`. */
    method Write(version: int, value: int) returns (ok: bool)
      requires Valid()
      modifies this
      ensures Valid()
      ensures ok == !Blocks(old(maxTid), version)
      ensures maxTid == old(maxTid)
      ensures values == if ok then old(values)[version := value] else old(values)
      ensures maxVersion == if ok then Max(old(maxVersion), version) else old(maxVersion)
    {
      var blocked := FindBlocker(maxTid, version);
      if blocked {
        return false;
      }
      values := values[version := value];
      if version > maxVersion {
        maxVersion := version;
      }
      return true;
    }

    /** `gc(tid)`: deletes the doomed versions from both hashes. */
    method Gc(tid: int)
      requires Valid()
      modifies this
      ensures Valid()
      ensures values == old(values) - Doomed(old(values), old(maxVersion), tid)
      ensures maxTid == old(maxTid) - Doomed(old(values), old(maxVersion), tid)
      ensures maxVersion == old(maxVersion)
    {
      DoomedSpares(values, maxVersion, tid);
      values, maxTid := CollectVersions(values, maxTid, maxVersion, tid);
    }
  }

  // ---------------------------------------------------------------- InvokeTID

  /** `end_tid` collects garbage when the next id is more than this far ahead of the
      one that ended. */
  const GcDistance := 100

  /** `l` with every occurrence of `x` deleted (`Array#delete`). */
  function Without(l: seq<int>, x: int): (r: seq<int>)
    ensures forall y :: y in r <==> y in l && y != x
    ensures |r| <= |l|
  {
    if l == [] then []
    else (if l[0] == x then [] else [l[0]]) + Without(l[1..], x)
  }

  /** On an ascending list, deleting the front is a `shift`, and deleting any id keeps
      the list ascending. */
  lemma {:induction false} WithoutAscending(l: seq<int>, x: int)
    requires Ascending(l)
    ensures Ascending(Without(l, x))
    ensures l != [] && l[0] == x ==> Without(l, x) == l[1..]
  {
    if l != [] {
      assert Ascending(l[1..]);
      WithoutAscending(l[1..], x);
      HeadBelowTail(l);
      if l[0] != x {
        ConsAscending(l[0], Without(l[1..], x));
      } else {
        NothingToDelete(l[1..], x);
      }
    }
  }

  /** The head of an ascending list is below every later id. */
  lemma HeadBelowTail(l: seq<int>)
    requires l != [] && Ascending(l)
    ensures forall y :: y in l[1..] ==> l[0] < y
  {
    forall y | y in l[1..] ensures l[0] < y {
      var k :| 0 <= k < |l[1..]| && l[1..][k] == y;
      assert l[k + 1] == y;
    }
  }

  /** An id below every id of an ascending list can go in front of it. */
  lemma ConsAscending(h: int, t: seq<int>)
    requires Ascending(t) && forall y :: y in t ==> h < y
    ensures Ascending([h] + t)
  {
    var r := [h] + t;
    forall i, j | 0 <= i < j < |r| ensures r[i] < r[j] {
      assert r[j] == t[j - 1] && r[j] in t;
      if i > 0 {
        assert r[i] == t[i - 1];
      }
    }
  }

  /** Deleting an absent id changes nothing. */
  lemma {:induction false} NothingToDelete(l: seq<int>, x: int)
    requires x !in l
    ensures Without(l, x) == l
  {
    if l != [] {
      NothingToDelete(l[1..], x);
      assert l == [l[0]] + l[1..];
    }
  }

  /** Deleting from a concatenation deletes from each part. */
  lemma {:induction false} WithoutAppend(a: seq<int>, b: seq<int>, x: int)
    ensures Without(a + b, x) == Without(a, x) + Without(b, x)
  {
    if a != [] {
      WithoutAppend(a[1..], b, x);
      assert (a + b)[1..] == a[1..] + b;
    } else {
      assert a + b == b;
    }
  }

  /** Ending the id just appended, above every other running id, restores the list and
      triggers nothing unless it was the only id. */
  lemma EndNewest(l: seq<int>, tid: int)
    requires forall t :: t in l ==> t < tid
    ensures Without(l + [tid], tid) == l
    ensures !TriggersGc(l + [tid], tid)
  {
    assert l != [] ==> l[0] in l;
    NothingToDelete(l, tid);
    WithoutAppend(l, [tid], tid);
    assert Without([tid], tid) == [] + Without([], tid);
  }

  /** Ending `tid` on the id list `l` triggers a collection: `tid` is the front, a next
      id exists and it is more than `GcDistance` ahead. */
  predicate TriggersGc(l: seq<int>, tid: int) {
    |l| > 1 && l[0] == tid && l[1] - l[0] > GcDistance
  }

  /** `InvokeTID`: the id counter and the list of running ids, oldest first. */
  class InvokeTid {
    var counter: int
    var tidSet: seq<int>

    ghost predicate Valid()
      reads this
    {
      counter >= 0 && Ascending(tidSet) && forall t :: t in tidSet ==> 0 < t <= counter
    }

    constructor ()
      ensures Valid() && counter == 0 && tidSet == []
    {
      counter := 0;
      tidSet := [];
    }

    /** `invoke_tid`: the next id, appended to the running list and above every id in
        it. */
    method Invoke() returns (tid: int)
      requires Valid()
      modifies this
      ensures Valid()
      ensures tid == old(counter) + 1 && counter == tid
      ensures forall t :: t in old(tidSet) ==> t < tid
      ensures tidSet == old(tidSet) + [tid]
    {
      counter := counter + 1;
      tid := counter;
      forall i | 0 <= i < |tidSet| ensures tidSet[i] < tid {
        assert tidSet[i] in tidSet;
      }
      tidSet := tidSet + [tid];
    }

    /** The list maintenance of `end_tid`: a `shift` when `tid` is the front, otherwise
        a `delete`; returns the collection level, or 0 when no collection is due. */
    method Retire(tid: int) returns (due: bool, level: int)
      requires Valid()
      modifies this
      ensures Valid()
      ensures tidSet == Without(old(tidSet), tid)
      ensures due == TriggersGc(old(tidSet), tid)
      ensures due ==> level == old(tidSet)[1]
      ensures counter == old(counter)
    {
      WithoutAscending(tidSet, tid);
      if tidSet != [] && tidSet[0] == tid {
        var tid0 := tidSet[0];
        tidSet := tidSet[1..];
        if tidSet != [] {
          level := tidSet[0];
          due := level - tid0 > GcDistance;
        } else {
          due, level := false, 0;
        }
      } else {
        tidSet := Without(tidSet, tid);
        due, level := false, 0;
      }
    }

    /** `end_tid(tid)`: retires `tid` and, when due, runs `gc` at the next id on every
        record. */
    method EndTid(tid: int, db: array<DataItem>)
      requires Valid() && StoreOk(db)
      modifies this, Items(db)
      ensures Valid() && StoreOk(db)
      ensures tidSet == Without(old(tidSet), tid) && counter == old(counter)
      ensures forall k :: 0 <= k < db.Length ==>
        db[k].maxVersion == old(db[k].maxVersion) &&
        db[k].values == (if TriggersGc(old(tidSet), tid)
                         then old(db[k].values) - Doomed(old(db[k].values), old(db[k].maxVersion), old(tidSet)[1])
                         else old(db[k].values)) &&
        db[k].maxTid == (if TriggersGc(old(tidSet), tid)
                         then old(db[k].maxTid) - Doomed(old(db[k].values), old(db[k].maxVersion), old(tidSet)[1])
                         else old(db[k].maxTid))
    {
      var due, level := Retire(tid);
      if due {
        CollectStore(db, level);
      }
    }
  }

  /** The records of `$db`. */
  ghost function Items(db: array<DataItem>): set<DataItem>
    reads db
  {
    set k | 0 <= k < db.Length :: db[k]
  }

  /** `$db`: distinct, well-formed records keyed `0 ..< N_DATA`. */
  ghost predicate StoreOk(db: array<DataItem>)
    reads db, Items(db)
  {
    (forall i, j :: 0 <= i < j < db.Length ==> db[i] != db[j]) &&
    (forall k :: 0 <= k < db.Length ==> db[k].Valid())
  }

  /** The collection loop of `end_tid`: `gc(level)` on every record. */
  method CollectStore(db: array<DataItem>, level: int)
    requires StoreOk(db)
    modifies Items(db)
    ensures StoreOk(db)
    ensures forall k :: 0 <= k < db.Length ==>
      db[k].maxVersion == old(db[k].maxVersion) &&
      db[k].values == old(db[k].values) - Doomed(old(db[k].values), old(db[k].maxVersion), level) &&
      db[k].maxTid == old(db[k].maxTid) - Doomed(old(db[k].values), old(db[k].maxVersion), level)
  {
    var i := 0;
    while i < db.Length
      invariant 0 <= i <= db.Length
      invariant StoreOk(db)
      invariant forall k :: 0 <= k < i ==>
        db[k].maxVersion == old(db[k].maxVersion) &&
        db[k].values == old(db[k].values) - Doomed(old(db[k].values), old(db[k].maxVersion), level) &&
        db[k].maxTid == old(db[k].maxTid) - Doomed(old(db[k].values), old(db[k].maxVersion), level)
      invariant forall k :: i <= k < db.Length ==>
        db[k].maxVersion == old(db[k].maxVersion) && db[k].values == old(db[k].values) &&
        db[k].maxTid == old(db[k].maxTid)
    {
      db[i].Gc(level);
      i := i + 1;
    }
  }

  // ---------------------------------------------------------------- Transaction#run

  /** One record as a value. */
  datatype Record = Record(maxVersion: int, values: map<int, int>, maxTid: map<int, int>)

  predicate RecordsOk(rs: seq<Record>) {
    forall k :: 0 <= k < |rs| ==> HashOk(rs[k].values, rs[k].maxVersion)
  }

  /** The records of `$db` as values. */
  ghost function Snapshot(db: array<DataItem>): seq<Record>
    reads db, Items(db)
  {
    seq(db.Length, k requires 0 <= k < db.Length reads db, Items(db) =>
      Record(db[k].maxVersion, db[k].values, db[k].maxTid))
  }

  /** Where an attempt stands: the records, the `@ds` hash, and whether a write was
      rejected (`raise Abort`). */
  datatype Progress = Progress(records: seq<Record>, ds: map<int, int>, rejected: bool)

  /** One step at id `tid`: `:r` stores `read(tid) + 1`; `:w` writes `@ds[id] || 0` and is
      rejected, changing nothing, when a reader entry straddles `tid`. Every record keeps
      its invariant. */
  ghost function DoStep(p: Progress, s: Step, tid: int): (r: Progress)
    requires RecordsOk(p.records) && 0 <= s.key < |p.records|
    ensures |r.records| == |p.records| && RecordsOk(r.records)
  {
    var e := p.records[s.key];
    match s.kind
    case Read =>
      var maxTid := if tid > e.maxVersion + 1
                    then e.maxTid[e.maxVersion := Raised(e.maxTid, e.maxVersion, tid)]
                    else e.maxTid;
      Progress(p.records[s.key := e.(maxTid := maxTid)],
               p.ds[s.key := e.values[Floor(e.values.Keys, tid)] + 1], false)
    case Write =>
      var v := if s.key in p.ds then p.ds[s.key] else 0;
      if Blocks(e.maxTid, tid) then Progress(p.records, p.ds, true)
      else Progress(p.records[s.key := Record(Max(e.maxVersion, tid), e.values[tid := v], e.maxTid)], p.ds, false)
  }

  /** The step loop of `run`: steps in order until one raises `Abort`. */
  ghost function RunSteps(records: seq<Record>, steps: seq<Step>, tid: int): (r: Progress)
    requires RecordsOk(records) && KeysIn(steps, |records|)
    ensures |r.records| == |records| && RecordsOk(r.records)
    decreases |steps|
  {
    if steps == [] then Progress(records, map[], false)
    else
      var front := steps[..|steps| - 1];
      assert KeysIn(front, |records|);
      var p := RunSteps(records, front, tid);
      if p.rejected then p else DoStep(p, steps[|steps| - 1], tid)
  }

  /** Running one more step is one more `DoStep` unless a write was rejected; once a
      step is rejected, the whole run ends where it stopped. */
  lemma RunOneMore(records: seq<Record>, steps: seq<Step>, i: int, tid: int)
    requires RecordsOk(records) && KeysIn(steps, |records|) && 0 <= i < |steps|
    ensures KeysIn(steps[..i], |records|) && KeysIn(steps[..i + 1], |records|)
    ensures RunSteps(records, steps[..i + 1], tid) ==
      var p := RunSteps(records, steps[..i], tid);
      if p.rejected then p else DoStep(p, steps[i], tid)
    ensures RunSteps(records, steps[..i + 1], tid).rejected ==>
      RunSteps(records, steps, tid) == RunSteps(records, steps[..i + 1], tid)
  {
    assert steps[..i + 1][..i] == steps[..i];
    if RunSteps(records, steps[..i + 1], tid).rejected {
      assert steps[..i + 1] + steps[i + 1..] == steps;
      RunStopsAtReject(records, steps[..i + 1], steps[i + 1..], tid);
    }
  }

  /** Once a write is rejected no later step runs. */
  lemma {:induction false} RunStopsAtReject(records: seq<Record>, steps: seq<Step>, more: seq<Step>, tid: int)
    requires RecordsOk(records) && KeysIn(steps + more, |records|)
    requires KeysIn(steps, |records|) && RunSteps(records, steps, tid).rejected
    ensures RunSteps(records, steps + more, tid) == RunSteps(records, steps, tid)
    decreases |more|
  {
    if more == [] {
      assert steps + more == steps;
    } else {
      var m := more[..|more| - 1];
      assert (steps + more)[..|steps + more| - 1] == steps + m;
      assert KeysIn(steps + m, |records|);
      RunStopsAtReject(records, steps, m, tid);
    }
  }

  /** A committed attempt leaves, on every record it wrote, the version `tid`, and the
      record's greatest version is at least `tid`. */
  lemma {:induction false} RunInstallsVersion(records: seq<Record>, steps: seq<Step>, tid: int, k: int)
    requires RecordsOk(records) && KeysIn(steps, |records|) && 0 <= k < |records|
    requires AccessOf(steps, k).write && !RunSteps(records, steps, tid).rejected
    ensures tid in RunSteps(records, steps, tid).records[k].values
    ensures RunSteps(records, steps, tid).records[k].maxVersion >= tid
    decreases |steps|
  {
    var front := steps[..|steps| - 1];
    var last := steps[|steps| - 1];
    assert KeysIn(front, |records|);
    if !(last.key == k && last.kind == Write) {
      RunInstallsVersion(records, front, tid, k);
    }
  }

  /** What `read(tid)` answers on record `e`. */
  ghost function ReadAt(e: Record, tid: int): int
    requires HashOk(e.values, e.maxVersion)
  {
    e.values[Floor(e.values.Keys, tid)]
  }

  /** A read at an id that is itself a version answers from that version. */
  lemma FloorAtKey(keys: set<int>, tid: int)
    requires tid in keys && tid >= 0
    ensures Floor(keys, tid) == tid
  {
    if tid > 0 {
      assert IsFloor(keys, tid, tid);
      FloorUnique(keys, tid, tid, Floor(keys, tid));
    }
  }

  /** Record `k` of progress `p` agrees with the per-key account `r` of the steps so far,
      `seen` being what a read at `tid` answered before the attempt. */
  ghost predicate AgreesOn(p: Progress, k: int, tid: int, r: KeyRun, seen: int)
    requires 0 <= k < |p.records| && RecordsOk(p.records)
  {
    (k in p.ds <==> r.held.Some?) &&
    (r.held.Some? ==> p.ds[k] == r.held.value) &&
    ReadAt(p.records[k], tid) == (if r.written.Some? then r.written.value else seen)
  }

  /** One step that does not raise `Abort` keeps record `k` in agreement with `KeyStep`. */
  lemma StepFollowsKeyRules(p: Progress, s: Step, tid: int, k: int, r: KeyRun, seen: int)
    requires RecordsOk(p.records) && 0 <= s.key < |p.records| && 0 <= k < |p.records| && tid >= 0
    requires AgreesOn(p, k, tid, r, seen) && !DoStep(p, s, tid).rejected
    ensures AgreesOn(DoStep(p, s, tid), k, tid, KeyStep(r, s, k, seen), seen)
  {
    var q := DoStep(p, s, tid);
    var e := p.records[s.key];
    if s.key != k {
      assert q.records[k] == p.records[k];
      assert k in q.ds ==> q.ds[k] == p.ds[k];
    } else if s.kind == Read {
      assert q.records[k].values == e.values;
      assert q.ds == p.ds[k := ReadAt(e, tid) + 1];
    } else {
      var v := if k in p.ds then p.ds[k] else 0;
      assert q.records[k].values == e.values[tid := v] && q.ds == p.ds;
      FloorAtKey(e.values[tid := v].Keys, tid);
    }
  }

  /** Along a run that raises no `Abort`, the `@ds` entry and what `read(tid)` answers for
      record `k` follow the per-key rules `MvtoKeyRun`. */
  lemma {:induction false} RunFollowsKeyRules(records: seq<Record>, steps: seq<Step>, tid: int, k: int)
    requires RecordsOk(records) && KeysIn(steps, |records|) && 0 <= k < |records| && tid >= 0
    requires !RunSteps(records, steps, tid).rejected
    ensures AgreesOn(RunSteps(records, steps, tid), k, tid,
                     MvtoKeyRun(steps, k, ReadAt(records[k], tid)), ReadAt(records[k], tid))
    decreases |steps|
  {
    if steps != [] {
      var front := steps[..|steps| - 1];
      assert KeysIn(front, |records|);
      var p := RunSteps(records, front, tid);
      assert !p.rejected;
      RunFollowsKeyRules(records, front, tid, k);
      StepFollowsKeyRules(p, steps[|steps| - 1], tid, k, MvtoKeyRun(front, k, ReadAt(records[k], tid)), ReadAt(records[k], tid));
    }
  }

  /** A committed attempt stores in version `tid` of every record it wrote the value its
      last `:w` of that record wrote by the per-key rules, and `read(tid)` answers it. */
  lemma RunInstallsValue(records: seq<Record>, steps: seq<Step>, tid: int, k: int)
    requires RecordsOk(records) && KeysIn(steps, |records|) && 0 <= k < |records| && tid >= 0
    requires AccessOf(steps, k).write && !RunSteps(records, steps, tid).rejected
    ensures tid in RunSteps(records, steps, tid).records[k].values
    ensures RunSteps(records, steps, tid).records[k].values[tid] ==
      MvtoKeyRun(steps, k, ReadAt(records[k], tid)).written.value
    ensures ReadAt(RunSteps(records, steps, tid).records[k], tid) ==
      MvtoKeyRun(steps, k, ReadAt(records[k], tid)).written.value
  {
    RunInstallsVersion(records, steps, tid, k);
    RunFollowsKeyRules(records, steps, tid, k);
    FloorAtKey(RunSteps(records, steps, tid).records[k].values.Keys, tid);
  }

  /** One step of the `run` loop against `$db`. */
  method ExecuteStep(db: array<DataItem>, s: Step, tid: int, ds: map<int, int>) returns (ok: bool, ds': map<int, int>)
    requires StoreOk(db) && 0 <= s.key < db.Length
    modifies db[s.key]
    ensures StoreOk(db)
    ensures RecordsOk(old(Snapshot(db)))
    ensures DoStep(Progress(old(Snapshot(db)), ds, false), s, tid) == Progress(Snapshot(db), ds', !ok)
  {
    ghost var p := Progress(Snapshot(db), ds, false);
    var key := s.key;
    if s.kind == Read {
      var value := db[key].Read(tid);
      ds' := ds[key := value + 1];
      ok := true;
    } else {
      var v := if key in ds then ds[key] else 0;
      ok := db[key].Write(tid, v);
      ds' := ds;
    }
    assert Snapshot(db) == p.records[key := Record(db[key].maxVersion, db[key].values, db[key].maxTid)];
  }

  /** The step loop of `Transaction#run` for one attempt at id `tid`: stops at the first
      rejected write. */
  method ExecuteSteps(db: array<DataItem>, steps: seq<Step>, tid: int) returns (ok: bool, ds: map<int, int>)
    requires StoreOk(db) && KeysIn(steps, db.Length)
    modifies Items(db)
    ensures StoreOk(db)
    ensures RecordsOk(old(Snapshot(db)))
    ensures Snapshot(db) == RunSteps(old(Snapshot(db)), steps, tid).records
    ensures ds == RunSteps(old(Snapshot(db)), steps, tid).ds
    ensures ok == !RunSteps(old(Snapshot(db)), steps, tid).rejected
  {
    ghost var start := Snapshot(db);
    ds := map[];
    ok := true;
    var i := 0;
    while i < |steps|
      invariant 0 <= i <= |steps|
      invariant StoreOk(db) && RecordsOk(start)
      invariant RunSteps(start, steps[..i], tid) == Progress(Snapshot(db), ds, false)
    {
      RunOneMore(start, steps, i, tid);
      ok, ds := ExecuteStep(db, steps[i], tid, ds);
      if !ok {
        return;
      }
      i := i + 1;
    }
    assert steps[..i] == steps;
  }

  /** One attempt of `Transaction#run`: a fresh id, the steps, then `end_tid` whether
      the attempt committed or raised `Abort`. Run alone, the attempt leaves the running
      list as it found it; the `retry` is the caller's. */
  method RunAttempt(invoker: InvokeTid, db: array<DataItem>, steps: seq<Step>) returns (committed: bool, tid: int)
    requires invoker.Valid() && StoreOk(db) && KeysIn(steps, db.Length)
    modifies invoker, Items(db)
    ensures invoker.Valid() && StoreOk(db)
    ensures tid == old(invoker.counter) + 1 && invoker.counter == tid
    ensures invoker.tidSet == old(invoker.tidSet)
    ensures RecordsOk(old(Snapshot(db)))
    ensures committed == !RunSteps(old(Snapshot(db)), steps, tid).rejected
    ensures Snapshot(db) == RunSteps(old(Snapshot(db)), steps, tid).records
  {
    tid := invoker.Invoke();
    var ds;
    committed, ds := ExecuteSteps(db, steps, tid);
    EndNewest(old(invoker.tidSet), tid);
    invoker.EndTid(tid, db);
  }
}
