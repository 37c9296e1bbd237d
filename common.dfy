/** Workload steps, the per-key READ/WRITE bitmask and the small sequence
    helpers that every protocol of the benchmark shares. */
module Common {

  /** Kind of one workload step: the source's TYPE enum as generated (READ = 1, WRITE = 2). */
  datatype Kind = Read | Write

  /** One step `(key, type)` of a transaction's pre-generated step list. */
  datatype Step = Step(key: int, kind: Kind)

  /** The per-key bitmask a transaction accumulates with `type[key] |= step.type`:
      `read` is the READ bit, `write` the WRITE bit; both false is NONE. */
  datatype Access = Access(read: bool, write: bool) {
    /** `type != NONE` */
    predicate Touched() { read || write }
    /** `type == READ`: read and never written */
    predicate ReadOnly() { read && !write }
    /** bitwise OR of two masks */
    function Or(other: Access): Access { Access(read || other.read, write || other.write) }
  }

  const NoAccess := Access(false, false)

  /** The bit a step kind contributes to the mask. */
  function KindBit(kind: Kind): (a: Access)
    ensures a.read <==> kind == Read
    ensures a.write <==> kind == Write
  {
    match kind
    case Read => Access(true, false)
    case Write => Access(false, true)
  }

  /** Every step names a key of the store `[0, n)`. */
  predicate KeysIn(steps: seq<Step>, n: nat) {
    forall i :: 0 <= i < |steps| ==> 0 <= steps[i].key < n
  }

  /** The mask a key has after OR-ing in the kinds of all steps on it. */
  function AccessOf(steps: seq<Step>, key: int): (a: Access)
    ensures a.read <==> exists i :: 0 <= i < |steps| && steps[i] == Step(key, Read)
    ensures a.write <==> exists i :: 0 <= i < |steps| && steps[i] == Step(key, Write)
  {
    if steps == [] then NoAccess
    else
      var last := steps[|steps| - 1];
      var front := steps[..|steps| - 1];
      assert forall i :: 0 <= i < |front| ==> front[i] == steps[i];
      AccessOf(front, key).Or(if last.key == key then KindBit(last.kind) else NoAccess)
  }

  /** Number of READ steps on a key: how often the modify loop adds 1 to it. */
  function ReadCount(steps: seq<Step>, key: int): (r: nat)
    ensures r <= |steps|
    ensures r == 0 <==> !AccessOf(steps, key).read
  {
    if steps == [] then 0
    else
      var front := steps[..|steps| - 1];
      assert forall i :: 0 <= i < |front| ==> front[i] == steps[i];
      ReadCount(front, key) + (if steps[|steps| - 1] == Step(key, Read) then 1 else 0)
  }

  /** The "get Read/Write set" loop: a NONE-filled mask per key, then
      `type[xact[i].key] |= xact[i].type` for every step. */
  method AccessSet(steps: seq<Step>, n: nat) returns (types: seq<Access>)
    requires KeysIn(steps, n)
    ensures |types| == n
    ensures forall k :: 0 <= k < n ==> types[k] == AccessOf(steps, k)
  {
    types := seq(n, _ => NoAccess);
    var i := 0;
    while i < |steps|
      invariant 0 <= i <= |steps|
      invariant |types| == n
      invariant forall k :: 0 <= k < n ==> types[k] == AccessOf(steps[..i], k)
    {
      var s := steps[i];
      assert steps[..i + 1][..i] == steps[..i];
      types := types[s.key := types[s.key].Or(KindBit(s.kind))];
      i := i + 1;
    }
    assert steps[..i] == steps;
  }

  /** The "modify" loop: `val[xact[i].key] += 1` for every READ step. */
  method ApplyReads(steps: seq<Step>, vals: seq<int>) returns (r: seq<int>)
    requires KeysIn(steps, |vals|)
    ensures |r| == |vals|
    ensures forall k :: 0 <= k < |vals| ==> r[k] == vals[k] + ReadCount(steps, k)
  {
    r := vals;
    var i := 0;
    while i < |steps|
      invariant 0 <= i <= |steps|
      invariant |r| == |vals|
      invariant forall k :: 0 <= k < |vals| ==> r[k] == vals[k] + ReadCount(steps[..i], k)
    {
      assert steps[..i + 1][..i] == steps[..i];
      if steps[i].kind == Read {
        r := r[steps[i].key := r[steps[i].key] + 1];
      }
      i := i + 1;
    }
    assert steps[..i] == steps;
  }

  /** Index of the first occurrence of `x` in `s`, or `|s|` when there is none. */
  function IndexOf<T(==)>(s: seq<T>, x: T): (i: nat)
    ensures i <= |s|
    ensures forall j :: 0 <= j < i ==> s[j] != x
    ensures i < |s| ==> s[i] == x
  {
    if s == [] then 0
    else if s[0] == x then 0
    else 1 + IndexOf(s[1..], x)
  }

  /** `s` with its first occurrence of `x` taken out; `s` itself when `x` is absent. */
  function RemoveFirst<T(==)>(s: seq<T>, x: T): seq<T>
  {
    var i := IndexOf(s, x);
    if i == |s| then s else s[..i] + s[i + 1..]
  }

  /** Removing the first occurrence takes out exactly one copy of `x` when there
      is one, keeps every other element, and changes nothing otherwise. */
  lemma RemoveFirstCounts<T>(s: seq<T>, x: T)
    ensures x !in s ==> RemoveFirst(s, x) == s
    ensures x in s ==> |RemoveFirst(s, x)| == |s| - 1
    ensures multiset(RemoveFirst(s, x)) == multiset(s) - multiset{x}
  {
    var i := IndexOf(s, x);
    if i < |s| {
      assert s == s[..i] + [x] + s[i + 1..];
      calc {
        multiset(s);
        multiset(s[..i]) + multiset{x} + multiset(s[i + 1..]);
        multiset(RemoveFirst(s, x)) + multiset{x};
      }
    } else {
      assert x !in s;
    }
  }

  /** Removing an element just appended, that was not there before, restores the list. */
  lemma RemoveAppended<T>(s: seq<T>, x: T)
    requires x !in s
    ensures RemoveFirst(s + [x], x) == s
  {
    var t := s + [x];
    var i := IndexOf(t, x);
    assert t[|s|] == x;
    assert forall j :: 0 <= j < |s| ==> t[j] == s[j];
  }

  /** Strictly ascending integers: the order in which timestamps are handed out. */
  predicate Ascending(s: seq<int>) {
    forall i, j :: 0 <= i < j < |s| ==> s[i] < s[j]
  }

  /** On a strictly ascending list, removing the first occurrence removes the value
      entirely, keeps the rest, and keeps the list ascending. */
  lemma RemoveFirstAscending(s: seq<int>, x: int)
    requires Ascending(s)
    ensures Ascending(RemoveFirst(s, x))
    ensures forall y :: y in RemoveFirst(s, x) <==> y in s && y != x
  {
    var i := IndexOf(s, x);
    if i < |s| {
      var r := s[..i] + s[i + 1..];
      assert forall a :: 0 <= a < |r| ==> r[a] == (if a < i then s[a] else s[a + 1]);
      forall y
        ensures y in r <==> y in s && y != x
      {
        if y in s && y != x {
          var a :| 0 <= a < |s| && s[a] == y;
          assert a != i;
          assert r[if a < i then a else a - 1] == y;
        }
      }
    }
  }

  function Max(a: int, b: int): int { if a < b then b else a }

  /** A non-empty set has an element to pick. */
  lemma SomeElement(s: set<int>)
    requires s != {}
    ensures exists x :: x in s
  {
    assert (forall x :: x !in s) ==> s == {};
  }

  /** An optional value. */
  datatype Option<T> = None | Some(value: T)

  /** What an MVTO transaction has done to one key: the value it holds for the key, and
      the value its last WRITE of the key stored. */
  datatype KeyRun = KeyRun(held: Option<int>, written: Option<int>)

  /** The MVTO step rules for key `k` alone, given the value `seen` that a read of `k`
      returns before the transaction writes it. A READ holds what the read returns plus
      one: the transaction's own last write if there is one, `seen` otherwise. A WRITE
      stores the held value, or 0 when the key was not read. Steps on other keys do not
      enter. */
  function MvtoKeyRun(steps: seq<Step>, k: int, seen: int): (r: KeyRun)
    ensures r.held.Some? <==> AccessOf(steps, k).read
    ensures r.written.Some? <==> AccessOf(steps, k).write
    decreases |steps|
  {
    if steps == [] then KeyRun(None, None)
    else KeyStep(MvtoKeyRun(steps[..|steps| - 1], k, seen), steps[|steps| - 1], k, seen)
  }

  /** One step of `MvtoKeyRun`. */
  function KeyStep(r: KeyRun, s: Step, k: int, seen: int): KeyRun {
    if s.key != k then r
    else if s.kind == Read then r.(held := Some((if r.written.Some? then r.written.value else seen) + 1))
    else r.(written := Some(if r.held.Some? then r.held.value else 0))
  }
}
