/** One MVTO record of the C++ benchmark: a version chain kept newest first and a
    list of read marks `(rd_ts, tx_ts)` kept by descending `rd_ts`. */
module MvtoList {
  import opened Common

  /** A chain entry: the timestamp of the writer and the value it wrote. */
  datatype Version = Version(version: int, value: int)

  /** A read mark: a reader with timestamp `txTs` read the head version `rdTs`. */
  datatype Mark = Mark(rdTs: int, txTs: int)

  /** The chain is strictly descending by version (newest first). */
  predicate Descending(c: seq<Version>) {
    forall i, j :: 0 <= i < j < |c| ==> c[i].version > c[j].version
  }

  /** A well-formed chain: non-empty, newest first, the version-0 baseline last. */
  predicate ChainOk(c: seq<Version>) {
    |c| > 0 && Descending(c) && c[|c| - 1].version == 0
  }

  /** The marks are strictly descending by `rdTs`: at most one mark per version. */
  predicate MarksDescending(m: seq<Mark>) {
    forall i, j :: 0 <= i < j < |m| ==> m[i].rdTs > m[j].rdTs
  }

  // ---------------------------------------------------------------- read

  /** Index of the first entry, scanning newest first, whose version is at most `ts`
      (`|c|` when no entry qualifies). */
  function ScanIndex(c: seq<Version>, ts: int): (j: nat)
    ensures j <= |c|
    ensures forall i :: 0 <= i < j ==> c[i].version > ts
    ensures j < |c| ==> c[j].version <= ts
  {
    if c == [] then 0
    else if c[0].version <= ts then 0
    else 1 + ScanIndex(c[1..], ts)
  }

  /** The index of the entry whose value `read(ts)` returns. */
  function AnswerIndex(c: seq<Version>, ts: int): nat
    requires |c| > 0
  {
    if ts >= c[0].version then 0
    else
      var j := ScanIndex(c, ts);
      if j < |c| then j else 0
  }

  /** The value `read(ts)` returns: the head when `ts` is at or past the head version,
      otherwise the first entry at or below `ts` (the head if none is). */
  function Visible(c: seq<Version>, ts: int): int
    requires |c| > 0
  {
    c[AnswerIndex(c, ts)].value
  }

  /** `j` holds the greatest version that is at most `ts`. */
  ghost predicate Latest(c: seq<Version>, ts: int, j: int) {
    0 <= j < |c| && c[j].version <= ts &&
    forall i :: 0 <= i < |c| && c[i].version <= ts ==> c[i].version <= c[j].version
  }

  /** On a well-formed chain a read at any `ts >= 0` returns the value of the greatest
      version that is at most `ts`. */
  lemma VisibleIsLatest(c: seq<Version>, ts: int)
    requires ChainOk(c) && ts >= 0
    ensures Latest(c, ts, AnswerIndex(c, ts))
  {
    if ts < c[0].version {
      assert c[|c| - 1].version <= ts;
      assert ScanIndex(c, ts) < |c|;
    }
  }

  /** The read marks after a read at `ts` of head version `ver`: the mark for `ver` is
      raised to `ts` if lower, or a new mark `(ver, ts)` is inserted in place. */
  function Marked(m: seq<Mark>, ver: int, ts: int): seq<Mark>
  {
    if m == [] || m[0].rdTs < ver then [Mark(ver, ts)] + m
    else if m[0].rdTs == ver then [Mark(ver, Max(m[0].txTs, ts))] + m[1..]
    else [m[0]] + Marked(m[1..], ver, ts)
  }

  /** After recording a read, the marks hold a mark for `ver` whose `txTs` is the old one
      raised to `ts` (or `ts` if there was none), and every mark of another version is
      kept; nothing else is added. */
  lemma {:induction false} MarkedContents(m: seq<Mark>, ver: int, ts: int)
    requires MarksDescending(m)
    ensures forall i :: 0 <= i < |m| && m[i].rdTs == ver ==> Mark(ver, Max(m[i].txTs, ts)) in Marked(m, ver, ts)
    ensures (forall i :: 0 <= i < |m| ==> m[i].rdTs != ver) ==> Mark(ver, ts) in Marked(m, ver, ts)
    ensures forall x :: x in Marked(m, ver, ts) && x.rdTs != ver <==> x in m && x.rdTs != ver
    ensures forall x :: x in Marked(m, ver, ts) ==> x.rdTs == ver || x in m
  {
    var r := Marked(m, ver, ts);
    if m == [] || m[0].rdTs < ver {
      forall i | 0 <= i < |m| ensures m[i].rdTs < ver {
        if i > 0 { assert m[0].rdTs > m[i].rdTs; }
      }
      assert forall a :: 1 <= a < |r| ==> r[a] == m[a - 1];
    } else if m[0].rdTs == ver {
      forall i | 1 <= i < |m| ensures m[i].rdTs != ver {
        assert m[0].rdTs > m[i].rdTs;
      }
      assert forall a :: 1 <= a < |r| ==> r[a] == m[a];
    } else {
      MarkedContents(m[1..], ver, ts);
      assert r == [m[0]] + Marked(m[1..], ver, ts);
      forall i | 0 <= i < |m| && m[i].rdTs == ver
        ensures Mark(ver, Max(m[i].txTs, ts)) in r
      {
        assert i > 0 && m[1..][i - 1] == m[i];
      }
    }
  }

  /** After recording a read, the marks stay strictly descending by `rdTs`. */
  lemma {:induction false} MarkedDescending(m: seq<Mark>, ver: int, ts: int)
    requires MarksDescending(m)
    ensures MarksDescending(Marked(m, ver, ts))
  {
    if m != [] {
      MarksTailBelow(m);
      assert m == [m[0]] + m[1..];
    }
    if m == [] || m[0].rdTs < ver {
      ConsMarks(Mark(ver, ts), m);
    } else if m[0].rdTs == ver {
      ConsMarks(Mark(ver, Max(m[0].txTs, ts)), m[1..]);
    } else {
      MarkedDescending(m[1..], ver, ts);
      MarkedContents(m[1..], ver, ts);
      ConsMarks(m[0], Marked(m[1..], ver, ts));
    }
  }

  /** Every mark after the head of a descending list is older than the head. */
  lemma MarksTailBelow(m: seq<Mark>)
    requires m != [] && MarksDescending(m)
    ensures MarksDescending(m[1..])
    ensures forall x :: x in m[1..] ==> x.rdTs < m[0].rdTs
  {
    forall x | x in m[1..] ensures x.rdTs < m[0].rdTs {
      var k :| 0 <= k < |m[1..]| && m[1..][k] == x;
      assert m[k + 1] == x;
    }
  }

  /** A mark newer than every mark of a descending list can go in front of it. */
  lemma ConsMarks(h: Mark, t: seq<Mark>)
    requires MarksDescending(t) && forall x :: x in t ==> x.rdTs < h.rdTs
    ensures MarksDescending([h] + t)
  {
    var r := [h] + t;
    forall i, j | 0 <= i < j < |r| ensures r[i].rdTs > r[j].rdTs {
      assert r[j] == t[j - 1] && r[j] in t;
      if i > 0 {
        assert r[i] == t[i - 1];
      }
    }
  }

  // ---------------------------------------------------------------- write

  /** Some mark `(rd_ts, tx_ts)` straddles `ts`: a reader at `tx_ts` already read a version
      older than `ts`, so writing at `ts` would change what it should have seen. */
  predicate Blocks(m: seq<Mark>, ts: int) {
    exists i :: 0 <= i < |m| && m[i].rdTs < ts < m[i].txTs
  }

  /** The chain after `write(ts, v)` succeeds: the entry for `ts` is overwritten, or a new
      entry is inserted before the first older one. */
  function Install(c: seq<Version>, ts: int, v: int): seq<Version>
  {
    if c == [] then []
    else if c[0].version == ts then [Version(ts, v)] + c[1..]
    else if c[0].version < ts then [Version(ts, v)] + c
    else [c[0]] + Install(c[1..], ts, v)
  }

  /** A write keeps every entry of another version and adds none but `ts`. */
  lemma {:induction false} InstallKeeps(c: seq<Version>, ts: int, v: int)
    ensures forall e :: e in Install(c, ts, v) && e.version != ts <==> e in c && e.version != ts
    ensures forall e :: e in Install(c, ts, v) ==> e in c || e == Version(ts, v)
  {
    if c != [] && c[0].version > ts {
      InstallKeeps(c[1..], ts, v);
      assert Install(c, ts, v) == [c[0]] + Install(c[1..], ts, v);
      assert c == [c[0]] + c[1..];
    } else if c != [] && c[0].version == ts {
      assert c == [c[0]] + c[1..];
    }
  }

  /** Every entry after the head of a descending chain is older than the head. */
  lemma TailBelow(c: seq<Version>)
    requires |c| > 0 && Descending(c)
    ensures forall e :: e in c[1..] ==> e.version < c[0].version
  {
    forall e | e in c[1..] ensures e.version < c[0].version {
      var k :| 0 <= k < |c[1..]| && c[1..][k] == e;
      assert c[k + 1] == e;
    }
  }

  /** A write at a negative timestamp finds no entry at or below it and changes nothing. */
  lemma {:induction false} InstallNegative(c: seq<Version>, ts: int, v: int)
    requires ChainOk(c) && ts < 0
    ensures Install(c, ts, v) == c
  {
    if |c| > 1 {
      assert ChainOk(c[1..]);
      InstallNegative(c[1..], ts, v);
      assert c == [c[0]] + c[1..];
    } else {
      assert Install(c, ts, v) == [c[0]] + Install([], ts, v);
    }
  }

  /** A write at `ts >= 0` keeps the chain well-formed. */
  lemma {:induction false} InstallChainOk(c: seq<Version>, ts: int, v: int)
    requires ChainOk(c) && ts >= 0
    ensures ChainOk(Install(c, ts, v))
  {
    var r := Install(c, ts, v);
    if c[0].version == ts {
      assert r == [Version(ts, v)] + c[1..];
      assert Descending(r) by {
        assert forall a :: 1 <= a < |r| ==> r[a] == c[a];
      }
    } else if c[0].version < ts {
      assert r == [Version(ts, v)] + c;
      assert Descending(r) by {
        assert forall a :: 1 <= a < |r| ==> r[a] == c[a - 1];
      }
    } else {
      var tail := c[1..];
      assert ChainOk(tail);
      InstallChainOk(tail, ts, v);
      var rt := Install(tail, ts, v);
      assert r == [c[0]] + rt;
      InstallKeeps(tail, ts, v);
      TailBelow(c);
      ConsDescending(c[0], rt);
      assert r[|r| - 1] == rt[|rt| - 1];
    }
  }

  /** A version newer than every entry of a descending chain can go in front of it. */
  lemma ConsDescending(h: Version, c: seq<Version>)
    requires Descending(c) && forall e :: e in c ==> e.version < h.version
    ensures Descending([h] + c)
  {
    var r := [h] + c;
    forall a | 1 <= a < |r| ensures r[a] == c[a - 1] && r[a] in c {}
  }

  /** A write at `ts >= 0` leaves the entry `(ts, v)` in the chain. */
  lemma {:induction false} InstallAdds(c: seq<Version>, ts: int, v: int)
    requires ChainOk(c) && ts >= 0
    ensures Version(ts, v) in Install(c, ts, v)
  {
    if c[0].version > ts {
      assert ChainOk(c[1..]);
      InstallAdds(c[1..], ts, v);
      assert Install(c, ts, v) == [c[0]] + Install(c[1..], ts, v);
    } else {
      assert Install(c, ts, v)[0] == Version(ts, v);
    }
  }

  /** A successful write at `ts >= 0` leaves a well-formed chain with exactly one entry
      of version `ts`, holding `v`, and every other entry unchanged; a write at a
      negative timestamp finds no place and changes nothing. */
  lemma InstallSpec(c: seq<Version>, ts: int, v: int)
    requires ChainOk(c)
    ensures ts >= 0 ==> ChainOk(Install(c, ts, v)) && Version(ts, v) in Install(c, ts, v)
    ensures forall e :: e in Install(c, ts, v) && e.version != ts <==> e in c && e.version != ts
    ensures ts < 0 ==> Install(c, ts, v) == c
  {
    InstallKeeps(c, ts, v);
    if ts >= 0 {
      InstallChainOk(c, ts, v);
      InstallAdds(c, ts, v);
    } else {
      InstallNegative(c, ts, v);
    }
  }

  /** A reader sees its own write: after a write at `ts >= 0`, a read at `ts` returns
      the written value. */
  lemma ReadOwnWrite(c: seq<Version>, ts: int, v: int)
    requires ChainOk(c) && ts >= 0
    ensures ChainOk(Install(c, ts, v))
    ensures Visible(Install(c, ts, v), ts) == v
  {
    var r := Install(c, ts, v);
    InstallSpec(c, ts, v);
    VisibleIsLatest(r, ts);
    var j := AnswerIndex(r, ts);
    var k :| 0 <= k < |r| && r[k] == Version(ts, v);
    assert r[k].version <= r[j].version;
    assert j == k;
  }

  // ---------------------------------------------------------------- gc

  /** The chain after `gc(L)`: walking from the head up to the version-0 entry, every
      entry with version below `L` is erased. */
  function GcChain(c: seq<Version>, L: int): seq<Version>
  {
    if c == [] then []
    else if c[0].version == 0 then c
    else (if c[0].version < L then [] else [c[0]]) + GcChain(c[1..], L)
  }

  /** The marks after `gc(L)`: marks are popped from the back while their `rdTs < L`. */
  function GcMarks(m: seq<Mark>, L: int): seq<Mark>
  {
    if m == [] || m[|m| - 1].rdTs >= L then m
    else GcMarks(m[..|m| - 1], L)
  }

  /** `gc(L)` on a well-formed chain removes exactly the entries with `0 < version < L`,
      keeps the baseline, and leaves a well-formed chain (so the survivors keep their
      order). */
  lemma {:induction false} GcChainSpec(c: seq<Version>, L: int)
    requires ChainOk(c)
    ensures ChainOk(GcChain(c, L))
    ensures forall e :: e in GcChain(c, L) <==> e in c && !(0 < e.version < L)
  {
    if c[0].version != 0 {
      assert |c| > 1;
      var tail := c[1..];
      assert ChainOk(tail);
      GcChainSpec(tail, L);
      var r := GcChain(c, L);
      assert r == (if c[0].version < L then [] else [c[0]]) + GcChain(tail, L);
      forall a, b | 0 <= a < b < |r| ensures r[a].version > r[b].version {
        if c[0].version >= L && a == 0 {
          assert r[b] in GcChain(tail, L);
          assert r[b] in tail;
        }
      }
      forall e ensures e in r <==> e in c && !(0 < e.version < L) {
        if e in c && e != c[0] {
          assert e in tail;
        }
      }
    } else {
      assert |c| == 1;
    }
  }

  /** Running `gc(L)` twice leaves the same chain as running it once. */
  lemma {:induction false} GcChainIdempotent(c: seq<Version>, L: int)
    ensures GcChain(GcChain(c, L), L) == GcChain(c, L)
  {
    if c != [] && c[0].version != 0 {
      GcChainIdempotent(c[1..], L);
      var g := GcChain(c[1..], L);
      if c[0].version >= L {
        var r := [c[0]] + g;
        assert GcChain(c, L) == r;
        assert r[0] == c[0] && r[1..] == g;
        assert GcChain(r, L) == [c[0]] + GcChain(g, L);
      } else {
        assert GcChain(c, L) == [] + g == g;
      }
    }
  }

  /** On descending marks `gc(L)` removes exactly the marks with `rdTs < L` and keeps
      the rest descending. */
  lemma {:induction false} GcMarksSpec(m: seq<Mark>, L: int)
    requires MarksDescending(m)
    ensures MarksDescending(GcMarks(m, L))
    ensures forall x :: x in GcMarks(m, L) <==> x in m && x.rdTs >= L
  {
    if m != [] && m[|m| - 1].rdTs < L {
      var front := m[..|m| - 1];
      GcMarksSpec(front, L);
      assert forall x :: x in m <==> x in front || x == m[|m| - 1];
    } else if m != [] {
      forall i | 0 <= i < |m| ensures m[i].rdTs >= L {
        assert i == |m| - 1 || m[i].rdTs > m[|m| - 1].rdTs;
      }
    }
  }

  /** Running `gc(L)` twice on the marks leaves the same marks as running it once. */
  lemma {:induction false} GcMarksIdempotent(m: seq<Mark>, L: int)
    ensures GcMarks(GcMarks(m, L), L) == GcMarks(m, L)
  {
    if m != [] && m[|m| - 1].rdTs < L {
      GcMarksIdempotent(m[..|m| - 1], L);
    }
  }

  /** `gc(L)` keeps a read's answer when the version that answered it is at least `L` or
      is the baseline; it does not keep it in general (see GcDropsFloor). */
  lemma GcKeepsRead(c: seq<Version>, L: int, ts: int)
    requires ChainOk(c) && ts >= 0
    requires c[AnswerIndex(c, ts)].version >= L || c[AnswerIndex(c, ts)].version == 0
    ensures ChainOk(GcChain(c, L))
    ensures Visible(GcChain(c, L), ts) == Visible(c, ts)
  {
    var r := GcChain(c, L);
    GcChainSpec(c, L);
    VisibleIsLatest(c, ts);
    VisibleIsLatest(r, ts);
    var e := c[AnswerIndex(c, ts)];
    assert e in r;
    var f := r[AnswerIndex(r, ts)];
    assert f in c;
    var k :| 0 <= k < |r| && r[k] == e;
    assert e.version <= f.version;
    var p :| 0 <= p < |c| && c[p] == f;
    assert f.version <= e.version;
    assert f == e;
  }

  /** The code erases the floor version: with chain `[(5, 1), (0, 0)]`, `gc(10)` leaves
      `[(0, 0)]`, so a read at 12 that returned 1 now returns the stale baseline 0. */
  lemma GcDropsFloor()
    ensures Visible([Version(5, 1), Version(0, 0)], 12) == 1
    ensures GcChain([Version(5, 1), Version(0, 0)], 10) == [Version(0, 0)]
    ensures Visible(GcChain([Version(5, 1), Version(0, 0)], 10), 12) == 0
  {
  }

  // ---------------------------------------------------------------- the loops

  /** The mark-recording loop of `read`: skip the marks of newer versions, then raise
      the mark of `ver` to `ts` or insert `(ver, ts)` in front of the first older one. */
  method RecordMark(m: seq<Mark>, ver: int, ts: int) returns (r: seq<Mark>)
    ensures r == Marked(m, ver, ts)
  {
    var i := 0;
    while i < |m| && m[i].rdTs > ver
      invariant 0 <= i <= |m|
      invariant Marked(m, ver, ts) == m[..i] + Marked(m[i..], ver, ts)
    {
      MarkedAt(m, i, ver, ts);
      i := i + 1;
    }
    if i == |m| {
      assert m[..i] == m && m[i..] == [];
      r := m + [Mark(ver, ts)];
    } else if m[i].rdTs < ver {
      MarkedAt(m, i, ver, ts);
      r := m[..i] + [Mark(ver, ts)] + m[i..];
    } else {
      MarkedAt(m, i, ver, ts);
      r := m;
      if m[i].txTs < ts {
        r := m[i := Mark(ver, ts)];
      }
    }
  }

  /** One step of the mark loop at index `i`, stated on the whole list: a new mark goes in
      front of an older one, the mark of `ver` is raised to `ts`, and a newer mark is
      passed over. */
  lemma MarkedAt(m: seq<Mark>, i: int, ver: int, ts: int)
    requires 0 <= i < |m|
    ensures m[i].rdTs < ver ==> m[..i] + Marked(m[i..], ver, ts) == m[..i] + [Mark(ver, ts)] + m[i..]
    ensures m[i].rdTs == ver ==> m[..i] + Marked(m[i..], ver, ts) == m[i := Mark(ver, Max(m[i].txTs, ts))]
    ensures m[i].rdTs > ver ==> m[..i] + Marked(m[i..], ver, ts) == m[..i + 1] + Marked(m[i + 1..], ver, ts)
  {
    assert m[i..][1..] == m[i + 1..];
    if m[i].rdTs == ver {
      assert m[i := Mark(ver, Max(m[i].txTs, ts))] == m[..i] + ([Mark(ver, Max(m[i].txTs, ts))] + m[i + 1..]);
    } else if m[i].rdTs > ver {
      assert m[..i + 1] == m[..i] + [m[i]];
    }
  }

  /** The chain scan of `read` for a timestamp older than the head: the value of the
      first entry at or below `ts`, or `fallback` when none is. */
  method ScanChain(c: seq<Version>, ts: int, fallback: int) returns (value: int)
    ensures ScanIndex(c, ts) < |c| ==> value == c[ScanIndex(c, ts)].value
    ensures ScanIndex(c, ts) == |c| ==> value == fallback
  {
    value := fallback;
    var i := 0;
    while i < |c|
      invariant 0 <= i <= |c|
      invariant forall p :: 0 <= p < i ==> c[p].version > ts
    {
      if c[i].version <= ts {
        value := c[i].value;
        return;
      }
      i := i + 1;
    }
  }

  /** The conflict loop of `write`: true when some mark straddles `ts`. */
  method FindBlocker(m: seq<Mark>, ts: int) returns (blocked: bool)
    ensures blocked == Blocks(m, ts)
  {
    var i := 0;
    while i < |m|
      invariant 0 <= i <= |m|
      invariant forall p :: 0 <= p < i ==> !(m[p].rdTs < ts < m[p].txTs)
    {
      if m[i].rdTs < ts && ts < m[i].txTs {
        return true;
      }
      i := i + 1;
    }
    return false;
  }

  /** One step of the install loop at entry `j`, stated on the whole chain: the entry of
      version `ts` is overwritten, `(ts, v)` goes in front of an older entry, and a newer
      entry is passed over. */
  lemma InstallAt(c: seq<Version>, j: int, ts: int, v: int)
    requires 0 <= j < |c|
    ensures c[j].version == ts ==> c[..j] + Install(c[j..], ts, v) == c[j := Version(ts, v)]
    ensures c[j].version < ts ==> c[..j] + Install(c[j..], ts, v) == c[..j] + [Version(ts, v)] + c[j..]
    ensures c[j].version > ts ==> c[..j] + Install(c[j..], ts, v) == c[..j + 1] + Install(c[j + 1..], ts, v)
  {
    assert c[j..][1..] == c[j + 1..];
    if c[j].version == ts {
      assert c[j := Version(ts, v)] == c[..j] + ([Version(ts, v)] + c[j + 1..]);
    } else if c[j].version > ts {
      assert c[..j + 1] == c[..j] + [c[j]];
    }
  }

  /** The install loop of `write`: walk newest first, overwrite the entry of version
      `ts` or insert `(ts, v)` in front of the first older entry. */
  method InstallVersion(c: seq<Version>, ts: int, v: int) returns (r: seq<Version>)
    ensures r == Install(c, ts, v)
  {
    var j := 0;
    while j < |c|
      invariant 0 <= j <= |c|
      invariant Install(c, ts, v) == c[..j] + Install(c[j..], ts, v)
    {
      InstallAt(c, j, ts, v);
      if c[j].version == ts {
        return c[j := Version(ts, v)];
      } else if c[j].version < ts {
        return c[..j] + [Version(ts, v)] + c[j..];
      }
      j := j + 1;
    }
    assert c[..j] == c;
    r := c;
  }

  /** The erase loop's state at entry `j`: the entries before it that survive are
      `kept`, the rest of the chain `r` is still untouched, and finishing the walk gives
      `GcChain(c, L)`. */
  ghost predicate Erasing(c: seq<Version>, L: int, r: seq<Version>, kept: seq<Version>, j: int) {
    0 <= j < |c| && r == kept + c[j..] && kept + GcChain(c[j..], L) == GcChain(c, L)
  }

  /** One step of the erase loop: the walk drops an entry below `L`, keeps any other, and
      stops at the baseline with the collected chain. */
  lemma GcChainStep(c: seq<Version>, L: int, r: seq<Version>, kept: seq<Version>, j: int)
    requires Erasing(c, L, r, kept, j) && c[|c| - 1].version == 0
    ensures |kept| < |r| && r[|kept|] == c[j]
    ensures c[j].version == 0 ==> r == GcChain(c, L)
    ensures c[j].version != 0 && c[j].version < L ==> Erasing(c, L, r[..|kept|] + r[|kept| + 1..], kept, j + 1)
    ensures c[j].version != 0 && c[j].version >= L ==> Erasing(c, L, r, kept + [c[j]], j + 1)
  {
    assert c[j..][1..] == c[j + 1..];
    if c[j].version != 0 {
      assert j < |c| - 1;
      assert r[..|kept|] == kept && r[|kept| + 1..] == c[j + 1..];
      if c[j].version >= L {
        assert kept + c[j..] == (kept + [c[j]]) + c[j + 1..];
      }
    }
  }

  /** The erase loop of `gc`: walk from the head to the version-0 entry erasing every
      entry below `L`. */
  method CollectChain(c: seq<Version>, L: int) returns (r: seq<Version>)
    requires |c| > 0 && c[|c| - 1].version == 0
    ensures r == GcChain(c, L)
  {
    r := c;
    var i := 0;
    ghost var kept: seq<Version> := [];
    ghost var j := 0;
    while r[i].version != 0
      invariant Erasing(c, L, r, kept, j) && i == |kept|
      decreases |c| - j
    {
      GcChainStep(c, L, r, kept, j);
      if r[i].version < L {
        r := r[..i] + r[i + 1..];
      } else {
        kept := kept + [c[j]];
        i := i + 1;
      }
      j := j + 1;
    }
    GcChainStep(c, L, r, kept, j);
  }

  /** The mark loop of `gc`: pop marks from the back while their `rdTs < L`. */
  method CollectMarks(m: seq<Mark>, L: int) returns (r: seq<Mark>)
    requires MarksDescending(m)
    ensures r == GcMarks(m, L)
    ensures MarksDescending(r)
    ensures forall x :: x in r <==> x in m && x.rdTs >= L
  {
    r := m;
    while r != [] && r[|r| - 1].rdTs < L
      invariant GcMarks(r, L) == GcMarks(m, L)
    {
      r := r[..|r| - 1];
    }
    GcMarksSpec(m, L);
  }

  // ---------------------------------------------------------------- the record

  /** `DataItem`: the version chain and the read marks of one key. */
  class DataItem {
    var chain: seq<Version>
    var marks: seq<Mark>

    ghost predicate Valid()
      reads this
    {
      ChainOk(chain) && MarksDescending(marks)
    }

    /** `DataItem(value)`: the baseline version 0 holds `value`; no marks. */
    constructor (value: int)
      ensures Valid()
      ensures chain == [Version(0, value)] && marks == []
    {
      chain := [Version(0, value)];
      marks := [];
    }

    /** `read(ts)`: the value of the greatest version at most `ts`; a read more than one
        past the head version records (or raises) the mark of the head version. */
    method Read(ts: int) returns (value: int)
      requires Valid()
      modifies this
      ensures Valid()
      ensures value == Visible(old(chain), ts)
      ensures chain == old(chain)
      ensures marks == if ts > old(chain)[0].version + 1
                       then Marked(old(marks), old(chain)[0].version, ts)
                       else old(marks)
    {
      value := chain[0].value;
      var ver := chain[0].version;
      if ts >= ver {
        if ts > ver + 1 {
          MarkedDescending(marks, ver, ts);
          marks := RecordMark(marks, ver, ts);
        }
      } else {
        value := ScanChain(chain, ts, value);
      }
    }

    /** `write(ts, v)`: rejected, changing nothing, when a mark straddles `ts`; otherwise
        the chain entry for `ts` is overwritten or inserted in order. */
    method Write(ts: int, v: int) returns (ok: bool)
      requires Valid()
      modifies this
      ensures Valid()
      ensures ok == !Blocks(old(marks), ts)
      ensures marks == old(marks)
      ensures chain == if ok then Install(old(chain), ts, v) else old(chain)
    {
      var blocked := FindBlocker(marks, ts);
      if blocked {
        return false;
      }
      InstallSpec(chain, ts, v);
      chain := InstallVersion(chain, ts, v);
      ok := true;
    }

    /** `gc(L)`: erases chain entries with `0 < version < L` and marks with `rdTs < L`. */
    method Gc(L: int)
      requires Valid()
      modifies this
      ensures Valid()
      ensures chain == GcChain(old(chain), L)
      ensures marks == GcMarks(old(marks), L)
    {
      GcChainSpec(chain, L);
      chain := CollectChain(chain, L);
      marks := CollectMarks(marks, L);
    }
  }
}
