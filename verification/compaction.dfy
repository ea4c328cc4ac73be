/** Slave-file compaction: live certificates from the end of the file are
    moved into the lowest free slots, their neighbours' links are
    re-pointed, and the file is truncated to one slot per live record.
    `CompactSlaveFile` is the operation as written; `CompactSlaveFileFixed`
    pairs the i-th highest record with the i-th lowest free slot and leaves
    the index sorted by ID. */
module Compaction {
  import opened Types
  import opened DataFiles
  import opened IndexTable
  import opened Models
  import opened Sorting
  import opened Tables
  import opened Chains

  /** Sort key of the junk: ascending offsets. */
  function JunkKey(x: u32): int { x }

  /** Sort key of the index for compaction: descending addresses. */
  function DescendingAddress(e: IndexEntry): int { -(e.address as int) }

  /** The part of a certificate that a move must carry over; the links are
      re-pointed separately. */
  ghost predicate SameBody(c: Certificate, d: Certificate) {
    c.id == d.id && c.courseId == d.courseId && c.issuedTo == d.issuedTo && c.presence == d.presence
  }

  /** `MoveModel`: reads the record at `from` and writes the same record at
      `to`. The copy at `from` stays in the file. */
  function MoveModel(f: DataFile<Certificate>, from: int, to: int): (r: Result<(DataFile<Certificate>, Certificate)>)
    ensures r.Ok? <==> Readable(f, from) && 0 <= to && to !in f.badWrites
    ensures r.Err? ==> IoError(r.error)
    ensures r.Ok? ==>
              && r.value.1 == f.records[from]
              && r.value.0.records == f.records[to := f.records[from]]
              && SameFaults(f, r.value.0)
  {
    match Read(f, from)
    case Err(e) => Err(e)
    case Ok(m) =>
      match Write(f, to, m, CertificateSize)
      case Err(e) => Err(e)
      case Ok(g) => Ok((g, m))
  }

  /** A data file after a partial sequence of writes, and how it ended. */
  datatype Patched = Patched(file: DataFile<Certificate>, status: Status)

  /** The record at `k` once the neighbours of the moved certificate `m`
      point at its new offset `to`. */
  function Repointed(c: Certificate, k: int, m: Certificate, to: int): Certificate {
    c.(next := if m.previous != NoLink && k == m.previous then to else c.next,
       previous := if m.next != NoLink && k == m.next then to else c.previous)
  }

  /** `updateLinkedListPointers`: the predecessor's `next` and then the
      successor's `previous` are pointed at `to`. A failure stops at once
      and keeps the writes already made. */
  function UpdateLinkedListPointers(f: DataFile<Certificate>, m: Certificate, to: u32): (r: Patched)
    ensures r.status != Diverges && (r.status.Failed? ==> IoError(r.status.error))
    ensures SameFaults(f, r.file) && r.file.records.Keys == f.records.Keys
    ensures forall k :: k in f.records && k != m.previous && k != m.next ==> r.file.records[k] == f.records[k]
    ensures forall k :: k in f.records ==>
              r.file.records[k] == f.records[k] || r.file.records[k] == Repointed(f.records[k], k, m, to)
              || r.file.records[k] == f.records[k].(next := to)
    ensures r.status == Done <==>
              && (m.previous == NoLink || (Readable(f, m.previous) && m.previous !in f.badWrites))
              && (m.next == NoLink || (Readable(f, m.next) && m.next !in f.badWrites))
    ensures r.status == Done ==> forall k :: k in f.records ==> r.file.records[k] == Repointed(f.records[k], k, m, to)
  {
    var first := if m.previous == NoLink then Ok(f) else SetNext(f, m.previous, to);
    match first
    case Err(e) => Patched(f, Failed(e))
    case Ok(f1) =>
      if m.next == NoLink then Patched(f1, Done)
      else match SetPrevious(f1, m.next, to)
        case Err(e) => Patched(f1, Failed(e))
        case Ok(f2) => Patched(f2, Done)
  }

  /** The data file and index during the compaction loop, and how the loop
      ended. */
  datatype Moves = Moves(file: DataFile<Certificate>, indices: seq<IndexEntry>, status: Status)

  /** One iteration of the loop: move the record of entry `i` to `to`,
      record the new address in the index, re-point the neighbours. */
  function MoveOne(f: DataFile<Certificate>, idx: seq<IndexEntry>, i: nat, to: u32): (r: Moves)
    requires i < |idx|
    ensures r.status != Diverges && (r.status.Failed? ==> IoError(r.status.error))
    ensures SameFaults(f, r.file)
    ensures |r.indices| == |idx| && forall k :: 0 <= k < |idx| ==> r.indices[k].index == idx[k].index
    ensures UniqueIds(idx) ==>
              && UniqueIds(r.indices)
              && (forall k :: 0 <= k < |idx| && k != i ==> r.indices[k] == idx[k])
              && (r.indices[i] == idx[i] || r.indices[i] == IndexEntry(idx[i].index, to))
              && (r.status == Done ==> r.indices[i] == IndexEntry(idx[i].index, to))
    ensures r.status == Done ==>
              && idx[i].address in f.records && to in r.file.records
              && SameBody(r.file.records[to], f.records[idx[i].address])
    ensures forall a :: a in f.records && a != to ==> a in r.file.records && SameBody(r.file.records[a], f.records[a])
    ensures forall a :: a in r.file.records ==> a in f.records || a == to
  {
    match MoveModel(f, idx[i].address, to)
    case Err(e) => Moves(f, idx, Failed(e))
    case Ok((g, m)) =>
      var p := UpdateLinkedListPointers(g, m, to);
      var idx1 := UpdateAddress(idx, idx[i].index, to);
      assert UniqueIds(idx) ==> idx1 == idx[i := IndexEntry(idx[i].index, to)] by {
        if UniqueIds(idx) {
          assert HasId(idx, idx[i].index);
        }
      }
      Moves(p.file, idx1, p.status)
  }

  /** `r` holds the IDs of `idx`, position by position. */
  ghost predicate SameIds(idx: seq<IndexEntry>, r: seq<IndexEntry>) {
    |r| == |idx| && forall k :: 0 <= k < |idx| ==> r[k].index == idx[k].index
  }

  /** No entry of `r` has a higher address than the entry of `idx` at the
      same position: records only move towards the start of the file. */
  ghost predicate NoneHigher(idx: seq<IndexEntry>, r: seq<IndexEntry>) {
    |r| == |idx| && forall k :: 0 <= k < |idx| ==> r[k].address <= idx[k].address
  }

  /** The loop as written: both `i` and the junk advance, so the `i`-th
      highest record is paired with the `2i`-th lowest free slot. */
  function CompactLoop(f: DataFile<Certificate>, idx: seq<IndexEntry>, junk: seq<u32>, i: nat): (r: Moves)
    requires i <= |idx|
    ensures r.status != Diverges && (r.status.Failed? ==> IoError(r.status.error))
    ensures SameFaults(f, r.file)
    ensures SameIds(idx, r.indices)
    ensures UniqueIds(idx) ==> UniqueIds(r.indices) && NoneHigher(idx, r.indices)
    decreases |idx| - i
  {
    if i < |idx| && i < |junk| && idx[i].address > junk[i] then
      var s := MoveOne(f, idx, i, junk[i]);
      if s.status != Done then s else CompactLoop(s.file, s.indices, junk[1..], i + 1)
    else Moves(f, idx, Done)
  }

  /** The result of a compaction: the data file, the index as the loop
      left it, and the junk to keep (an error when a step failed). */
  datatype Compacted = Compacted(file: DataFile<Certificate>, indices: seq<IndexEntry>, junk: Result<seq<u32>>)

  /** `CompactSlaveFile` as written. The junk is sorted ascending and the
      index descending by address, records are moved while they lie above
      their paired slot, and the file is truncated to one slot per index
      entry. */
  function CompactSlaveFile(f: DataFile<Certificate>, indices: seq<IndexEntry>, junk: seq<u32>): (r: Compacted)
    ensures var sorted := SortBy(indices, DescendingAddress);
            && SameIds(sorted, r.indices)
            && (UniqueIds(indices) ==> UniqueIds(r.indices) && NoneHigher(sorted, r.indices))
    ensures SameFaults(f, r.file)
    ensures r.junk.Err? ==> IoError(r.junk.error)
    ensures r.junk.Ok? ==> r.junk.value == [] && r.file.length == |indices| * CertificateSize
  {
    var js := SortBy(junk, JunkKey);
    var live := SortBy(indices, DescendingAddress);
    assert UniqueIds(indices) ==> UniqueIds(live) by {
      if UniqueIds(indices) {
        PermutationKeepsUniqueIds(indices, live);
      }
    }
    var m := CompactLoop(f, live, js, 0);
    match m.status
    case Failed(e) => Compacted(m.file, m.indices, Err(e))
    case _ =>
      match Truncate(m.file, |live| * CertificateSize, CertificateSize)
      case Err(e) => Compacted(m.file, m.indices, Err(e))
      case Ok(g) => Compacted(g, m.indices, Ok([]))
  }

  /** A live certificate with no neighbours, for the example below. */
  function Live(id: u32): Certificate {
    Certificate(id, 1, [], true, NoLink, NoLink)
  }

  /** A deleted certificate left in a junk slot. */
  function Dead(id: u32): Certificate {
    Certificate(id, 1, [], false, NoLink, NoLink)
  }

  /** The data file of the example below: six slots, the middle three
      free, live certificates 1, 2 and 3 at slots 0, 4 and 5. */
  function ExampleFile(): DataFile<Certificate> {
    DataFile(map[0 := Live(1), 55 := Dead(4), 110 := Dead(5), 165 := Dead(6),
                 220 := Live(2), 275 := Live(3)], 330, {}, {}, false)
  }

  /** A sequence already ascending and without repeated keys is its own
      sort. */
  lemma SortedIsItsOwnSort<T>(s: seq<T>, key: T -> int)
    requires SortedBy(s, key) && DistinctKeys(s, key)
    ensures SortBy(s, key) == s
  {
    SortedPermutationUnique(s, SortBy(s, key), key);
  }

  /** The junk of the example is already ascending. */
  lemma ExampleJunkSort(junk: seq<u32>)
    requires junk == [55, 110, 165]
    ensures SortBy(junk, JunkKey) == junk
  {
    assert SortedBy(junk, JunkKey) && DistinctKeys(junk, JunkKey);
    SortedIsItsOwnSort(junk, JunkKey);
  }

  /** The index of the example reverses when sorted by descending address. */
  lemma ExampleIndexSort(indices: seq<IndexEntry>, live: seq<IndexEntry>)
    requires indices == [IndexEntry(1, 0), IndexEntry(2, 220), IndexEntry(3, 275)]
    requires live == [IndexEntry(3, 275), IndexEntry(2, 220), IndexEntry(1, 0)]
    ensures SortBy(indices, DescendingAddress) == live
  {
    assert multiset(live) == multiset(indices) by {
      assert indices == [live[2]] + [live[1]] + [live[0]];
    }
    assert SortedBy(live, DescendingAddress) && DistinctKeys(live, DescendingAddress);
    SortedPermutationUnique(live, SortBy(indices, DescendingAddress), DescendingAddress);
  }

  /** The first move of the example: certificate 3 to slot 1. */
  lemma ExampleFirstMove()
    ensures MoveOne(ExampleFile(), [IndexEntry(3, 275), IndexEntry(2, 220), IndexEntry(1, 0)], 0, 55)
            == Moves(ExampleFile().(records := ExampleFile().records[55 := Live(3)]),
                     [IndexEntry(3, 55), IndexEntry(2, 220), IndexEntry(1, 0)], Done)
  {
    var f := ExampleFile();
    assert Read(f, 275) == Ok(Live(3));
  }

  /** The second move of the example: certificate 2 to slot 3. */
  lemma ExampleSecondMove()
    ensures var f1 := ExampleFile().(records := ExampleFile().records[55 := Live(3)]);
            MoveOne(f1, [IndexEntry(3, 55), IndexEntry(2, 220), IndexEntry(1, 0)], 1, 165)
            == Moves(f1.(records := f1.records[165 := Live(2)]),
                     [IndexEntry(3, 55), IndexEntry(2, 165), IndexEntry(1, 0)], Done)
  {
    var f1 := ExampleFile().(records := ExampleFile().records[55 := Live(3)]);
    assert Read(f1, 220) == Ok(Live(2));
  }

  /** The loop of the example: two moves, to slots 1 and 3. */
  lemma ExampleLoop()
    ensures CompactLoop(ExampleFile(), [IndexEntry(3, 275), IndexEntry(2, 220), IndexEntry(1, 0)], [55, 110, 165], 0)
            == Moves(ExampleFile().(records := ExampleFile().records[55 := Live(3)][165 := Live(2)]),
                     [IndexEntry(3, 55), IndexEntry(2, 165), IndexEntry(1, 0)], Done)
  {
    var f := ExampleFile();
    var live := [IndexEntry(3, 275), IndexEntry(2, 220), IndexEntry(1, 0)];
    var f1 := f.(records := f.records[55 := Live(3)]);
    var idx1 := [IndexEntry(3, 55), IndexEntry(2, 220), IndexEntry(1, 0)];
    ExampleFirstMove();
    var f2 := f1.(records := f1.records[165 := Live(2)]);
    var idx2 := [IndexEntry(3, 55), IndexEntry(2, 165), IndexEntry(1, 0)];
    ExampleSecondMove();
    assert CompactLoop(f2, idx2, [165], 2) == Moves(f2, idx2, Done);
    assert CompactLoop(f1, idx1, [110, 165], 1) == Moves(f2, idx2, Done);
  }

  /** On the example the loop skips slot 2; truncating to three slots
      then drops certificate 2 although the index points at it and the
      result reports success. The index is also left ordered by address,
      so looking up certificate 3 misses. */
  lemma CompactionDropsRecord()
    ensures var indices := [IndexEntry(1, 0), IndexEntry(2, 220), IndexEntry(3, 275)];
            var junk: seq<u32> := [55, 110, 165];
            var r := CompactSlaveFile(ExampleFile(), indices, junk);
            && Layout(Table(ExampleFile(), indices, junk), CertificateSize)
            && r.junk == Ok([])
            && IndexEntry(2, 165) in r.indices
            && 165 !in r.file.records
            && !SortedById(r.indices)
            && !GetAddressByIndex(r.indices, 3).1
  {
    var indices := [IndexEntry(1, 0), IndexEntry(2, 220), IndexEntry(3, 275)];
    var junk: seq<u32> := [55, 110, 165];
    ExampleJunkSort(junk);
    ExampleIndexSort(indices, [IndexEntry(3, 275), IndexEntry(2, 220), IndexEntry(1, 0)]);
    ExampleLoop();
    var idx2 := [IndexEntry(3, 55), IndexEntry(2, 165), IndexEntry(1, 0)];
    var r := CompactSlaveFile(ExampleFile(), indices, junk);
    assert r.indices == idx2 && r.junk == Ok([]);
    assert idx2[1] == IndexEntry(2, 165);
    assert !SortedById(idx2) by { assert idx2[0].index > idx2[1].index; }
    assert SearchAtLeast(idx2, 3, 0, 3) == 3 by {
      assert SearchAtLeast(idx2, 3, 2, 3) == 3;
    }
    LayoutExample();
  }

  /** The input of the example respects the slot discipline. */
  lemma LayoutExample()
    ensures Layout(Table(ExampleFile(), [IndexEntry(1, 0), IndexEntry(2, 220), IndexEntry(3, 275)], [55, 110, 165]),
                   CertificateSize)
  {
    assert Span(6, CertificateSize) == 330 by { SpanIsProduct(6, CertificateSize); }
    assert Boundary(0, CertificateSize);
    assert Boundary(55, CertificateSize);
    assert Boundary(110, CertificateSize);
    assert Boundary(165, CertificateSize);
    assert Boundary(220, CertificateSize);
    assert Boundary(275, CertificateSize);
  }

  /** The corrected loop: only `i` advances, so the `i`-th highest record
      is paired with the `i`-th lowest free slot. */
  function CompactLoopFixed(f: DataFile<Certificate>, idx: seq<IndexEntry>, junk: seq<u32>, i: nat): (r: Moves)
    requires i <= |idx|
    ensures r.status != Diverges && (r.status.Failed? ==> IoError(r.status.error))
    ensures SameFaults(f, r.file)
    ensures SameIds(idx, r.indices)
    ensures UniqueIds(idx) ==> UniqueIds(r.indices) && NoneHigher(idx, r.indices)
    ensures NonNegative(f) ==> NonNegative(r.file)
    decreases |idx| - i
  {
    if i < |idx| && i < |junk| && idx[i].address > junk[i] then
      var s := MoveOne(f, idx, i, junk[i]);
      if s.status != Done then s
      else
        assert NonNegative(f) ==> NonNegative(s.file);
        CompactLoopFixed(s.file, s.indices, junk, i + 1)
    else Moves(f, idx, Done)
  }

  /** Every record of `f` sits at a non-negative offset. */
  ghost predicate NonNegative(f: DataFile<Certificate>) {
    forall a :: a in f.records ==> a >= 0
  }

  /** The guard of the compaction loop at position `k`. */
  predicate Guard(idx: seq<IndexEntry>, junk: seq<u32>, k: nat) {
    k < |idx| && k < |junk| && idx[k].address > junk[k]
  }

  /** The position at which the loop guard first fails, from `i` on. */
  function Stop(idx: seq<IndexEntry>, junk: seq<u32>, i: nat): (t: nat)
    requires i <= |idx|
    ensures i <= t <= |idx| && !Guard(idx, junk, t) && (t == i || t <= |junk|)
    ensures forall k :: i <= k < t ==> Guard(idx, junk, k)
    decreases |idx| - i
  {
    if Guard(idx, junk, i) then Stop(idx, junk, i + 1) else i
  }

  lemma {:induction false} StopAgrees(a: seq<IndexEntry>, b: seq<IndexEntry>, junk: seq<u32>, i: nat)
    requires i <= |a| == |b|
    requires forall k :: i <= k < |a| ==> a[k].address == b[k].address
    ensures Stop(a, junk, i) == Stop(b, junk, i)
    decreases |a| - i
  {
    if Guard(a, junk, i) {
      StopAgrees(a, b, junk, i + 1);
    }
  }

  /** One successful iteration of the corrected loop. */
  lemma LoopFixedStep(f: DataFile<Certificate>, idx: seq<IndexEntry>, junk: seq<u32>, i: nat)
    requires i <= |idx| && Guard(idx, junk, i)
    requires CompactLoopFixed(f, idx, junk, i).status == Done
    ensures var s := MoveOne(f, idx, i, junk[i]);
            && s.status == Done
            && CompactLoopFixed(f, idx, junk, i) == CompactLoopFixed(s.file, s.indices, junk, i + 1)
  {
  }

  /** A successful corrected loop leaves every offset that is not a junk
      slot from position `i` on with the certificate it held. */
  lemma {:induction false} LoopFixedFrame(f: DataFile<Certificate>, idx: seq<IndexEntry>, junk: seq<u32>, i: nat, a: int)
    requires i <= |idx|
    requires CompactLoopFixed(f, idx, junk, i).status == Done
    requires a in f.records && forall j :: i <= j < |junk| ==> a != junk[j]
    ensures var r := CompactLoopFixed(f, idx, junk, i);
            a in r.file.records && SameBody(r.file.records[a], f.records[a])
    decreases |idx| - i
  {
    if Guard(idx, junk, i) {
      var s := MoveOne(f, idx, i, junk[i]);
      LoopFixedStep(f, idx, junk, i);
      assert a != junk[i];
      LoopFixedFrame(s.file, s.indices, junk, i + 1, a);
    }
  }

  /** A successful corrected loop re-addresses the entries from `i` up to
      the stop point to their paired junk slots and no other entry. */
  lemma {:induction false} LoopFixedIndices(f: DataFile<Certificate>, idx: seq<IndexEntry>, junk: seq<u32>, i: nat)
    requires i <= |idx| && UniqueIds(idx)
    requires CompactLoopFixed(f, idx, junk, i).status == Done
    ensures var r := CompactLoopFixed(f, idx, junk, i);
            var t := Stop(idx, junk, i);
            forall k :: 0 <= k < |idx| ==>
              r.indices[k] == if i <= k < t then IndexEntry(idx[k].index, junk[k]) else idx[k]
    decreases |idx| - i
  {
    var t := Stop(idx, junk, i);
    if Guard(idx, junk, i) {
      var s := MoveOne(f, idx, i, junk[i]);
      assert s.status == Done;
      var r := CompactLoopFixed(s.file, s.indices, junk, i + 1);
      assert CompactLoopFixed(f, idx, junk, i) == r;
      assert forall k :: i + 1 <= k < |idx| ==> s.indices[k] == idx[k];
      StopAgrees(s.indices, idx, junk, i + 1);
      assert Stop(s.indices, junk, i + 1) == t;
      LoopFixedIndices(s.file, s.indices, junk, i + 1);
      forall k | 0 <= k < |idx|
        ensures r.indices[k] == if i <= k < t then IndexEntry(idx[k].index, junk[k]) else idx[k]
      {
        if k != i {
          assert s.indices[k] == idx[k];
        }
      }
    }
  }

  /** After a successful corrected loop, the junk slot paired with entry
      `k` holds the certificate that entry had, for every `k` from `i` up
      to the stop point. */
  lemma {:induction false} LoopFixedMoved(f: DataFile<Certificate>, idx: seq<IndexEntry>, junk: seq<u32>, i: nat, k: nat)
    requires i <= |idx| && i <= k < Stop(idx, junk, i) && UniqueIds(idx) && Distinct(junk)
    requires forall k', j :: i <= k' < |idx| && 0 <= j < |junk| ==> idx[k'].address != junk[j]
    requires CompactLoopFixed(f, idx, junk, i).status == Done
    ensures var r := CompactLoopFixed(f, idx, junk, i);
            && idx[k].address in f.records && junk[k] in r.file.records
            && SameBody(r.file.records[junk[k]], f.records[idx[k].address])
    decreases |idx| - i
  {
    assert Guard(idx, junk, i);
    var s := MoveOne(f, idx, i, junk[i]);
    assert s.status == Done;
    var r := CompactLoopFixed(s.file, s.indices, junk, i + 1);
    assert CompactLoopFixed(f, idx, junk, i) == r;
    if k == i {
      forall j | i + 1 <= j < |junk| ensures junk[i] != junk[j] {
      }
      LoopFixedFrame(s.file, s.indices, junk, i + 1, junk[i]);
    } else {
      LoopFixedMovedStep(f, idx, junk, i, k, s);
      LoopFixedMoved(s.file, s.indices, junk, i + 1, k);
    }
  }

  /** The preconditions of `LoopFixedMoved` carry over one iteration. */
  lemma LoopFixedMovedStep(f: DataFile<Certificate>, idx: seq<IndexEntry>, junk: seq<u32>, i: nat, k: nat, s: Moves)
    requires i < |idx| && i < k < Stop(idx, junk, i) && UniqueIds(idx)
    requires forall k', j :: i <= k' < |idx| && 0 <= j < |junk| ==> idx[k'].address != junk[j]
    requires Guard(idx, junk, i) && s == MoveOne(f, idx, i, junk[i])
    ensures i + 1 <= |s.indices| && UniqueIds(s.indices)
    ensures forall k', j :: i + 1 <= k' < |s.indices| && 0 <= j < |junk| ==> s.indices[k'].address != junk[j]
    ensures k < Stop(s.indices, junk, i + 1) && s.indices[k] == idx[k]
  {
    assert forall k' :: i + 1 <= k' < |idx| ==> s.indices[k'] == idx[k'];
    StopAgrees(s.indices, idx, junk, i + 1);
    assert Stop(idx, junk, i) == Stop(idx, junk, i + 1);
  }

  /** Two slot boundaries are at least one slot apart. */
  lemma {:induction false} BoundaryGap(v: int, w: int, size: nat)
    requires size > 0 && Boundary(v, size) && Boundary(w, size) && v < w
    ensures v + size <= w
    decreases if v + w < 0 then 0 else v + w
  {
    if v != w - size {
      assert w >= size && Boundary(w - size, size);
      if v < w - size {
        BoundaryGap(v, w - size, size);
      } else {
        BoundaryGap(w - size, v, size);
      }
    }
  }

  lemma {:induction false} SpanAdd(a: nat, b: nat, size: nat)
    ensures Span(a + b, size) == Span(a, size) + Span(b, size)
    decreases b
  {
    if b > 0 {
      SpanAdd(a, b - 1, size);
    }
  }

  lemma {:induction false} SpanMono(a: nat, b: nat, size: nat)
    requires a <= b
    ensures Span(a, size) <= Span(b, size)
    decreases b
  {
    if a < b {
      SpanMono(a, b - 1, size);
    }
  }

  /** Distinct slots of the first `n` that all lie above the slot at `x`
      fit in the slots after it. */
  lemma {:induction false} SlotsAbove(A: set<int>, x: int, size: nat, n: nat)
    requires size > 0 && InSlot(x, size, n)
    requires forall v :: v in A ==> InSlot(v, size, n) && v > x
    ensures Span(|A|, size) + x + size <= Span(n, size)
    decreases n
  {
    assert n > 0;
    var top := Span(n - 1, size);
    SpanIsBoundary(n - 1, size);
    if x == top {
      forall v | v in A ensures false {
      }
      assert A == {};
    } else {
      BoundaryGap(x, top, size);
      var B := A - {top};
      forall v | v in B ensures InSlot(v, size, n - 1) && v > x {
        BoundaryGap(v, top, size);
      }
      SlotsAbove(B, x, size, n - 1);
      assert |A| <= |B| + 1;
      SpanMono(|A|, |B| + 1, size);
    }
  }

  /** A sequence without repetitions has as many elements as its set. */
  lemma {:induction false} DistinctCard(s: seq<int>)
    requires Distinct(s)
    ensures |set v | v in s| == |s|
  {
    if |s| > 0 {
      var t := s[1..];
      assert Distinct(t);
      DistinctCard(t);
      assert (set v | v in s) == {s[0]} + (set v | v in t);
      assert s[0] !in t;
    }
  }

  /** The slot discipline does not depend on the order of the index or
      of the junk. */
  lemma PermutedKeepsDense<R>(t: Table<R>, live: seq<IndexEntry>, junk: seq<u32>, size: nat)
    requires Dense(t, size)
    requires multiset(live) == multiset(t.indices) && multiset(junk) == multiset(t.junk)
    ensures Dense(Table(t.file, live, junk), size)
  {
    var n := |t.indices| + |t.junk|;
    assert |live| == |t.indices| by { assert |multiset(live)| == |multiset(t.indices)|; }
    assert |junk| == |t.junk| by { assert |multiset(junk)| == |multiset(t.junk)|; }
    PermutationKeepsDistinctKeys(t.indices, live, AddressKey);
    assert DistinctKeys(t.junk, JunkKey);
    PermutationKeepsDistinctKeys(t.junk, junk, JunkKey);
    assert Distinct(junk) by {
      forall i, j | 0 <= i < j < |junk| ensures junk[i] != junk[j] {
        assert JunkKey(junk[i]) != JunkKey(junk[j]);
      }
    }
    forall i | 0 <= i < |live|
      ensures InSlot(live[i].address, size, n)
      ensures forall j :: 0 <= j < |t.junk| ==> live[i].address != t.junk[j]
    {
      assert live[i] in multiset(t.indices);
      var k :| 0 <= k < |t.indices| && t.indices[k] == live[i];
    }
    forall j | 0 <= j < |junk|
      ensures InSlot(junk[j], size, n)
      ensures forall i :: 0 <= i < |live| ==> live[i].address != junk[j]
    {
      assert junk[j] in multiset(t.junk);
      var k :| 0 <= k < |t.junk| && t.junk[k] == junk[j];
    }
  }

  /** The pigeonhole step of the corrected compaction. With the index
      descending by address and the junk ascending, the offsets that stay
      live once the loop stops (paired junk slots below the stop point,
      original addresses from it on) all lie below every offset that is
      given up, and there are exactly as many given up as there were junk
      slots; so each live offset lies in the first `|indices|` slots. */
  lemma FitsBelowLive<R>(tb: Table<R>, size: nat, k: nat)
    requires Dense(tb, size)
    requires SortedBy(tb.indices, DescendingAddress) && SortedBy(tb.junk, JunkKey)
    requires k < |tb.indices|
    ensures var t := Stop(tb.indices, tb.junk, 0);
            InSlot(if k < t then tb.junk[k] as int else tb.indices[k].address as int, size, |tb.indices|)
  {
    var live := tb.indices;
    var junk := tb.junk;
    var n := |live| + |junk|;
    var t := Stop(live, junk, 0);
    var x: int := if k < t then junk[k] else live[k].address;
    assert InSlot(x, size, n);
    var given := seq(|junk|, p requires 0 <= p < |junk| => if p < t then live[p].address as int else junk[p] as int);
    assert Distinct(given) by {
      forall p, q | 0 <= p < q < |given| ensures given[p] != given[q] {
        if q < t {
          assert AddressKey(live[p]) != AddressKey(live[q]);
        }
      }
    }
    forall p | 0 <= p < |given| ensures InSlot(given[p], size, n) && given[p] > x {
      GivenUpAbove(tb, size, k, p);
    }
    var A := set v | v in given;
    DistinctCard(given);
    SlotsAbove(A, x, size, n);
    SpanAdd(|live|, |junk|, size);
  }

  /** One step of the pigeonhole: the offset given up at junk position `p`
      (the moved record's old address below the stop point, the unused
      junk slot from it on) lies above the offset entry `k` ends at. */
  lemma GivenUpAbove<R>(tb: Table<R>, size: nat, k: nat, p: nat)
    requires Dense(tb, size)
    requires SortedBy(tb.indices, DescendingAddress) && SortedBy(tb.junk, JunkKey)
    requires k < |tb.indices| && p < |tb.junk|
    ensures var live := tb.indices;
            var junk := tb.junk;
            var t := Stop(live, junk, 0);
            var x: int := if k < t then junk[k] else live[k].address;
            var g: int := if p < t then live[p].address else junk[p];
            InSlot(g, size, |live| + |junk|) && g > x
  {
    var live := tb.indices;
    var junk := tb.junk;
    var t := Stop(live, junk, 0);
    if k < t {
      if p < t {
        assert Guard(live, junk, p) && Guard(live, junk, k);
        if k <= p {
          assert JunkKey(junk[k]) <= JunkKey(junk[p]);
        } else {
          assert DescendingAddress(live[p]) <= DescendingAddress(live[k]);
        }
      } else {
        assert JunkKey(junk[k]) <= JunkKey(junk[p]);
      }
    } else {
      if p < t {
        assert DescendingAddress(live[p]) <= DescendingAddress(live[k]);
        assert AddressKey(live[p]) != AddressKey(live[k]);
      } else {
        assert !Guard(live, junk, t);
        assert DescendingAddress(live[t]) <= DescendingAddress(live[k]);
        assert JunkKey(junk[t]) <= JunkKey(junk[p]);
      }
    }
  }

  /** `CompactSlaveFile` corrected: the `i`-th highest record goes to the
      `i`-th lowest free slot, and the index is sorted by ID again at the
      end. */
  function CompactSlaveFileFixed(f: DataFile<Certificate>, indices: seq<IndexEntry>, junk: seq<u32>): (r: Compacted)
    ensures |r.indices| == |indices| && SortedById(r.indices)
    ensures UniqueIds(indices) ==> UniqueIds(r.indices)
    ensures SameFaults(f, r.file)
    ensures r.junk.Err? ==> IoError(r.junk.error)
    ensures r.junk.Ok? ==> r.junk.value == [] && r.file.length == |indices| * CertificateSize
  {
    var js := SortBy(junk, JunkKey);
    var live := SortBy(indices, DescendingAddress);
    assert UniqueIds(indices) ==> UniqueIds(live) by {
      if UniqueIds(indices) {
        PermutationKeepsUniqueIds(indices, live);
      }
    }
    var m := CompactLoopFixed(f, live, js, 0);
    var sorted := SortIndices(m.indices);
    assert UniqueIds(m.indices) ==> UniqueIds(sorted) by {
      if UniqueIds(m.indices) {
        PermutationKeepsUniqueIds(m.indices, sorted);
      }
    }
    match m.status
    case Failed(e) => Compacted(m.file, sorted, Err(e))
    case _ =>
      match Truncate(m.file, |live| * CertificateSize, CertificateSize)
      case Err(e) => Compacted(m.file, sorted, Err(e))
      case Ok(g) => Compacted(g, sorted, Ok([]))
  }

  /** After a successful corrected loop over the sorted index and junk,
      entry `k` names an offset within the first `|live|` slots holding
      the certificate the entry held before. */
  lemma LoopFixedPlaces(f: DataFile<Certificate>, live: seq<IndexEntry>, js: seq<u32>, k: nat)
    requires Dense(Table(f, live, js), CertificateSize) && UniqueIds(live)
    requires SortedBy(live, DescendingAddress) && SortedBy(js, JunkKey)
    requires forall p :: 0 <= p < |live| ==> live[p].address in f.records
    requires CompactLoopFixed(f, live, js, 0).status == Done
    requires k < |live|
    ensures var m := CompactLoopFixed(f, live, js, 0);
            && InSlot(m.indices[k].address, CertificateSize, |live|)
            && m.indices[k].address in m.file.records
            && SameBody(m.file.records[m.indices[k].address], f.records[live[k].address])
  {
    var t := Stop(live, js, 0);
    FitsBelowLive(Table(f, live, js), CertificateSize, k);
    LoopFixedIndices(f, live, js, 0);
    if k < t {
      LoopFixedMoved(f, live, js, 0, k);
    } else {
      LoopFixedFrame(f, live, js, 0, live[k].address);
    }
  }

  /** A successful corrected compaction of a slave table that keeps its
      layout: the table is left with no junk and its layout intact, the
      index sorted by ID, and every certificate still found by its ID
      with the same contents. */
  lemma CompactFixedKeepsRecords(f: DataFile<Certificate>, indices: seq<IndexEntry>, junk: seq<u32>)
    requires Layout(Table(f, indices, junk), CertificateSize) && UniqueIds(indices)
    requires forall k :: 0 <= k < |indices| ==> indices[k].address in f.records
    requires CompactSlaveFileFixed(f, indices, junk).junk.Ok?
    ensures var r := CompactSlaveFileFixed(f, indices, junk);
            && Layout(Table(r.file, r.indices, []), CertificateSize)
            && !RequiresCompaction(Table(r.file, r.indices, []))
            && forall e :: e in indices ==>
                 var (a, found) := GetAddressByIndex(r.indices, e.index);
                 found && a in r.file.records && SameBody(r.file.records[a], f.records[e.address])
  {
    var size := CertificateSize;
    var js := SortBy(junk, JunkKey);
    var live := SortBy(indices, DescendingAddress);
    var m := CompactLoopFixed(f, live, js, 0);
    var r := CompactSlaveFileFixed(f, indices, junk);
    CompactFixedUnfold(f, indices, junk);
    PermutedKeepsDense(Table(f, indices, junk), live, js, size);
    PermutationKeepsUniqueIds(indices, live);
    forall p | 0 <= p < |live| ensures live[p].address in f.records {
      assert live[p] in multiset(indices);
    }
    CompactFixedPlaces(f, live, js, r.file);
    CompactFixedDense(m, r.indices, r.file);
    forall e | e in indices
      ensures var (a, found) := GetAddressByIndex(r.indices, e.index);
              found && a in r.file.records && SameBody(r.file.records[a], f.records[e.address])
    {
      assert e in multiset(live);
      var k :| 0 <= k < |live| && live[k] == e;
      assert m.indices[k] in multiset(r.indices);
      LookupEntry(r.indices, m.indices[k]);
    }
  }

  /** The steps a successful corrected compaction takes. */
  lemma CompactFixedUnfold(f: DataFile<Certificate>, indices: seq<IndexEntry>, junk: seq<u32>)
    requires CompactSlaveFileFixed(f, indices, junk).junk.Ok?
    ensures var live := SortBy(indices, DescendingAddress);
            var m := CompactLoopFixed(f, live, SortBy(junk, JunkKey), 0);
            var r := CompactSlaveFileFixed(f, indices, junk);
            && m.status == Done
            && r.indices == SortIndices(m.indices)
            && Truncate(m.file, Span(|live|, CertificateSize), CertificateSize) == Ok(r.file)
  {
    SpanIsProduct(|SortBy(indices, DescendingAddress)|, CertificateSize);
  }

  /** What truncating after a successful corrected loop keeps: every entry
      of the loop's index, in place, with its certificate. */
  lemma CompactFixedPlaces(f: DataFile<Certificate>, live: seq<IndexEntry>, js: seq<u32>, g: DataFile<Certificate>)
    requires Dense(Table(f, live, js), CertificateSize) && UniqueIds(live)
    requires SortedBy(live, DescendingAddress) && SortedBy(js, JunkKey)
    requires forall p :: 0 <= p < |live| ==> live[p].address in f.records
    requires CompactLoopFixed(f, live, js, 0).status == Done
    requires Truncate(CompactLoopFixed(f, live, js, 0).file, Span(|live|, CertificateSize), CertificateSize) == Ok(g)
    ensures var m := CompactLoopFixed(f, live, js, 0);
            forall k :: 0 <= k < |live| ==>
              && InSlot(m.indices[k].address, CertificateSize, |live|)
              && m.indices[k].address in g.records
              && SameBody(g.records[m.indices[k].address], f.records[live[k].address])
    ensures var m := CompactLoopFixed(f, live, js, 0);
            forall p, q :: 0 <= p < q < |live| ==> m.indices[p].address != m.indices[q].address
  {
    var m := CompactLoopFixed(f, live, js, 0);
    var t := Stop(live, js, 0);
    LoopFixedIndices(f, live, js, 0);
    forall p, q | 0 <= p < q < |live| ensures m.indices[p].address != m.indices[q].address {
      if q < t {
        assert js[p] != js[q];
      } else if p < t {
        assert live[q].address != js[p];
      } else {
        assert AddressKey(live[p]) != AddressKey(live[q]);
      }
    }
    forall k | 0 <= k < |live|
      ensures InSlot(m.indices[k].address, CertificateSize, |live|)
      ensures m.indices[k].address in g.records
      ensures SameBody(g.records[m.indices[k].address], f.records[live[k].address])
    {
      LoopFixedPlaces(f, live, js, k);
    }
  }

  /** The loop's index and the truncated file form a dense table without
      junk once the index is sorted by ID. */
  lemma CompactFixedDense(m: Moves, sorted: seq<IndexEntry>, g: DataFile<Certificate>)
    requires multiset(sorted) == multiset(m.indices)
    requires forall k :: 0 <= k < |m.indices| ==> InSlot(m.indices[k].address, CertificateSize, |m.indices|)
    requires forall p, q :: 0 <= p < q < |m.indices| ==> m.indices[p].address != m.indices[q].address
    requires forall a :: a in g.records ==> a >= 0
    requires g.length == Span(|m.indices|, CertificateSize)
    requires forall a :: a in g.records ==> a + CertificateSize <= g.length
    ensures Layout(Table(g, sorted, []), CertificateSize)
  {
    assert |sorted| == |m.indices| by {
      calc { |sorted|; == |multiset(sorted)|; == |multiset(m.indices)|; == |m.indices|; }
    }
    assert DistinctKeys(m.indices, AddressKey) by {
      forall p, q | 0 <= p < q < |m.indices| ensures AddressKey(m.indices[p]) != AddressKey(m.indices[q]) {
      }
    }
    PermutationKeepsDistinctKeys(m.indices, sorted, AddressKey);
    forall i | 0 <= i < |sorted|
      ensures InSlot(sorted[i].address, CertificateSize, |sorted|)
    {
      assert sorted[i] in multiset(m.indices);
    }
  }
}
