/** A table (`driver.Table`): data file, index and junk list, plus the
    master/slave pair the handlers work on and the slot discipline that
    keeps junk and index apart. */
module Tables {
  import opened Types
  import opened DataFiles
  import opened IndexTable
  import opened Models
  import opened Sorting

  datatype Table<R> = Table(file: DataFile<R>, indices: seq<IndexEntry>, junk: seq<u32>)

  /** The two tables the handlers share: Courses and Certificates. */
  datatype Db = Db(master: Table<Course>, slave: Table<Certificate>)

  /** The state a handler leaves behind and how it ended. After a failure
      the state holds whatever the handler changed before failing. */
  datatype Step = Step(db: Db, status: Status)

  /** Junk length at which compaction is recommended. */
  const MaxJunkSize: nat := 2

  /** `RequiresCompaction`. */
  function RequiresCompaction<R>(t: Table<R>): (r: bool)
    ensures r <==> |t.junk| >= 2
  {
    |t.junk| >= MaxJunkSize
  }

  /** Sort key of an index entry by address. */
  function AddressKey(e: IndexEntry): int { e.address }

  /** The bytes taken by `n` records of `size` bytes: `n * size`, written
      so that the solver stays in linear arithmetic. */
  function Span(n: nat, size: nat): nat {
    if n == 0 then 0 else Span(n - 1, size) + size
  }

  lemma {:induction false} SpanIsProduct(n: nat, size: nat)
    ensures Span(n, size) == n * size
  {
    if n > 0 {
      SpanIsProduct(n - 1, size);
      assert n * size == (n - 1) * size + size;
    }
  }

  /** `v` is a multiple of `size`: the start of a record slot. */
  ghost predicate Boundary(v: int, size: nat)
    requires size > 0
    decreases if v < 0 then 0 else v
  {
    v == 0 || (v >= size && Boundary(v - size, size))
  }

  /** `v` is a slot boundary inside the first `n` slots of `size` bytes. */
  ghost predicate InSlot(v: int, size: nat, n: nat)
    requires size > 0
  {
    0 <= v && Boundary(v, size) && v + size <= Span(n, size)
  }

  /** No junk offset is also a live address. */
  ghost predicate JunkDisjoint<R>(t: Table<R>) {
    forall i, j :: 0 <= i < |t.indices| && 0 <= j < |t.junk| ==> t.indices[i].address != t.junk[j]
  }

  /** Slot discipline: live addresses and junk offsets are pairwise
      distinct slot boundaries, all inside the first `|indices| + |junk|`
      slots of the file. */
  ghost predicate Dense<R>(t: Table<R>, size: nat) {
    var n := |t.indices| + |t.junk|;
    && size > 0
    && DistinctKeys(t.indices, AddressKey)
    && Distinct(t.junk)
    && JunkDisjoint(t)
    && (forall i :: 0 <= i < |t.indices| ==> InSlot(t.indices[i].address, size, n))
    && (forall j :: 0 <= j < |t.junk| ==> InSlot(t.junk[j], size, n))
  }

  /** Slot choice on insert: the oldest junk offset if there is one (FIFO),
      otherwise `endOffset`. Returns the offset and the remaining junk. */
  function ChooseSlot(junk: seq<u32>, endOffset: int): (r: (int, seq<u32>))
    ensures |junk| > 0 ==> r.0 == junk[0] && r.1 == junk[1..] && junk == [r.0 as u32] + r.1
    ensures |junk| == 0 ==> r.0 == endOffset && r.1 == []
  {
    if |junk| > 0 then (junk[0], junk[1..]) else (endOffset, junk)
  }

  /** Every entry of `AddIndex(s, id, a)` is the new one or an old one. */
  lemma InAddIndex(s: seq<IndexEntry>, id: u32, a: u32, x: IndexEntry)
    requires x in AddIndex(s, id, a)
    ensures x == IndexEntry(id, a) || exists k :: 0 <= k < |s| && s[k] == x
  {
    assert x in multiset(AddIndex(s, id, a));
    assert x in multiset(s + [IndexEntry(id, a)]);
  }

  /** Indexing a slot that no live entry and no junk offset holds keeps
      the discipline, whatever order the new index is in. */
  lemma AddKeepsDense<R>(t: Table<R>, f: DataFile<R>, s: seq<IndexEntry>, e: IndexEntry, junk: seq<u32>, size: nat)
    requires size > 0
    requires multiset(s) == multiset(t.indices + [e])
    requires DistinctKeys(t.indices, AddressKey) && Distinct(junk)
    requires forall i :: 0 <= i < |t.indices| ==> t.indices[i].address != e.address
    requires forall j :: 0 <= j < |junk| ==> junk[j] != e.address
    requires forall i, j :: 0 <= i < |t.indices| && 0 <= j < |junk| ==> t.indices[i].address != junk[j]
    requires forall i :: 0 <= i < |t.indices| ==> InSlot(t.indices[i].address, size, |t.indices| + 1 + |junk|)
    requires forall j :: 0 <= j < |junk| ==> InSlot(junk[j], size, |t.indices| + 1 + |junk|)
    requires InSlot(e.address, size, |t.indices| + 1 + |junk|)
    ensures Dense(Table(f, s, junk), size)
  {
    var n := |t.indices| + 1 + |junk|;
    var u := t.indices + [e];
    assert |s| == |u| by { assert |multiset(s)| == |multiset(u)|; }
    assert DistinctKeys(u, AddressKey) by {
      forall i | 0 <= i < |t.indices| ensures u[i] == t.indices[i] {
      }
    }
    PermutationKeepsDistinctKeys(u, s, AddressKey);
    forall i | 0 <= i < |s|
      ensures InSlot(s[i].address, size, n)
      ensures forall j :: 0 <= j < |junk| ==> s[i].address != junk[j]
    {
      assert s[i] in multiset(u);
      var k :| 0 <= k < |u| && u[k] == s[i];
      if k < |t.indices| {
        assert s[i] == t.indices[k];
      } else {
        assert s[i] == e;
      }
    }
  }

  /** Taking the oldest junk slot into the index keeps the discipline. */
  lemma ReuseKeepsDense<R>(t: Table<R>, f: DataFile<R>, id: u32, size: nat)
    requires Dense(t, size) && |t.junk| > 0
    ensures Dense(Table(f, AddIndex(t.indices, id, t.junk[0]), t.junk[1..]), size)
  {
    var rest := t.junk[1..];
    assert forall j :: 0 <= j < |rest| ==> rest[j] == t.junk[j + 1];
    AddKeepsDense(t, f, AddIndex(t.indices, id, t.junk[0]), IndexEntry(id, t.junk[0]), rest, size);
  }

  /** The end of `n` slots is a slot boundary. */
  lemma {:induction false} SpanIsBoundary(n: nat, size: nat)
    requires size > 0
    ensures Boundary(Span(n, size), size)
    decreases n
  {
    if n > 0 {
      SpanIsBoundary(n - 1, size);
    }
  }

  /** Appending the slot after the last one keeps the discipline. */
  lemma AppendKeepsDense<R>(t: Table<R>, f: DataFile<R>, id: u32, size: nat)
    requires Dense(t, size) && |t.junk| == 0
    requires Span(|t.indices| + 1, size) <= 0x1_0000_0000
    ensures Span(|t.indices|, size) < 0x1_0000_0000
    ensures Dense(Table(f, AddIndex(t.indices, id, Span(|t.indices|, size)), []), size)
  {
    var n := |t.indices|;
    SpanIsBoundary(n, size);
    forall i | 0 <= i < n
      ensures t.indices[i].address != Span(n, size)
      ensures InSlot(t.indices[i].address, size, n + 1)
    {
      assert InSlot(t.indices[i].address, size, n);
    }
    AddKeepsDense(t, f, AddIndex(t.indices, id, Span(n, size)), IndexEntry(id, Span(n, size)), [], size);
  }

  /** Moving a live slot to the end of the junk keeps the discipline,
      whatever order the remaining index is in. */
  lemma DropKeepsDense<R>(t: Table<R>, f: DataFile<R>, s: seq<IndexEntry>, e: IndexEntry, size: nat)
    requires Dense(t, size)
    requires multiset(s + [e]) == multiset(t.indices)
    ensures Dense(Table(f, s, t.junk + [e.address]), size)
  {
    var u := s + [e];
    var n := |t.indices| + |t.junk|;
    var j := t.junk + [e.address];
    assert |u| == |t.indices| by { assert |multiset(u)| == |multiset(t.indices)|; }
    PermutationKeepsDistinctKeys(t.indices, u, AddressKey);
    forall i | 0 <= i < |u|
      ensures InSlot(u[i].address, size, n)
      ensures forall j' :: 0 <= j' < |t.junk| ==> u[i].address != t.junk[j']
    {
      assert u[i] in multiset(t.indices);
      var k :| 0 <= k < |t.indices| && t.indices[k] == u[i];
    }
    forall i | 0 <= i < |s| ensures s[i] == u[i] && u[i].address != e.address {
      assert AddressKey(u[i]) != AddressKey(u[|s|]);
    }
    assert DistinctKeys(s, AddressKey) by {
      forall i, i' | 0 <= i < i' < |s| ensures AddressKey(s[i]) != AddressKey(s[i']) {
        assert s[i] == u[i] && s[i'] == u[i'];
      }
    }
    assert u[|s|] == e;
    forall i | 0 <= i < |j| ensures InSlot(j[i], size, n) {
      if i == |t.junk| { assert j[i] == u[|s|].address; }
    }
  }

  /** Freeing the slot of a found ID keeps the discipline. */
  lemma FreeKeepsDense<R>(t: Table<R>, f: DataFile<R>, id: u32, size: nat)
    requires Dense(t, size) && SortedById(t.indices) && GetAddressByIndex(t.indices, id).1
    ensures Dense(Table(f, RemoveIndex(t.indices, id), t.junk + [GetAddressByIndex(t.indices, id).0]), size)
  {
    var e := IndexEntry(id, GetAddressByIndex(t.indices, id).0);
    var s := RemoveIndex(t.indices, id);
    RemoveFound(t.indices, id);
    assert multiset(s + [e]) == multiset(t.indices);
    DropKeepsDense(t, f, s, e, size);
  }

  /** The slot discipline plus a data file that ends right after the last
      slot and holds every record inside it; the slave table keeps this,
      since InsertSlave appends at the end of the file. */
  ghost predicate Layout<R>(t: Table<R>, size: nat) {
    && Dense(t, size)
    && Shaped(t.file, size)
    && t.file.length == Span(|t.indices| + |t.junk|, size)
  }
}
