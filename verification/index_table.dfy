/** The index table: `(ID, address)` pairs kept ascending by ID and
    searched by binary search. One definition serves both copies of the
    helpers in the source (the `driver` package and `driver/utils`). */
module IndexTable {
  import opened Types
  import opened Sorting

  /** One entry of an `.ind` file. */
  datatype IndexEntry = IndexEntry(index: u32, address: u32)

  /** Sort key of the index: the logical ID. */
  function IdKey(e: IndexEntry): int { e.index }

  ghost predicate SortedById(s: seq<IndexEntry>) {
    SortedBy(s, IdKey)
  }

  ghost predicate UniqueIds(s: seq<IndexEntry>) {
    DistinctKeys(s, IdKey)
  }

  ghost predicate HasId(s: seq<IndexEntry>, id: u32) {
    exists i :: 0 <= i < |s| && s[i].index == id
  }

  /** The set of logical IDs in the index. */
  ghost function Ids(s: seq<IndexEntry>): set<u32> {
    set i | 0 <= i < |s| :: s[i].index
  }

  /** `SortIndices`: the same entries, ascending by ID. */
  function SortIndices(s: seq<IndexEntry>): (r: seq<IndexEntry>)
    ensures |r| == |s|
    ensures multiset(r) == multiset(s)
    ensures SortedById(r)
  {
    SortBy(s, IdKey)
  }

  /** `AddIndex`: appends `(id, address)` and re-sorts. */
  function AddIndex(s: seq<IndexEntry>, id: u32, address: u32): (r: seq<IndexEntry>)
    ensures |r| == |s| + 1
    ensures multiset(r) == multiset(s) + multiset{IndexEntry(id, address)}
    ensures SortedById(r)
  {
    SortIndices(s + [IndexEntry(id, address)])
  }

  /** Position of the first entry whose ID is `id`, or `|s|` when none. */
  function FindFirst(s: seq<IndexEntry>, id: u32): (k: nat)
    ensures k <= |s|
    ensures k < |s| ==> s[k].index == id
    ensures forall j :: 0 <= j < k ==> s[j].index != id
  {
    if |s| == 0 then 0
    else if s[0].index == id then 0
    else 1 + FindFirst(s[1..], id)
  }

  /** `RecordExists`: a linear scan for `id`. */
  function RecordExists(s: seq<IndexEntry>, id: u32): (r: bool)
    ensures r <==> HasId(s, id)
  {
    if |s| == 0 then false
    else if s[0].index == id then true
    else
      var found := RecordExists(s[1..], id);
      assert found ==> HasId(s, id) by {
        if found {
          var i :| 0 <= i < |s[1..]| && s[1..][i].index == id;
          assert s[i + 1].index == id;
        }
      }
      assert HasId(s, id) ==> found by {
        if HasId(s, id) {
          var i :| 0 <= i < |s| && s[i].index == id;
          assert s[1..][i - 1].index == id;
        }
      }
      found
  }

  /** `RemoveIndex`: drops the first entry whose ID is `id` and keeps the
      others in order; an absent `id` changes nothing. */
  function RemoveIndex(s: seq<IndexEntry>, id: u32): (r: seq<IndexEntry>)
    ensures !HasId(s, id) ==> r == s
    ensures HasId(s, id) ==>
      exists k :: 0 <= k < |s| && s[k].index == id && (forall j :: 0 <= j < k ==> s[j].index != id)
                  && r == s[..k] + s[k + 1..]
    ensures HasId(s, id) ==> |r| == |s| - 1
    ensures SortedById(s) ==> SortedById(r)
    ensures UniqueIds(s) ==> UniqueIds(r) && !HasId(r, id)
    ensures forall e :: e in r ==> e in s
  {
    var k := FindFirst(s, id);
    if k < |s| then
      var r := s[..k] + s[k + 1..];
      assert forall i :: 0 <= i < |r| ==> r[i] == s[if i < k then i else i + 1];
      r
    else s
  }

  /** `UpdateAddress`: rewrites the address of the first entry whose ID is
      `id`; length, order and every ID stay as they were. */
  function UpdateAddress(s: seq<IndexEntry>, id: u32, address: u32): (r: seq<IndexEntry>)
    ensures |r| == |s|
    ensures forall i :: 0 <= i < |s| ==> r[i].index == s[i].index
    ensures !HasId(s, id) ==> r == s
    ensures HasId(s, id) ==>
      exists k :: 0 <= k < |s| && s[k].index == id && (forall j :: 0 <= j < k ==> s[j].index != id)
                  && r[k].address == address && (forall j :: 0 <= j < |s| && j != k ==> r[j] == s[j])
    ensures SortedById(s) ==> SortedById(r)
    ensures UniqueIds(s) ==> UniqueIds(r)
  {
    var k := FindFirst(s, id);
    if k < |s| then s[k := IndexEntry(id, address)] else s
  }

  /** Go's `sort.Search(len(s), i => s[i].index >= id)` restricted to
      `[lo, hi)`: the least position whose ID is at least `id`. */
  function SearchAtLeast(s: seq<IndexEntry>, id: u32, lo: nat, hi: nat): (i: nat)
    requires lo <= hi <= |s|
    ensures lo <= i <= hi
    ensures SortedById(s) && (forall k :: 0 <= k < lo ==> s[k].index < id)
            && (forall k :: hi <= k < |s| ==> s[k].index >= id)
            ==> (forall k :: 0 <= k < i ==> s[k].index < id) && (forall k :: i <= k < |s| ==> s[k].index >= id)
    decreases hi - lo
  {
    if lo < hi then
      var h := (lo + hi) / 2;
      if s[h].index < id then SearchAtLeast(s, id, h + 1, hi) else SearchAtLeast(s, id, lo, h)
    else lo
  }

  /** `GetAddressByIndex`: binary search for `id`. On an index sorted by ID
      it finds `(id, a)` exactly when such an entry exists, and then the
      first one; otherwise it returns `(0, false)`. */
  function GetAddressByIndex(s: seq<IndexEntry>, id: u32): (r: (u32, bool))
    ensures !r.1 ==> r.0 == 0
    ensures r.1 ==> IndexEntry(id, r.0) in s
    ensures SortedById(s) ==> (r.1 <==> HasId(s, id))
    ensures SortedById(s) && r.1 ==> FindFirst(s, id) < |s| && r.0 == s[FindFirst(s, id)].address
  {
    var i := SearchAtLeast(s, id, 0, |s|);
    if i < |s| && s[i].index == id then
      assert SortedById(s) ==> FindFirst(s, id) == i;
      assert s[i] == IndexEntry(id, s[i].address);
      (s[i].address, true)
    else
      assert SortedById(s) ==> !HasId(s, id);
      (0, false)
  }

  /** `NumberOfRecords`: the number of index entries. */
  function NumberOfRecords(s: seq<IndexEntry>): nat {
    |s|
  }

  /** With unique IDs the record count is the number of live logical IDs. */
  lemma {:induction false} NumberOfRecordsCountsIds(s: seq<IndexEntry>)
    requires UniqueIds(s)
    ensures NumberOfRecords(s) == |Ids(s)|
  {
    if |s| > 0 {
      var t := s[1..];
      assert UniqueIds(t);
      NumberOfRecordsCountsIds(t);
      assert Ids(s) == {s[0].index} + Ids(t) by {
        forall x | x in Ids(s) ensures x in {s[0].index} + Ids(t) {
          var i :| 0 <= i < |s| && s[i].index == x;
          if i > 0 { assert t[i - 1].index == x; }
        }
        forall x | x in Ids(t) ensures x in Ids(s) {
          var i :| 0 <= i < |t| && t[i].index == x;
          assert s[i + 1].index == x;
        }
      }
      assert s[0].index !in Ids(t) by {
        forall i | 0 <= i < |t| ensures t[i].index != s[0].index {
          assert t[i] == s[i + 1];
        }
      }
    }
  }

  /** On a sorted index the binary search and the linear scan agree. */
  lemma LookupAgreesWithScan(s: seq<IndexEntry>, id: u32)
    requires SortedById(s)
    ensures GetAddressByIndex(s, id).1 == RecordExists(s, id)
  {
  }

  /** On a sorted index with unique IDs, looking up the ID of an entry
      yields that entry's address. */
  lemma LookupEntry(s: seq<IndexEntry>, e: IndexEntry)
    requires SortedById(s) && UniqueIds(s) && e in s
    ensures GetAddressByIndex(s, e.index) == (e.address, true)
  {
    var j :| 0 <= j < |s| && s[j] == e;
    var (a, ok) := GetAddressByIndex(s, e.index);
    assert ok;
    var i :| 0 <= i < |s| && s[i] == IndexEntry(e.index, a);
    assert IdKey(s[i]) == IdKey(s[j]);
  }

  /** After adding a fresh ID, looking it up yields the address it was
      added with, and IDs stay unique. */
  lemma AddThenLookup(s: seq<IndexEntry>, id: u32, address: u32)
    requires !HasId(s, id)
    ensures GetAddressByIndex(AddIndex(s, id, address), id) == (address, true)
    ensures UniqueIds(s) ==> UniqueIds(AddIndex(s, id, address))
  {
    var r := AddIndex(s, id, address);
    var e := IndexEntry(id, address);
    assert e in multiset(r);
    var (a, ok) := GetAddressByIndex(r, id);
    assert IndexEntry(id, a) in multiset(s) + multiset{e};
    if UniqueIds(s) {
      var t := s + [e];
      assert UniqueIds(t) by {
        forall i | 0 <= i < |s| ensures t[i].index != id {
          assert t[i] == s[i];
        }
      }
      PermutationKeepsUniqueIds(t, r);
    }
  }

  /** Unique IDs survive any permutation, sorting included. */
  lemma PermutationKeepsUniqueIds(a: seq<IndexEntry>, b: seq<IndexEntry>)
    requires multiset(a) == multiset(b)
    requires UniqueIds(a)
    ensures UniqueIds(b)
  {
    PermutationKeepsDistinctKeys(a, b, IdKey);
  }

  /** On a sorted index, removing an ID the lookup finds takes out exactly
      the entry the lookup returned. */
  lemma RemoveFound(s: seq<IndexEntry>, id: u32)
    requires SortedById(s) && GetAddressByIndex(s, id).1
    ensures IndexEntry(id, GetAddressByIndex(s, id).0) in s
    ensures multiset(RemoveIndex(s, id)) + multiset{IndexEntry(id, GetAddressByIndex(s, id).0)} == multiset(s)
  {
    var k := FindFirst(s, id);
    var e := IndexEntry(id, GetAddressByIndex(s, id).0);
    assert s[k] == e;
    assert RemoveIndex(s, id) == s[..k] + s[k + 1..];
    assert s == s[..k] + [e] + s[k + 1..];
    assert multiset(s) == multiset(s[..k]) + multiset{e} + multiset(s[k + 1..]);
  }

  /** With unique IDs, removing `id` makes it absent and keeps every other
      ID. */
  lemma RemoveThenMissing(s: seq<IndexEntry>, id: u32, other: u32)
    requires UniqueIds(s)
    requires other != id
    ensures !RecordExists(RemoveIndex(s, id), id)
    ensures RecordExists(RemoveIndex(s, id), other) == RecordExists(s, other)
  {
    var r := RemoveIndex(s, id);
    if HasId(s, id) {
      var k :| 0 <= k < |s| && s[k].index == id && r == s[..k] + s[k + 1..];
      if HasId(s, other) {
        var i :| 0 <= i < |s| && s[i].index == other;
        assert r[if i < k then i else i - 1].index == other;
      }
    }
  }

  /** `GetLastRecordAddress` as written: the address of the last index
      entry. The index is kept sorted by ID, so this is the address of the
      highest ID, which need not be the last record of the file. */
  function GetLastRecordAddress(s: seq<IndexEntry>): (r: (u32, bool))
    ensures r.1 <==> |s| > 0
    ensures !r.1 ==> r.0 == 0
    ensures r.1 && SortedById(s) ==>
      exists k :: 0 <= k < |s| && s[k].address == r.0 && forall j :: 0 <= j < |s| ==> s[j].index <= s[k].index
  {
    if |s| == 0 then (0, false) else (s[|s| - 1].address, true)
  }

  /** Two records, the higher ID stored first: the reported "last" address
      is 0, while the record at offset 108 lies after it. */
  lemma GetLastRecordAddressNotLastInFile()
    ensures var s := [IndexEntry(1, 108), IndexEntry(2, 0)];
            SortedById(s) && GetLastRecordAddress(s) == (0, true) && s[0].address > 0
  {
  }

  /** The intended lookup: the greatest address in the index, i.e. the
      record that ends the data file. */
  function LastRecordAddress(s: seq<IndexEntry>): (r: (u32, bool))
    ensures r.1 <==> |s| > 0
    ensures !r.1 ==> r.0 == 0
    ensures r.1 ==> exists k :: 0 <= k < |s| && s[k].address == r.0
    ensures forall j :: 0 <= j < |s| ==> s[j].address <= r.0
  {
    if |s| == 0 then (0, false)
    else
      var (rest, ok) := LastRecordAddress(s[1..]);
      if ok && rest > s[0].address then
        assert s[1..][0] == s[1];
        (rest, true)
      else (s[0].address, true)
  }
}
