/** The `.ind` and `.jk` service files: flat runs of big-endian `u32`s,
    written after truncation and read back until end of file. */
module IndexFile {
  import opened Types
  import opened Sorting
  import opened IndexTable

  /** Big-endian encoding of one `u32`. */
  function EncodeU32(x: u32): (b: seq<byte>)
    ensures |b| == 4
  {
    var y := x / 0x100;
    var z := y / 0x100;
    [z / 0x100, z % 0x100, y % 0x100, x % 0x100]
  }

  function DecodeU32(b: seq<byte>): (x: u32)
    requires |b| == 4
  {
    ((b[0] as int * 0x100 + b[1]) * 0x100 + b[2]) * 0x100 + b[3]
  }

  lemma DecodeEncodeU32(x: u32)
    ensures DecodeU32(EncodeU32(x)) == x
  {
    var y := x / 0x100;
    var z := y / 0x100;
    assert z / 0x100 * 0x100 + z % 0x100 == z;
    assert z * 0x100 + y % 0x100 == y;
    assert y * 0x100 + x % 0x100 == x;
  }

  /** `binary.Write` of an `[]IndexTable`: eight bytes per entry, ID first. */
  function EncodeEntries(s: seq<IndexEntry>): (b: seq<byte>)
    ensures |b| == 8 * |s|
  {
    if |s| == 0 then []
    else EncodeU32(s[0].index) + EncodeU32(s[0].address) + EncodeEntries(s[1..])
  }

  /** The read loop of `LoadIndices`: a clean end of file stops it, a
      partial trailing entry is an error. */
  function DecodeEntries(b: seq<byte>): (r: Result<seq<IndexEntry>>)
    ensures r.Ok? ==> 8 * |r.value| == |b|
    decreases |b|
  {
    if |b| == 0 then Ok([])
    else if |b| < 8 then Err(Malformed)
    else
      match DecodeEntries(b[8..])
      case Err(e) => Err(e)
      case Ok(rest) => Ok([IndexEntry(DecodeU32(b[..4]), DecodeU32(b[4..8]))] + rest)
  }

  /** The bytes `WriteIndices` leaves in the `.ind` file. */
  function WriteIndices(s: seq<IndexEntry>): (b: seq<byte>)
    ensures |b| == 8 * |s|
  {
    EncodeEntries(SortIndices(s))
  }

  function LoadIndices(b: seq<byte>): Result<seq<IndexEntry>> {
    DecodeEntries(b)
  }

  lemma {:induction false} DecodeEncodeEntries(s: seq<IndexEntry>)
    ensures DecodeEntries(EncodeEntries(s)) == Ok(s)
  {
    if |s| > 0 {
      var b := EncodeEntries(s);
      DecodeEncodeU32(s[0].index);
      DecodeEncodeU32(s[0].address);
      assert b[..4] == EncodeU32(s[0].index);
      assert b[4..8] == EncodeU32(s[0].address);
      assert b[8..] == EncodeEntries(s[1..]);
      DecodeEncodeEntries(s[1..]);
      assert s == [s[0]] + s[1..];
    }
  }

  /** Loading the index after writing it yields the same entries, ascending
      by ID. */
  lemma LoadAfterWrite(s: seq<IndexEntry>)
    ensures LoadIndices(WriteIndices(s)) == Ok(SortIndices(s))
    ensures LoadIndices(WriteIndices(s)).Ok? && multiset(LoadIndices(WriteIndices(s)).value) == multiset(s)
  {
    DecodeEncodeEntries(SortIndices(s));
  }

  /** With unique IDs, a flush of a reloaded index writes the same bytes
      again. */
  lemma FlushAfterReloadIsIdentical(s: seq<IndexEntry>)
    requires UniqueIds(s)
    ensures LoadIndices(WriteIndices(s)).Ok?
    ensures WriteIndices(LoadIndices(WriteIndices(s)).value) == WriteIndices(s)
  {
    LoadAfterWrite(s);
    var t := SortIndices(s);
    var u := SortIndices(t);
    PermutationKeepsUniqueIds(s, t);
    forall i, j | 0 <= i < j < |u| ensures IdKey(u[i]) != IdKey(u[j]) {
      PermutationKeepsUniqueIds(t, u);
    }
    SortedPermutationUnique(u, t, IdKey);
  }

  /** `binary.Write` of a `[]uint32` junk list. */
  function WriteJunk(junk: seq<u32>): (b: seq<byte>)
    ensures |b| == 4 * |junk|
  {
    if |junk| == 0 then [] else EncodeU32(junk[0]) + WriteJunk(junk[1..])
  }

  /** The read loop of `LoadJunk`. */
  function LoadJunk(b: seq<byte>): (r: Result<seq<u32>>)
    ensures r.Ok? ==> 4 * |r.value| == |b|
    decreases |b|
  {
    if |b| == 0 then Ok([])
    else if |b| < 4 then Err(Malformed)
    else
      match LoadJunk(b[4..])
      case Err(e) => Err(e)
      case Ok(rest) => Ok([DecodeU32(b[..4])] + rest)
  }

  /** The junk list reads back exactly, in its FIFO order. */
  lemma {:induction false} LoadJunkAfterWrite(junk: seq<u32>)
    ensures LoadJunk(WriteJunk(junk)) == Ok(junk)
  {
    if |junk| > 0 {
      var b := WriteJunk(junk);
      var rest := junk[1..];
      var head := EncodeU32(junk[0]);
      assert b == head + WriteJunk(rest);
      assert b[..4] == head;
      assert b[4..] == WriteJunk(rest);
      LoadJunkAfterWrite(rest);
      DecodeEncodeU32(junk[0]);
      assert LoadJunk(b) == Ok([junk[0]] + rest);
      assert junk == [junk[0]] + rest;
    }
  }

  /** A file whose length is not a multiple of eight does not load. */
  lemma TruncatedIndexFileRejected(b: seq<byte>)
    requires |b| % 8 != 0
    ensures LoadIndices(b) == Err(Malformed)
  {
    if |b| >= 8 {
      TruncatedIndexFileRejected(b[8..]);
    }
  }
}
