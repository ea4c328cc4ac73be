/** Certificate chains: the intrusive doubly-linked lists threaded through
    the slave data file by `previous`/`next` offsets. */
module Chains {
  import opened Types
  import opened DataFiles
  import opened Models

  /** `p` is the list of offsets reached from `a` by following `next`
      until `NoLink`, every one of them readable. */
  ghost predicate IsChain(f: DataFile<Certificate>, a: int, p: seq<int>)
    decreases |p|
  {
    if a == NoLink then p == []
    else |p| > 0 && p[0] == a && Readable(f, a) && IsChain(f, f.records[a].next, p[1..])
  }

  lemma {:induction false} ChainReadable(f: DataFile<Certificate>, a: int, p: seq<int>)
    requires IsChain(f, a, p)
    ensures forall i :: 0 <= i < |p| ==> Readable(f, p[i])
    ensures forall i :: 0 <= i < |p| - 1 ==> p[i] in f.records && f.records[p[i]].next == p[i + 1]
    ensures |p| > 0 ==> p[|p| - 1] in f.records && f.records[p[|p| - 1]].next == NoLink
    ensures |p| == 0 <==> a == NoLink
    decreases |p|
  {
    if a != NoLink {
      ChainReadable(f, f.records[a].next, p[1..]);
      forall i | 0 <= i < |p| ensures Readable(f, p[i]) {
        if i > 0 { assert p[i] == p[1..][i - 1]; }
      }
      forall i | 0 <= i < |p| - 1 ensures p[i] in f.records && f.records[p[i]].next == p[i + 1] {
        if i > 0 { assert p[i] == p[1..][i - 1] && p[i + 1] == p[1..][i]; }
      }
    }
  }

  /** Every suffix of a chain is the chain of its first offset. */
  lemma {:induction false} ChainSuffix(f: DataFile<Certificate>, a: int, p: seq<int>, i: nat)
    requires IsChain(f, a, p)
    requires i < |p|
    ensures IsChain(f, p[i], p[i..])
    decreases i
  {
    if i > 0 {
      ChainSuffix(f, f.records[a].next, p[1..], i - 1);
      assert p[1..][i - 1..] == p[i..];
    }
  }

  /** The chain from an offset is unique: the walk is deterministic. */
  lemma {:induction false} ChainUnique(f: DataFile<Certificate>, a: int, p: seq<int>, q: seq<int>)
    requires IsChain(f, a, p) && IsChain(f, a, q)
    ensures p == q
    decreases |p|
  {
    if a != NoLink {
      ChainUnique(f, f.records[a].next, p[1..], q[1..]);
      assert p == [a] + p[1..] && q == [a] + q[1..];
    }
  }

  /** A chain that reaches `NoLink` visits no offset twice. */
  lemma ChainDistinct(f: DataFile<Certificate>, a: int, p: seq<int>)
    requires IsChain(f, a, p)
    ensures Distinct(p)
  {
    forall i, j | 0 <= i < j < |p| ensures p[i] != p[j] {
      if p[i] == p[j] {
        ChainSuffix(f, a, p, i);
        ChainSuffix(f, a, p, j);
        ChainUnique(f, p[i], p[i..], p[j..]);
      }
    }
  }

  /** A chain is no longer than the file has records. */
  lemma ChainLength(f: DataFile<Certificate>, a: int, p: seq<int>)
    requires IsChain(f, a, p)
    ensures |p| <= |f.records|
  {
    ChainDistinct(f, a, p);
    ChainReadable(f, a, p);
    DistinctWithin(p, f.records.Keys);
  }

  lemma {:induction false} DistinctWithin(p: seq<int>, keys: set<int>)
    requires Distinct(p)
    requires forall i :: 0 <= i < |p| ==> p[i] in keys
    ensures |p| <= |keys|
    decreases |p|
  {
    if |p| > 0 {
      var rest := keys - {p[0]};
      forall i | 0 <= i < |p[1..]| ensures p[1..][i] in rest {
        assert p[1..][i] == p[i + 1] != p[0];
      }
      DistinctWithin(p[1..], rest);
    }
  }

  /** Number of present records on the offsets `p`. */
  function CountPresent(f: DataFile<Certificate>, p: seq<int>): nat
    requires forall i :: 0 <= i < |p| ==> p[i] in f.records
  {
    if |p| == 0 then 0
    else (if f.records[p[0]].presence then 1 else 0) + CountPresent(f, p[1..])
  }

  /** The loop of `NumberOfSubrecords` with at most `fuel` more reads. A
      read failure ends the count; running out of fuel at a readable offset
      means an offset repeated, so the source would loop for ever. */
  function CountFrom(f: DataFile<Certificate>, a: int, fuel: nat): Walk<nat>
    decreases fuel
  {
    if a == NoLink then Ends(0)
    else match Read(f, a)
      case Err(_) => Ends(0)
      case Ok(c) =>
        if fuel == 0 then Cycles
        else match CountFrom(f, c.next, fuel - 1)
          case Cycles => Cycles
          case Ends(n) => Ends((if c.presence then 1 else 0) + n)
  }

  /** `NumberOfSubrecords(flFile, first)`. The fuel is the number of
      records: one read more than that must revisit an offset. */
  function NumberOfSubrecords(f: DataFile<Certificate>, first: int): Walk<nat> {
    CountFrom(f, first, |f.records|)
  }

  lemma {:induction false} CountFromChain(f: DataFile<Certificate>, a: int, p: seq<int>, fuel: nat)
    requires IsChain(f, a, p)
    requires |p| <= fuel
    ensures forall i :: 0 <= i < |p| ==> p[i] in f.records
    ensures CountFrom(f, a, fuel) == Ends(CountPresent(f, p))
    decreases |p|
  {
    ChainReadable(f, a, p);
    if a != NoLink {
      CountFromChain(f, f.records[a].next, p[1..], fuel - 1);
    }
  }

  /** On an acyclic chain, `NumberOfSubrecords` counts exactly the present
      certificates on it. */
  lemma NumberOfSubrecordsCountsChain(f: DataFile<Certificate>, a: int, p: seq<int>)
    requires IsChain(f, a, p)
    ensures forall i :: 0 <= i < |p| ==> p[i] in f.records
    ensures NumberOfSubrecords(f, a) == Ends(CountPresent(f, p))
  {
    ChainLength(f, a, p);
    CountFromChain(f, a, p, |f.records|);
  }

  /** A certificate whose `next` is itself makes the count loop for ever. */
  lemma {:induction false} SelfLoopCycles(f: DataFile<Certificate>, a: int, fuel: nat)
    requires Readable(f, a) && f.records[a].next == a
    ensures CountFrom(f, a, fuel) == Cycles
    decreases fuel
  {
    if fuel > 0 {
      SelfLoopCycles(f, a, fuel - 1);
    }
  }

  /** The tail search of `InsertSlave`, started at a non-`NoLink` offset:
      the offset and record of the last node, or the read error met on the
      way. */
  function FindTail(f: DataFile<Certificate>, a: int, fuel: nat): (r: Walk<Result<(int, Certificate)>>)
    ensures r.Ends? && r.value.Err? ==> IoError(r.value.error)
    decreases fuel
  {
    match Read(f, a)
    case Err(e) => Ends(Err(e))
    case Ok(c) =>
      if fuel == 0 then Cycles
      else if c.next == NoLink then Ends(Ok((a, c)))
      else FindTail(f, c.next, fuel - 1)
  }

  /** What the tail search returns was read where it says. */
  lemma {:induction false} FindTailReads(f: DataFile<Certificate>, a: int, fuel: nat)
    ensures FindTail(f, a, fuel).Ends? && FindTail(f, a, fuel).value.Ok? ==>
              var (tail, last) := FindTail(f, a, fuel).value.value;
              Readable(f, tail) && last == f.records[tail] && last.next == NoLink
    decreases fuel
  {
    if Read(f, a).Ok? && fuel > 0 && f.records[a].next != NoLink {
      FindTailReads(f, f.records[a].next, fuel - 1);
    }
  }

  /** On a chain, the tail search ends at the chain's last offset. */
  lemma {:induction false} FindTailOfChain(f: DataFile<Certificate>, a: int, p: seq<int>, fuel: nat)
    requires IsChain(f, a, p) && |p| > 0
    requires |p| <= fuel
    ensures Readable(f, p[|p| - 1])
    ensures FindTail(f, a, fuel) == Ends(Ok((p[|p| - 1], f.records[p[|p| - 1]])))
    decreases |p|
  {
    ChainReadable(f, a, p);
    if |p| > 1 {
      FindTailOfChain(f, f.records[a].next, p[1..], fuel - 1);
    }
  }

  /** Reads the certificate at `a`, points its `next` at `v` and writes it
      back. */
  function SetNext(f: DataFile<Certificate>, a: int, v: int): (r: Result<DataFile<Certificate>>)
    ensures r.Ok? <==> Readable(f, a) && a !in f.badWrites
    ensures r.Err? ==> IoError(r.error)
    ensures r.Ok? ==> r.value.records == f.records[a := f.records[a].(next := v)] && SameFaults(f, r.value)
    ensures r.Ok? && Shaped(f, CertificateSize) ==> Shaped(r.value, CertificateSize) && r.value.length == f.length
  {
    match Read(f, a)
    case Err(e) => Err(e)
    case Ok(c) => Write(f, a, c.(next := v), CertificateSize)
  }

  /** Reads the certificate at `a`, points its `previous` at `v` and
      writes it back. */
  function SetPrevious(f: DataFile<Certificate>, a: int, v: int): (r: Result<DataFile<Certificate>>)
    ensures r.Ok? <==> Readable(f, a) && a !in f.badWrites
    ensures r.Err? ==> IoError(r.error)
    ensures r.Ok? ==> r.value.records == f.records[a := f.records[a].(previous := v)] && SameFaults(f, r.value)
    ensures r.Ok? && Shaped(f, CertificateSize) ==> Shaped(r.value, CertificateSize) && r.value.length == f.length
  {
    match Read(f, a)
    case Err(e) => Err(e)
    case Ok(c) => Write(f, a, c.(previous := v), CertificateSize)
  }

  /** The link of the present record at `a` is mirrored by its
      neighbours, which are present too. */
  ghost predicate NodeLinked(f: DataFile<Certificate>, a: int)
    requires a in f.records
  {
    var n := f.records[a];
    && (n.next != NoLink ==>
          n.next in f.records && f.records[n.next].presence && f.records[n.next].previous == a)
    && (n.previous != NoLink ==>
          n.previous in f.records && f.records[n.previous].presence && f.records[n.previous].next == a)
  }

  /** The doubly-linked invariant over all present certificates: `A.next ==
      B` exactly when `B.previous == A`. */
  ghost predicate Linked(f: DataFile<Certificate>) {
    && (forall a :: a in f.records ==> 0 <= a)
    && (forall a :: a in f.records && f.records[a].presence ==> NodeLinked(f, a))
  }
}
