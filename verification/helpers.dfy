/** `deleteSubrecords`: the cascade that DeleteMaster runs over a course's
    certificate chain. */
module Helpers {
  import opened Types
  import opened Bytes
  import opened DataFiles
  import opened IndexTable
  import opened Models
  import opened Tables
  import opened Chains

  /** A certificate as the cascade rewrites it: text cleared, `next`
      cut, marked absent; `previous` and the IDs are kept. */
  function Cleared(c: Certificate): (r: Certificate)
    ensures r.id == c.id && r.courseId == c.courseId && r.previous == c.previous
    ensures r.issuedTo == Zeros(IssuedToWidth) && r.next == NoLink && !r.presence
  {
    c.(issuedTo := Zeros(IssuedToWidth), next := NoLink, presence := false)
  }

  /** Offsets whose record still links onward; the cascade shrinks this set
      at every step it continues, so it stops even on a cyclic chain. */
  ghost function LinkedOnward(f: DataFile<Certificate>): set<int> {
    set k | k in f.records && f.records[k].next != NoLink
  }

  /** The loop of `deleteSubrecords(flFile, a)`. The next offset is taken
      before the record is cleared; the offset is junked and the ID
      unindexed before the write, so a failing write leaves both done. */
  function DeleteSubrecords(t: Table<Certificate>, a: int): (r: Table<Certificate>)
    ensures r.file.records.Keys == t.file.records.Keys && SameFaults(r.file, t.file)
    ensures |r.indices| <= |t.indices|
    ensures |t.junk| <= |r.junk|
    decreases LinkedOnward(t.file)
  {
    if a == NoLink then t
    else match Read(t.file, a)
      case Err(_) => t
      case Ok(c) =>
        var t1 := t.(junk := t.junk + [U32(a)], indices := RemoveIndex(t.indices, c.id));
        match Write(t.file, a, Cleared(c), CertificateSize)
        case Err(_) => t1
        case Ok(f) =>
          if c.next == NoLink then t1.(file := f)
          else
            assert LinkedOnward(f) < LinkedOnward(t.file) by {
              assert a in LinkedOnward(t.file) && a !in LinkedOnward(f);
              assert f.records.Keys == t.file.records.Keys;
            }
            DeleteSubrecords(t1.(file := f), c.next)
  }

  /** `uint32(a)` for each offset, in order. */
  function JunkOf(p: seq<int>): (r: seq<u32>)
    ensures |r| == |p| && forall i :: 0 <= i < |p| ==> r[i] == U32(p[i])
  {
    seq(|p|, i requires 0 <= i < |p| => U32(p[i]))
  }

  /** The IDs of the records at `p`, in order. */
  function IdsAt(f: DataFile<Certificate>, p: seq<int>): (r: seq<u32>)
    requires forall i :: 0 <= i < |p| ==> p[i] in f.records
    ensures |r| == |p| && forall i :: 0 <= i < |p| ==> r[i] == f.records[p[i]].id
  {
    seq(|p|, i requires 0 <= i < |p| => f.records[p[i]].id)
  }

  /** `RemoveIndex` for each ID in turn. */
  function RemoveAll(s: seq<IndexEntry>, ids: seq<u32>): seq<IndexEntry>
  {
    if |ids| == 0 then s else RemoveAll(RemoveIndex(s, ids[0]), ids[1..])
  }

  /** Position of the first offset of `p` whose write fails, or `|p|`. */
  function FirstBadWrite(f: DataFile<Certificate>, p: seq<int>): (k: nat)
    ensures k <= |p|
    ensures k < |p| ==> p[k] in f.badWrites
    ensures forall i :: 0 <= i < k ==> p[i] !in f.badWrites
  {
    if |p| == 0 then 0
    else if p[0] in f.badWrites then 0
    else 1 + FirstBadWrite(f, p[1..])
  }

  /** Records that differ from `f` at most at offset `a`. */
  ghost predicate ChangedOnlyAt(f: DataFile<Certificate>, g: DataFile<Certificate>, a: int) {
    && SameFaults(f, g) && f.records.Keys == g.records.Keys
    && forall k :: k in f.records && k != a ==> g.records[k] == f.records[k]
  }

  /** A chain that avoids the one changed offset is still a chain. */
  lemma {:induction false} ChainFrame(f: DataFile<Certificate>, g: DataFile<Certificate>, a: int, b: int, q: seq<int>)
    requires IsChain(f, b, q)
    requires ChangedOnlyAt(f, g, a)
    requires a !in q
    ensures IsChain(g, b, q)
    decreases |q|
  {
    if b != NoLink {
      ChainFrame(f, g, a, f.records[b].next, q[1..]);
    }
  }

  /** With no failing write on `p`, the cascade reaches all of it. */
  lemma {:induction false} NoBadWrite(f: DataFile<Certificate>, p: seq<int>)
    requires forall i :: 0 <= i < |p| ==> p[i] !in f.badWrites
    ensures FirstBadWrite(f, p) == |p| && Reached(f, p) == |p|
    decreases |p|
  {
    if |p| > 0 {
      NoBadWrite(f, p[1..]);
    }
  }

  /** The span of a cascade over `p`: the number of records it reaches
      before stopping at the first failing write, that one included. */
  function Reached(f: DataFile<Certificate>, p: seq<int>): (n: nat)
    ensures n <= |p|
  {
    var m := FirstBadWrite(f, p);
    if m < |p| then m + 1 else m
  }

  /** The cascade's span over `p` is one more than its span over `p[1..]`
      when the first write succeeds, in any file with the same faults. */
  lemma ReachedStep(f: DataFile<Certificate>, g: DataFile<Certificate>, p: seq<int>)
    requires |p| > 0 && p[0] !in f.badWrites && SameFaults(f, g)
    ensures FirstBadWrite(g, p[1..]) == FirstBadWrite(f, p) - 1
    ensures Reached(g, p[1..]) == Reached(f, p) - 1
  {
    FirstBadWriteFaults(f, g, p[1..]);
  }

  /** `FirstBadWrite` depends on the faults only. */
  lemma {:induction false} FirstBadWriteFaults(f: DataFile<Certificate>, g: DataFile<Certificate>, p: seq<int>)
    requires SameFaults(f, g)
    ensures FirstBadWrite(g, p) == FirstBadWrite(f, p)
    decreases |p|
  {
    if |p| > 0 && p[0] !in f.badWrites {
      FirstBadWriteFaults(f, g, p[1..]);
    }
  }

  /** Junking a non-empty prefix is junking its head, then the rest. */
  lemma JunkOfCons(p: seq<int>, n: nat)
    requires 0 < n <= |p|
    ensures JunkOf(p[..n]) == [U32(p[0])] + JunkOf(p[1..][..n - 1])
  {
    assert p[..n] == [p[0]] + p[1..][..n - 1];
  }

  /** The IDs of a non-empty prefix are its head's ID, then those of the
      rest, read from any file that agrees on the rest. */
  lemma IdsAtCons(f: DataFile<Certificate>, g: DataFile<Certificate>, p: seq<int>, n: nat)
    requires 0 < n <= |p|
    requires forall i :: 0 <= i < |p| ==> p[i] in f.records
    requires ChangedOnlyAt(f, g, p[0]) && p[0] !in p[1..]
    ensures forall i :: 0 <= i < n - 1 ==> p[1..][i] in g.records
    ensures IdsAt(f, p[..n]) == [f.records[p[0]].id] + IdsAt(g, p[1..][..n - 1])
  {
    forall j | 1 <= j < n ensures g.records[p[j]] == f.records[p[j]] {
      assert p[j] == p[1..][j - 1];
    }
  }

  /** One step of the cascade at a readable, writable offset that links
      onward. */
  lemma CascadeContinues(t: Table<Certificate>, a: int)
    requires Readable(t.file, a) && a !in t.file.badWrites
    requires t.file.records[a].next != NoLink
    ensures var c := t.file.records[a];
            var f := Write(t.file, a, Cleared(c), CertificateSize).value;
            DeleteSubrecords(t, a)
            == DeleteSubrecords(Table(f, RemoveIndex(t.indices, c.id), t.junk + [U32(a)]), c.next)
  {
  }

  /** The cascade over a chain `p` (the chain from `a` in the file as it is
      before the cascade): with `m` the first offset whose write fails and
      `n` the number of records the loop got to, it clears exactly
      `p[..m]`, appends `p[..n]` to the junk in walk order and unindexes
      the IDs found there. Nothing else in the file changes. */
  lemma CascadeOverChain(t: Table<Certificate>, a: int, p: seq<int>)
    requires IsChain(t.file, a, p)
    ensures forall i :: 0 <= i < |p| ==> p[i] in t.file.records
    ensures DeleteSubrecords(t, a).junk == t.junk + JunkOf(p[..Reached(t.file, p)])
    ensures DeleteSubrecords(t, a).indices == RemoveAll(t.indices, IdsAt(t.file, p[..Reached(t.file, p)]))
    ensures ChangedOnlyOn(t.file, DeleteSubrecords(t, a).file, p[..FirstBadWrite(t.file, p)])
    ensures forall i :: 0 <= i < FirstBadWrite(t.file, p) ==>
              DeleteSubrecords(t, a).file.records[p[i]] == Cleared(t.file.records[p[i]])
  {
    ChainReadable(t.file, a, p);
    CascadeJunk(t, a, p);
    CascadeIndices(t, a, p);
    CascadeFile(t, a, p);
  }

  /** What the inductive steps of the cascade share: when the first record
      is written and links onward, the cascade goes on from the next offset
      in a file changed only at `a`, where the rest of `p` is a chain. */
  lemma CascadeStepSetup(t: Table<Certificate>, a: int, p: seq<int>)
    requires IsChain(t.file, a, p) && a != NoLink
    requires a !in t.file.badWrites && t.file.records[a].next != NoLink
    ensures var c := t.file.records[a];
            var f := Write(t.file, a, Cleared(c), CertificateSize).value;
            && |p| > 1 && p[0] == a && a !in p[1..]
            && (forall i :: 0 <= i < |p| ==> p[i] in t.file.records)
            && ChangedOnlyAt(t.file, f, a)
            && IsChain(f, c.next, p[1..])
            && DeleteSubrecords(t, a)
               == DeleteSubrecords(Table(f, RemoveIndex(t.indices, c.id), t.junk + [U32(a)]), c.next)
  {
    ChainReadable(t.file, a, p);
    ChainDistinct(t.file, a, p);
    var c := t.file.records[a];
    var f := Write(t.file, a, Cleared(c), CertificateSize).value;
    CascadeContinues(t, a);
    assert ChangedOnlyAt(t.file, f, a);
    var q := p[1..];
    assert a !in q by {
      forall i | 0 <= i < |q| ensures q[i] != a { assert q[i] == p[i + 1]; }
    }
    ChainFrame(t.file, f, a, c.next, q);
  }

  /** The cascade's junk: the reached prefix of `p`, in walk order. */
  lemma {:induction false} CascadeJunk(t: Table<Certificate>, a: int, p: seq<int>)
    requires IsChain(t.file, a, p)
    ensures DeleteSubrecords(t, a).junk == t.junk + JunkOf(p[..Reached(t.file, p)])
    decreases |p|
  {
    ChainReadable(t.file, a, p);
    if a != NoLink {
      var c := t.file.records[a];
      if a in t.file.badWrites {
        assert FirstBadWrite(t.file, p) == 0 && Reached(t.file, p) == 1;
        assert JunkOf(p[..1]) == [U32(a)];
      } else if c.next == NoLink {
        assert |p| == 1;
        assert FirstBadWrite(t.file, p) == 1 && Reached(t.file, p) == 1;
        assert p[..1] == [a];
        assert JunkOf(p[..1]) == [U32(a)];
      } else {
        var f := Write(t.file, a, Cleared(c), CertificateSize).value;
        var t1 := Table(f, RemoveIndex(t.indices, c.id), t.junk + [U32(a)]);
        CascadeStepSetup(t, a, p);
        CascadeJunk(t1, c.next, p[1..]);
        ReachedStep(t.file, f, p);
        JunkOfCons(p, Reached(t.file, p));
      }
    }
  }

  /** The cascade's index: the IDs of the reached prefix are removed. */
  lemma {:induction false} CascadeIndices(t: Table<Certificate>, a: int, p: seq<int>)
    requires IsChain(t.file, a, p)
    ensures forall i :: 0 <= i < |p| ==> p[i] in t.file.records
    ensures DeleteSubrecords(t, a).indices == RemoveAll(t.indices, IdsAt(t.file, p[..Reached(t.file, p)]))
    decreases |p|
  {
    ChainReadable(t.file, a, p);
    if a != NoLink {
      var c := t.file.records[a];
      if a in t.file.badWrites {
        assert FirstBadWrite(t.file, p) == 0 && Reached(t.file, p) == 1;
        assert IdsAt(t.file, p[..1]) == [c.id];
      } else if c.next == NoLink {
        assert |p| == 1;
        assert FirstBadWrite(t.file, p) == 1 && Reached(t.file, p) == 1;
        assert p[..1] == [a];
        assert IdsAt(t.file, p[..1]) == [c.id];
      } else {
        var f := Write(t.file, a, Cleared(c), CertificateSize).value;
        var t1 := Table(f, RemoveIndex(t.indices, c.id), t.junk + [U32(a)]);
        CascadeStepSetup(t, a, p);
        CascadeIndices(t1, c.next, p[1..]);
        ReachedStep(t.file, f, p);
        IdsAtCons(t.file, f, p, Reached(t.file, p));
      }
    }
  }

  /** The cascade's file: the prefix before the first failing write is
      cleared and nothing else changes. */
  lemma {:induction false} CascadeFile(t: Table<Certificate>, a: int, p: seq<int>)
    requires IsChain(t.file, a, p)
    ensures forall i :: 0 <= i < |p| ==> p[i] in t.file.records
    ensures ChangedOnlyOn(t.file, DeleteSubrecords(t, a).file, p[..FirstBadWrite(t.file, p)])
    ensures forall i :: 0 <= i < FirstBadWrite(t.file, p) ==>
              DeleteSubrecords(t, a).file.records[p[i]] == Cleared(t.file.records[p[i]])
    decreases |p|
  {
    ChainReadable(t.file, a, p);
    if a != NoLink {
      var c := t.file.records[a];
      if a in t.file.badWrites {
        assert FirstBadWrite(t.file, p) == 0;
      } else if c.next == NoLink {
        assert |p| == 1;
        assert FirstBadWrite(t.file, p) == 1;
        assert p[..1] == [a];
      } else {
        var f := Write(t.file, a, Cleared(c), CertificateSize).value;
        var t1 := Table(f, RemoveIndex(t.indices, c.id), t.junk + [U32(a)]);
        var q := p[1..];
        CascadeStepSetup(t, a, p);
        var r := DeleteSubrecords(t1, c.next);
        CascadeFile(t1, c.next, q);
        ReachedStep(t.file, f, p);
        assert DeleteSubrecords(t, a).file == r.file;
        ClearedPrefixCons(t.file, f, r.file, p, FirstBadWrite(t.file, p));
      }
    }
  }

  /** The cascade's file facts for `p` from those for `p[1..]`, when the
      first write cleared `p[0]` and changed nothing else. */
  lemma ClearedPrefixCons(f0: DataFile<Certificate>, f: DataFile<Certificate>, g: DataFile<Certificate>, p: seq<int>, m: nat)
    requires 0 < m <= |p| && p[0] !in p[1..]
    requires forall i :: 0 <= i < |p| ==> p[i] in f0.records
    requires ChangedOnlyAt(f0, f, p[0]) && f.records[p[0]] == Cleared(f0.records[p[0]])
    requires ChangedOnlyOn(f, g, p[1..][..m - 1])
    requires forall i :: 0 <= i < m - 1 ==> g.records[p[1..][i]] == Cleared(f.records[p[1..][i]])
    ensures ChangedOnlyOn(f0, g, p[..m])
    ensures forall i :: 0 <= i < m ==> g.records[p[i]] == Cleared(f0.records[p[i]])
  {
    var a := p[0];
    var q := p[1..];
    assert p[..m] == [a] + q[..m - 1];
    assert a !in q[..m - 1];
    forall k | k in f0.records && k !in p[..m] ensures g.records[k] == f0.records[k] {
      assert k != a && k !in q[..m - 1];
    }
    forall i | 0 <= i < m ensures g.records[p[i]] == Cleared(f0.records[p[i]]) {
      if i > 0 {
        assert p[i] == q[i - 1];
      }
    }
  }

  /** `g` equals `f` outside the offsets `p`; keys and faults are shared. */
  ghost predicate ChangedOnlyOn(f: DataFile<Certificate>, g: DataFile<Certificate>, p: seq<int>) {
    && SameFaults(f, g) && f.records.Keys == g.records.Keys
    && forall k :: k in f.records && k !in p ==> g.records[k] == f.records[k]
  }
}
