/** `InsertMaster` and `InsertSlave`: slot choice, the new record, and
    for a certificate the append to the tail of its course's chain. */
module InsertHandlers {
  import opened Types
  import opened Bytes
  import opened DataFiles
  import opened IndexTable
  import opened Models
  import opened Tables
  import opened Chains

  /** The slot InsertMaster writes to and the junk left behind: the oldest
      junk offset, or the slot after the last indexed record. */
  function MasterSlot(t: Table<Course>): (int, seq<u32>) {
    ChooseSlot(t.junk, |t.indices| * CourseSize)
  }

  /** The slot InsertSlave writes to and the junk left behind: the oldest
      junk offset, or the end of the data file. */
  function SlaveSlot(t: Table<Certificate>): (int, seq<u32>) {
    ChooseSlot(t.junk, t.file.length)
  }

  /** `InsertMaster`. A duplicate ID changes nothing. Otherwise the slot is
      taken from the junk before the write, so a failing write leaves the
      junk shortened and the index as it was. */
  function InsertMaster(db: Db, id: u32, title: seq<byte>, category: seq<byte>, instructor: seq<byte>): (r: Step)
    ensures r.db.slave == db.slave && r.status != Diverges
    ensures r.status == Failed(DuplicateId) <==> HasId(db.master.indices, id)
    ensures HasId(db.master.indices, id) ==> r.db == db
    ensures !HasId(db.master.indices, id) ==>
      var (off, rest) := MasterSlot(db.master);
      && r.db.master.junk == rest
      && (r.status == Done <==> off !in db.master.file.badWrites)
      && (r.status == Done ==>
            && r.db.master.file.records == db.master.file.records[off := NewCourse(id, title, category, instructor)]
            && multiset(r.db.master.indices) == multiset(db.master.indices) + multiset{IndexEntry(id, U32(off))}
            && SortedById(r.db.master.indices))
      && (r.status != Done ==> r.db.master.file == db.master.file && r.db.master.indices == db.master.indices)
  {
    if RecordExists(db.master.indices, id) then Step(db, Failed(DuplicateId))
    else
      var course := NewCourse(id, title, category, instructor);
      var (off, rest) := MasterSlot(db.master);
      var t := db.master.(junk := rest);
      match Write(t.file, off, course, CourseSize)
      case Err(e) => Step(db.(master := t), Failed(e))
      case Ok(f) => Step(db.(master := t.(file := f, indices := AddIndex(t.indices, id, U32(off)))), Done)
  }

  /** Inserting a course and looking it up: the index finds the slot it was
      written to, and its text fields read back as given when they fit
      and hold no zero byte. */
  lemma InsertMasterThenRead(db: Db, id: u32, title: seq<byte>, category: seq<byte>, instructor: seq<byte>)
    requires InsertMaster(db, id, title, category, instructor).status == Done
    ensures var t := InsertMaster(db, id, title, category, instructor).db.master;
            var off := MasterSlot(db.master).0;
            && GetAddressByIndex(t.indices, id) == (U32(off), true)
            && off in t.file.records
            && t.file.records[off].id == id && t.file.records[off].presence
            && t.file.records[off].firstSlaveAddress == NoLink
            && (|title| <= TitleWidth && NulFree(title) ==> TrimZeros(t.file.records[off].title) == title)
            && (|category| <= CategoryWidth && NulFree(category) ==> TrimZeros(t.file.records[off].category) == category)
            && (|instructor| <= InstructorWidth && NulFree(instructor) ==> TrimZeros(t.file.records[off].instructor) == instructor)
  {
    var off := MasterSlot(db.master).0;
    AddThenLookup(db.master.indices, id, U32(off));
    if |title| <= TitleWidth && NulFree(title) { TextRoundTrip(title, TitleWidth); }
    if |category| <= CategoryWidth && NulFree(category) { TextRoundTrip(category, CategoryWidth); }
    if |instructor| <= InstructorWidth && NulFree(instructor) { TextRoundTrip(instructor, InstructorWidth); }
  }

  /** InsertMaster writes to a slot no live record holds, and keeps the
      slot discipline of the master table (while offsets fit in 32 bits). */
  lemma InsertMasterKeepsDense(db: Db, id: u32, title: seq<byte>, category: seq<byte>, instructor: seq<byte>)
    requires Dense(db.master, CourseSize)
    requires |db.master.junk| == 0 ==> (|db.master.indices| + 1) * CourseSize <= 0x1_0000_0000
    requires InsertMaster(db, id, title, category, instructor).status == Done
    ensures forall i :: 0 <= i < |db.master.indices| ==> db.master.indices[i].address != MasterSlot(db.master).0
    ensures Dense(InsertMaster(db, id, title, category, instructor).db.master, CourseSize)
  {
    var t := db.master;
    var r := InsertMaster(db, id, title, category, instructor).db.master;
    var off := MasterSlot(t).0;
    assert r == Table(r.file, AddIndex(t.indices, id, U32(off)), MasterSlot(t).1);
    if |t.junk| > 0 {
      assert U32(off) == t.junk[0];
      ReuseKeepsDense(t, r.file, id, CourseSize);
      forall i | 0 <= i < |t.indices| ensures t.indices[i].address != off {
        assert t.indices[i].address != t.junk[0];
      }
    } else {
      SpanIsProduct(|t.indices|, CourseSize);
      SpanIsProduct(|t.indices| + 1, CourseSize);
      AppendKeepsDense(t, r.file, id, CourseSize);
      forall i | 0 <= i < |t.indices| ensures t.indices[i].address != off {
        assert InSlot(t.indices[i].address, CourseSize, |t.indices|);
      }
    }
  }

  /** How linking a new certificate into its course's chain ended. */
  datatype Attach =
    | Attached(file: DataFile<Certificate>, course: Course, cert: Certificate)
    | AttachFailed(file: DataFile<Certificate>, error: Error)
    | AttachCycles

  /** The linking part of InsertSlave: a first certificate becomes the
      course's head; any other is hung after the tail found by walking
      `next` from the head, and the tail is rewritten at once. */
  function AttachNew(f: DataFile<Certificate>, course: Course, cert: Certificate, off: int): (r: Attach)
    ensures course.firstSlaveAddress == NoLink ==> r == Attached(f, course.(firstSlaveAddress := off), cert)
    ensures r.AttachFailed? ==> r.file == f && IoError(r.error)
    ensures r.Attached? ==> r.cert == cert.(previous := r.cert.previous)
    ensures r.Attached? ==> SameFaults(r.file, f) && r.file.records.Keys == f.records.Keys
    ensures r.Attached? && Shaped(f, CertificateSize) ==> Shaped(r.file, CertificateSize) && r.file.length == f.length
  {
    if course.firstSlaveAddress == NoLink then Attached(f, course.(firstSlaveAddress := off), cert)
    else match FindTail(f, course.firstSlaveAddress, |f.records|)
      case Cycles => AttachCycles
      case Ends(Err(e)) => AttachFailed(f, e)
      case Ends(Ok((tail, last))) =>
        assert tail in f.records by { FindTailReads(f, course.firstSlaveAddress, |f.records|); }
        match Write(f, tail, last.(next := off), CertificateSize)
        case Err(e) => AttachFailed(f, e)
        case Ok(g) => Attached(g, course, cert.(previous := tail))
  }

  /** On a chain, the tail found is the chain's last offset: its `next`
      is rewritten to the new slot, the new certificate points back at it
      and the course is kept. */
  lemma AttachToChain(f: DataFile<Certificate>, course: Course, cert: Certificate, off: int, p: seq<int>)
    requires IsChain(f, course.firstSlaveAddress, p) && |p| > 0
    ensures var tail := p[|p| - 1];
            && tail in f.records && f.records[tail].next == NoLink
            && var r := AttachNew(f, course, cert, off);
            && !r.AttachCycles?
            && (r.AttachFailed? <==> tail in f.badWrites)
            && (r.Attached? ==>
                  && r.course == course && r.cert == cert.(previous := tail)
                  && r.file.records == f.records[tail := f.records[tail].(next := off)])
  {
    ChainReadable(f, course.firstSlaveAddress, p);
    ChainLength(f, course.firstSlaveAddress, p);
    FindTailOfChain(f, course.firstSlaveAddress, p, |f.records|);
  }

  /** `InsertSlave`. A duplicate ID, an unknown course or an unreadable
      course changes nothing. After that the slot is taken from the junk,
      and each later failure leaves what was already written. */
  function InsertSlave(db: Db, id: u32, courseId: u32, issuedTo: seq<byte>): (r: Step)
    ensures r.status == Failed(DuplicateId) <==> HasId(db.slave.indices, id)
    ensures HasId(db.slave.indices, id) ==> r.db == db
    ensures !HasId(db.slave.indices, id) && SortedById(db.master.indices) ==>
              (r.status == Failed(NotFound) <==> !HasId(db.master.indices, courseId))
    ensures r.status == Failed(NotFound) ==> r.db == db
    ensures r.status != Done ==> r.db.master == db.master && r.db.slave.indices == db.slave.indices
    ensures r.status == Done ==>
              && r.db.master.junk == db.master.junk && r.db.master.indices == db.master.indices
              && r.db.slave.junk == SlaveSlot(db.slave).1
              && multiset(r.db.slave.indices)
                 == multiset(db.slave.indices) + multiset{IndexEntry(id, U32(SlaveSlot(db.slave).0))}
              && SortedById(r.db.slave.indices)
  {
    if RecordExists(db.slave.indices, id) then Step(db, Failed(DuplicateId))
    else
      var (ma, found) := GetAddressByIndex(db.master.indices, courseId);
      if !found then Step(db, Failed(NotFound))
      else match Read(db.master.file, ma)
        case Err(e) => Step(db, Failed(e))
        case Ok(course) =>
          var (off, rest) := SlaveSlot(db.slave);
          var t := db.slave.(junk := rest);
          match AttachNew(t.file, course, NewCertificate(id, courseId, issuedTo), off)
          case AttachCycles => Step(db.(slave := t), Diverges)
          case AttachFailed(f, e) => Step(db.(slave := t.(file := f)), Failed(e))
          case Attached(f, c, cert) =>
            match Write(f, off, cert, CertificateSize)
            case Err(e) => Step(db.(slave := t.(file := f)), Failed(e))
            case Ok(g) =>
              match Write(db.master.file, ma, c, CourseSize)
              case Err(e) => Step(db.(slave := t.(file := g)), Failed(e))
              case Ok(h) =>
                Step(Db(db.master.(file := h), t.(file := g, indices := AddIndex(t.indices, id, U32(off)))), Done)
  }

  /** The head offset of the course `courseId` as InsertSlave reads it, or
      `NoLink` when it cannot be read. */
  function CourseHead(db: Db, courseId: u32): int {
    var (ma, found) := GetAddressByIndex(db.master.indices, courseId);
    if found && ma in db.master.file.records then db.master.file.records[ma].firstSlaveAddress else NoLink
  }

  /** What a completed InsertSlave did, step by step: the course was read,
      the new certificate attached, then written, then the course. */
  lemma InsertSlaveDone(db: Db, id: u32, courseId: u32, issuedTo: seq<byte>)
    requires InsertSlave(db, id, courseId, issuedTo).status == Done
    ensures var ma := GetAddressByIndex(db.master.indices, courseId).0;
            && GetAddressByIndex(db.master.indices, courseId).1
            && Readable(db.master.file, ma)
            && var off := SlaveSlot(db.slave).0;
            && var at := AttachNew(db.slave.file, db.master.file.records[ma], NewCertificate(id, courseId, issuedTo), off);
            && at.Attached? && 0 <= off && off !in at.file.badWrites && ma !in db.master.file.badWrites
            && InsertSlave(db, id, courseId, issuedTo).db
               == Db(db.master.(file := Write(db.master.file, ma, at.course, CourseSize).value),
                     Table(Write(at.file, off, at.cert, CertificateSize).value,
                           AddIndex(db.slave.indices, id, U32(off)), SlaveSlot(db.slave).1))
  {
  }

  /** A completed InsertSlave reads back: the index finds the new slot, and
      the certificate there carries the given IDs and text, is present and
      ends its chain. */
  lemma InsertSlaveThenRead(db: Db, id: u32, courseId: u32, issuedTo: seq<byte>)
    requires InsertSlave(db, id, courseId, issuedTo).status == Done
    ensures var t := InsertSlave(db, id, courseId, issuedTo).db.slave;
            var off := SlaveSlot(db.slave).0;
            && GetAddressByIndex(t.indices, id) == (U32(off), true)
            && off in t.file.records
            && var c := t.file.records[off];
            && c.id == id && c.courseId == courseId && c.presence && c.next == NoLink
            && (|issuedTo| <= IssuedToWidth && NulFree(issuedTo) ==> TrimZeros(c.issuedTo) == issuedTo)
  {
    InsertSlaveDone(db, id, courseId, issuedTo);
    var ma := GetAddressByIndex(db.master.indices, courseId).0;
    var off := SlaveSlot(db.slave).0;
    var cert := NewCertificate(id, courseId, issuedTo);
    var at := AttachNew(db.slave.file, db.master.file.records[ma], cert, off);
    var g := Write(at.file, off, at.cert, CertificateSize).value;
    var t := InsertSlave(db, id, courseId, issuedTo).db.slave;
    assert t.file == g && t.indices == AddIndex(db.slave.indices, id, U32(off));
    assert at.cert == cert.(previous := at.cert.previous);
    assert g.records[off] == at.cert;
    AddThenLookup(db.slave.indices, id, U32(off));
    if |issuedTo| <= IssuedToWidth && NulFree(issuedTo) { TextRoundTrip(issuedTo, IssuedToWidth); }
  }

  /** The first certificate of a course: the course's head becomes the new
      slot, the new certificate has no links, and no other certificate
      changes. */
  lemma InsertSlaveFirstChild(db: Db, id: u32, courseId: u32, issuedTo: seq<byte>)
    requires InsertSlave(db, id, courseId, issuedTo).status == Done
    requires CourseHead(db, courseId) == NoLink
    ensures var r := InsertSlave(db, id, courseId, issuedTo).db;
            var ma := GetAddressByIndex(db.master.indices, courseId).0;
            var off := SlaveSlot(db.slave).0;
            && ma in db.master.file.records
            && r.master.file.records == db.master.file.records[ma := db.master.file.records[ma].(firstSlaveAddress := off)]
            && r.slave.file.records == db.slave.file.records[off := NewCertificate(id, courseId, issuedTo)]
  {
  }

  /** Any later certificate is appended to the course's chain `p`: the old
      tail now points at the new slot, the new certificate points back at
      the tail, the course is written back as it was, and the chain from
      the head is `p` followed by the new slot. */
  lemma InsertSlaveAppends(db: Db, id: u32, courseId: u32, issuedTo: seq<byte>, p: seq<int>)
    requires InsertSlave(db, id, courseId, issuedTo).status == Done
    requires CourseHead(db, courseId) != NoLink
    requires IsChain(db.slave.file, CourseHead(db, courseId), p)
    ensures var r := InsertSlave(db, id, courseId, issuedTo).db;
            var ma := GetAddressByIndex(db.master.indices, courseId).0;
            var off := SlaveSlot(db.slave).0;
            var f := db.slave.file;
            var tail := p[|p| - 1];
            && ma in db.master.file.records && tail in f.records
            && r.master.file.records == db.master.file.records
            && r.slave.file.records
               == f.records[tail := f.records[tail].(next := off)]
                           [off := NewCertificate(id, courseId, issuedTo).(previous := tail)]
            && (off !in p && off !in f.badReads ==> IsChain(r.slave.file, CourseHead(db, courseId), p + [off]))
  {
    InsertSlaveDone(db, id, courseId, issuedTo);
    var ma := GetAddressByIndex(db.master.indices, courseId).0;
    var course := db.master.file.records[ma];
    var off := SlaveSlot(db.slave).0;
    var f := db.slave.file;
    var cert := NewCertificate(id, courseId, issuedTo);
    var tail := p[|p| - 1];
    AttachToChain(f, course, cert, off, p);
    var at := AttachNew(f, course, cert, off);
    var g := Write(at.file, off, at.cert, CertificateSize).value;
    var r := InsertSlave(db, id, courseId, issuedTo).db;
    assert r.slave.file == g;
    assert r.master.file == Write(db.master.file, ma, course, CourseSize).value;
    assert db.master.file.records[ma := course] == db.master.file.records;
    ChainReadable(f, course.firstSlaveAddress, p);
    if off !in p && off !in f.badReads {
      ChainAppend(f, g, course.firstSlaveAddress, p, off);
    }
  }

  /** Appending `off` after the tail of a chain, with the tail's `next`
      rewritten and a readable record at `off` that ends the chain,
      extends the chain by `off`. */
  lemma {:induction false} ChainAppend(f: DataFile<Certificate>, g: DataFile<Certificate>, a: int, p: seq<int>, off: int)
    requires IsChain(f, a, p) && |p| > 0
    requires 0 <= off && off !in p && SameFaults(f, g) && off !in g.badReads
    requires p[|p| - 1] in f.records
    requires off in g.records && g.records[off].next == NoLink
    requires p[|p| - 1] in g.records && g.records[p[|p| - 1]].next == off
    requires forall k :: k in f.records && k != off && k != p[|p| - 1] ==> k in g.records && g.records[k] == f.records[k]
    ensures IsChain(g, a, p + [off])
    decreases |p|
  {
    var q := p + [off];
    if |p| == 1 {
      assert IsChain(g, off, [off]) by { assert [off][1..] == []; }
      assert q[1..] == [off];
    } else {
      assert a == p[0] != p[|p| - 1] by { ChainDistinct(f, a, p); }
      assert a != off by { assert p[0] == a; }
      assert p[1..][|p[1..]| - 1] == p[|p| - 1];
      assert off !in p[1..];
      ChainAppend(f, g, f.records[a].next, p[1..], off);
      assert q[1..] == p[1..] + [off];
    }
  }

  /** A present certificate with no links, written where no present
      certificate was, keeps the chains doubly linked. */
  lemma LinkedAfterFirst(f: DataFile<Certificate>, g: DataFile<Certificate>, off: int, c: Certificate)
    requires Linked(f)
    requires 0 <= off && (off in f.records ==> !f.records[off].presence)
    requires c.previous == NoLink && c.next == NoLink
    requires g.records == f.records[off := c]
    ensures Linked(g)
  {
    forall a | a in g.records && g.records[a].presence ensures NodeLinked(g, a) {
      if a != off {
        assert NodeLinked(f, a);
      }
    }
  }

  /** A present certificate hung after a present tail, written where no
      present certificate was, keeps the chains doubly linked. */
  lemma LinkedAfterAppend(f: DataFile<Certificate>, g: DataFile<Certificate>, tail: int, off: int, c: Certificate)
    requires Linked(f)
    requires 0 <= off && (off in f.records ==> !f.records[off].presence)
    requires tail in f.records && f.records[tail].presence && f.records[tail].next == NoLink
    requires c.presence && c.previous == tail && c.next == NoLink
    requires g.records == f.records[tail := f.records[tail].(next := off)][off := c]
    ensures Linked(g)
  {
    assert tail != off;
    assert NodeLinked(f, tail);
    forall a | a in g.records && g.records[a].presence ensures NodeLinked(g, a) {
      if a != off && a != tail {
        assert NodeLinked(f, a);
        var n := f.records[a].next;
        var q := f.records[a].previous;
        assert q != NoLink ==> q != tail && q != off;
        assert n != NoLink ==> n != off;
      } else if a == tail {
        var q := f.records[tail].previous;
        assert q != NoLink ==> q != tail && q != off;
      }
    }
  }

  /** A completed InsertSlave keeps the certificate chains doubly linked,
      given that the new slot held no present certificate and the course's
      chain `p` ends at a present certificate. */
  lemma InsertSlaveKeepsLinked(db: Db, id: u32, courseId: u32, issuedTo: seq<byte>, p: seq<int>)
    requires InsertSlave(db, id, courseId, issuedTo).status == Done
    requires Linked(db.slave.file)
    requires IsChain(db.slave.file, CourseHead(db, courseId), p)
    requires |p| > 0 ==> p[|p| - 1] in db.slave.file.records && db.slave.file.records[p[|p| - 1]].presence
    requires var off := SlaveSlot(db.slave).0;
             off in db.slave.file.records ==> !db.slave.file.records[off].presence
    ensures Linked(InsertSlave(db, id, courseId, issuedTo).db.slave.file)
  {
    var f := db.slave.file;
    var off := SlaveSlot(db.slave).0;
    var g := InsertSlave(db, id, courseId, issuedTo).db.slave.file;
    InsertSlaveDone(db, id, courseId, issuedTo);
    if CourseHead(db, courseId) == NoLink {
      InsertSlaveFirstChild(db, id, courseId, issuedTo);
      LinkedAfterFirst(f, g, off, NewCertificate(id, courseId, issuedTo));
    } else {
      InsertSlaveAppends(db, id, courseId, issuedTo, p);
      ChainReadable(f, CourseHead(db, courseId), p);
      LinkedAfterAppend(f, g, p[|p| - 1], off, NewCertificate(id, courseId, issuedTo).(previous := p[|p| - 1]));
    }
  }

  /** Writing a record into the slot `ChooseSlot` picks for a table with
      the layout, through a file that differs from the table's only in
      records, and indexing it, keeps the layout. */
  lemma FillSlotKeepsLayout(t: Table<Certificate>, f: DataFile<Certificate>, id: u32, c: Certificate)
    requires Layout(t, CertificateSize)
    requires Shaped(f, CertificateSize) && f.length == t.file.length && SameFaults(f, t.file)
    requires |t.junk| == 0 ==> Span(|t.indices| + 1, CertificateSize) <= 0x1_0000_0000
    requires ChooseSlot(t.junk, t.file.length).0 !in f.badWrites
    ensures var (off, rest) := ChooseSlot(t.junk, t.file.length);
            && (forall i :: 0 <= i < |t.indices| ==> t.indices[i].address != off)
            && 0 <= off < 0x1_0000_0000
            && Layout(Table(Write(f, off, c, CertificateSize).value, AddIndex(t.indices, id, U32(off)), rest), CertificateSize)
  {
    if |t.junk| > 0 {
      FillJunkSlot(t, f, id, c);
    } else {
      FillEndSlot(t, f, id, c);
    }
  }

  /** `FillSlotKeepsLayout` when a junk slot is reused. */
  lemma FillJunkSlot(t: Table<Certificate>, f: DataFile<Certificate>, id: u32, c: Certificate)
    requires Layout(t, CertificateSize) && |t.junk| > 0
    requires Shaped(f, CertificateSize) && f.length == t.file.length && SameFaults(f, t.file)
    requires t.junk[0] !in f.badWrites
    ensures var off := t.junk[0];
            && (forall i :: 0 <= i < |t.indices| ==> t.indices[i].address != off)
            && Layout(Table(Write(f, off as int, c, CertificateSize).value, AddIndex(t.indices, id, off), t.junk[1..]),
                      CertificateSize)
  {
    var off := t.junk[0];
    var g := Write(f, off as int, c, CertificateSize).value;
    var n := |t.indices| + |t.junk|;
    assert InSlot(t.junk[0], CertificateSize, n);
    assert g.length == f.length;
    ReuseKeepsDense(t, g, id, CertificateSize);
    assert n == |AddIndex(t.indices, id, off)| + |t.junk[1..]|;
  }

  /** `FillSlotKeepsLayout` when the record is appended. */
  lemma FillEndSlot(t: Table<Certificate>, f: DataFile<Certificate>, id: u32, c: Certificate)
    requires Layout(t, CertificateSize) && |t.junk| == 0
    requires Shaped(f, CertificateSize) && f.length == t.file.length && SameFaults(f, t.file)
    requires Span(|t.indices| + 1, CertificateSize) <= 0x1_0000_0000
    requires t.file.length !in f.badWrites
    ensures var off := t.file.length;
            && (forall i :: 0 <= i < |t.indices| ==> t.indices[i].address != off)
            && 0 <= off < 0x1_0000_0000
            && Layout(Table(Write(f, off, c, CertificateSize).value, AddIndex(t.indices, id, U32(off)), []),
                      CertificateSize)
  {
    var off := t.file.length;
    var g := Write(f, off, c, CertificateSize).value;
    assert off == Span(|t.indices|, CertificateSize);
    AppendKeepsDense(t, g, id, CertificateSize);
    assert U32(off) == off;
    forall i | 0 <= i < |t.indices| ensures t.indices[i].address != off {
      assert InSlot(t.indices[i].address, CertificateSize, |t.indices|);
    }
    assert Shaped(g, CertificateSize);
    assert g.length == off + CertificateSize == Span(|t.indices| + 1, CertificateSize);
    assert |AddIndex(t.indices, id, U32(off))| == |t.indices| + 1;
  }

  /** A completed InsertSlave keeps the slave table's layout: it writes to
      a slot no live record holds, and the file grows by one slot exactly
      when no junk was reused (while offsets fit in 32 bits). */
  lemma InsertSlaveKeepsLayout(db: Db, id: u32, courseId: u32, issuedTo: seq<byte>)
    requires InsertSlave(db, id, courseId, issuedTo).status == Done
    requires Layout(db.slave, CertificateSize)
    requires |db.slave.junk| == 0 ==> Span(|db.slave.indices| + 1, CertificateSize) <= 0x1_0000_0000
    ensures forall i :: 0 <= i < |db.slave.indices| ==> db.slave.indices[i].address != SlaveSlot(db.slave).0
    ensures Layout(InsertSlave(db, id, courseId, issuedTo).db.slave, CertificateSize)
  {
    InsertSlaveDone(db, id, courseId, issuedTo);
    var t := db.slave;
    var ma := GetAddressByIndex(db.master.indices, courseId).0;
    var off := SlaveSlot(t).0;
    var at := AttachNew(t.file, db.master.file.records[ma], NewCertificate(id, courseId, issuedTo), off);
    FillSlotKeepsLayout(t, at.file, id, at.cert);
  }

  /** A successful InsertSlave reuses a junk slot when there is one, so
      afterwards compaction is recommended exactly when the junk held more
      than `MaxJunkSize` offsets. */
  lemma InsertSlaveDrainsCompaction(db: Db, id: u32, courseId: u32, issuedTo: seq<byte>)
    requires InsertSlave(db, id, courseId, issuedTo).status == Done
    ensures var t := InsertSlave(db, id, courseId, issuedTo).db.slave;
            && |t.junk| == (if |db.slave.junk| > 0 then |db.slave.junk| - 1 else 0)
            && (RequiresCompaction(t) <==> |db.slave.junk| > MaxJunkSize)
  {
  }
}
