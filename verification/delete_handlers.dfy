/** `DeleteMaster` (a logical delete with a cascade over the course's
    certificates) and `DeleteSlave` (unlinking one certificate from its
    chain: head, middle or tail). */
module DeleteHandlers {
  import opened Types
  import opened Bytes
  import opened DataFiles
  import opened IndexTable
  import opened Models
  import opened Tables
  import opened Chains
  import opened Helpers

  /** A course as DeleteMaster leaves it: text cleared, no chain, absent. */
  function ClearedCourse(c: Course): (r: Course)
    ensures r.id == c.id && CourseShaped(r)
    ensures r.title == Zeros(TitleWidth) && r.category == Zeros(CategoryWidth) && r.instructor == Zeros(InstructorWidth)
    ensures r.firstSlaveAddress == NoLink && !r.presence
  {
    c.(title := Zeros(TitleWidth), category := Zeros(CategoryWidth), instructor := Zeros(InstructorWidth),
       firstSlaveAddress := NoLink, presence := false)
  }

  /** `DeleteMaster`. An unknown ID or an unreadable record changes
      nothing. Otherwise the cascade runs over the course's chain (its
      failures are only logged), the address is junked and the ID
      unindexed, and only then is the cleared course written back. */
  function DeleteMaster(db: Db, id: u32): (r: Step)
    ensures r.status != Diverges
    ensures SortedById(db.master.indices) && !HasId(db.master.indices, id) ==> r == Step(db, Failed(NotFound))
    ensures var (a, found) := GetAddressByIndex(db.master.indices, id);
            found && Readable(db.master.file, a) ==>
              var course := db.master.file.records[a];
              && r.db.slave == DeleteSubrecords(db.slave, course.firstSlaveAddress)
              && r.db.master.junk == db.master.junk + [a]
              && r.db.master.indices == RemoveIndex(db.master.indices, id)
              && (r.status == Done <==> a !in db.master.file.badWrites)
              && (r.status == Done ==> r.db.master.file.records == db.master.file.records[a := ClearedCourse(course)])
              && (r.status != Done ==> r.db.master.file == db.master.file)
    ensures var (a, found) := GetAddressByIndex(db.master.indices, id);
            !(found && Readable(db.master.file, a)) ==> r.db == db && r.status.Failed?
  {
    var (a, found) := GetAddressByIndex(db.master.indices, id);
    if !found then Step(db, Failed(NotFound))
    else match Read(db.master.file, a)
      case Err(e) => Step(db, Failed(e))
      case Ok(course) =>
        var slave := DeleteSubrecords(db.slave, course.firstSlaveAddress);
        var master := db.master.(junk := db.master.junk + [a], indices := RemoveIndex(db.master.indices, id));
        match Write(master.file, a, ClearedCourse(course), CourseSize)
        case Err(e) => Step(Db(master, slave), Failed(e))
        case Ok(f) => Step(Db(master.(file := f), slave), Done)
  }

  /** The cascade of DeleteMaster over the course's chain `p`: with `m` the
      first position whose write fails and `n` the number of certificates
      reached, the slave junk grows by `p[..n]` in walk order, their IDs
      leave the index, `p[..m]` are cleared and no other record changes.
      With no failing write on the chain, all of it is deleted. */
  lemma DeleteMasterCascade(db: Db, id: u32, p: seq<int>)
    requires GetAddressByIndex(db.master.indices, id).1
    requires Readable(db.master.file, GetAddressByIndex(db.master.indices, id).0)
    requires IsChain(db.slave.file, db.master.file.records[GetAddressByIndex(db.master.indices, id).0].firstSlaveAddress, p)
    ensures forall i :: 0 <= i < |p| ==> p[i] in db.slave.file.records
    ensures var s := DeleteMaster(db, id).db.slave;
            var f := db.slave.file;
            var n := Reached(f, p);
            var m := FirstBadWrite(f, p);
            && s.junk == db.slave.junk + JunkOf(p[..n])
            && s.indices == RemoveAll(db.slave.indices, IdsAt(f, p[..n]))
            && ChangedOnlyOn(f, s.file, p[..m])
            && (forall i :: 0 <= i < m ==> s.file.records[p[i]] == Cleared(f.records[p[i]]))
            && ((forall i :: 0 <= i < |p| ==> p[i] !in f.badWrites) ==>
                  && s.junk == db.slave.junk + JunkOf(p)
                  && s.indices == RemoveAll(db.slave.indices, IdsAt(f, p))
                  && forall i :: 0 <= i < |p| ==> s.file.records[p[i]] == Cleared(f.records[p[i]]))
  {
    var a := GetAddressByIndex(db.master.indices, id).0;
    var head := db.master.file.records[a].firstSlaveAddress;
    var s := DeleteMaster(db, id).db.slave;
    assert s == DeleteSubrecords(db.slave, head);
    CascadeOverChain(db.slave, head, p);
    if forall i :: 0 <= i < |p| ==> p[i] !in db.slave.file.badWrites {
      NoBadWrite(db.slave.file, p);
      assert p[..|p|] == p;
    }
  }

  /** DeleteMaster frees the course's slot into the junk and keeps the
      master table's slot discipline, whether or not the final write
      succeeds. */
  lemma DeleteMasterKeepsDense(db: Db, id: u32)
    requires Dense(db.master, CourseSize) && SortedById(db.master.indices)
    requires GetAddressByIndex(db.master.indices, id).1
    requires Readable(db.master.file, GetAddressByIndex(db.master.indices, id).0)
    ensures Dense(DeleteMaster(db, id).db.master, CourseSize)
  {
    FreeKeepsDense(db.master, DeleteMaster(db, id).db.master.file, id, CourseSize);
  }

  /** With unique IDs, a DeleteMaster that found its record leaves the ID
      out of the master index and keeps every other ID. */
  lemma DeleteMasterRemovesId(db: Db, id: u32, other: u32)
    requires UniqueIds(db.master.indices) && other != id
    requires GetAddressByIndex(db.master.indices, id).1
    requires Readable(db.master.file, GetAddressByIndex(db.master.indices, id).0)
    ensures var s := DeleteMaster(db, id).db.master.indices;
            && !RecordExists(s, id) && UniqueIds(s)
            && RecordExists(s, other) == RecordExists(db.master.indices, other)
  {
    RemoveThenMissing(db.master.indices, id, other);
  }

  /** Clearing every node of a whole chain of present certificates, whose
      head has no predecessor, keeps every other chain doubly linked: no
      present node outside the chain links into it. */
  lemma ClearedChainKeepsLinked(f: DataFile<Certificate>, g: DataFile<Certificate>, head: int, p: seq<int>)
    requires Linked(f) && IsChain(f, head, p)
    requires forall i :: 0 <= i < |p| ==> p[i] in f.records && f.records[p[i]].presence
    requires head != NoLink ==> head in f.records && f.records[head].previous == NoLink
    requires ChangedOnlyOn(f, g, p)
    requires forall i :: 0 <= i < |p| ==> p[i] in g.records && !g.records[p[i]].presence
    ensures Linked(g)
  {
    ChainReadable(f, head, p);
    forall i | 0 < i < |p| ensures f.records[p[i]].previous == p[i - 1] {
      assert NodeLinked(f, p[i - 1]);
    }
    forall y | y in g.records && g.records[y].presence ensures NodeLinked(g, y) {
      assert y !in p;
      assert NodeLinked(f, y);
      forall i | 0 <= i < |p| ensures p[i] != f.records[y].next && p[i] != f.records[y].previous {
        assert f.records[p[i]].previous == if i > 0 then p[i - 1] else NoLink;
        assert f.records[p[i]].next == if i < |p| - 1 then p[i + 1] else NoLink;
      }
    }
  }

  /** A master delete whose cascade clears the course's whole chain, every
      node present and writable and the head without a predecessor, keeps
      the slave file doubly linked, whether or not the final course write
      succeeds. */
  lemma DeleteMasterKeepsLinked(db: Db, id: u32, p: seq<int>)
    requires Linked(db.slave.file)
    requires GetAddressByIndex(db.master.indices, id).1
    requires Readable(db.master.file, GetAddressByIndex(db.master.indices, id).0)
    requires IsChain(db.slave.file, db.master.file.records[GetAddressByIndex(db.master.indices, id).0].firstSlaveAddress, p)
    requires forall i :: 0 <= i < |p| ==>
               p[i] in db.slave.file.records && db.slave.file.records[p[i]].presence && p[i] !in db.slave.file.badWrites
    requires var head := db.master.file.records[GetAddressByIndex(db.master.indices, id).0].firstSlaveAddress;
             head != NoLink ==> head in db.slave.file.records && db.slave.file.records[head].previous == NoLink
    ensures Linked(DeleteMaster(db, id).db.slave.file)
  {
    var head := db.master.file.records[GetAddressByIndex(db.master.indices, id).0].firstSlaveAddress;
    var f := db.slave.file;
    var g := DeleteMaster(db, id).db.slave.file;
    DeleteMasterCascade(db, id, p);
    NoBadWrite(f, p);
    assert p[..|p|] == p;
    ClearedChainKeepsLinked(f, g, head, p);
  }

  /** A certificate as DeleteSlave leaves it: absent, unlinked, text
      cleared. */
  function Unlinked(c: Certificate): (r: Certificate)
    ensures r.id == c.id && r.courseId == c.courseId
    ensures !r.presence && r.previous == NoLink && r.next == NoLink && r.issuedTo == Zeros(IssuedToWidth)
  {
    c.(presence := false, next := NoLink, previous := NoLink, issuedTo := Zeros(IssuedToWidth))
  }

  /** The last step of every DeleteSlave case: the unlinked certificate is
      written over itself, then its address is junked and the ID
      unindexed. A failing write leaves junk and index alone. */
  function Retire(db: Db, id: u32, x: u32, c: Certificate): (r: Step)
    ensures r.db.master == db.master && r.status != Diverges
    ensures r.status == Done <==> x !in db.slave.file.badWrites
    ensures r.status == Done ==>
              && r.db.slave.file.records == db.slave.file.records[x := Unlinked(c)]
              && r.db.slave.junk == db.slave.junk + [x]
              && r.db.slave.indices == RemoveIndex(db.slave.indices, id)
    ensures r.status != Done ==> r.db == db && IoError(r.status.error)
    ensures r.status == Done && x in db.slave.file.records && Shaped(db.slave.file, CertificateSize) ==>
              Shaped(r.db.slave.file, CertificateSize) && r.db.slave.file.length == db.slave.file.length
  {
    match Write(db.slave.file, x, Unlinked(c), CertificateSize)
    case Err(e) => Step(db, Failed(e))
    case Ok(f) => Step(db.(slave := Table(f, RemoveIndex(db.slave.indices, id), db.slave.junk + [x])), Done)
  }

  /** The lookups DeleteSlave starts with: the certificate's address and
      record, and the address of its course. */
  function Locate(db: Db, id: u32): (r: Result<(u32, Certificate, u32)>)
    ensures r.Ok? ==>
              var (x, c, ca) := r.value;
              && GetAddressByIndex(db.slave.indices, id) == (x, true)
              && Readable(db.slave.file, x) && c == db.slave.file.records[x]
              && GetAddressByIndex(db.master.indices, c.courseId) == (ca, true)
    ensures SortedById(db.slave.indices) && !HasId(db.slave.indices, id) ==> r == Err(NotFound)
  {
    var (x, found) := GetAddressByIndex(db.slave.indices, id);
    if !found then Err(NotFound)
    else match Read(db.slave.file, x)
      case Err(e) => Err(e)
      case Ok(c) =>
        var (ca, known) := GetAddressByIndex(db.master.indices, c.courseId);
        if !known then Err(NotFound) else Ok((x, c, ca))
  }

  /** The head case up to the certificate's successor: the course at `ca`
      is read and rewritten with the successor as its head. Either step
      failing changes nothing. */
  function RepointCourse(db: Db, ca: u32, next: int): (r: Result<Db>)
    ensures r.Ok? <==> Readable(db.master.file, ca) && ca !in db.master.file.badWrites
    ensures r.Err? ==> IoError(r.error)
    ensures r.Ok? ==>
              && r.value.slave == db.slave
              && r.value.master == db.master.(file := r.value.master.file)
              && r.value.master.file.records
                 == db.master.file.records[ca := db.master.file.records[ca].(firstSlaveAddress := next)]
  {
    match Read(db.master.file, ca)
    case Err(e) => Err(e)
    case Ok(course) =>
      match Write(db.master.file, ca, course.(firstSlaveAddress := next), CourseSize)
      case Err(e) => Err(e)
      case Ok(m) => Ok(db.(master := db.master.(file := m)))
  }

  /** Head case as written: after repointing the course, the successor is
      read and its `previous` cleared even when there is no successor, in
      which case the read at offset -1 fails. */
  function DeleteHead(db: Db, id: u32, x: u32, c: Certificate, ca: u32): Step {
    match RepointCourse(db, ca, c.next)
    case Err(e) => Step(db, Failed(e))
    case Ok(db1) =>
      match SetPrevious(db1.slave.file, c.next, NoLink)
      case Err(e) => Step(db1, Failed(e))
      case Ok(f) => Retire(db1.(slave := db1.slave.(file := f)), id, x, c)
  }

  /** Head case corrected: the successor is touched only when there is
      one. */
  function DeleteHeadFixed(db: Db, id: u32, x: u32, c: Certificate, ca: u32): Step {
    match RepointCourse(db, ca, c.next)
    case Err(e) => Step(db, Failed(e))
    case Ok(db1) =>
      if c.next == NoLink then Retire(db1, id, x, c)
      else match SetPrevious(db1.slave.file, c.next, NoLink)
        case Err(e) => Step(db1, Failed(e))
        case Ok(f) => Retire(db1.(slave := db1.slave.(file := f)), id, x, c)
  }

  /** Middle case: the predecessor's `next` skips the certificate, then the
      successor's `previous` does. */
  function DeleteMiddle(db: Db, id: u32, x: u32, c: Certificate): Step {
    match SetNext(db.slave.file, c.previous, c.next)
    case Err(e) => Step(db, Failed(e))
    case Ok(f1) =>
      var db1 := db.(slave := db.slave.(file := f1));
      match SetPrevious(f1, c.next, c.previous)
      case Err(e) => Step(db1, Failed(e))
      case Ok(f2) => Retire(db1.(slave := db1.slave.(file := f2)), id, x, c)
  }

  /** Tail case: the predecessor becomes the tail. */
  function DeleteTail(db: Db, id: u32, x: u32, c: Certificate): Step {
    match SetNext(db.slave.file, c.previous, NoLink)
    case Err(e) => Step(db, Failed(e))
    case Ok(f1) => Retire(db.(slave := db.slave.(file := f1)), id, x, c)
  }

  /** `DeleteSlave` as written. The three `if`s of the source are
      exhaustive, so one of the cases always runs. */
  function DeleteSlave(db: Db, id: u32): (r: Step)
    ensures r.status != Diverges
    ensures SortedById(db.slave.indices) && !HasId(db.slave.indices, id) ==> r == Step(db, Failed(NotFound))
    ensures r.status != Done ==> r.db.slave.indices == db.slave.indices && r.db.slave.junk == db.slave.junk
    ensures r.status == Done ==>
              var x := GetAddressByIndex(db.slave.indices, id).0;
              && Readable(db.slave.file, x) && x in r.db.slave.file.records
              && r.db.slave.file.records[x] == Unlinked(db.slave.file.records[x])
              && r.db.slave.junk == db.slave.junk + [x]
              && r.db.slave.indices == RemoveIndex(db.slave.indices, id)
              && r.db.master.indices == db.master.indices && r.db.master.junk == db.master.junk
    ensures r.status == Done ==> Locate(db, id).Ok?
    ensures r.status == Done && Locate(db, id).Ok? && Locate(db, id).value.1.previous == NoLink ==>
              var (x, c, ca) := Locate(db, id).value;
              var f := db.slave.file.records;
              var m := db.master.file.records;
              && c.next != NoLink && c.next in f
              && ca in m && r.db.master.file.records == m[ca := m[ca].(firstSlaveAddress := c.next)]
              && r.db.slave.file.records == f[c.next := f[c.next].(previous := NoLink)][x := Unlinked(c)]
    ensures r.status == Done && Locate(db, id).Ok? && Locate(db, id).value.1.previous != NoLink
            && Locate(db, id).value.1.next != NoLink ==>
              var (x, c, ca) := Locate(db, id).value;
              var f := db.slave.file.records;
              var (p, n) := (c.previous, c.next);
              && p in f && n in f && r.db.master == db.master
              && var f1 := f[p := f[p].(next := n)];
                 r.db.slave.file.records == f1[n := f1[n].(previous := p)][x := Unlinked(c)]
    ensures r.status == Done && Locate(db, id).Ok? && Locate(db, id).value.1.previous != NoLink
            && Locate(db, id).value.1.next == NoLink ==>
              var (x, c, ca) := Locate(db, id).value;
              var f := db.slave.file.records;
              var p := c.previous;
              && p in f && r.db.master == db.master
              && r.db.slave.file.records == f[p := f[p].(next := NoLink)][x := Unlinked(c)]
  {
    match Locate(db, id)
    case Err(e) => Step(db, Failed(e))
    case Ok((x, c, ca)) =>
      if c.previous == NoLink then DeleteHead(db, id, x, c, ca)
      else if c.next != NoLink then DeleteMiddle(db, id, x, c)
      else DeleteTail(db, id, x, c)
  }

  /** `DeleteSlave` with the head case corrected. */
  function DeleteSlaveFixed(db: Db, id: u32): (r: Step)
    ensures r.status != Diverges
    ensures SortedById(db.slave.indices) && !HasId(db.slave.indices, id) ==> r == Step(db, Failed(NotFound))
    ensures r.status != Done ==> r.db.slave.indices == db.slave.indices && r.db.slave.junk == db.slave.junk
    ensures r.status == Done ==>
              var x := GetAddressByIndex(db.slave.indices, id).0;
              && Readable(db.slave.file, x) && x in r.db.slave.file.records
              && r.db.slave.file.records[x] == Unlinked(db.slave.file.records[x])
              && r.db.slave.junk == db.slave.junk + [x]
              && r.db.slave.indices == RemoveIndex(db.slave.indices, id)
              && r.db.master.indices == db.master.indices && r.db.master.junk == db.master.junk
    ensures r.status == Done ==> Locate(db, id).Ok?
    ensures r.status == Done && Locate(db, id).Ok? && Locate(db, id).value.1.previous == NoLink ==>
              var (x, c, ca) := Locate(db, id).value;
              var f := db.slave.file.records;
              var m := db.master.file.records;
              && (c.next != NoLink ==> c.next in f)
              && ca in m && r.db.master.file.records == m[ca := m[ca].(firstSlaveAddress := c.next)]
              && r.db.slave.file.records == (if c.next == NoLink then f else f[c.next := f[c.next].(previous := NoLink)])[x := Unlinked(c)]
    ensures r.status == Done && Locate(db, id).Ok? && Locate(db, id).value.1.previous != NoLink
            && Locate(db, id).value.1.next != NoLink ==>
              var (x, c, ca) := Locate(db, id).value;
              var f := db.slave.file.records;
              var (p, n) := (c.previous, c.next);
              && p in f && n in f && r.db.master == db.master
              && var f1 := f[p := f[p].(next := n)];
                 r.db.slave.file.records == f1[n := f1[n].(previous := p)][x := Unlinked(c)]
    ensures r.status == Done && Locate(db, id).Ok? && Locate(db, id).value.1.previous != NoLink
            && Locate(db, id).value.1.next == NoLink ==>
              var (x, c, ca) := Locate(db, id).value;
              var f := db.slave.file.records;
              var p := c.previous;
              && p in f && r.db.master == db.master
              && r.db.slave.file.records == f[p := f[p].(next := NoLink)][x := Unlinked(c)]
  {
    match Locate(db, id)
    case Err(e) => Step(db, Failed(e))
    case Ok((x, c, ca)) =>
      if c.previous == NoLink then DeleteHeadFixed(db, id, x, c, ca)
      else if c.next != NoLink then DeleteMiddle(db, id, x, c)
      else DeleteTail(db, id, x, c)
  }

  /** Unlinking a present head `x`: its successor loses its `previous`, and
      `x` is retired. The chains stay doubly linked. */
  lemma LinkedAfterUnlinkHead(f: DataFile<Certificate>, g: DataFile<Certificate>, x: int)
    requires Linked(f) && x in f.records && f.records[x].presence && f.records[x].previous == NoLink
    requires var n := f.records[x].next;
             n != NoLink ==> n in f.records
    requires var n := f.records[x].next;
             g.records == (if n == NoLink then f.records else f.records[n := f.records[n].(previous := NoLink)])
                          [x := Unlinked(f.records[x])]
    ensures Linked(g)
  {
    var n := f.records[x].next;
    assert NodeLinked(f, x);
    forall a | a in g.records && g.records[a].presence ensures NodeLinked(g, a) {
      assert a != x;
      assert NodeLinked(f, a);
      var m := f.records[a].next;
      var q := f.records[a].previous;
      if a == n {
        assert m != NoLink ==> m != x && m != n;
      } else {
        assert m != NoLink ==> m != x && m != n;
        assert q != NoLink ==> q != x;
      }
    }
  }

  /** Unlinking a present middle certificate `x`: its predecessor and
      successor are joined, and `x` is retired. The chains stay doubly
      linked. */
  lemma LinkedAfterUnlinkMiddle(f: DataFile<Certificate>, g: DataFile<Certificate>, x: int)
    requires Linked(f) && x in f.records && f.records[x].presence
    requires f.records[x].previous != NoLink && f.records[x].next != NoLink
    requires var p := f.records[x].previous;
             var n := f.records[x].next;
             && p in f.records && n in f.records
             && var f1 := f.records[p := f.records[p].(next := n)];
             g.records == f1[n := f1[n].(previous := p)][x := Unlinked(f.records[x])]
    ensures Linked(g)
  {
    var p := f.records[x].previous;
    var n := f.records[x].next;
    assert NodeLinked(f, x);
    assert p == x <==> n == x;
    forall a | a in g.records && g.records[a].presence ensures NodeLinked(g, a) {
      assert a != x;
      assert NodeLinked(f, a);
      var m := f.records[a].next;
      var q := f.records[a].previous;
      if a == p && a == n {
      } else if a == p {
        assert q != NoLink ==> q != x && q != p;
      } else if a == n {
        assert m != NoLink ==> m != x && m != n;
      } else {
        assert m != NoLink ==> m != x && m != n;
        assert q != NoLink ==> q != x && q != p;
      }
    }
  }

  /** Unlinking a present tail `x`: its predecessor becomes the tail, and
      `x` is retired. The chains stay doubly linked. */
  lemma LinkedAfterUnlinkTail(f: DataFile<Certificate>, g: DataFile<Certificate>, x: int)
    requires Linked(f) && x in f.records && f.records[x].presence
    requires f.records[x].previous != NoLink && f.records[x].next == NoLink
    requires var p := f.records[x].previous;
             && p in f.records
             && g.records == f.records[p := f.records[p].(next := NoLink)][x := Unlinked(f.records[x])]
    ensures Linked(g)
  {
    var p := f.records[x].previous;
    assert NodeLinked(f, x);
    forall a | a in g.records && g.records[a].presence ensures NodeLinked(g, a) {
      assert a != x;
      assert NodeLinked(f, a);
      var m := f.records[a].next;
      var q := f.records[a].previous;
      if a == p {
        assert q != NoLink ==> q != x && q != p;
      } else {
        assert m != NoLink ==> m != x;
        assert q != NoLink ==> q != x && q != p;
      }
    }
  }

  /** Outside the only-child case the corrected DeleteSlave is the one as
      written: the correction changes nothing else. */
  lemma DeleteSlaveFixedAgrees(db: Db, id: u32)
    requires Locate(db, id).Ok? ==> Locate(db, id).value.1.previous != NoLink || Locate(db, id).value.1.next != NoLink
    ensures DeleteSlaveFixed(db, id) == DeleteSlave(db, id)
  {
  }

  /** Deleting an only child as written: the course is rewritten with an
      empty chain, then reading the missing successor at offset -1 fails.
      The certificate stays present, indexed and out of the junk. */
  lemma DeleteOnlyChildFails(db: Db, id: u32)
    requires Locate(db, id).Ok?
    requires var (x, c, ca) := Locate(db, id).value;
             && c.previous == NoLink && c.next == NoLink
             && Readable(db.master.file, ca) && ca !in db.master.file.badWrites
    ensures var (x, c, ca) := Locate(db, id).value;
            var r := DeleteSlave(db, id);
            && r.status == Failed(SeekFailed)
            && r.db.slave == db.slave
            && r.db.master.indices == db.master.indices && r.db.master.junk == db.master.junk
            && r.db.master.file.records == db.master.file.records[ca := db.master.file.records[ca].(firstSlaveAddress := NoLink)]
  {
    var (x, c, ca) := Locate(db, id).value;
    var db1 := RepointCourse(db, ca, c.next).value;
    assert SetPrevious(db1.slave.file, c.next, NoLink) == Err(SeekFailed);
  }

  /** The corrected DeleteSlave on an only child: the course's chain
      becomes empty and the certificate is unlinked, junked and
      unindexed. */
  lemma DeleteOnlyChildFixed(db: Db, id: u32)
    requires Locate(db, id).Ok?
    requires var (x, c, ca) := Locate(db, id).value;
             && c.previous == NoLink && c.next == NoLink
             && Readable(db.master.file, ca) && ca !in db.master.file.badWrites
             && x !in db.slave.file.badWrites
    ensures var (x, c, ca) := Locate(db, id).value;
            var r := DeleteSlaveFixed(db, id);
            && r.status == Done
            && r.db.slave.junk == db.slave.junk + [x]
            && r.db.slave.file.records == db.slave.file.records[x := Unlinked(c)]
            && r.db.master.file.records == db.master.file.records[ca := db.master.file.records[ca].(firstSlaveAddress := NoLink)]
            && (UniqueIds(db.slave.indices) ==> !RecordExists(r.db.slave.indices, id))
  {
    var (x, c, ca) := Locate(db, id).value;
    if UniqueIds(db.slave.indices) {
      RemoveThenMissing(db.slave.indices, id, if id == 0 then 1 else 0);
    }
  }

  /** A two-record database whose course has one certificate: DeleteSlave
      as written fails on it, the corrected one succeeds. */
  lemma OnlyChildExample()
    ensures var course := Course(1, Zeros(TitleWidth), Zeros(CategoryWidth), Zeros(InstructorWidth), 0, true);
            var cert := Certificate(7, 1, Zeros(IssuedToWidth), true, NoLink, NoLink);
            var db := Db(Table(DataFile(map[0 := course], CourseSize, {}, {}, false), [IndexEntry(1, 0)], []),
                         Table(DataFile(map[0 := cert], CertificateSize, {}, {}, false), [IndexEntry(7, 0)], []));
            && DeleteSlave(db, 7).status == Failed(SeekFailed)
            && DeleteSlave(db, 7).db.slave == db.slave
            && DeleteSlaveFixed(db, 7).status == Done
            && DeleteSlaveFixed(db, 7).db.slave.indices == []
  {
    var course := Course(1, Zeros(TitleWidth), Zeros(CategoryWidth), Zeros(InstructorWidth), 0, true);
    var cert := Certificate(7, 1, Zeros(IssuedToWidth), true, NoLink, NoLink);
    var db := Db(Table(DataFile(map[0 := course], CourseSize, {}, {}, false), [IndexEntry(1, 0)], []),
                 Table(DataFile(map[0 := cert], CertificateSize, {}, {}, false), [IndexEntry(7, 0)], []));
    assert GetAddressByIndex(db.slave.indices, 7) == (0, true);
    assert GetAddressByIndex(db.master.indices, 1) == (0, true);
    assert Locate(db, 7) == Ok((0, cert, 0));
    DeleteOnlyChildFails(db, 7);
    DeleteOnlyChildFixed(db, 7);
    assert RemoveIndex([IndexEntry(7, 0)], 7) == [];
  }

  /** A successful corrected DeleteSlave whose certificate starts the
      chain makes its successor the course's head. */
  lemma DeleteHeadRepoints(db: Db, id: u32)
    requires Locate(db, id).Ok? && Locate(db, id).value.1.previous == NoLink
    requires DeleteSlaveFixed(db, id).status == Done
    ensures var (x, c, ca) := Locate(db, id).value;
            var m := DeleteSlaveFixed(db, id).db.master.file.records;
            ca in m && m[ca] == db.master.file.records[ca].(firstSlaveAddress := c.next)
  {
  }

  /** A successful corrected DeleteSlave of a present certificate keeps
      every chain doubly linked. */
  lemma DeleteSlaveFixedKeepsLinked(db: Db, id: u32)
    requires Linked(db.slave.file)
    requires Locate(db, id).Ok? && Locate(db, id).value.1.presence
    requires DeleteSlaveFixed(db, id).status == Done
    ensures Linked(DeleteSlaveFixed(db, id).db.slave.file)
  {
    var (x, c, ca) := Locate(db, id).value;
    var f := db.slave.file;
    var g := DeleteSlaveFixed(db, id).db.slave.file;
    if c.previous == NoLink {
      var db1 := RepointCourse(db, ca, c.next).value;
      assert db1.slave == db.slave;
      LinkedAfterUnlinkHead(f, g, x);
    } else if c.next != NoLink {
      var f1 := SetNext(f, c.previous, c.next).value;
      assert c.next in f1.records;
      LinkedAfterUnlinkMiddle(f, g, x);
    } else {
      LinkedAfterUnlinkTail(f, g, x);
    }
  }

  /** A successful corrected DeleteSlave only rewrites records already in
      the file, so the file keeps its length and shape. */
  lemma DeleteSlaveFixedKeepsShape(db: Db, id: u32)
    requires Shaped(db.slave.file, CertificateSize)
    requires DeleteSlaveFixed(db, id).status == Done
    ensures var g := DeleteSlaveFixed(db, id).db.slave.file;
            Shaped(g, CertificateSize) && g.length == db.slave.file.length
  {
    var (x, c, ca) := Locate(db, id).value;
    var f := db.slave.file;
    if c.previous == NoLink {
      var db1 := RepointCourse(db, ca, c.next).value;
      if c.next != NoLink {
        var f2 := SetPrevious(db1.slave.file, c.next, NoLink).value;
        assert x in f2.records;
      }
    } else if c.next != NoLink {
      var f1 := SetNext(f, c.previous, c.next).value;
      var f2 := SetPrevious(f1, c.next, c.previous).value;
      assert x in f2.records;
    } else {
      var f1 := SetNext(f, c.previous, NoLink).value;
      assert x in f1.records;
    }
  }

  /** Retiring a found entry into the junk, over a file of the same length
      and shape, keeps the layout. */
  lemma RetireKeepsLayout<R>(t: Table<R>, u: Table<R>, id: u32, size: nat)
    requires Layout(t, size) && SortedById(t.indices) && GetAddressByIndex(t.indices, id).1
    requires u.indices == RemoveIndex(t.indices, id)
    requires u.junk == t.junk + [GetAddressByIndex(t.indices, id).0]
    requires Shaped(u.file, size) && u.file.length == t.file.length
    ensures Layout(u, size)
  {
    var a := GetAddressByIndex(t.indices, id).0;
    FreeKeepsDense(t, u.file, id, size);
    assert u == Table(u.file, RemoveIndex(t.indices, id), t.junk + [a]);
    RemoveFound(t.indices, id);
    assert HasId(t.indices, id) by {
      var k :| 0 <= k < |t.indices| && t.indices[k] == IndexEntry(id, a);
    }
    assert |u.indices| + |u.junk| == |t.indices| + |t.junk|;
  }

  /** A successful corrected DeleteSlave frees the certificate's slot into
      the junk and keeps the slave table's layout. */
  lemma DeleteSlaveFixedKeepsLayout(db: Db, id: u32)
    requires Layout(db.slave, CertificateSize) && SortedById(db.slave.indices)
    requires DeleteSlaveFixed(db, id).status == Done
    ensures Layout(DeleteSlaveFixed(db, id).db.slave, CertificateSize)
  {
    DeleteSlaveFixedKeepsShape(db, id);
    RetireKeepsLayout(db.slave, DeleteSlaveFixed(db, id).db.slave, id, CertificateSize);
  }

  /** Whenever DeleteSlave as written succeeds, the corrected one does the
      same: the only case they differ on never succeeds as written. */
  lemma DeleteSlaveDoneAgrees(db: Db, id: u32)
    requires DeleteSlave(db, id).status == Done
    ensures DeleteSlaveFixed(db, id) == DeleteSlave(db, id)
  {
    var (x, c, ca) := Locate(db, id).value;
    assert c.previous != NoLink || c.next != NoLink;
    DeleteSlaveFixedAgrees(db, id);
  }

  /** A successful DeleteSlave frees the certificate's slot into the junk
      and keeps the slave table's layout. */
  lemma DeleteSlaveKeepsLayout(db: Db, id: u32)
    requires Layout(db.slave, CertificateSize) && SortedById(db.slave.indices)
    requires DeleteSlave(db, id).status == Done
    ensures Layout(DeleteSlave(db, id).db.slave, CertificateSize)
  {
    DeleteSlaveDoneAgrees(db, id);
    DeleteSlaveFixedKeepsLayout(db, id);
  }

  /** A successful DeleteSlave of a present certificate keeps every chain
      doubly linked. */
  lemma DeleteSlaveKeepsLinked(db: Db, id: u32)
    requires Linked(db.slave.file)
    requires Locate(db, id).Ok? && Locate(db, id).value.1.presence
    requires DeleteSlave(db, id).status == Done
    ensures Linked(DeleteSlave(db, id).db.slave.file)
  {
    DeleteSlaveDoneAgrees(db, id);
    DeleteSlaveFixedKeepsLinked(db, id);
  }

  /** Each successful DeleteSlave adds one offset to the junk, so it makes
      compaction recommended exactly when the junk already held at least
      `MaxJunkSize - 1` offsets. */
  lemma DeleteSlaveFeedsCompaction(db: Db, id: u32)
    requires DeleteSlave(db, id).status == Done
    ensures var t := DeleteSlave(db, id).db.slave;
            && |t.junk| == |db.slave.junk| + 1
            && (RequiresCompaction(t) <==> |db.slave.junk| >= MaxJunkSize - 1)
  {
  }

  /** The same for DeleteMaster and the master table, whose junk gains the
      course's address even when the final write fails. */
  lemma DeleteMasterFeedsCompaction(db: Db, id: u32)
    requires GetAddressByIndex(db.master.indices, id).1
    requires Readable(db.master.file, GetAddressByIndex(db.master.indices, id).0)
    ensures var t := DeleteMaster(db, id).db.master;
            && |t.junk| == |db.master.junk| + 1
            && (RequiresCompaction(t) <==> |db.master.junk| >= MaxJunkSize - 1)
  {
  }

}
