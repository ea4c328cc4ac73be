/** `UpdateMaster` and `UpdateSlave`: in-place rewrites of the text fields
    of one record, found through the index. The arguments are the
    command's words after the ID. */
module UpdateHandlers {
  import opened Types
  import opened Bytes
  import opened DataFiles
  import opened IndexTable
  import opened Models
  import opened Tables
  import opened Chains

  /** The word "-": keep this course field as it is. */
  const Dash: seq<byte> := [45]

  /** The word "*": UpdateSlave has nothing to change. */
  const Star: seq<byte> := [42]

  /** The value of a text field after an update: the `k`-th argument,
      cleared and copied into the field, unless it is missing or "-". */
  function Edited(current: seq<byte>, args: seq<seq<byte>>, k: nat, width: nat): (r: seq<byte>)
    ensures k < |args| && args[k] != Dash ==> r == Fixed(args[k], width)
    ensures !(k < |args| && args[k] != Dash) ==> r == current
  {
    if k < |args| && args[k] != Dash then Fixed(args[k], width) else current
  }

  /** The course UpdateMaster writes back: title, category and instructor
      from the first three arguments; ID, head and presence untouched. */
  function EditedCourse(c: Course, args: seq<seq<byte>>): (r: Course)
    ensures r.id == c.id && r.firstSlaveAddress == c.firstSlaveAddress && r.presence == c.presence
    ensures r.title == Edited(c.title, args, 0, TitleWidth)
    ensures r.category == Edited(c.category, args, 1, CategoryWidth)
    ensures r.instructor == Edited(c.instructor, args, 2, InstructorWidth)
  {
    c.(title := Edited(c.title, args, 0, TitleWidth),
       category := Edited(c.category, args, 1, CategoryWidth),
       instructor := Edited(c.instructor, args, 2, InstructorWidth))
  }

  /** `UpdateMaster`. No argument after the ID, an unknown ID or an
      unreadable record changes nothing. Otherwise the edited course is
      written over the old one, even when every argument is "-". */
  function UpdateMaster(db: Db, id: u32, args: seq<seq<byte>>): (r: Step)
    ensures r.status != Diverges
    ensures r.db.slave == db.slave
    ensures r.db.master.indices == db.master.indices && r.db.master.junk == db.master.junk
    ensures r.status == Failed(BadArguments) <==> |args| == 0
    ensures |args| > 0 && SortedById(db.master.indices) && !HasId(db.master.indices, id) ==>
              r == Step(db, Failed(NotFound))
    ensures var (a, found) := GetAddressByIndex(db.master.indices, id);
            r.status == Done <==> |args| > 0 && found && Readable(db.master.file, a) && a !in db.master.file.badWrites
    ensures r.status != Done ==> r.db == db
    ensures r.status == Done ==>
              var a := GetAddressByIndex(db.master.indices, id).0;
              && a in r.db.master.file.records
              && r.db.master.file.records == db.master.file.records[a := r.db.master.file.records[a]]
              && r.db.master.file.records[a] == EditedCourse(db.master.file.records[a], args)
              && SameFaults(db.master.file, r.db.master.file)
  {
    if |args| < 1 then Step(db, Failed(BadArguments))
    else
      var (a, found) := GetAddressByIndex(db.master.indices, id);
      if !found then Step(db, Failed(NotFound))
      else match Read(db.master.file, a)
        case Err(e) => Step(db, Failed(e))
        case Ok(course) =>
          match Write(db.master.file, a, EditedCourse(course, args), CourseSize)
          case Err(e) => Step(db, Failed(e))
          case Ok(f) => Step(db.(master := db.master.(file := f)), Done)
  }

  /** After an update, each field given a word other than "-" reads back
      as that word (when it fits and holds no zero byte), each other field
      keeps its text, and the ID, head and presence are kept. */
  lemma UpdateMasterThenRead(db: Db, id: u32, args: seq<seq<byte>>)
    requires UpdateMaster(db, id, args).status == Done
    ensures var a := GetAddressByIndex(db.master.indices, id).0;
            var c := db.master.file.records[a];
            var d := UpdateMaster(db, id, args).db.master.file.records[a];
            && d.id == c.id && d.firstSlaveAddress == c.firstSlaveAddress && d.presence == c.presence
            && (args[0] == Dash ==> d.title == c.title)
            && (args[0] != Dash && |args[0]| <= TitleWidth && NulFree(args[0]) ==> TrimZeros(d.title) == args[0])
            && (|args| < 2 || args[1] == Dash ==> d.category == c.category)
            && (|args| >= 2 && args[1] != Dash && |args[1]| <= CategoryWidth && NulFree(args[1]) ==>
                  TrimZeros(d.category) == args[1])
            && (|args| < 3 || args[2] == Dash ==> d.instructor == c.instructor)
            && (|args| >= 3 && args[2] != Dash && |args[2]| <= InstructorWidth && NulFree(args[2]) ==>
                  TrimZeros(d.instructor) == args[2])
  {
    if args[0] != Dash && |args[0]| <= TitleWidth && NulFree(args[0]) {
      TextRoundTrip(args[0], TitleWidth);
    }
    if |args| >= 2 && args[1] != Dash && |args[1]| <= CategoryWidth && NulFree(args[1]) {
      TextRoundTrip(args[1], CategoryWidth);
    }
    if |args| >= 3 && args[2] != Dash && |args[2]| <= InstructorWidth && NulFree(args[2]) {
      TextRoundTrip(args[2], InstructorWidth);
    }
  }

  /** Repeating a successful update changes nothing more. */
  lemma UpdateMasterIdempotent(db: Db, id: u32, args: seq<seq<byte>>)
    requires Shaped(db.master.file, CourseSize)
    requires UpdateMaster(db, id, args).status == Done
    ensures var r := UpdateMaster(db, id, args);
            UpdateMaster(r.db, id, args) == r
  {
    var a := GetAddressByIndex(db.master.indices, id).0;
    var r := UpdateMaster(db, id, args);
    var c := db.master.file.records[a];
    assert EditedCourse(EditedCourse(c, args), args) == EditedCourse(c, args);
    assert r.db.master.file.length == db.master.file.length;
  }

  /** An update whose words are all "-" rewrites the course unchanged. */
  lemma UpdateMasterAllDashes(db: Db, id: u32, args: seq<seq<byte>>)
    requires forall k :: 0 <= k < |args| ==> args[k] == Dash
    requires Shaped(db.master.file, CourseSize)
    requires UpdateMaster(db, id, args).status == Done
    ensures UpdateMaster(db, id, args).db == db
  {
    var a := GetAddressByIndex(db.master.indices, id).0;
    var c := db.master.file.records[a];
    assert EditedCourse(c, args) == c;
    assert db.master.file.records[a := c] == db.master.file.records;
  }

  /** `UpdateSlave`. No argument after the ID, an unknown ID, an
      unreadable record or the word "*" changes nothing; otherwise the
      holder's name is replaced. */
  function UpdateSlave(db: Db, id: u32, args: seq<seq<byte>>): (r: Step)
    ensures r.status != Diverges
    ensures r.db.master == db.master
    ensures r.db.slave.indices == db.slave.indices && r.db.slave.junk == db.slave.junk
    ensures r.status == Failed(BadArguments) <==> |args| == 0
    ensures |args| > 0 && SortedById(db.slave.indices) && !HasId(db.slave.indices, id) ==>
              r == Step(db, Failed(NotFound))
    ensures var (a, found) := GetAddressByIndex(db.slave.indices, id);
            r.status == Failed(NothingToUpdate) <==> |args| > 0 && found && Readable(db.slave.file, a) && args[0] == Star
    ensures var (a, found) := GetAddressByIndex(db.slave.indices, id);
            r.status == Done <==>
              |args| > 0 && found && Readable(db.slave.file, a) && args[0] != Star && a !in db.slave.file.badWrites
    ensures r.status != Done ==> r.db == db
    ensures r.status == Done ==>
              var a := GetAddressByIndex(db.slave.indices, id).0;
              && a in r.db.slave.file.records
              && r.db.slave.file.records
                 == db.slave.file.records[a := db.slave.file.records[a].(issuedTo := Fixed(args[0], IssuedToWidth))]
              && SameFaults(db.slave.file, r.db.slave.file)
  {
    if |args| < 1 then Step(db, Failed(BadArguments))
    else
      var (a, found) := GetAddressByIndex(db.slave.indices, id);
      if !found then Step(db, Failed(NotFound))
      else match Read(db.slave.file, a)
        case Err(e) => Step(db, Failed(e))
        case Ok(cert) =>
          if args[0] == Star then Step(db, Failed(NothingToUpdate))
          else match Write(db.slave.file, a, cert.(issuedTo := Fixed(args[0], IssuedToWidth)), CertificateSize)
            case Err(e) => Step(db, Failed(e))
            case Ok(f) => Step(db.(slave := db.slave.(file := f)), Done)
  }

  /** After an update the new name reads back (when it fits and holds no
      zero byte); the certificate keeps its ID, course, presence and
      links. */
  lemma UpdateSlaveThenRead(db: Db, id: u32, args: seq<seq<byte>>)
    requires UpdateSlave(db, id, args).status == Done
    ensures var a := GetAddressByIndex(db.slave.indices, id).0;
            var c := db.slave.file.records[a];
            var d := UpdateSlave(db, id, args).db.slave.file.records[a];
            && d.id == c.id && d.courseId == c.courseId && d.presence == c.presence
            && d.previous == c.previous && d.next == c.next
            && (|args[0]| <= IssuedToWidth && NulFree(args[0]) ==> TrimZeros(d.issuedTo) == args[0])
  {
    if |args[0]| <= IssuedToWidth && NulFree(args[0]) {
      TextRoundTrip(args[0], IssuedToWidth);
    }
  }

  /** Updating a certificate leaves every chain as it was, so the chains
      stay doubly linked. */
  lemma UpdateSlaveKeepsLinked(db: Db, id: u32, args: seq<seq<byte>>)
    requires Linked(db.slave.file)
    ensures Linked(UpdateSlave(db, id, args).db.slave.file)
  {
    var r := UpdateSlave(db, id, args);
    if r.status == Done {
      var f := db.slave.file;
      var g := r.db.slave.file;
      var a := GetAddressByIndex(db.slave.indices, id).0;
      forall k | k in g.records && g.records[k].presence ensures NodeLinked(g, k) {
        assert NodeLinked(f, k);
      }
    }
  }
}
