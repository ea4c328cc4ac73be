/** The two record types as the handlers use them, and their encoded sizes. */
module Models {
  import opened Types
  import opened Bytes

  const TitleWidth: nat := 50
  const CategoryWidth: nat := 15
  const InstructorWidth: nat := 30
  const IssuedToWidth: nat := 30

  /** `binary.Size(Course{})`: u32 ID, three text fields, int64 head
      offset and a one-byte presence flag, without padding. */
  const CourseSize: nat := 4 + TitleWidth + CategoryWidth + InstructorWidth + 8 + 1

  /** `binary.Size(Certificate{})`: two u32 IDs, one text field, a presence
      byte and two int64 links. */
  const CertificateSize: nat := 4 + 4 + IssuedToWidth + 1 + 8 + 8

  /** A master record. `firstSlaveAddress` is the offset of the head of its
      certificate chain, or `NoLink`. */
  datatype Course = Course(
    id: u32,
    title: seq<byte>,
    category: seq<byte>,
    instructor: seq<byte>,
    firstSlaveAddress: int,
    presence: bool)

  /** A slave record; `previous`/`next` are offsets in the slave data file
      or `NoLink`. `courseId` is the owner's logical ID. */
  datatype Certificate = Certificate(
    id: u32,
    courseId: u32,
    issuedTo: seq<byte>,
    presence: bool,
    previous: int,
    next: int)

  /** Well-formed text widths of a course. */
  ghost predicate CourseShaped(c: Course) {
    |c.title| == TitleWidth && |c.category| == CategoryWidth && |c.instructor| == InstructorWidth
  }

  /** The Course that InsertMaster builds from its arguments. */
  function NewCourse(id: u32, title: seq<byte>, category: seq<byte>, instructor: seq<byte>): (c: Course)
    ensures CourseShaped(c) && c.id == id && c.presence && c.firstSlaveAddress == NoLink
    ensures c.title == Fixed(title, TitleWidth)
    ensures c.category == Fixed(category, CategoryWidth)
    ensures c.instructor == Fixed(instructor, InstructorWidth)
  {
    Course(id, Fixed(title, TitleWidth), Fixed(category, CategoryWidth),
           Fixed(instructor, InstructorWidth), NoLink, true)
  }

  /** The Certificate that InsertSlave builds before it is linked. */
  function NewCertificate(id: u32, courseId: u32, issuedTo: seq<byte>): (c: Certificate)
    ensures c.id == id && c.courseId == courseId && c.presence
    ensures c.issuedTo == Fixed(issuedTo, IssuedToWidth)
    ensures c.previous == NoLink && c.next == NoLink
  {
    Certificate(id, courseId, Fixed(issuedTo, IssuedToWidth), true, NoLink, NoLink)
  }
}
