/** Shared scalar types, the error taxonomy and the result wrappers of the
    storage core. */
module Types {

  /** One byte of a fixed-width text field. */
  type byte = x: int | 0 <= x < 0x100

  /** Go's `uint32`: record IDs, index addresses and junk offsets. */
  type u32 = x: int | 0 <= x < 0x1_0000_0000

  /** The "no link" sentinel stored in the `int64` link fields. */
  const NoLink: int := -1

  /** Go's conversion `uint32(x)`: keeps the low 32 bits (two's complement
      for negative values, which is what Euclidean `%` gives). */
  function U32(x: int): (r: u32)
    ensures 0 <= x < 0x1_0000_0000 ==> r == x
    ensures (r - x) % 0x1_0000_0000 == 0
  {
    x % 0x1_0000_0000
  }

  /** Why a storage operation stopped. */
  datatype Error =
    | DuplicateId       // insert of an ID already in the index
    | NotFound          // lookup of an ID that is not in the index
    | BadArguments      // too few command arguments
    | NothingToUpdate   // update whose only argument is the wildcard
    | SeekFailed        // seek to a negative offset
    | IoFailed          // the operating system reported a read/write/truncate error
    | EndOfFile         // read where no record is stored
    | Malformed         // trailing bytes shorter than one fixed-size entry

  /** The errors a data file access itself can report. */
  predicate IoError(e: Error) {
    e == SeekFailed || e == IoFailed || e == EndOfFile
  }

  datatype Result<T> = Ok(value: T) | Err(error: Error)

  /** How a handler ended. `Diverges` stands for the source's loops that
      never end when a Next chain is cyclic. */
  datatype Status = Done | Failed(error: Error) | Diverges

  /** Outcome of walking a Next chain: it ends with a value, or it would
      cycle for ever. */
  datatype Walk<T> = Ends(value: T) | Cycles

  /** No value occurs twice. */
  ghost predicate Distinct<T>(s: seq<T>) {
    forall i, j :: 0 <= i < j < |s| ==> s[i] != s[j]
  }

  function Max(a: int, b: int): int { if a >= b then a else b }
}
