/** A data file (`.fl`) seen as a map from byte offset to the record
    stored there. `ReadModel`/`WriteModel` become lookup and update;
    `badReads`, `badWrites` and `truncateFails` stand for the I/O errors
    the operating system may report. */
module DataFiles {
  import opened Types

  datatype DataFile<R> = DataFile(
    records: map<int, R>,
    length: int,
    badReads: set<int>,
    badWrites: set<int>,
    truncateFails: bool)

  /** A `ReadModel` at `off` succeeds. */
  ghost predicate Readable<R>(f: DataFile<R>, off: int) {
    0 <= off && off in f.records && off !in f.badReads
  }

  /** The two files fail in the same places. */
  ghost predicate SameFaults<R>(f: DataFile<R>, g: DataFile<R>) {
    f.badReads == g.badReads && f.badWrites == g.badWrites && f.truncateFails == g.truncateFails
  }

  /** Every record lies inside the file. */
  ghost predicate Shaped<R>(f: DataFile<R>, size: nat) {
    forall k :: k in f.records ==> 0 <= k && k + size <= f.length
  }

  /** `ReadModel(file, &model, off, io.SeekStart)`: a negative offset fails
      the seek, a bad one the read, and an offset holding no record reads
      end of file. */
  function Read<R>(f: DataFile<R>, off: int): (r: Result<R>)
    ensures r.Ok? <==> Readable(f, off)
    ensures r.Ok? ==> r.value == f.records[off]
    ensures r.Err? ==> IoError(r.error)
  {
    if off < 0 then Err(SeekFailed)
    else if off in f.badReads then Err(IoFailed)
    else if off !in f.records then Err(EndOfFile)
    else Ok(f.records[off])
  }

  /** `WriteModel(file, &rec, off, io.SeekStart)` for a record of `size`
      bytes: it stores `rec` at `off`, extends the file when it writes
      past the end, and leaves every other offset alone. */
  function Write<R>(f: DataFile<R>, off: int, rec: R, size: nat): (r: Result<DataFile<R>>)
    ensures r.Ok? <==> 0 <= off && off !in f.badWrites
    ensures r.Err? ==> IoError(r.error)
    ensures r.Ok? ==> r.value.records == f.records[off := rec]
    ensures r.Ok? ==> r.value.length == Max(f.length, off + size)
    ensures r.Ok? ==> SameFaults(f, r.value)
    ensures r.Ok? && Shaped(f, size) ==> Shaped(r.value, size)
  {
    if off < 0 then Err(SeekFailed)
    else if off in f.badWrites then Err(IoFailed)
    else Ok(f.(records := f.records[off := rec], length := Max(f.length, off + size)))
  }

  /** `TruncateFile(file, n)`: drops every record that does not fit in the
      first `n` bytes. */
  function Truncate<R>(f: DataFile<R>, n: int, size: nat): (r: Result<DataFile<R>>)
    ensures r.Ok? <==> 0 <= n && !f.truncateFails
    ensures r.Err? ==> IoError(r.error)
    ensures r.Ok? ==> r.value.length == n
    ensures r.Ok? ==> forall k :: k in r.value.records <==> k in f.records && k + size <= n
    ensures r.Ok? ==> forall k :: k in r.value.records ==> r.value.records[k] == f.records[k]
    ensures r.Ok? ==> SameFaults(f, r.value)
  {
    if n < 0 || f.truncateFails then Err(IoFailed)
    else Ok(f.(records := map k | k in f.records && k + size <= n :: f.records[k], length := n))
  }
}
