/** The storage layer as the scan engine sees it: every Windows call it makes is
    a field of a `FileHandle`, and the promises the operating system makes about
    those calls are predicates on the handle. */
module Storage {
  import opened Ranges

  /** A Win32 DWORD. */
  type DWord = x: int | 0 <= x < 0x1_0000_0000

  /** One exception message of the source per constructor. */
  datatype Error =
    | CannotSetSparse
    | CannotGetAllocatedRanges
    | CannotSetFilePointer
    | CannotReadFilePart
    | CannotSetZeroData
    | CannotGetFileInfo

  datatype Result<T> = Ok(value: T) | Err(error: Error)

  datatype Status = Success | Failure(error: Error)

  /** FILE_ALLOCATED_RANGE_BUFFER: an allocated region as the query reports it. */
  datatype Extent = Extent(offset: int, length: int)

  /** How FSCTL_QUERY_ALLOCATED_RANGES ended: success, ERROR_MORE_DATA, or any other error. */
  datatype QueryStatus = Complete | MoreData | QueryFailed

  datatype QueryReply = QueryReply(status: QueryStatus, batch: seq<Extent>)

  /** What ReadFile produced: a failure, or the bytes it read. */
  datatype ReadReply = ReadFailed | ReadOk(bytes: seq<bv8>)

  /** The open file handle and the operating-system calls made on it. */
  datatype FileHandle = FileHandle(
    setSparse: bool,                    // FSCTL_SET_SPARSE succeeded
    query: (int, int) -> QueryReply,    // FSCTL_QUERY_ALLOCATED_RANGES(offset, length)
    seek: int -> bool,                  // SetFilePointerEx(offset, FILE_BEGIN) succeeded
    read: (int, int) -> ReadReply,      // ReadFile of at most `count` bytes at `offset`
    setZeroData: Range -> bool,         // FSCTL_SET_ZERO_DATA(range) succeeded
    standardInfo: bool)                 // GetFileInformationByHandleEx(FileStandardInfo) succeeded
  {
    /** A reply that asks for another round (ERROR_MORE_DATA) carries at least one
        range, and the last one ends beyond the queried offset. Without this the
        enumeration loop would not move. */
    ghost predicate QueryProgresses()
    {
      forall p, l :: MovesOn(p, query(p, l))
    }

    /** Every batch lies inside the queried region and is sorted. */
    ghost predicate QueriesWellFormed()
    {
      forall p, l :: BatchWithin(p, l, query(p, l).batch)
    }

    /** ReadFile never returns more bytes than asked for. */
    ghost predicate ReadsAtMost()
    {
      forall p, n :: ReadFits(p, n, read(p, n))
    }

    /** ReadFile returns a prefix of the requested window of `content`. */
    ghost predicate ReadsFrom(content: seq<bv8>)
    {
      forall p, n :: ReadMatches(content, p, n, read(p, n))
    }

    /** Every range of `rs` was accepted by FSCTL_SET_ZERO_DATA. */
    predicate AllAccepted(rs: seq<Range>)
    {
      forall i :: 0 <= i < |rs| ==> setZeroData(rs[i])
    }
  }

  predicate MovesOn(p: int, reply: QueryReply)
  {
    var b := reply.batch;
    reply.status == MoreData ==> b != [] && b[|b| - 1].offset + b[|b| - 1].length > p
  }

  predicate BatchWithin(p: int, l: int, b: seq<Extent>)
  {
    (forall i :: 0 <= i < |b| ==>
      0 <= b[i].length && p <= b[i].offset && b[i].offset + b[i].length <= p + l) &&
    (forall i, j :: 0 <= i < j < |b| ==> b[i].offset + b[i].length <= b[j].offset)
  }

  predicate ReadFits(p: int, n: int, reply: ReadReply)
  {
    reply.ReadOk? ==> |reply.bytes| <= n
  }

  /** A successful read returns at most `n` bytes, and any bytes it returns are
      those of `content` from `p` on; a read at or past the end returns none. */
  predicate ReadMatches(content: seq<bv8>, p: int, n: int, reply: ReadReply)
  {
    reply.ReadOk? ==>
      |reply.bytes| <= n &&
      (reply.bytes != [] ==>
        (0 <= p && p + |reply.bytes| <= |content| && reply.bytes == content[p..p + |reply.bytes|]))
  }

  /** `prefix` in front of a successful result; an error is passed through. */
  function Prefixed(prefix: seq<Range>, r: Result<seq<Range>>): (joined: Result<seq<Range>>)
  {
    match r
    case Ok(rs) => Ok(prefix + rs)
    case Err(e) => Err(e)
  }

  lemma ReadsFromFits(h: FileHandle, content: seq<bv8>)
    requires h.ReadsFrom(content)
    ensures h.ReadsAtMost()
  {
    forall p, n ensures ReadFits(p, n, h.read(p, n)) {
      assert ReadMatches(content, p, n, h.read(p, n));
    }
  }
}
