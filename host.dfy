/**
 * The services the finder obtains from the host system, and the values its
 * lookups produce.  Everything here is an interface: the host's file system,
 * memory mapping, dynamic libraries, DEFLATE codec and string hash are given
 * as functions, and every component keeps the `System` it was created with.
 */
module Host {
  import opened Util

  /** System::FileType. */
  datatype FileType = TypeUnknown | TypeDoesNotExist | TypeFile | TypeDirectory

  datatype System = System(
    /** identify(path) */
    identify: Bytes -> FileType,
    /** map(path): the bytes of the whole file, or None when it cannot be mapped */
    mapFile: Bytes -> Option<Bytes>,
    /** open(path) followed by Directory::next until it yields null */
    list: Bytes -> Option<seq<Bytes>>,
    /** load(libraryName), resolve(symbol) and a call of the resolved function:
        the archive bytes it returns, or None for any failure or a null result */
    library: (Option<Bytes>, Bytes) -> Option<Bytes>,
    /** raw inflate (inflateInit2 with -15, inflate with Z_FINISH) over
        `memory[offset..]` with avail_in and avail_out given: the bytes written
        when both calls succeed and the stream ends, otherwise None */
    inflate: (Bytes, nat, nat, nat) -> Option<Bytes>,
    /** the VM's string hash, the same for a C string and for a byte run */
    hash: Bytes -> uint32,
    /** how deep the host's directory trees go (bounds the directory walk) */
    maxDepth: nat)

  /** System::Region: a view into an archive, a decompressed buffer, or a mapped file. */
  datatype Region =
    | Borrowed(offset: nat, length: nat)   // a region borrowed from the element's archive
    | Owned(length: nat, data: Bytes)      // DataRegion of `length` bytes, `data` written by inflate
    | Mapped(data: Bytes)                  // a whole file mapped by the host

  /** The situations in which the source aborts the process. */
  datatype Fatal =
    | UnsupportedMethod(compression: nat)
    | InflateFailed
    | LocalHeaderPastEnd

  /** The result of a find: no region, a region, or a fatal abort. */
  datatype Lookup = Absent | Found(region: Region) | Abort(reason: Fatal)
}
