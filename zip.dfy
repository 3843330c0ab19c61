/**
 * The part of the ZIP format (PKWARE APPNOTE.TXT) that the finder reads:
 * little-endian fields, the end of central directory record (section 4.3.16),
 * central file headers (section 4.3.12) and local file headers (section 4.3.7),
 * and the scan that `JarIndex::open` performs over an archive.
 *
 * Addresses inside the archive are offsets into `s: Bytes`.
 */
module Zip {
  import opened Util

  const LocalHeaderSize: nat := 30
  const HeaderSize: nat := 46
  /** The fixed part of the end of central directory record: `end - 22`. */
  const EndRecordSize: nat := 22

  const EndSignature: nat := 0x06054b50
  const CentralSignature: nat := 0x02014b50

  const Stored: nat := 0
  const Deflated: nat := 8

  /** get2: a little-endian 16-bit field. */
  function Get2(s: Bytes, i: nat): (r: nat)
    requires i + 2 <= |s|
    ensures r < 0x1_0000
  {
    s[i] as int + 0x100 * s[i + 1] as int
  }

  /** get4: a little-endian 32-bit field. */
  function Get4(s: Bytes, i: nat): (r: nat)
    requires i + 4 <= |s|
    ensures r < 0x1_0000_0000
  {
    s[i] as int + 0x100 * s[i + 1] as int + 0x1_0000 * s[i + 2] as int + 0x100_0000 * s[i + 3] as int
  }

  function Signature(s: Bytes, p: nat): (r: nat)
    requires p + 4 <= |s|
    ensures r < 0x1_0000_0000
    ensures r == s[p] as int + 0x100 * s[p + 1] as int + 0x1_0000 * s[p + 2] as int + 0x100_0000 * s[p + 3] as int
  {
    Get4(s, p)
  }

  // Fields of a central file header at p.

  function CompressionMethod(s: Bytes, p: nat): (r: nat)
    requires p + HeaderSize <= |s|
    ensures r < 0x1_0000
    ensures r == s[p + 10] as int + 0x100 * s[p + 11] as int
  {
    Get2(s, p + 10)
  }

  function CompressedSize(s: Bytes, p: nat): (r: nat)
    requires p + HeaderSize <= |s|
    ensures r < 0x1_0000_0000
    ensures r == s[p + 20] as int + 0x100 * s[p + 21] as int + 0x1_0000 * s[p + 22] as int + 0x100_0000 * s[p + 23] as int
  {
    Get4(s, p + 20)
  }

  function UncompressedSize(s: Bytes, p: nat): (r: nat)
    requires p + HeaderSize <= |s|
    ensures r < 0x1_0000_0000
    ensures r == s[p + 24] as int + 0x100 * s[p + 25] as int + 0x1_0000 * s[p + 26] as int + 0x100_0000 * s[p + 27] as int
  {
    Get4(s, p + 24)
  }

  function FileNameLength(s: Bytes, p: nat): (r: nat)
    requires p + 30 <= |s|
    ensures r < 0x1_0000
    ensures r == s[p + 28] as int + 0x100 * s[p + 29] as int
  {
    Get2(s, p + 28)
  }

  function ExtraFieldLength(s: Bytes, p: nat): (r: nat)
    requires p + 32 <= |s|
    ensures r < 0x1_0000
    ensures r == s[p + 30] as int + 0x100 * s[p + 31] as int
  {
    Get2(s, p + 30)
  }

  function CommentFieldLength(s: Bytes, p: nat): (r: nat)
    requires p + 34 <= |s|
    ensures r < 0x1_0000
    ensures r == s[p + 32] as int + 0x100 * s[p + 33] as int
  {
    Get2(s, p + 32)
  }

  function LocalHeaderOffset(s: Bytes, p: nat): (r: nat)
    requires p + HeaderSize <= |s|
    ensures r < 0x1_0000_0000
    ensures r == s[p + 42] as int + 0x100 * s[p + 43] as int + 0x1_0000 * s[p + 44] as int + 0x100_0000 * s[p + 45] as int
  {
    Get4(s, p + 42)
  }

  // Fields of a local file header at q.

  function LocalFileNameLength(s: Bytes, q: nat): (r: nat)
    requires q + LocalHeaderSize <= |s|
    ensures r < 0x1_0000
    ensures r == s[q + 26] as int + 0x100 * s[q + 27] as int
  {
    Get2(s, q + 26)
  }

  function LocalExtraFieldLength(s: Bytes, q: nat): (r: nat)
    requires q + LocalHeaderSize <= |s|
    ensures r < 0x1_0000
    ensures r == s[q + 28] as int + 0x100 * s[q + 29] as int
  {
    Get2(s, q + 28)
  }

  // The field of an end of central directory record at e.

  function CentralDirectoryOffset(s: Bytes, e: nat): (r: nat)
    requires e + EndRecordSize <= |s|
    ensures r < 0x1_0000_0000
    ensures r == s[e + 16] as int + 0x100 * s[e + 17] as int + 0x1_0000 * s[e + 18] as int + 0x100_0000 * s[e + 19] as int
  {
    Get4(s, e + 16)
  }

  /** A complete central file header, name included, lies inside `s` at p. */
  predicate IsCentralHeader(s: Bytes, p: nat)
  {
    && p + HeaderSize <= |s|
    && Signature(s, p) == CentralSignature
    && p + HeaderSize + FileNameLength(s, p) <= |s|
  }

  /** fileName: the name bytes that follow the fixed header. */
  function FileName(s: Bytes, p: nat): (r: Bytes)
    requires IsCentralHeader(s, p)
    ensures |r| == FileNameLength(s, p)
    ensures forall i :: 0 <= i < |r| ==> r[i] == s[p + HeaderSize + i]
  {
    s[p + HeaderSize .. p + HeaderSize + FileNameLength(s, p)]
  }

  /** fileData: where an entry's data starts, past its local header. */
  function FileData(s: Bytes, q: nat): (r: nat)
    requires q + LocalHeaderSize <= |s|
    ensures r >= q + LocalHeaderSize
    ensures r - (q + LocalHeaderSize) == LocalFileNameLength(s, q) + LocalExtraFieldLength(s, q)
  {
    q + LocalHeaderSize + LocalFileNameLength(s, q) + LocalExtraFieldLength(s, q)
  }

  /** endOfEntry: the offset just past a central header's name, extra field and comment. */
  function EndOfEntry(s: Bytes, p: nat): (r: nat)
    requires p + HeaderSize <= |s|
    ensures r >= p + HeaderSize + FileNameLength(s, p)
    ensures r - (p + HeaderSize) == FileNameLength(s, p) + ExtraFieldLength(s, p) + CommentFieldLength(s, p)
  {
    p + HeaderSize + FileNameLength(s, p) + ExtraFieldLength(s, p) + CommentFieldLength(s, p)
  }

  /**
   * The backward search of `open`: starting at p (initially end - 22) and
   * stepping down while p > start, the first offset carrying the end of central
   * directory signature.  Offset 0 is never examined.
   */
  function FindEndRecord(s: Bytes, p: int): (r: Option<nat>)
    requires p + EndRecordSize <= |s|
    ensures r.Some? ==> 0 < r.value <= p && Signature(s, r.value) == EndSignature
    ensures r.Some? ==> forall q :: r.value < q <= p ==> Signature(s, q) != EndSignature
    ensures r.None? <==> forall q :: 0 < q <= p ==> Signature(s, q) != EndSignature
    decreases p
  {
    if p <= 0 then None
    else if Signature(s, p) == EndSignature then Some(p)
    else FindEndRecord(s, p - 1)
  }

  /** The offset at which the bounded walk from p stops. */
  function WalkEnd(s: Bytes, p: nat): (q: nat)
    ensures !IsCentralHeader(s, q)
    decreases |s| - p
  {
    if IsCentralHeader(s, p) then WalkEnd(s, EndOfEntry(s, p)) else p
  }

  /**
   * The forward walk over the central directory, starting at p: the offsets of
   * the contiguous run of central headers there.  The walk stops at the first
   * record that is not a complete central header inside the archive.
   */
  function Walk(s: Bytes, p: nat): (r: seq<nat>)
    ensures forall i :: 0 <= i < |r| ==> IsCentralHeader(s, r[i])
    decreases |s| - p
  {
    if IsCentralHeader(s, p) then [p] + Walk(s, EndOfEntry(s, p)) else []
  }

  /**
   * The walk is a chain: it starts at p, each header is followed by the one at
   * its end, and the last one ends where the walk stops.
   */
  lemma {:induction false} WalkChained(s: Bytes, p: nat)
    ensures |Walk(s, p)| > 0 ==> Walk(s, p)[0] == p
    ensures forall i, j :: 0 <= i && j == i + 1 < |Walk(s, p)| ==> Walk(s, p)[j] == EndOfEntry(s, Walk(s, p)[i])
    ensures Walk(s, p) == [] ==> WalkEnd(s, p) == p
    ensures |Walk(s, p)| > 0 ==> WalkEnd(s, p) == EndOfEntry(s, Walk(s, p)[|Walk(s, p)| - 1])
    decreases |s| - p
  {
    if IsCentralHeader(s, p) {
      var q := EndOfEntry(s, p);
      WalkChained(s, q);
      var r := Walk(s, p);
      forall i, j | 0 <= i && j == i + 1 < |r| ensures r[j] == EndOfEntry(s, r[i]) {
        if i > 0 {
          assert r[i] == Walk(s, q)[i - 1] && r[j] == Walk(s, q)[j - 1];
        }
      }
    }
  }

  /**
   * The entries `open` indexes, in central-directory order: the walk from the
   * offset stored in the last end of central directory record found by the
   * backward search, or nothing when there is none.
   */
  function Scan(s: Bytes): (r: seq<nat>)
    ensures forall i :: 0 <= i < |r| ==> IsCentralHeader(s, r[i])
    ensures forall i, j :: 0 <= i < j < |r| ==> r[i] < r[j]
  {
    var e := FindEndRecord(s, |s| - EndRecordSize);
    if e.None? then []
    else
      var r := Walk(s, CentralDirectoryOffset(s, e.value));
      WalkChained(s, CentralDirectoryOffset(s, e.value));
      WalkIncreasing(s, r);
      r
  }

  lemma WalkIncreasing(s: Bytes, r: seq<nat>)
    requires forall i :: 0 <= i < |r| ==> IsCentralHeader(s, r[i])
    requires forall i, j :: 0 <= i && j == i + 1 < |r| && IsCentralHeader(s, r[i]) ==> r[j] == EndOfEntry(s, r[i])
    ensures forall i, j :: 0 <= i < j < |r| ==> r[i] < r[j]
  {
    forall i, j | 0 <= i < j < |r| ensures r[i] < r[j] {
      var k := i;
      while k < j
        invariant i <= k <= j
        invariant r[i] <= r[k]
        invariant k > i ==> r[i] < r[k]
      {
        k := k + 1;
      }
    }
  }

  /** A region too short to hold an end of central directory record past offset 0 yields no entries. */
  lemma ShortRegionHasNoEntries(s: Bytes)
    requires |s| <= EndRecordSize
    ensures Scan(s) == []
  {
  }

  /**
   * The search never looks at offset 0: an archive whose only end record
   * signature is at its very start is read as having no entries.
   */
  lemma EndRecordAtStartIgnored(s: Bytes)
    requires |s| >= EndRecordSize
    requires forall q :: 0 < q <= |s| - EndRecordSize ==> Signature(s, q) != EndSignature
    ensures Scan(s) == []
  {
  }

  // ---------------------------------------------------------------------
  // The scan as the source writes it, where reads are not bounded by the
  // region: the walk is guarded only by `p < end`, and once it leaves the
  // region the outer loop reads the signature at p again.

  datatype ScanOutcome = Indexed(offsets: seq<nat>) | ReadsPastEnd

  /** The inner walk of `open` as written, recording when a read would leave the region. */
  function WalkAsWritten(s: Bytes, p: nat): (r: ScanOutcome)
    ensures r.Indexed? ==> forall i :: 0 <= i < |r.offsets| ==> IsCentralHeader(s, r.offsets[i])
    ensures p + 4 > |s| ==> r == ReadsPastEnd
    decreases |s| - p
  {
    // With p >= end the outer loop reads signature(p); with p < end the inner one does.
    if p + 4 > |s| then ReadsPastEnd
    else if Signature(s, p) != CentralSignature then Indexed([])
    // endOfEntry reads the three length fields, hash reads the name
    else if p + 34 > |s| || p + HeaderSize + FileNameLength(s, p) > |s| then ReadsPastEnd
    else match WalkAsWritten(s, EndOfEntry(s, p))
      case Indexed(rest) => Indexed([p] + rest)
      case ReadsPastEnd => ReadsPastEnd
  }

  function ScanAsWritten(s: Bytes): (r: ScanOutcome)
    ensures FindEndRecord(s, |s| - EndRecordSize).None? ==> r == Indexed([])
    ensures r.Indexed? ==> forall i :: 0 <= i < |r.offsets| ==> IsCentralHeader(s, r.offsets[i])
  {
    var e := FindEndRecord(s, |s| - EndRecordSize);
    if e.None? then Indexed([]) else WalkAsWritten(s, CentralDirectoryOffset(s, e.value))
  }

  /** A record at q ends the source's walk without reading outside the region. */
  predicate EndsInside(s: Bytes, q: nat)
  {
    q + 4 <= |s| && Signature(s, q) != CentralSignature
  }

  /**
   * The source's walk reads past the region exactly when the bounded walk stops
   * at a record that is not a readable, non-matching signature; otherwise both
   * index the same entries.
   */
  lemma {:induction false} WalkAsWrittenAgrees(s: Bytes, p: nat)
    ensures WalkAsWritten(s, p) == if EndsInside(s, WalkEnd(s, p)) then Indexed(Walk(s, p)) else ReadsPastEnd
    decreases |s| - p
  {
    if p + 4 > |s| {
    } else if Signature(s, p) != CentralSignature {
    } else if p + 34 > |s| || p + HeaderSize + FileNameLength(s, p) > |s| {
    } else {
      WalkAsWrittenAgrees(s, EndOfEntry(s, p));
    }
  }

  lemma ScanAsWrittenAgrees(s: Bytes)
    ensures ScanAsWritten(s).Indexed? ==> ScanAsWritten(s).offsets == Scan(s)
  {
    var e := FindEndRecord(s, |s| - EndRecordSize);
    if e.Some? {
      WalkAsWrittenAgrees(s, CentralDirectoryOffset(s, e.value));
    }
  }

  /**
   * A 23-byte region: one byte, then an end record at offset 1 whose
   * central-directory offset (23) is the end of the region.
   */
  function PastEndExample(): Bytes
  {
    [0x00,
     0x50, 0x4b, 0x05, 0x06,  0, 0, 0, 0,  0, 0, 0, 0,  0, 0, 0, 0,
     0x17, 0x00, 0x00, 0x00,  0, 0]
  }

  /** On that region the source reads the signature at offset 23, past the end; the bounded scan finds no entries. */
  lemma PastEndExampleReadsPastEnd()
    ensures ScanAsWritten(PastEndExample()) == ReadsPastEnd
    ensures Scan(PastEndExample()) == []
  {
    var s := PastEndExample();
    assert Signature(s, 1) == EndSignature;
    assert FindEndRecord(s, 1) == Some(1);
    assert CentralDirectoryOffset(s, 1) == 23;
  }
}
