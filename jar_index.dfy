/**
 * JarIndex: the hash index over a ZIP central directory.  Nodes live in a
 * fixed arena (`nodes`) filled in insertion order up to `position`; `table`
 * holds one chain head per bucket, and each node links to the previous head
 * of its bucket.  Links are node positions instead of addresses, and the
 * central header a node refers to is an offset into the archive.
 */
module JarIndexes {
  import opened Util
  import opened Host
  import opened Zip

  /** A chain link: the position of a node in the arena, or null. */
  type Link = Option<nat>

  /** JarIndex::Node: the name hash, the central header, and the next node of the chain. */
  datatype Node = Node(hash: uint32, entry: nat, next: Link)

  /** What one call of `add` recorded: the abstract content of a node. */
  datatype Entry = Entry(hash: uint32, entry: nat)

  const InitialCapacity: nat := 32

  function EntriesOf(ns: seq<Node>): (es: seq<Entry>)
    ensures |es| == |ns|
    ensures forall i :: 0 <= i < |ns| ==> es[i] == Entry(ns[i].hash, ns[i].entry)
  {
    seq(|ns|, i requires 0 <= i < |ns| => Entry(ns[i].hash, ns[i].entry))
  }

  function OffsetsOf(es: seq<Entry>): (r: seq<nat>)
    ensures |r| == |es|
    ensures forall i :: 0 <= i < |es| ==> r[i] == es[i].entry
  {
    seq(|es|, i requires 0 <= i < |es| => es[i].entry)
  }

  /** The bucket of a hash: its remainder by the capacity (see BucketIsMask). */
  function Bucket(h: uint32, capacity: nat): (b: nat)
    requires capacity > 0
    ensures b < capacity
  {
    h % capacity
  }

  /** For the power-of-two capacities an index has, the bucket is `hash & (capacity - 1)`. */
  lemma BucketIsMask(h: uint32, capacity: nat)
    requires IsPowerOfTwo(capacity)
    ensures capacity > 0 && Bucket(h, capacity) == BitAnd(h, capacity - 1)
  {
    MaskIsRemainder(h, capacity);
  }

  /**
   * The newest of the first i nodes that falls in bucket b, that is, the head
   * of b's chain once those i nodes have been added.
   */
  function LastInBucket(ns: seq<Node>, capacity: nat, b: nat, i: nat): (r: Link)
    requires capacity > 0 && i <= |ns|
    ensures r.Some? ==> r.value < i && Bucket(ns[r.value].hash, capacity) == b
    decreases i
  {
    if i == 0 then None
    else if Bucket(ns[i - 1].hash, capacity) == b then Some(i - 1)
    else LastInBucket(ns, capacity, b, i - 1)
  }

  /** No node after the chain head, and none at all for an empty chain, falls in the bucket. */
  lemma {:induction false} LastInBucketIsLast(ns: seq<Node>, capacity: nat, b: nat, i: nat)
    requires capacity > 0 && i <= |ns|
    ensures LastInBucket(ns, capacity, b, i).Some? ==>
              forall j :: LastInBucket(ns, capacity, b, i).value < j < i ==> Bucket(ns[j].hash, capacity) != b
    ensures LastInBucket(ns, capacity, b, i).None? <==> forall j :: 0 <= j < i ==> Bucket(ns[j].hash, capacity) != b
    decreases i
  {
    if i > 0 && Bucket(ns[i - 1].hash, capacity) != b {
      LastInBucketIsLast(ns, capacity, b, i - 1);
    }
  }

  /** A chain head depends only on the hashes of the nodes before it. */
  lemma {:induction false} LastInBucketPrefix(ns: seq<Node>, ms: seq<Node>, capacity: nat, b: nat, i: nat)
    requires capacity > 0 && i <= |ns| && i <= |ms|
    requires forall j :: 0 <= j < i ==> ns[j].hash == ms[j].hash
    ensures LastInBucket(ns, capacity, b, i) == LastInBucket(ms, capacity, b, i)
    decreases i
  {
    if i > 0 {
      LastInBucketPrefix(ns, ms, capacity, b, i - 1);
    }
  }

  /** Every entry is a complete central header whose hash is the hash of its name. */
  ghost predicate HashesNames(s: System, archive: Bytes, es: seq<Entry>)
  {
    forall i :: 0 <= i < |es| ==>
      IsCentralHeader(archive, es[i].entry) && es[i].hash == s.hash(FileName(archive, es[i].entry))
  }

  /** A complete central header at p whose name is n. */
  predicate Named(archive: Bytes, p: nat, n: Bytes)
  {
    IsCentralHeader(archive, p) && Equal(FileName(archive, p), n)
  }

  /** The position, among the first k offsets, of the last central header named n. */
  function LastNamedBefore(archive: Bytes, offsets: seq<nat>, n: Bytes, k: nat): (r: Option<nat>)
    requires k <= |offsets|
    ensures r.Some? ==> r.value < k && Named(archive, offsets[r.value], n)
    decreases k
  {
    if k == 0 then None
    else if Named(archive, offsets[k - 1], n) then Some(k - 1)
    else LastNamedBefore(archive, offsets, n, k - 1)
  }

  /** The position, among the offsets, of the last central header named n. */
  function LastNamed(archive: Bytes, offsets: seq<nat>, n: Bytes): (r: Option<nat>)
  {
    LastNamedBefore(archive, offsets, n, |offsets|)
  }

  /** The match found is the last one: none follows it, and there is none at all when nothing is found. */
  lemma {:induction false} LastNamedBeforeIsLast(archive: Bytes, offsets: seq<nat>, n: Bytes, k: nat)
    requires k <= |offsets|
    ensures LastNamedBefore(archive, offsets, n, k).Some? ==>
              forall j :: LastNamedBefore(archive, offsets, n, k).value < j < k ==> !Named(archive, offsets[j], n)
    ensures LastNamedBefore(archive, offsets, n, k).None? <==> forall j :: 0 <= j < k ==> !Named(archive, offsets[j], n)
    decreases k
  {
    if k > 0 {
      if Named(archive, offsets[k - 1], n) {
        assert LastNamedBefore(archive, offsets, n, k) == Some(k - 1);
      } else {
        var before := LastNamedBefore(archive, offsets, n, k - 1);
        assert LastNamedBefore(archive, offsets, n, k) == before;
        LastNamedBeforeIsLast(archive, offsets, n, k - 1);
        if before.Some? {
          forall j | before.value < j < k ensures !Named(archive, offsets[j], n) {
            if j < k - 1 {
              assert before.value < j < k - 1;
            }
          }
        } else {
          forall j | 0 <= j < k ensures !Named(archive, offsets[j], n) {
            if j < k - 1 {
              assert 0 <= j < k - 1;
            }
          }
        }
      }
    }
  }

  /**
   * What `find` returns for the entry whose central header is at p: the
   * dispatch on its compression method.
   */
  function EntryData(s: System, archive: Bytes, p: nat): (r: Lookup)
    requires IsCentralHeader(archive, p)
    ensures r != Absent
    ensures r.Abort? && r.reason.UnsupportedMethod? <==>
              CompressionMethod(archive, p) != Stored && CompressionMethod(archive, p) != Deflated
    ensures r.Found? && r.region.Borrowed? ==>
              && CompressionMethod(archive, p) == Stored
              && LocalHeaderOffset(archive, p) + LocalHeaderSize <= |archive|
              && r.region.offset == FileData(archive, LocalHeaderOffset(archive, p))
              && r.region.length == CompressedSize(archive, p)
    ensures r.Found? && r.region.Owned? ==>
              CompressionMethod(archive, p) == Deflated && r.region.length == UncompressedSize(archive, p)
    ensures r.Found? ==> !r.region.Mapped?
    ensures (CompressionMethod(archive, p) == Stored && LocalHeaderOffset(archive, p) + LocalHeaderSize <= |archive|)
              ==> r.Found? && r.region.Borrowed?
    ensures (CompressionMethod(archive, p) == Deflated && LocalHeaderOffset(archive, p) + LocalHeaderSize <= |archive|)
              ==> r == match s.inflate(archive, FileData(archive, LocalHeaderOffset(archive, p)),
                                       CompressedSize(archive, p), UncompressedSize(archive, p))
                       case Some(out) => Found(Owned(UncompressedSize(archive, p), out))
                       case None => Abort(InflateFailed)
    ensures r == Abort(LocalHeaderPastEnd) <==>
              (CompressionMethod(archive, p) == Stored || CompressionMethod(archive, p) == Deflated)
              && LocalHeaderOffset(archive, p) + LocalHeaderSize > |archive|
  {
    var m := CompressionMethod(archive, p);
    if m != Stored && m != Deflated then Abort(UnsupportedMethod(m))
    else
      var q := LocalHeaderOffset(archive, p);
      if q + LocalHeaderSize > |archive| then Abort(LocalHeaderPastEnd)
      else if m == Stored then Found(Borrowed(FileData(archive, q), CompressedSize(archive, p)))
      else match s.inflate(archive, FileData(archive, q), CompressedSize(archive, p), UncompressedSize(archive, p))
        case Some(out) => Found(Owned(UncompressedSize(archive, p), out))
        case None => Abort(InflateFailed)
  }

  /** What an index over the central headers at `offsets` answers for the name n. */
  function ArchiveFind(s: System, archive: Bytes, offsets: seq<nat>, n: Bytes): (r: Lookup)
    ensures r == Absent <==> LastNamed(archive, offsets, n).None?
  {
    match LastNamed(archive, offsets, n)
    case None => Absent
    case Some(j) => EntryData(s, archive, offsets[j])
  }

  /** Every node links to the previous node of its bucket. */
  ghost predicate ChainsLinked(ns: seq<Node>, capacity: nat)
    requires capacity > 0
  {
    forall i :: 0 <= i < |ns| ==> ns[i].next == LastInBucket(ns, capacity, Bucket(ns[i].hash, capacity), i)
  }

  /** Every bucket's head is its newest node. */
  ghost predicate HeadsLinked(ns: seq<Node>, heads: seq<Link>, capacity: nat)
    requires capacity > 0
  {
    forall b :: 0 <= b < |heads| ==> heads[b] == LastInBucket(ns, capacity, b, |ns|)
  }

  /** Appending a node at the head of its bucket keeps every chain and every head linked. */
  lemma InsertLinks(ns: seq<Node>, heads: seq<Link>, capacity: nat, hash: uint32, entry: nat)
    requires capacity > 0 && |heads| == capacity
    requires ChainsLinked(ns, capacity) && HeadsLinked(ns, heads, capacity)
    ensures ChainsLinked(ns + [Node(hash, entry, heads[Bucket(hash, capacity)])], capacity)
    ensures HeadsLinked(ns + [Node(hash, entry, heads[Bucket(hash, capacity)])],
                        heads[Bucket(hash, capacity) := Some(|ns|)], capacity)
  {
    var h := Bucket(hash, capacity);
    var ns' := ns + [Node(hash, entry, heads[h])];
    forall i | 0 <= i < |ns'|
      ensures ns'[i].next == LastInBucket(ns', capacity, Bucket(ns'[i].hash, capacity), i)
    {
      LastInBucketPrefix(ns', ns, capacity, Bucket(ns'[i].hash, capacity), i);
    }
    forall b | 0 <= b < capacity
      ensures heads[h := Some(|ns|)][b] == LastInBucket(ns', capacity, b, |ns'|)
    {
      if b != h {
        LastInBucketPrefix(ns', ns, capacity, b, |ns|);
      }
    }
  }

  lemma EntriesOfSnoc(ns: seq<Node>, n: Node)
    ensures EntriesOf(ns + [n]) == EntriesOf(ns) + [Entry(n.hash, n.entry)]
  {
  }

  lemma TakeOneMore<T>(s: seq<T>, i: nat)
    requires i < |s|
    ensures s[..i + 1] == s[..i] + [s[i]]
  {
  }

  /**
   * Nodes outside the bucket of n's hash are not named n, so skipping them
   * does not change the last match.
   */
  lemma {:induction false} SkipOtherBuckets(s: System, archive: Bytes, ns: seq<Node>, capacity: nat, n: Bytes, lo: nat, hi: nat)
    requires capacity > 0 && lo <= hi <= |ns|
    requires HashesNames(s, archive, EntriesOf(ns))
    requires forall j :: lo <= j < hi ==> Bucket(ns[j].hash, capacity) != Bucket(s.hash(n), capacity)
    ensures LastNamedBefore(archive, OffsetsOf(EntriesOf(ns)), n, hi)
         == LastNamedBefore(archive, OffsetsOf(EntriesOf(ns)), n, lo)
    decreases hi
  {
    if lo < hi {
      var es := EntriesOf(ns);
      var p := ns[hi - 1].entry;
      assert es[hi - 1] == Entry(ns[hi - 1].hash, p);
      assert OffsetsOf(es)[hi - 1] == p;
      assert IsCentralHeader(archive, p) && ns[hi - 1].hash == s.hash(FileName(archive, p));
      assert FileName(archive, p) != n;
      assert !Named(archive, p, n);
      SkipOtherBuckets(s, archive, ns, capacity, n, lo, hi - 1);
    }
  }

  /**
   * One step down the chain of n's bucket: the node m at its head is the last
   * one named n if its name matches, and otherwise the search may continue
   * below m.
   */
  lemma ChainStep(s: System, archive: Bytes, ns: seq<Node>, capacity: nat, n: Bytes, k: nat)
    requires capacity > 0 && k <= |ns|
    requires HashesNames(s, archive, EntriesOf(ns))
    requires LastInBucket(ns, capacity, Bucket(s.hash(n), capacity), k).Some?
    ensures var m := LastInBucket(ns, capacity, Bucket(s.hash(n), capacity), k).value;
      && IsCentralHeader(archive, ns[m].entry)
      && LastNamedBefore(archive, OffsetsOf(EntriesOf(ns)), n, k)
         == if Named(archive, ns[m].entry, n) then Some(m)
            else LastNamedBefore(archive, OffsetsOf(EntriesOf(ns)), n, m)
  {
    var b := Bucket(s.hash(n), capacity);
    var m := LastInBucket(ns, capacity, b, k).value;
    var offsets := OffsetsOf(EntriesOf(ns));
    LastInBucketIsLast(ns, capacity, b, k);
    SkipOtherBuckets(s, archive, ns, capacity, n, m + 1, k);
    assert EntriesOf(ns)[m] == Entry(ns[m].hash, ns[m].entry);
    assert offsets[m] == ns[m].entry;
  }

  /** The head of a chain links to the previous node of the same bucket. */
  lemma ChainLink(ns: seq<Node>, capacity: nat, b: nat, k: nat)
    requires capacity > 0 && k <= |ns|
    requires ChainsLinked(ns, capacity)
    requires LastInBucket(ns, capacity, b, k).Some?
    ensures var m := LastInBucket(ns, capacity, b, k).value;
      ns[m].next == LastInBucket(ns, capacity, b, m)
  {
  }

  /** When the chain of n's bucket is exhausted, no node is named n. */
  lemma ChainEnd(s: System, archive: Bytes, ns: seq<Node>, capacity: nat, n: Bytes, k: nat)
    requires capacity > 0 && k <= |ns|
    requires HashesNames(s, archive, EntriesOf(ns))
    requires LastInBucket(ns, capacity, Bucket(s.hash(n), capacity), k).None?
    ensures LastNamedBefore(archive, OffsetsOf(EntriesOf(ns)), n, k) == None
  {
    LastInBucketIsLast(ns, capacity, Bucket(s.hash(n), capacity), k);
    SkipOtherBuckets(s, archive, ns, capacity, n, 0, k);
  }

  class JarIndex {
    const s: System
    const capacity: nat
    var position: nat
    const nodes: array<Node>
    const table: array<Link>

    ghost predicate Valid()
      reads this, nodes, table
    {
      && IsPowerOfTwo(capacity)
      && nodes.Length == capacity && table.Length == capacity
      && position <= capacity
      && ChainsLinked(nodes[..position], capacity)
      && HeadsLinked(nodes[..position], table[..], capacity)
    }

    /** The (hash, entry) pairs added so far, in insertion order. */
    function Entries(): seq<Entry>
      reads this, nodes
      requires position <= nodes.Length
    {
      EntriesOf(nodes[..position])
    }

    /** The index is valid and its entries are the named central headers of `archive`. */
    ghost predicate Indexes(archive: Bytes)
      reads this, nodes, table
    {
      Valid() && HashesNames(s, archive, Entries())
    }

    /** JarIndex(s, capacity), as allocated by `make`. */
    constructor (s: System, capacity: nat)
      requires IsPowerOfTwo(capacity)
      ensures Valid() && this.s == s && this.capacity == capacity && position == 0
      ensures fresh(nodes) && fresh(table)
    {
      this.s := s;
      this.capacity := capacity;
      position := 0;
      nodes := new Node[capacity](_ => Node(0, 0, None));
      table := new Link[capacity](_ => None);
    }

    /**
     * The first branch of add: while the arena has room, the new node takes
     * the next slot and becomes the head of its bucket, linking to the old head.
     */
    method Link(hash: uint32, entry: nat)
      requires Valid() && position < capacity
      modifies this, nodes, table
      ensures Valid() && position == old(position) + 1
      ensures Entries() == old(Entries()) + [Entry(hash, entry)]
    {
      ghost var ns := nodes[..position];
      ghost var heads := table[..];
      InsertLinks(ns, heads, capacity, hash, entry);
      EntriesOfSnoc(ns, Node(hash, entry, heads[Bucket(hash, capacity)]));
      var i := Bucket(hash, capacity);
      nodes[position] := Node(hash, entry, table[i]);
      table[i] := Some(position);
      position := position + 1;
      assert nodes[..position] == ns + [Node(hash, entry, heads[i])];
      assert table[..] == heads[i := Some(|ns|)];
    }

    /**
     * add: link the new node in place while the arena has room; otherwise
     * build an index of twice the capacity, re-add every node in order, add
     * the new one there and return that index.  The larger index always has
     * room, so those calls take the first branch.
     */
    method Add(hash: uint32, entry: nat) returns (index: JarIndex)
      requires Valid()
      modifies this, nodes, table
      ensures index.Valid() && index.s == s
      ensures index.Entries() == old(Entries()) + [Entry(hash, entry)]
      ensures old(position) < capacity ==> index == this
      ensures old(position) == capacity ==>
                && fresh(index) && fresh(index.nodes) && fresh(index.table)
                && index.capacity == 2 * capacity
                && unchanged(this, nodes, table)
    {
      if position < capacity {
        Link(hash, entry);
        index := this;
      } else {
        DoubleIsPowerOfTwo(capacity);
        ghost var es := Entries();
        index := new JarIndex(s, capacity * 2);
        var i := 0;
        while i < capacity
          invariant 0 <= i <= capacity
          invariant fresh(index) && fresh(index.nodes) && fresh(index.table)
          invariant unchanged(this, nodes, table)
          invariant index.Valid() && index.s == s && index.capacity == 2 * capacity
          invariant index.position == i
          invariant index.Entries() == es[..i]
        {
          assert es[i] == Entry(nodes[i].hash, nodes[i].entry);
          TakeOneMore(es, i);
          index.Link(nodes[i].hash, nodes[i].entry);
          i := i + 1;
        }
        assert es[..capacity] == es;
        index.Link(hash, entry);
      }
    }

    /**
     * findNode: walk the chain of the name's bucket, newest node first, until a
     * node's central-header name equals the name.
     */
    method FindNode(archive: Bytes, name: Bytes) returns (n: Link)
      requires Indexes(archive)
      ensures n == LastNamed(archive, OffsetsOf(Entries()), name)
    {
      ghost var ns := nodes[..position];
      var i := Bucket(s.hash(name), capacity);
      n := table[i];
      ghost var k: nat := position;
      while n.Some?
        invariant k <= position
        invariant n == LastInBucket(ns, capacity, i, k)
        invariant LastNamedBefore(archive, OffsetsOf(EntriesOf(ns)), name, k) == LastNamed(archive, OffsetsOf(EntriesOf(ns)), name)
        decreases k
      {
        ChainStep(s, archive, ns, capacity, name, k);
        ChainLink(ns, capacity, i, k);
        if Equal(name, FileName(archive, nodes[n.value].entry)) {
          return;
        }
        k := n.value;
        n := nodes[n.value].next;
      }
      ChainEnd(s, archive, ns, capacity, name, k);
    }

    /**
     * find: the region of the entry named `name`; `start` is the archive the
     * central headers point into.
     */
    method Find(name: Bytes, start: Bytes) returns (r: Lookup)
      requires Indexes(start)
      ensures r == ArchiveFind(s, start, OffsetsOf(Entries()), name)
    {
      var n := FindNode(start, name);
      if n.Some? {
        var p := nodes[n.value].entry;
        assert p == OffsetsOf(Entries())[n.value];
        var m := CompressionMethod(start, p);
        if m == Stored {
          var q := LocalHeaderOffset(start, p);
          if q + LocalHeaderSize > |start| {
            return Abort(LocalHeaderPastEnd);
          }
          return Found(Borrowed(FileData(start, q), CompressedSize(start, p)));
        } else if m == Deflated {
          var q := LocalHeaderOffset(start, p);
          if q + LocalHeaderSize > |start| {
            return Abort(LocalHeaderPastEnd);
          }
          var out := s.inflate(start, FileData(start, q), CompressedSize(start, p), UncompressedSize(start, p));
          if out.None? {
            return Abort(InflateFailed);
          }
          return Found(Owned(UncompressedSize(start, p), out.value));
        } else {
          return Abort(UnsupportedMethod(m));
        }
      }
      return Absent;
    }

    /** exists: findNode found a node. */
    method Exists(name: Bytes, archive: Bytes) returns (r: bool)
      requires Indexes(archive)
      ensures r == LastNamed(archive, OffsetsOf(Entries()), name).Some?
      ensures r <==> exists j :: 0 <= j < |Entries()| && Named(archive, Entries()[j].entry, name)
    {
      var n := FindNode(archive, name);
      r := n.Some?;
      ghost var offsets := OffsetsOf(Entries());
      LastNamedBeforeIsLast(archive, offsets, name, |offsets|);
      if r {
        assert offsets[n.value] == Entries()[n.value].entry;
      } else {
        forall j | 0 <= j < |Entries()| ensures !Named(archive, Entries()[j].entry, name) {
          assert offsets[j] == Entries()[j].entry;
        }
      }
    }
  }

  /** Recording a complete central header with the hash of its name keeps the entries hashed by name. */
  lemma HashesNamesSnoc(s: System, archive: Bytes, es: seq<Entry>, p: nat)
    requires IsCentralHeader(archive, p)
    requires HashesNames(s, archive, es)
    ensures HashesNames(s, archive, es + [Entry(s.hash(FileName(archive, p)), p)])
  {
    var es' := es + [Entry(s.hash(FileName(archive, p)), p)];
    forall i | 0 <= i < |es'|
      ensures IsCentralHeader(archive, es'[i].entry) && es'[i].hash == s.hash(FileName(archive, es'[i].entry))
    {
      if i < |es| {
        assert es'[i] == es[i];
      }
    }
  }

  /** Adding the header at p, where the walk has reached, extends the index by one step of the walk. */
  lemma WalkStep(region: Bytes, offsets: seq<nat>, p: nat, directory: nat)
    requires IsCentralHeader(region, p)
    requires offsets + Walk(region, p) == Walk(region, directory)
    ensures (offsets + [p]) + Walk(region, EndOfEntry(region, p)) == Walk(region, directory)
  {
    assert Walk(region, p) == [p] + Walk(region, EndOfEntry(region, p));
    assert (offsets + [p]) + Walk(region, EndOfEntry(region, p)) == offsets + ([p] + Walk(region, EndOfEntry(region, p)));
  }

  lemma OffsetsOfSnoc(es: seq<Entry>, e: Entry)
    ensures OffsetsOf(es + [e]) == OffsetsOf(es) + [e.entry]
  {
  }

  /**
   * open: allocate an index of capacity 32, scan back from `end - 22` for the
   * end of central directory record, jump to the central directory it names
   * and add every central header of the contiguous run that starts there.
   */
  method Open(s: System, region: Bytes) returns (index: JarIndex)
    ensures fresh(index) && fresh(index.nodes) && fresh(index.table)
    ensures index.Indexes(region) && index.s == s
    ensures OffsetsOf(index.Entries()) == Scan(region)
  {
    index := new JarIndex(s, InitialCapacity);
    var p: int := |region| - EndRecordSize;
    while p > 0
      invariant p + EndRecordSize <= |region|
      invariant FindEndRecord(region, |region| - EndRecordSize) == FindEndRecord(region, p)
      invariant fresh(index) && fresh(index.nodes) && fresh(index.table)
      invariant index.Indexes(region) && index.s == s && index.Entries() == []
      decreases p
    {
      if Signature(region, p) == EndSignature {
        ghost var directory := CentralDirectoryOffset(region, p);
        p := CentralDirectoryOffset(region, p);
        while p < |region|
          invariant 0 <= p
          invariant fresh(index) && fresh(index.nodes) && fresh(index.table)
          invariant index.Indexes(region) && index.s == s
          invariant OffsetsOf(index.Entries()) + Walk(region, p) == Walk(region, directory)
          decreases |region| - p
        {
          // The source tests the signature only; the model also requires the
          // header and its name to lie inside the region.
          if IsCentralHeader(region, p) {
            HashesNamesSnoc(s, region, index.Entries(), p);
            WalkStep(region, OffsetsOf(index.Entries()), p, directory);
            OffsetsOfSnoc(index.Entries(), Entry(s.hash(FileName(region, p)), p));
            index := index.Add(s.hash(FileName(region, p)), p);
            p := EndOfEntry(region, p);
          } else {
            return;
          }
        }
        // The source returns to the backward search here, reading at p >= end.
        return;
      } else {
        p := p - 1;
      }
    }
  }

  // ---------------------------------------------------------------------
  // A concrete archive

  /** The name "README". */
  function ReadmeName(): Bytes
  {
    [0x52, 0x45, 0x41, 0x44, 0x4d, 0x45]
  }

  /** A local file header for "README": stored, 2 bytes, followed by its name and the data "hi". */
  function ReadmeLocal(): (r: Bytes)
    ensures |r| == 38
  {
    // signature, version, flags, method, time, date
    [0x50, 0x4b, 0x03, 0x04, 0x14, 0x00, 0x00, 0x00, 0x00, 0x00, 0x00, 0x00, 0x00, 0x00]
    // crc-32, compressed size, uncompressed size, name length, extra field length
    + [0x00, 0x00, 0x00, 0x00, 0x02, 0x00, 0x00, 0x00, 0x02, 0x00, 0x00, 0x00, 0x06, 0x00, 0x00, 0x00]
    + ReadmeName() + [0x68, 0x69]
  }

  /** A central file header for "README": stored, 2 bytes, local header at 0, followed by its name. */
  function ReadmeCentral(): (r: Bytes)
    ensures |r| == 52
  {
    // signature, version made by, version needed, flags, method, time, date
    [0x50, 0x4b, 0x01, 0x02, 0x14, 0x00, 0x14, 0x00, 0x00, 0x00, 0x00, 0x00, 0x00, 0x00, 0x00, 0x00]
    // crc-32, compressed size, uncompressed size, name length, extra field length
    + [0x00, 0x00, 0x00, 0x00, 0x02, 0x00, 0x00, 0x00, 0x02, 0x00, 0x00, 0x00, 0x06, 0x00, 0x00, 0x00]
    // comment length, disk, internal and external attributes, local header offset
    + [0x00, 0x00, 0x00, 0x00, 0x00, 0x00, 0x00, 0x00, 0x00, 0x00, 0x00, 0x00, 0x00, 0x00]
    + ReadmeName()
  }

  /** An end of central directory record: one entry, a 52-byte directory at offset 38. */
  function ReadmeEnd(): (r: Bytes)
    ensures |r| == 22
  {
    // signature, disk numbers, entry counts
    [0x50, 0x4b, 0x05, 0x06, 0x00, 0x00, 0x00, 0x00, 0x01, 0x00, 0x01, 0x00]
    // directory size, directory offset, comment length
    + [0x34, 0x00, 0x00, 0x00, 0x26, 0x00, 0x00, 0x00, 0x00, 0x00]
  }

  /**
   * A 112-byte archive holding one stored entry, "README" with content "hi":
   * its local header at 0 (data at 36), its central header at 38 and the end
   * of central directory record at 90.
   */
  function ReadmeArchive(): (a: Bytes)
    ensures |a| == 112
    ensures a[..38] == ReadmeLocal() && a[38..90] == ReadmeCentral() && a[90..] == ReadmeEnd()
  {
    ReadmeLocal() + ReadmeCentral() + ReadmeEnd()
  }

  /** A 16-bit field read inside a record of the archive is the record's own field. */
  lemma Get2Within(s: Bytes, o: nat, t: Bytes, i: nat)
    requires o + |t| <= |s| && s[o..o + |t|] == t && i + 2 <= |t|
    ensures Get2(s, o + i) == Get2(t, i)
  {
    assert s[o + i] == t[i] && s[o + i + 1] == t[i + 1];
  }

  /** A 32-bit field read inside a record of the archive is the record's own field. */
  lemma Get4Within(s: Bytes, o: nat, t: Bytes, i: nat)
    requires o + |t| <= |s| && s[o..o + |t|] == t && i + 4 <= |t|
    ensures Get4(s, o + i) == Get4(t, i)
  {
    assert s[o + i] == t[i] && s[o + i + 1] == t[i + 1] && s[o + i + 2] == t[i + 2] && s[o + i + 3] == t[i + 3];
  }

  /** The scan finds the end record at 90 and indexes the one central header at 38. */
  lemma ReadmeScan()
    ensures Scan(ReadmeArchive()) == [38]
    ensures IsCentralHeader(ReadmeArchive(), 38)
    ensures FileName(ReadmeArchive(), 38) == ReadmeName()
  {
    var a := ReadmeArchive();
    Get4Within(a, 90, ReadmeEnd(), 0);
    Get4Within(a, 90, ReadmeEnd(), 16);
    Get4Within(a, 38, ReadmeCentral(), 0);
    Get2Within(a, 38, ReadmeCentral(), 28);
    Get2Within(a, 38, ReadmeCentral(), 30);
    Get2Within(a, 38, ReadmeCentral(), 32);
    assert Signature(a, 90) == EndSignature;
    assert FindEndRecord(a, 90) == Some(90);
    assert CentralDirectoryOffset(a, 90) == 38;
    assert IsCentralHeader(a, 38) && EndOfEntry(a, 38) == 90;
    assert !IsCentralHeader(a, 90);
    assert Walk(a, 38) == [38] + Walk(a, 90);
    assert a[84..90] == ReadmeCentral()[46..];
  }

  /** The central header at 38 is a stored entry of 2 bytes whose local header, at 0, puts its data at 36. */
  lemma ReadmeFields()
    ensures CompressionMethod(ReadmeArchive(), 38) == Stored && CompressedSize(ReadmeArchive(), 38) == 2
    ensures LocalHeaderOffset(ReadmeArchive(), 38) == 0 && FileData(ReadmeArchive(), 0) == 36
  {
    var a := ReadmeArchive();
    Get2Within(a, 38, ReadmeCentral(), 10);
    Get4Within(a, 38, ReadmeCentral(), 20);
    Get4Within(a, 38, ReadmeCentral(), 42);
    Get2Within(a, 0, ReadmeLocal(), 26);
    Get2Within(a, 0, ReadmeLocal(), 28);
  }

  /** The two bytes at 36 are "hi". */
  lemma ReadmeContent()
    ensures ReadmeArchive()[36..38] == [0x68, 0x69]
  {
    assert ReadmeArchive()[36..38] == ReadmeLocal()[36..];
  }

  /** So the entry's data is borrowed from the archive: the two bytes at 36. */
  lemma ReadmeEntry(s: System)
    ensures IsCentralHeader(ReadmeArchive(), 38)
    ensures EntryData(s, ReadmeArchive(), 38) == Found(Borrowed(36, 2))
  {
    ReadmeScan();
    ReadmeFields();
  }

  /**
   * On that archive `find("README")` borrows the two bytes "hi" from the
   * archive without copying, and every other name is absent.
   */
  lemma StoredEntryScenario(s: System, n: Bytes)
    ensures Scan(ReadmeArchive()) == [38]
    ensures ArchiveFind(s, ReadmeArchive(), Scan(ReadmeArchive()), ReadmeName()) == Found(Borrowed(36, 2))
    ensures ReadmeArchive()[36..38] == [0x68, 0x69]
    ensures n != ReadmeName() ==> ArchiveFind(s, ReadmeArchive(), Scan(ReadmeArchive()), n) == Absent
  {
    var a := ReadmeArchive();
    ReadmeScan();
    ReadmeContent();
    ReadmeEntry(s);
    var name := FileName(a, 38);
    assert LastNamed(a, [38], ReadmeName()) == Some(0) by {
      assert Named(a, 38, ReadmeName());
    }
    if n != name {
      assert !Named(a, 38, n);
      assert LastNamedBefore(a, [38], n, 0) == None;
    }
  }
}
