/**
 * The elements of a search path: a directory, a JAR file, or an archive
 * built into a dynamic library.  A JAR or builtin element maps its archive
 * and builds its index lazily, on first use; a directory element asks the
 * host for each file.
 */
module Elements {
  import opened Util
  import opened Host
  import opened Zip
  import opened JarIndexes

  const Slash: uint8 := 0x2F
  const Dot: uint8 := 0x2E

  /** The element classes: DirectoryElement, JarElement, and BuiltinElement with its library. */
  datatype Kind = Directory | Jar | Builtin(libraryName: Option<Bytes>)

  /** What the finder knows about an element before it is used: its class and its name. */
  datatype PathElement = PathElement(kind: Kind, name: Bytes)

  // ---------------------------------------------------------------------
  // Names

  /** `while (*name == '/') name++`: the name without its leading slashes. */
  function StripSlashes(n: Bytes): (r: Bytes)
    ensures |r| <= |n| && r == n[|n| - |r|..]
    ensures forall i :: 0 <= i < |n| - |r| ==> n[i] == Slash
    ensures |r| > 0 ==> r[0] != Slash
  {
    if |n| > 0 && n[0] == Slash then StripSlashes(n[1..]) else n
  }

  function Slashes(k: nat): (r: Bytes)
    ensures |r| == k && forall i :: 0 <= i < k ==> r[i] == Slash
  {
    seq(k, i => Slash)
  }

  /** Any number of leading slashes is the same as none: "/foo", "//foo" and "foo" name one entry. */
  lemma {:induction false} LeadingSlashesIgnored(k: nat, n: Bytes)
    ensures StripSlashes(Slashes(k) + n) == StripSlashes(n)
    decreases k
  {
    if k > 0 {
      assert (Slashes(k) + n)[0] == Slash;
      assert (Slashes(k) + n)[1..] == Slashes(k - 1) + n;
      assert StripSlashes(Slashes(k) + n) == StripSlashes(Slashes(k - 1) + n);
      LeadingSlashesIgnored(k - 1, n);
    } else {
      assert Slashes(k) + n == n;
    }
  }

  /** The names of the central headers at `offsets`, in order. */
  function EntryNames(archive: Bytes, offsets: seq<nat>): (r: seq<Bytes>)
    requires forall i :: 0 <= i < |offsets| ==> IsCentralHeader(archive, offsets[i])
    ensures |r| == |offsets|
    ensures forall i :: 0 <= i < |offsets| ==> r[i] == FileName(archive, offsets[i])
  {
    seq(|offsets|, i requires 0 <= i < |offsets| => FileName(archive, offsets[i]))
  }

  // ---------------------------------------------------------------------
  // The directory walk

  /** A directory entry whose name starts with '.'. */
  predicate Hidden(v: Bytes)
  {
    |v| > 0 && v[0] == Dot
  }

  /**
   * DirectoryElement::Iterator, as the sequence of names it yields for the
   * directory `dir`: for each listed entry not starting with '.', the path
   * `dir/entry` without its first `skip` bytes, followed, when that path is a
   * directory, by the names of its own walk.  `fuel` bounds the depth.
   */
  function DirectoryWalk(s: System, dir: Bytes, skip: nat, fuel: nat): (r: seq<Bytes>)
    requires skip <= |dir| + 1
    ensures s.list(dir).None? ==> r == []
    decreases fuel, 1, 0
  {
    match s.list(dir)
    case None => []
    case Some(entries) => WalkEntries(s, dir, skip, entries, fuel)
  }

  function WalkEntries(s: System, dir: Bytes, skip: nat, entries: seq<Bytes>, fuel: nat): (r: seq<Bytes>)
    requires skip <= |dir| + 1
    ensures entries != [] && !Hidden(entries[0]) ==> |r| > 0 && r[0] == Append(dir, [Slash], entries[0])[skip..]
    decreases fuel, 0, |entries|
  {
    if entries == [] then []
    else
      var v := entries[0];
      if Hidden(v) then WalkEntries(s, dir, skip, entries[1..], fuel)
      else
        var last := Append(dir, [Slash], v);
        var below := if s.identify(last) == TypeDirectory && fuel > 0 then DirectoryWalk(s, last, skip, fuel - 1) else [];
        [last[skip..]] + below + WalkEntries(s, dir, skip, entries[1..], fuel)
  }

  /**
   * Every name the walk of `dir` yields is `dir/` without its first `skip`
   * bytes, followed by a path that does not start with '.'.
   */
  predicate UnderDirectory(dir: Bytes, skip: nat, r: Bytes)
    requires skip <= |dir| + 1
  {
    var prefix := (dir + [Slash])[skip..];
    |r| >= |prefix| && r[..|prefix|] == prefix && (|r| > |prefix| ==> r[|prefix|] != Dot)
  }

  lemma {:induction false} DirectoryWalkNames(s: System, dir: Bytes, skip: nat, fuel: nat)
    requires skip <= |dir| + 1
    ensures forall r :: r in DirectoryWalk(s, dir, skip, fuel) ==> UnderDirectory(dir, skip, r)
    decreases fuel, 1, 0
  {
    match s.list(dir)
    case None =>
    case Some(entries) => WalkEntriesNames(s, dir, skip, entries, fuel);
  }

  lemma {:induction false} WalkEntriesNames(s: System, dir: Bytes, skip: nat, entries: seq<Bytes>, fuel: nat)
    requires skip <= |dir| + 1
    ensures forall r :: r in WalkEntries(s, dir, skip, entries, fuel) ==> UnderDirectory(dir, skip, r)
    decreases fuel, 0, |entries|
  {
    if entries != [] {
      var v := entries[0];
      WalkEntriesNames(s, dir, skip, entries[1..], fuel);
      if !(|v| > 0 && v[0] == Dot) {
        var last := Append(dir, [Slash], v);
        EntryUnder(dir, skip, v);
        if s.identify(last) == TypeDirectory && fuel > 0 {
          DirectoryWalkNames(s, last, skip, fuel - 1);
          forall r | r in DirectoryWalk(s, last, skip, fuel - 1) ensures UnderDirectory(dir, skip, r) {
            NestedUnder(dir, skip, v, r);
          }
        }
      }
    }
  }

  /** Every listed entry that does not start with '.' is yielded, as `dir/entry` past `skip`. */
  lemma {:induction false} WalkEntriesComplete(s: System, dir: Bytes, skip: nat, entries: seq<Bytes>, fuel: nat)
    requires skip <= |dir| + 1
    ensures forall v :: v in entries && !Hidden(v) ==> Append(dir, [Slash], v)[skip..] in WalkEntries(s, dir, skip, entries, fuel)
    decreases |entries|
  {
    if entries != [] {
      WalkEntriesComplete(s, dir, skip, entries[1..], fuel);
      var r := WalkEntries(s, dir, skip, entries, fuel);
      var rest := WalkEntries(s, dir, skip, entries[1..], fuel);
      if !Hidden(entries[0]) {
        var last := Append(dir, [Slash], entries[0]);
        var below := if s.identify(last) == TypeDirectory && fuel > 0 then DirectoryWalk(s, last, skip, fuel - 1) else [];
        assert r == [last[skip..]] + below + rest;
      }
      forall v | v in entries && !Hidden(v) ensures Append(dir, [Slash], v)[skip..] in r {
        if v != entries[0] {
          assert v in entries[1..];
        }
      }
    }
  }

  /** A directory element yields every entry of its root directory that does not start with '.'. */
  lemma DirectoryWalkComplete(s: System, root: Bytes, v: Bytes)
    requires s.list(root).Some? && v in s.list(root).value && !Hidden(v)
    ensures Append(root, [Slash], v)[|root| + 1..] == v
    ensures v in DirectoryWalk(s, root, |root| + 1, s.maxDepth)
  {
    WalkEntriesComplete(s, root, |root| + 1, s.list(root).value, s.maxDepth);
    assert Append(root, [Slash], v) == (root + [Slash]) + v;
  }

  /** The name of a listed entry that does not start with '.' lies under the directory. */
  lemma EntryUnder(dir: Bytes, skip: nat, v: Bytes)
    requires skip <= |dir| + 1 && !(|v| > 0 && v[0] == Dot)
    ensures UnderDirectory(dir, skip, Append(dir, [Slash], v)[skip..])
  {
    var prefix := (dir + [Slash])[skip..];
    assert Append(dir, [Slash], v) == (dir + [Slash]) + v;
    assert Append(dir, [Slash], v)[skip..] == prefix + v;
  }

  /** A name under a subdirectory that does not start with '.' lies under the directory. */
  lemma NestedUnder(dir: Bytes, skip: nat, v: Bytes, r: Bytes)
    requires skip <= |dir| + 1 && !(|v| > 0 && v[0] == Dot)
    requires UnderDirectory(Append(dir, [Slash], v), skip, r)
    ensures UnderDirectory(dir, skip, r)
  {
    var last := Append(dir, [Slash], v);
    var prefix := (dir + [Slash])[skip..];
    var inner := (last + [Slash])[skip..];
    assert last == (dir + [Slash]) + v;
    assert inner == prefix + v + [Slash];
    assert r[..|prefix|] == inner[..|prefix|];
    if |r| > |prefix| {
      assert r[|prefix|] == inner[|prefix|];
    }
  }

  /** The names a directory element yields never start with '.'. */
  lemma DirectoryNamesNotHidden(s: System, root: Bytes, r: Bytes)
    requires r in DirectoryWalk(s, root, |root| + 1, s.maxDepth)
    ensures |r| > 0 ==> r[0] != Dot
  {
    DirectoryWalkNames(s, root, |root| + 1, s.maxDepth);
  }

  /** No path component of t starts with '.': neither its first byte nor any byte after a '/'. */
  predicate NoHiddenComponent(t: Bytes)
  {
    && (|t| > 0 ==> t[0] != Dot)
    && forall i :: 0 <= i < |t| - 1 && t[i] == Slash ==> t[i + 1] != Dot
  }

  /** The host lists directory entries as unqualified names, which hold no '/'. */
  ghost predicate ListsPlainNames(s: System)
  {
    forall d :: s.list(d).Some? ==> forall v :: v in s.list(d).value ==> Slash !in v
  }

  /** Every name the walk of `dir` yields is `dir/` past `skip`, then a path none of whose components is hidden. */
  predicate VisibleUnder(dir: Bytes, skip: nat, r: Bytes)
    requires skip <= |dir| + 1
  {
    var prefix := (dir + [Slash])[skip..];
    |r| >= |prefix| && r[..|prefix|] == prefix && NoHiddenComponent(r[|prefix|..])
  }

  lemma {:induction false} DirectoryWalkVisible(s: System, dir: Bytes, skip: nat, fuel: nat)
    requires skip <= |dir| + 1 && ListsPlainNames(s)
    ensures forall r :: r in DirectoryWalk(s, dir, skip, fuel) ==> VisibleUnder(dir, skip, r)
    decreases fuel, 1, 0
  {
    match s.list(dir)
    case None =>
    case Some(entries) => WalkEntriesVisible(s, dir, skip, entries, fuel);
  }

  lemma {:induction false} WalkEntriesVisible(s: System, dir: Bytes, skip: nat, entries: seq<Bytes>, fuel: nat)
    requires skip <= |dir| + 1 && ListsPlainNames(s)
    requires forall v :: v in entries ==> Slash !in v
    ensures forall r :: r in WalkEntries(s, dir, skip, entries, fuel) ==> VisibleUnder(dir, skip, r)
    decreases fuel, 0, |entries|
  {
    if entries != [] {
      var v := entries[0];
      assert v in entries;
      WalkEntriesVisible(s, dir, skip, entries[1..], fuel);
      if !(|v| > 0 && v[0] == Dot) {
        var last := Append(dir, [Slash], v);
        EntryVisible(dir, skip, v);
        if s.identify(last) == TypeDirectory && fuel > 0 {
          DirectoryWalkVisible(s, last, skip, fuel - 1);
          forall r | r in DirectoryWalk(s, last, skip, fuel - 1) ensures VisibleUnder(dir, skip, r) {
            NestedVisible(dir, skip, v, r);
          }
        }
      }
    }
  }

  /** A listed entry without '/' that does not start with '.' is a visible name under the directory. */
  lemma EntryVisible(dir: Bytes, skip: nat, v: Bytes)
    requires skip <= |dir| + 1 && !(|v| > 0 && v[0] == Dot) && Slash !in v
    ensures VisibleUnder(dir, skip, Append(dir, [Slash], v)[skip..])
  {
    var prefix := (dir + [Slash])[skip..];
    assert Append(dir, [Slash], v) == (dir + [Slash]) + v;
    assert Append(dir, [Slash], v)[skip..] == prefix + v;
    assert (prefix + v)[|prefix|..] == v;
    assert forall k :: 0 <= k < |v| ==> v[k] != Slash;
  }

  /** A visible name under a visible subdirectory entry is a visible name under the directory. */
  lemma NestedVisible(dir: Bytes, skip: nat, v: Bytes, r: Bytes)
    requires skip <= |dir| + 1 && !(|v| > 0 && v[0] == Dot) && Slash !in v
    requires VisibleUnder(Append(dir, [Slash], v), skip, r)
    ensures VisibleUnder(dir, skip, r)
  {
    var last := Append(dir, [Slash], v);
    var prefix := (dir + [Slash])[skip..];
    var inner := (last + [Slash])[skip..];
    assert last == (dir + [Slash]) + v;
    assert inner == prefix + v + [Slash];
    assert r[..|prefix|] == inner[..|prefix|];
    var u := r[|inner|..];
    var t := r[|prefix|..];
    assert t == v + [Slash] + u by {
      assert r[..|inner|] == prefix + v + [Slash];
    }
    assert forall k :: 0 <= k < |v| ==> t[k] == v[k] != Slash;
    forall i | |v| <= i < |t| - 1 && t[i] == Slash ensures t[i + 1] != Dot {
      if i == |v| {
        assert t[i + 1] == u[0];
      } else {
        assert t[i] == u[i - |v| - 1] && t[i + 1] == u[i - |v|];
      }
    }
  }

  /**
   * With the host listing plain names, no component of a name a directory
   * element yields starts with '.', at any depth.
   */
  lemma DirectoryComponentsNotHidden(s: System, root: Bytes, r: Bytes)
    requires ListsPlainNames(s)
    requires r in DirectoryWalk(s, root, |root| + 1, s.maxDepth)
    ensures NoHiddenComponent(r)
  {
    DirectoryWalkVisible(s, root, |root| + 1, s.maxDepth);
    assert VisibleUnder(root, |root| + 1, r);
  }

  // ---------------------------------------------------------------------
  // What an element answers

  /**
   * The archive a JAR or builtin element's `init` obtains: the mapped file,
   * or the bytes returned by the library function named after the element.
   */
  function Load(s: System, e: PathElement): Option<Bytes>
  {
    match e.kind
    case Directory => None
    case Jar => s.mapFile(e.name)
    case Builtin(library) => s.library(library, e.name)
  }

  /** `find(n)` of the element e. */
  function ElementFind(s: System, e: PathElement, n: Bytes): (r: Lookup)
    ensures e.kind.Directory? ==> (r.Found? <==> s.mapFile(Append(e.name, [Slash], n)).Some?)
    ensures e.kind.Directory? ==> !r.Abort?
    ensures !e.kind.Directory? && Load(s, e).None? ==> r == Absent
  {
    match e.kind
    case Directory =>
      (match s.mapFile(Append(e.name, [Slash], n))
       case Some(data) => Found(Mapped(data))
       case None => Absent)
    case _ =>
      match Load(s, e)
      case None => Absent
      case Some(a) => ArchiveFind(s, a, Scan(a), StripSlashes(n))
  }

  /** `exists(n)` of the element e. */
  function ElementExists(s: System, e: PathElement, n: Bytes): (r: bool)
    ensures e.kind.Directory? ==> (r <==> s.identify(Append(e.name, [Slash], n)) != TypeDoesNotExist)
    ensures !e.kind.Directory? && Load(s, e).None? ==> !r
  {
    match e.kind
    case Directory => s.identify(Append(e.name, [Slash], n)) != TypeDoesNotExist
    case _ =>
      match Load(s, e)
      case None => false
      case Some(a) => LastNamed(a, Scan(a), StripSlashes(n)).Some?
  }

  /**
   * A directory element says a name exists when the file system knows the
   * joined path; a JAR or builtin element, when some central header of its
   * archive carries the name without its leading slashes.
   */
  lemma ElementExistsIsNamed(s: System, e: PathElement, n: Bytes)
    ensures e.kind.Directory? ==> (ElementExists(s, e, n) <==> s.identify(Append(e.name, [Slash], n)) != TypeDoesNotExist)
    ensures !e.kind.Directory? ==>
              (ElementExists(s, e, n) <==>
                 Load(s, e).Some? &&
                 exists j :: 0 <= j < |Scan(Load(s, e).value)| &&
                             Named(Load(s, e).value, Scan(Load(s, e).value)[j], StripSlashes(n)))
  {
    if !e.kind.Directory? && Load(s, e).Some? {
      var a := Load(s, e).value;
      LastNamedBeforeIsLast(a, Scan(a), StripSlashes(n), |Scan(a)|);
    }
  }

  /** The names an element's iterator yields, in order. */
  function ElementNames(s: System, e: PathElement): seq<Bytes>
  {
    match e.kind
    case Directory => DirectoryWalk(s, e.name, |e.name| + 1, s.maxDepth)
    case _ =>
      match Load(s, e)
      case None => []
      case Some(a) => EntryNames(a, Scan(a))
  }

  /** A JAR or builtin element finds a region exactly when it says the name exists. */
  lemma FindAgreesWithExists(s: System, e: PathElement, n: Bytes)
    requires !e.kind.Directory?
    ensures ElementFind(s, e, n) != Absent <==> ElementExists(s, e, n)
  {
    match Load(s, e)
    case None =>
    case Some(a) =>
      assert ElementFind(s, e, n) == ArchiveFind(s, a, Scan(a), StripSlashes(n));
  }

  /** A JAR or builtin element gives the same answers with or without leading slashes. */
  lemma SlashesIgnoredByArchives(s: System, e: PathElement, k: nat, n: Bytes)
    requires !e.kind.Directory?
    ensures ElementFind(s, e, Slashes(k) + n) == ElementFind(s, e, n)
    ensures ElementExists(s, e, Slashes(k) + n) == ElementExists(s, e, n)
  {
    LeadingSlashesIgnored(k, n);
  }

  // ---------------------------------------------------------------------
  // Elements as objects

  class Element {
    const s: System
    const kind: Kind
    const name: Bytes
    /** region->start(): the archive bytes, once `init` has obtained them */
    var archive: Option<Bytes>
    var index: JarIndex?

    function Describe(): PathElement
    {
      PathElement(kind, name)
    }

    /** The element and the index it owns. */
    ghost function Footprint(): set<object>
      reads this
    {
      {this} + (if index == null then {} else {index, index.nodes, index.table})
    }

    /**
     * A directory element has no index; an index, once built, covers the
     * central directory of the archive that `init` obtained.
     */
    ghost predicate Valid()
      reads Footprint()
    {
      && (kind.Directory? ==> index == null)
      && (index != null ==>
            && archive == Load(s, Describe()) && archive.Some?
            && index.s == s
            && index.Indexes(archive.value)
            && OffsetsOf(index.Entries()) == Scan(archive.value))
    }

    constructor (s: System, kind: Kind, name: Bytes)
      ensures Valid() && this.s == s && this.kind == kind && this.name == name
      ensures index == null
    {
      this.s := s;
      this.kind := kind;
      this.name := name;
      archive := None;
      index := null;
    }

    /**
     * init: when no index has been built yet, obtain the archive (map the
     * file, or call the library function) and open an index over it.
     */
    method Init()
      requires Valid() && !kind.Directory?
      modifies this
      ensures Valid()
      ensures old(index) != null ==> index == old(index) && archive == old(archive)
      ensures index != null <==> Load(s, Describe()).Some?
      ensures index != null && old(index) == null ==> fresh(index)
    {
      if index == null {
        var r := Load(s, Describe());
        if r.Some? {
          archive := r;
          index := Open(s, r.value);
        }
      }
    }

    /** find: a JAR element initialises, strips leading slashes and asks its index. */
    method Find(n: Bytes) returns (r: Lookup)
      requires Valid()
      modifies this
      ensures Valid()
      ensures r == ElementFind(s, Describe(), n)
    {
      if kind.Directory? {
        var data := s.mapFile(Append(name, [Slash], n));
        if data.Some? {
          r := Found(Mapped(data.value));
        } else {
          r := Absent;
        }
      } else {
        Init();
        var k := StartOfName(n);
        if index != null {
          r := index.Find(n[k..], archive.value);
        } else {
          r := Absent;
        }
      }
    }

    /** exists: a JAR element initialises, strips leading slashes and asks its index. */
    method Exists(n: Bytes) returns (r: bool)
      requires Valid()
      modifies this
      ensures Valid()
      ensures r == ElementExists(s, Describe(), n)
    {
      if kind.Directory? {
        r := s.identify(Append(name, [Slash], n)) != TypeDoesNotExist;
      } else {
        Init();
        var k := StartOfName(n);
        if index != null {
          ghost var a := archive.value;
          assert Load(s, Describe()) == Some(a) && OffsetsOf(index.Entries()) == Scan(a);
          r := index.Exists(n[k..], archive.value);
          assert r == LastNamed(a, Scan(a), StripSlashes(n)).Some?;
        } else {
          r := false;
        }
      }
    }

    /**
     * iterator: a directory element walks its tree; a JAR element
     * initialises and enumerates its index.
     */
    method Iterator() returns (it: ElementIterator)
      requires Valid()
      modifies this
      ensures Valid() && fresh(it) && it.Valid()
      ensures it.Remaining() == ElementNames(s, Describe())
    {
      if kind.Directory? {
        it := new ElementIterator.OverListing(DirectoryWalk(s, name, |name| + 1, s.maxDepth));
      } else {
        Init();
        if index != null {
          it := new ElementIterator.OverIndex(index, archive.value);
        } else {
          // The source builds an iterator over the null index; see ElementIteratorAsWritten.
          it := new ElementIterator.OverListing([]);
        }
      }
    }
  }

  /** The offset at which the name starts once its leading slashes are skipped. */
  method StartOfName(n: Bytes) returns (k: nat)
    ensures k <= |n| && n[k..] == StripSlashes(n)
  {
    k := 0;
    while k < |n| && n[k] == Slash
      invariant k <= |n|
      invariant StripSlashes(n[k..]) == StripSlashes(n)
    {
      assert n[k..][1..] == n[k + 1..];
      k := k + 1;
    }
  }

  /**
   * An element's iterator.  A JAR iterator walks the index's nodes in
   * insertion order and yields each central header's name; a directory
   * iterator yields the names of its walk.
   */
  class ElementIterator {
    const index: JarIndex?
    const archive: Bytes
    const listing: seq<Bytes>
    var position: nat

    /** The iterator and the index it reads. */
    ghost function Footprint(): set<object>
    {
      {this} + (if index == null then {} else {index, index.nodes, index.table})
    }

    ghost predicate Valid()
      reads Footprint()
    {
      if index == null then position <= |listing|
      else index.Indexes(archive) && position <= index.position
    }

    /** The names still to come. */
    ghost function Remaining(): seq<Bytes>
      requires Valid()
      reads Footprint()
    {
      if index == null then listing[position..]
      else
        assert forall i :: 0 <= i < |index.Entries()| ==> IsCentralHeader(archive, OffsetsOf(index.Entries())[i]);
        EntryNames(archive, OffsetsOf(index.Entries()))[position..]
    }

    constructor OverListing(names: seq<Bytes>)
      ensures Valid() && Remaining() == names
      ensures index == null
    {
      index := null;
      archive := [];
      listing := names;
      position := 0;
    }

    constructor OverIndex(index: JarIndex, archive: Bytes)
      requires index.Indexes(archive)
      ensures Valid() && this.index == index
      ensures Remaining() == EntryNames(archive, OffsetsOf(index.Entries()))
    {
      this.index := index;
      this.archive := archive;
      listing := [];
      position := 0;
    }

    /** next: the next name, or None once the enumeration is over. */
    method Next() returns (v: Option<Bytes>)
      requires Valid()
      modifies this
      ensures Valid()
      ensures old(Remaining()) == [] ==> v.None? && Remaining() == []
      ensures old(Remaining()) != [] ==> v == Some(old(Remaining())[0]) && Remaining() == old(Remaining())[1..]
    {
      if index == null {
        if position < |listing| {
          v := Some(listing[position]);
          position := position + 1;
        } else {
          v := None;
        }
      } else if position < index.position {
        var n := index.nodes[position];
        assert n.entry == OffsetsOf(index.Entries())[position];
        v := Some(FileName(archive, n.entry));
        position := position + 1;
      } else {
        v := None;
      }
    }
  }

  // ---------------------------------------------------------------------
  // The directory iterator as written, whose dispose does not test the
  // directory handle

  /**
   * What a directory iterator, as written, has yielded by the time it is
   * disposed, and whether some exhausted iterator of the walk disposed a
   * directory handle that is null because the host could not open it.
   */
  datatype Drained = Drained(names: seq<Bytes>, nullDispose: bool)

  /**
   * DirectoryElement::Iterator as written: an iterator whose directory could
   * not be opened yields nothing, and its `dispose` dereferences the null
   * handle.  A nested iterator is disposed as soon as it is exhausted, so
   * its crash comes before the parent's later entries.
   */
  function DirectoryWalkAsWritten(s: System, dir: Bytes, skip: nat, fuel: nat): (r: Drained)
    requires skip <= |dir| + 1
    ensures s.list(dir).None? ==> r == Drained([], true)
    decreases fuel, 1, 0
  {
    match s.list(dir)
    case None => Drained([], true)
    case Some(entries) => WalkEntriesAsWritten(s, dir, skip, entries, fuel)
  }

  function WalkEntriesAsWritten(s: System, dir: Bytes, skip: nat, entries: seq<Bytes>, fuel: nat): (r: Drained)
    requires skip <= |dir| + 1
    decreases fuel, 0, |entries|
  {
    if entries == [] then Drained([], false)
    else
      var v := entries[0];
      if |v| > 0 && v[0] == Dot then WalkEntriesAsWritten(s, dir, skip, entries[1..], fuel)
      else
        var last := Append(dir, [Slash], v);
        var below := if s.identify(last) == TypeDirectory && fuel > 0 then DirectoryWalkAsWritten(s, last, skip, fuel - 1) else Drained([], false);
        if below.nullDispose then Drained([last[skip..]] + below.names, true)
        else
          var rest := WalkEntriesAsWritten(s, dir, skip, entries[1..], fuel);
          Drained([last[skip..]] + below.names + rest.names, rest.nullDispose)
  }

  /** Where no null handle is disposed, the walk as written yields the names of the corrected walk. */
  lemma {:induction false} DirectoryWalkAsWrittenAgrees(s: System, dir: Bytes, skip: nat, fuel: nat)
    requires skip <= |dir| + 1
    ensures !DirectoryWalkAsWritten(s, dir, skip, fuel).nullDispose ==>
              DirectoryWalkAsWritten(s, dir, skip, fuel).names == DirectoryWalk(s, dir, skip, fuel)
    decreases fuel, 1, 0
  {
    match s.list(dir)
    case None =>
    case Some(entries) => WalkEntriesAsWrittenAgrees(s, dir, skip, entries, fuel);
  }

  lemma {:induction false} WalkEntriesAsWrittenAgrees(s: System, dir: Bytes, skip: nat, entries: seq<Bytes>, fuel: nat)
    requires skip <= |dir| + 1
    ensures !WalkEntriesAsWritten(s, dir, skip, entries, fuel).nullDispose ==>
              WalkEntriesAsWritten(s, dir, skip, entries, fuel).names == WalkEntries(s, dir, skip, entries, fuel)
    decreases fuel, 0, |entries|
  {
    if entries != [] {
      var v := entries[0];
      WalkEntriesAsWrittenAgrees(s, dir, skip, entries[1..], fuel);
      if !Hidden(v) {
        var last := Append(dir, [Slash], v);
        var descend := s.identify(last) == TypeDirectory && fuel > 0;
        if descend {
          DirectoryWalkAsWrittenAgrees(s, last, skip, fuel - 1);
        }
        var below := if descend then DirectoryWalk(s, last, skip, fuel - 1) else [];
        assert WalkEntries(s, dir, skip, entries, fuel) == [last[skip..]] + below + WalkEntries(s, dir, skip, entries[1..], fuel);
      }
    }
  }

  /**
   * A directory element whose directory the host cannot open: the source's
   * iterator yields nothing and then, once exhausted, is disposed through
   * the null handle; the corrected iterator just yields nothing.
   */
  lemma UnopenableDirectoryDisposesNull(s: System, name: Bytes)
    requires s.list(name).None?
    ensures DirectoryWalkAsWritten(s, name, |name| + 1, s.maxDepth) == Drained([], true)
    ensures ElementNames(s, PathElement(Directory, name)) == []
  {
  }

  // ---------------------------------------------------------------------
  // The JAR iterator as written, over an index that may be null

  datatype Step = Yield(name: Bytes) | Done | NullDereference

  /**
   * JarElement::Iterator::next as written: it reads `index->position` without
   * testing the index, which is null when `init` could not obtain the archive.
   */
  function JarNextAsWritten(names: Option<seq<Bytes>>, position: nat): (r: Step)
    ensures r == NullDereference <==> names.None?
    ensures r.Yield? <==> names.Some? && position < |names.value|
    ensures r.Yield? ==> r.name == names.value[position]
  {
    match names
    case None => NullDereference
    case Some(ns) => if position < |ns| then Yield(ns[position]) else Done
  }

  /** What the JAR iterator's first step does for an element, as written. */
  function ElementIteratorAsWritten(s: System, e: PathElement): Step
    requires !e.kind.Directory?
  {
    JarNextAsWritten(match Load(s, e) case None => None case Some(a) => Some(EntryNames(a, Scan(a))), 0)
  }

  /**
   * A JAR element whose file cannot be mapped: the source's iterator
   * dereferences the null index on its first step, where the corrected
   * iterator yields nothing.
   */
  lemma UnmappableJarIterates(s: System, name: Bytes)
    requires s.mapFile(name).None?
    ensures ElementIteratorAsWritten(s, PathElement(Jar, name)) == NullDereference
    ensures ElementNames(s, PathElement(Jar, name)) == []
  {
  }
}
