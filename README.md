# Class path finder of the Avian VM, in Dafny

This project models the finder of the Avian virtual machine (`src/finder.cpp`).
The finder turns a class path such as `lib/a.jar:classes:[builtin]` into a
chain of elements and answers three questions about resource names:

- `find(name)`: the region holding the resource, from the first element that has it;
- `exists(name)`: whether any element has it;
- `iterator()`: every name of every element, element after element.

There are three kinds of element:

- a **directory** element maps `dir/name` and walks its tree for the iterator;
- a **JAR** element maps the archive file on first use;
- a **builtin** element calls a function of the boot library that returns the bytes of an archive.

A JAR or builtin element indexes the archive's ZIP central directory in a
`JarIndex`. This is a hash table whose nodes live in an arena, filled in
insertion order. When the arena is full, the table grows to twice its capacity.

Modules, in dependency order:

| file | module | what it holds |
|---|---|---|
| `util.dfy` | `Util` | bytes, `Option`, `equal`, `append`, and powers of two with the bit mask of a bucket |
| `host.dfy` | `Host` | the host `System` as a value of functions (file types, mapping, listing, library, inflate, hash), regions, and lookup results |
| `zip.dfy` | `Zip` | little-endian fields and ZIP records, and the central-directory scan of `JarIndex::open` |
| `jar_index.dfy` | `JarIndexes` | the `JarIndex` class over arrays (`add`, `findNode`, `find`, `exists`, `open`) and its specification |
| `elements.dfy` | `Elements` | the `Element` class (directory, JAR, builtin), its lazy `init`, and the element iterators |
| `finder.dfy` | `Finders` | `parsePath`, the `Finder` class (`find`, `exists`, `iterator`) and the path iterator `MyIterator` |

Each imperative operation of the source is a method. Its contract ties the
result and the new state to a specification function, and lemmas state what
those functions promise:

- `find` returns the answer of the first element that finds the name;
- a chain walk of the hash table finds the last node added under a name;
- the iterator yields exactly the concatenation of every element's names.

Addresses inside an archive are offsets into a byte sequence. C strings are byte
sequences without their terminating NUL.

## Model

| member | source | states |
|---|---|---|
| Util.MemoryEqual | src/finder.cpp:48 | `memcmp` over n bytes is zero exactly when the first n bytes of both strings agree |
| Util.Equal | src/finder.cpp:44-52 | `equal` holds exactly when the two byte strings are the same |
| Util.EqualIsBytewise | src/finder.cpp:44-52 | `equal` holds exactly when the lengths agree and every byte agrees |
| Util.Append | src/finder.cpp:22-33 | `append(a, b, c)` has length al + bl + cl, with a, then b, then c at those offsets |
| Util.MaskIsRemainder | src/finder.cpp:361 | for a power of two c, `h & (c - 1)` is the remainder of h by c |
| Util.DoubleIsPowerOfTwo | src/finder.cpp:365 | the grown capacity `capacity * 2` is still a power of two, so masking still selects a bucket |
| Zip.Get2 | src/finder.cpp:253-257 | a little-endian 16-bit field is below 2^16 |
| Zip.Get4 | src/finder.cpp:259-265 | a little-endian 32-bit field is below 2^32 |
| Zip.Signature | src/finder.cpp:267-269 | a record's signature is the little-endian 32-bit value of its first four bytes |
| Zip.CompressionMethod | src/finder.cpp:271-273 | the compression method is the 16-bit field at byte 10 of a central header |
| Zip.CompressedSize | src/finder.cpp:275-277 | the compressed size is the 32-bit field at byte 20 of a central header |
| Zip.UncompressedSize | src/finder.cpp:279-281 | the uncompressed size is the 32-bit field at byte 24 of a central header |
| Zip.FileNameLength | src/finder.cpp:283-285 | the name length is the 16-bit field at byte 28 of a central header |
| Zip.ExtraFieldLength | src/finder.cpp:287-289 | the extra field length is the 16-bit field at byte 30 of a central header |
| Zip.CommentFieldLength | src/finder.cpp:291-293 | the comment length is the 16-bit field at byte 32 of a central header |
| Zip.LocalHeaderOffset | src/finder.cpp:295-297 | the local header offset is the 32-bit field at byte 42 of a central header |
| Zip.LocalFileNameLength | src/finder.cpp:299-301 | the name length is the 16-bit field at byte 26 of a local header |
| Zip.LocalExtraFieldLength | src/finder.cpp:303-305 | the extra field length is the 16-bit field at byte 28 of a local header |
| Zip.CentralDirectoryOffset | src/finder.cpp:307-309 | the central directory offset is the 32-bit field at byte 16 of the end of central directory record |
| Zip.FileName | src/finder.cpp:311-313 | the name of a central header is the `fileNameLength` bytes that start 46 bytes past the header |
| Zip.FileData | src/finder.cpp:315-318 | an entry's data starts past the 30-byte local header, its name and its extra field |
| Zip.EndOfEntry | src/finder.cpp:320-323 | the next central header starts past the 46-byte header, the name, the extra field and the comment |
| Zip.FindEndRecord | src/finder.cpp:335-353 | the backward search from `end - 22` finds the last end-of-central-directory signature above offset 0; it finds none exactly when no offset in (0, end - 22] carries the signature |
| Zip.WalkEnd | src/finder.cpp:342-349 | the forward walk stops at a record that is not a complete central header |
| Zip.Walk | src/finder.cpp:342-349 | every offset the walk visits holds a complete central header |
| Zip.WalkChained | src/finder.cpp:342-349 | the walk starts at the directory offset, each header follows the end of the previous one, and the walk stops where the last one ends |
| Zip.Scan | src/finder.cpp:331-357 | the headers `open` indexes are complete central headers at strictly increasing offsets |
| Zip.ShortRegionHasNoEntries | src/finder.cpp:336-338 | a region of at most 22 bytes yields no entries |
| Zip.EndRecordAtStartIgnored | src/finder.cpp:338 | an end record whose signature is only at offset 0 is never found, so the archive yields no entries |
| Zip.WalkAsWrittenAgrees | src/finder.cpp:338-353 | the unbounded walk as written reads past the region exactly when the bounded walk does not stop on a readable, non-matching signature; otherwise both index the same headers |
| Zip.WalkAsWritten | src/finder.cpp:338-353 | the walk as the source writes it: a signature read at or past the end of the region reads past it, and every header it indexes lies inside the region |
| Zip.ScanAsWritten | src/finder.cpp:331-357 | the scan as written indexes nothing when no end record is found, and otherwise every header it indexes lies inside the region |
| Zip.ScanAsWrittenAgrees | src/finder.cpp:331-357 | whenever the scan as written stays inside the region, it indexes exactly the bounded scan's headers |
| Zip.PastEndExampleReadsPastEnd | src/finder.cpp:340-343 | on a 23-byte archive whose directory offset is its end, the scan as written reads a signature past the region; the bounded scan finds nothing |
| JarIndexes.Bucket | src/finder.cpp:361 | a hash's bucket lies below the capacity |
| JarIndexes.BucketIsMask | src/finder.cpp:377 | for the power-of-two capacities an index has, the bucket is `hash & (capacity - 1)` |
| JarIndexes.LastInBucket | src/finder.cpp:361-362 | the head of a bucket's chain is an earlier node that hashes into that bucket |
| JarIndexes.LastInBucketIsLast | src/finder.cpp:361-362 | no node after the chain head hashes into the bucket, and a chain is empty exactly when no node does |
| JarIndexes.LastInBucketPrefix | src/finder.cpp:361-362 | a chain head depends only on the hashes of the nodes added before it |
| JarIndexes.LastNamedBefore | src/finder.cpp:375-385 | a match among the first k headers lies below k and carries the name |
| JarIndexes.LastNamedBeforeIsLast | src/finder.cpp:375-385 | the match is the last header with the name; there is none exactly when no header has it |
| JarIndexes.EntryData | src/finder.cpp:387-429 | stored entries are borrowed at `fileData(local header)` for `compressedSize` bytes; a deflated entry is the owned buffer of `uncompressedSize` bytes that inflate writes, or an abort when inflate fails; every other method aborts; a local header past the archive aborts |
| JarIndexes.ArchiveFind | src/finder.cpp:387-429 | `find` answers no region exactly when no header carries the name |
| JarIndexes.InsertLinks | src/finder.cpp:361-362 | linking a new node at the head of its bucket keeps every chain linked to the previous node of its bucket, and every head at the newest node |
| JarIndexes.SkipOtherBuckets | src/finder.cpp:377-378 | nodes of other buckets never hold the name, so skipping them does not change the last match |
| JarIndexes.ChainStep | src/finder.cpp:378-383 | one step down a chain: the head is the last match if its name is equal, otherwise the match lies below it |
| JarIndexes.ChainLink | src/finder.cpp:378 | a chain node's `next` is the previous node of the same bucket |
| JarIndexes.ChainEnd | src/finder.cpp:378-384 | when the chain is exhausted, no header carries the name |
| JarIndexes.JarIndex.constructor | src/finder.cpp:244-251 | a new index of a power-of-two capacity is empty and valid |
| JarIndexes.JarIndex.Link | src/finder.cpp:360-364 | with room in the arena, `add` appends one entry and keeps the index valid |
| JarIndexes.JarIndex.Add | src/finder.cpp:359-373 | `add` appends the (hash, entry) pair; when full it returns a fresh index of twice the capacity holding the old entries in order, then the new one |
| JarIndexes.JarIndex.FindNode | src/finder.cpp:375-385 | `findNode` returns the last added node whose header name equals the name, or null when there is none |
| JarIndexes.JarIndex.Find | src/finder.cpp:387-429 | `find` returns the archive answer for the last header with the name |
| JarIndexes.JarIndex.Exists | src/finder.cpp:431-433 | `exists` holds exactly when some indexed header carries the name |
| JarIndexes.HashesNamesSnoc | src/finder.cpp:343-344 | adding a header under the hash of its own name keeps every entry hashed by name |
| JarIndexes.WalkStep | src/finder.cpp:343-346 | adding the header the walk has reached and moving to its end advances the walk by one step |
| JarIndexes.StoredEntryScenario | src/finder.cpp:387-396 | on a 112-byte archive holding one stored entry "README" with content "hi", the scan indexes its one central header, `find("README")` borrows the 2 bytes "hi" at offset 36 without a copy, and every other name is absent |
| JarIndexes.Open | src/finder.cpp:331-357 | `open` returns a fresh index whose entries are exactly the scanned central headers, in directory order, each hashed by its name |
| Elements.StripSlashes | src/finder.cpp:496 | the name without its leading slashes is a suffix of it, preceded only by slashes, and does not start with one |
| Elements.LeadingSlashesIgnored | src/finder.cpp:512 | any number of leading slashes strips to the same name |
| Elements.EntryNames | src/finder.cpp:454-462 | the names of the indexed headers, one per header, in order |
| Elements.DirectoryWalk | src/finder.cpp:76-115 | the directory iterator yields nothing for a directory the host cannot open |
| Elements.WalkEntries | src/finder.cpp:99-111 | the first listed entry that does not start with '.' is yielded first, as `dir/entry` past `skip`, before the names below it |
| Elements.WalkEntriesComplete | src/finder.cpp:99-111 | every listed entry that does not start with '.' is yielded, as `dir/entry` past `skip` |
| Elements.DirectoryWalkComplete | src/finder.cpp:99-111 | a directory element yields every entry of its root directory that does not start with '.', under its own name |
| Elements.DirectoryWalkNames | src/finder.cpp:99-111 | every name the directory iterator yields is `dir/` without its first `skip` bytes, followed by a part not starting with '.' |
| Elements.DirectoryNamesNotHidden | src/finder.cpp:101 | a directory element never yields a name whose first byte is '.' (for every host) |
| Elements.DirectoryWalkVisible | src/finder.cpp:99-111 | when the host lists names without '/', every name the directory iterator yields is `dir/` past `skip`, then a path none of whose components starts with '.' |
| Elements.DirectoryComponentsNotHidden | src/finder.cpp:99-111 | when the host lists names without '/', no component of a name a directory element yields starts with '.', at any depth |
| Elements.ElementFind | src/finder.cpp:139-156 | a directory element finds a region exactly when the host maps `dir/name`, and never aborts; an element whose archive cannot be loaded finds nothing |
| Elements.ElementExists | src/finder.cpp:158-163 | a directory element says a name exists exactly when the host identifies `dir/name` as existing; an archive element whose archive cannot be loaded says no name exists |
| Elements.ElementExistsIsNamed | src/finder.cpp:509-515 | a directory element says a name exists when the host identifies `dir/name`; an archive element says so when some central header carries the name without its leading slashes |
| Elements.FindAgreesWithExists | src/finder.cpp:493-515 | an archive element finds a region exactly when it says the name exists |
| Elements.SlashesIgnoredByArchives | src/finder.cpp:493-515 | an archive element answers `find` and `exists` alike with or without leading slashes |
| Elements.Element.constructor | src/finder.cpp:473-475 | a new element has no index yet |
| Elements.Element.Init | src/finder.cpp:483-492 | `init` builds the index once, exactly when the archive can be obtained, and never replaces it |
| Elements.Element.Find | src/finder.cpp:493-507 | an element's `find` is the element's specified answer, for directory and archive elements alike |
| Elements.Element.Exists | src/finder.cpp:509-515 | an element's `exists` is the element's specified answer, for directory and archive elements alike |
| Elements.Element.Iterator | src/finder.cpp:477-481 | the iterator yields exactly the element's names: the directory walk, or the archive's header names |
| Elements.StartOfName | src/finder.cpp:496 | the skipped prefix leaves exactly the name without leading slashes |
| Elements.ElementIterator.OverListing | src/finder.cpp:76-82 | a directory iterator yields the names it is given |
| Elements.ElementIterator.OverIndex | src/finder.cpp:452 | a JAR iterator starts at the first node of the index |
| Elements.ElementIterator.Next | src/finder.cpp:454-462 | `next` yields the first remaining name and drops it, or null when none remain |
| Elements.DirectoryWalkAsWrittenAgrees | src/finder.cpp:84-120 | when no iterator disposes a null directory handle, the directory iterator as written yields exactly the corrected walk's names |
| Elements.DirectoryWalkAsWritten | src/finder.cpp:84-120 | the directory iterator as written yields nothing for a directory the host cannot open, and then disposes its null handle |
| Elements.UnopenableDirectoryDisposesNull | src/finder.cpp:117-118 | for a directory the host cannot open, the iterator as written yields nothing and then disposes a null handle; the corrected iterator yields nothing |
| Elements.JarNextAsWritten | src/finder.cpp:454-461 | `next` as written dereferences a null index; otherwise it yields the name at `position` while `position` is below the index's count, and null after |
| Elements.UnmappableJarIterates | src/finder.cpp:455 | for a JAR file that cannot be mapped, the iterator as written dereferences a null index; the corrected iterator yields nothing |
| Finders.Classify | src/finder.cpp:579-607 | `[x]` becomes a builtin element named x; otherwise a file becomes a JAR element and a directory a directory element, and any other token becomes nothing |
| Finders.Parse | src/finder.cpp:576-617 | a path yields at most one element per token |
| Finders.ParseAppend | src/finder.cpp:576-617 | parsing two runs of tokens yields the first run's elements followed by the second's |
| Finders.ParseFromTokens | src/finder.cpp:579-607 | every element comes from the classification of some token |
| Finders.ElementOf | src/finder.cpp:579-607 | a token yields a fresh valid element exactly when it classifies as one, and that element is the one it describes |
| Finders.Extend | src/finder.cpp:609-616 | linking a token's element at the end keeps the earlier elements in order and adds that token's element, if any |
| Finders.ParsePath | src/finder.cpp:571-620 | `parsePath` returns fresh valid elements, in token order, that describe the parsed tokens |
| Finders.FirstFoundIsFirst | src/finder.cpp:669-678 | the path finds nothing exactly when every element finds nothing; otherwise it returns an element's answer, and every earlier element found nothing |
| Finders.FirstFoundAppend | src/finder.cpp:669-678 | the second part of a path is searched only when the first part finds nothing |
| Finders.AnyExistsIsSome | src/finder.cpp:680-688 | the path says a name exists exactly when some element says so |
| Finders.ArchivePathFindAgreesWithExists | src/finder.cpp:669-688 | on a path of archive elements, `find` finds a region exactly when `exists` holds |
| Finders.AllNamesAppend | src/finder.cpp:628-644 | enumerating two parts of a path yields the first part's names followed by the second's |
| Finders.FirstIterator | src/finder.cpp:624-626 | the first element's iterator and the elements after it together yield the whole path's names |
| Finders.PathIterator.constructor | src/finder.cpp:624-626 | a new path iterator has every name of every element still to come, in path order, and its current element iterator is null or freshly created |
| Finders.PathIterator.NextInElement | src/finder.cpp:630-632 | a name from the current element is the next name of the whole path |
| Finders.PathIterator.Advance | src/finder.cpp:633-640 | moving to the next element's iterator does not change the names still to come |
| Finders.PathIterator.Next | src/finder.cpp:628-644 | `next` yields the next name of the whole path and drops it, or null once every element is exhausted; its current element iterator stays the same or is replaced by a fresh one |
| Finders.Finder.constructor | src/finder.cpp:658-662 | the finder's elements are freshly created, describe the parsed path, and the path string is kept |
| Finders.Finder.Find | src/finder.cpp:669-678 | `find` returns the first element's answer that is not null, in path order |
| Finders.Finder.Exists | src/finder.cpp:680-688 | `exists` holds exactly when some element says the name exists |
| Finders.Finder.Iterator | src/finder.cpp:664-667 | the finder's iterator is fresh, shares the finder's elements and host, and yields every element's names, element after element; the finder stays valid |

## Left out

- The host services are parameters, fields of the `System` value: the file system (`identify`, `map`, `open`, listing), dynamic libraries (`load`, `resolve` and the call of the resolved function), the DEFLATE codec, and the VM's string hash `s.hash`. The code of both `hash` overloads is not part of this model.
- JarIndexes.JarIndex.FindNode: the byte-run hash `hash(fileName(p), fileNameLength(p))` of `open` (src/finder.cpp:344) and the C-string hash `hash(name)` of `findNode` (src/finder.cpp:377) are modelled as the single function `s.hash`. So "every indexed name is found", and `Exists`, `ElementExistsIsNamed` and `FindAgreesWithExists` with it, assume that the two overloads agree on equal bytes.
- The tokenizer of the path (`Tokenizer`, `pathSeparator`) is not part of this model. The finder and `ParsePath` take the path's tokens as given.
- Memory management is not modelled: `allocate`, `free`, every `dispose`, and the `copy` of the path string, which is kept as given. The `path()` accessor is the `pathString` field.
- The element chain linked through `next` is a sequence of elements.
- `DebugFind` logging is left out; it is a constant `false` and only prints.
- Offsets and sizes are unbounded naturals. The source's address arithmetic and its 32-bit `unsigned` counters are not modelled for overflow.
- Elements.DirectoryWalk: the directory iterator is modelled as the sequence of names it yields. The host's `maxDepth` bounds the depth of the walk, and deeper directories are not entered.
- JarIndexes.EntryData: where a central header's local header offset lies past the archive, the source reads outside the region. The model aborts with `LocalHeaderPastEnd` instead.
- JarIndexes.EntryData: the model does not check that a stored entry's data lies inside the archive, and neither does the source. The contents of an inflated buffer are whatever the host's `inflate` wrote.
- Elements.ElementFind: a directory element's `find` maps `dir/name` and its `exists` identifies `dir/name`. These are two independent answers of the host (a subdirectory is identified but cannot be mapped as a file), so they may disagree, and only archive elements are proved to agree.
- Elements.DirectoryComponentsNotHidden: the statement about every component needs the host to list unqualified names, without '/'. For an arbitrary listing only the first byte of a yielded name is covered (`DirectoryNamesNotHidden`).
- Elements.Element.Iterator: for an archive element whose archive cannot be obtained, the model yields nothing. The source dereferences a null index (see Findings).
- The `nodes` arena and `table` of a `JarIndex` are arrays. Chain links are node positions, and a node's central header is an offset into the archive.

## Findings

| source | as written | input that shows it | evidently intended | confidence | as-written member | corrected member |
|---|---|---|---|---|---|---|
| src/finder.cpp:338-353 | the walk over the central directory is bounded only by `p < end`; when it stops at or past the end of the region, the outer `while (p > start)` reads `signature(p)` outside the region, as do header reads that run past the end; unless such a read happens to match, the outer loop then steps back with `p--`, finds an end record again (at the latest the same one), jumps to the same directory offset and walks it again, without end, re-adding every entry each time | a 23-byte archive: one byte, then an end record at offset 1 whose directory offset is 23 | stop the scan when the next record does not fit in the region | not executed | Zip.PastEndExampleReadsPastEnd | JarIndexes.Open |
| src/finder.cpp:454-455 | `JarElement::iterator` creates its iterator even when `init` could not map the archive; `next` then reads `index->position` through a null index | a JAR element whose file the host cannot map | an iterator that yields nothing when there is no index | not executed | Elements.UnmappableJarIterates | Elements.Element.Iterator |
| src/finder.cpp:117-118 | `DirectoryElement::Iterator::dispose` calls `directory->dispose()` without testing the handle, which is null when the host could not open the directory; exhausted iterators are disposed by the parent iterator and by `MyIterator` | a directory element, or a subdirectory, that the host cannot open | dispose the handle only when it was opened | not executed | Elements.UnopenableDirectoryDisposesNull | Elements.DirectoryWalkNames |
