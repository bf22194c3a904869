# kwui-cli resource archiver, modelled in Dafny

kwui-cli packs a set of files and directories into one archive file and unpacks
or lists it again. An archive is a 20-byte preamble (magic `KAr `, version 1,
flags, chunk size, directory and file counts), then three little-endian tables,
then the payload:

- a node table: a ternary search tree over the UTF-16 units of every
  destination path, terminated by a 0 unit, whose leaf holds an item index;
- an item table: one directory item, then one item per distinct file content;
- a chunk table: one chunk per file item, stored or LZF-compressed.

This project models the core of that program and proves what it promises:

- the path index (`LookupTable`: insert, iterate, build items);
- building entries and items (solid sort key, deduplication by length and
  SHA-1 digest, reference counts);
- the chunk loop of `pack` and its consistency checks;
- writing, patching and reading the header;
- the two stream cursors, `BufferFiller` for `pack` and `BufferWriter` for
  `unpack`;
- `unpack` and `list`;
- the `pack` front-end of `lib.rs`;
- the `pack-archive` arm of `main.rs`.

The file system, SHA-1, LZF compression and decompression, `path_clean::clean`,
`Path::file_name` and the directory walk are parameters (maps and functions).
An output file is a class holding a byte sequence and a position. `unpack`
yields a list of file-system operations.

The main results are these:

- The index holds exactly the map of inserted paths to values, with the first
  value kept for each path (`Lookup.LookupTable.Insert`,
  `Lookup.LookupTable.Iter`).
- `pack` succeeds exactly when the header it builds (`HeaderWrite.HeaderOf`:
  the tables of `Items.TablesOf`, then the index of `HeaderWrite.IndexOf`)
  does. It then writes exactly `Packer.Archive` of those tables and that
  index (`Packer.Pack`). Otherwise it fails with the header's error and
  leaves only the preamble.
  The header builds exactly when every source is readable and the index of
  the entries builds; a path with U+0000 stops it, and paths that are free of
  it and fit the 16-bit links always index (`HeaderWrite.HeaderOfSucceeds`).
- Parsing that archive gives back its header
  (`RoundTrip.ArchiveParses`).
- Decoding the chunks gives back the concatenated file contents
  (`RoundTrip.ArchiveDecodes`).
- `unpack` as written recreates every packed path when every file item is
  named by some path (`RoundTrip.PackUnpack`). Read at offsets, it recreates
  every path of whatever `pack` built (`RoundTrip.PackedUnpacksAt`).
- When that fails, `unpack` as written hands later files the wrong bytes
  (see Findings).

Modules, one per file: `Wrappers`, `Format` (file_format.rs), `Utf16`, `Text`,
`Sorting`, `Trie`, `TrieInvariant`, `TrieGrowth`, `TrieWalk`, `Lookup`,
`Items`, `Codec`, `Files`, `HeaderWrite`, `HeaderRead`, `Drain`
(`BufferWriter`), `Fill` (`BufferFiller`), `Packer`, `Extract` (`unpack`,
`list`), `ExtractFacts`, `RoundTrip`, `Frontend` (lib.rs), `Cli` (main.rs).

## Model

| member | source | states |
|---|---|---|
| Format.AlgorithmFromTag | kwui-cli/src/file_format.rs:38-43 | a tag names an algorithm exactly when it is below 2 (Store = 0, Lzf = 1), and the algorithm's tag is that tag |
| Format.AlgorithmTagRoundTrip | kwui-cli/src/file_format.rs:38-43 | decoding an algorithm's tag gives the algorithm back |
| Format.MagicBytes | kwui-cli/src/file_format.rs:3 | the magic is the bytes `K`, `A`, `r`, space |
| Utf16.EncodeChar | kwui-cli/src/packager.rs:283-284 | one scalar value becomes one non-surrogate unit equal to it, or a high/low surrogate pair; it contains 0 exactly for NUL |
| Utf16.Encode | kwui-cli/src/packager.rs:283-284 | `encode_utf16` of a path contains a 0 unit exactly when the path contains NUL |
| Utf16.DecodeEncode | kwui-cli/src/packager.rs:244-281 | lossy decoding of an encoded path gives the path back, so `iter` reports the strings that were inserted |
| Utf16.EncodeInjective | kwui-cli/src/packager.rs:282-321 | distinct paths have distinct unit sequences, so the index keys paths one to one |
| Text.LowerChar | kwui-cli/src/packager.rs:436 | the lowered character is never an ASCII capital, and a capital moves down by 32 |
| Text.Lower | kwui-cli/src/lib.rs:108 | `to_lowercase` keeps the length and lowers each character |
| Text.LowerIdempotent | kwui-cli/src/lib.rs:108 | lowering twice is lowering once, and leaves no capital |
| Text.LowerConcat | kwui-cli/src/packager.rs:789-796 | lowering distributes over concatenation, so a suffix test on the lowered name sees the lowered suffix |
| Text.RFind | kwui-cli/src/packager.rs:443 | `rfind` gives the last position holding the character, and none exactly when the character does not occur |
| Text.StrLeTotal | kwui-cli/src/lib.rs:108 | string order compares any two strings |
| Text.StrLeTrans | kwui-cli/src/lib.rs:108 | string order is transitive |
| Text.StrLeAntisym | kwui-cli/src/lib.rs:108 | two strings each at most the other are equal |
| Text.StrLePrefix | kwui-cli/src/lib.rs:108 | a prefix comes no later than its extension |
| Sorting.SortBy | kwui-cli/src/packager.rs:351 | `sort_by_key` gives a sorted permutation of its input |
| Sorting.SortByStable | kwui-cli/src/packager.rs:351 | the sort is stable: elements with equal keys keep their relative order |
| Sorting.InsertSorted | kwui-cli/src/packager.rs:351 | inserting after an element's peers keeps a sorted sequence sorted |
| Sorting.InsertPerm | kwui-cli/src/packager.rs:351 | inserting adds exactly the one element |
| Sorting.SortBySorted | kwui-cli/src/packager.rs:351 | the stable sort leaves an already sorted list as it is |
| Sorting.Dedup | kwui-cli/src/lib.rs:109 | `dedup` keeps the first and last elements, leaves no two equal neighbours, keeps the same set of elements and never grows |
| Sorting.RunStartsExact | kwui-cli/src/lib.rs:109 | the run-start positions listed are exactly the positions that differ from their left neighbour (and 0), in increasing order |
| Sorting.DedupKeepsRunStarts | kwui-cli/src/lib.rs:109 | `dedup` keeps exactly the element at each run start, in order, and nothing else |
| Sorting.DedupSorted | kwui-cli/src/lib.rs:108-109 | deduplicating a sorted list leaves it sorted |
| Trie.SetKid | kwui-cli/src/packager.rs:207-214 | setting one link of a node changes that link and nothing else |
| Trie.Update | kwui-cli/src/packager.rs:199-215 | `ParentNid::update` changes only the parent's named link (truncated to u16), or nothing for the root |
| Trie.OrderedKid | kwui-cli/src/packager.rs:282-321 | in an index built by appending, every followed link points forward |
| Trie.Descend | kwui-cli/src/packager.rs:289-306 | the search loop of `insert` stops at a position of the key and a valid parent when the key is missing |
| Trie.Added | kwui-cli/src/packager.rs:289-320 | the nodes an insert appends number at most the key's units: none for a stored key, the unmatched rest for a missing one |
| Trie.InsertNodesGrowth | kwui-cli/src/packager.rs:308-320 | an insert that stays within the 16-bit links grows the nodes by exactly that count and keeps every link pointing forward |
| TrieInvariant.EmptyWf | kwui-cli/src/packager.rs:235-237 | the empty index is well formed and stores the empty map |
| TrieInvariant.DescendFound | kwui-cli/src/packager.rs:289-306 | a found key ends at a terminator node whose value is the stored one, reached along the key's own prefix |
| TrieInvariant.DescendMissing | kwui-cli/src/packager.rs:289-306 | a missing key leaves the search at the prefix already present and the parent to attach to |
| TrieInvariant.LookupStored | kwui-cli/src/packager.rs:282-321 | the search finds a key exactly when it is stored, and then returns its stored value |
| TrieGrowth.InsertNew | kwui-cli/src/packager.rs:308-320 | inserting a new key returns 0 and leaves a well-formed index storing the old map plus that key |
| TrieGrowth.InsertStored | kwui-cli/src/packager.rs:298-304 | inserting a stored key returns its stored value and leaves the nodes unchanged |
| TrieWalk.IterSound | kwui-cli/src/packager.rs:238-281 | every pair the iterator yields is a stored key with its stored value |
| TrieWalk.IterComplete | kwui-cli/src/packager.rs:238-281 | every stored key is yielded |
| TrieWalk.IterDistinct | kwui-cli/src/packager.rs:238-281 | no key is yielded twice |
| TrieWalk.IterExact | kwui-cli/src/packager.rs:238-281 | the iterator lists exactly the stored map, each pair once |
| Lookup.LookupTable.constructor | kwui-cli/src/packager.rs:235-237 | a new table has no nodes and stores nothing |
| Lookup.LookupTable.Insert | kwui-cli/src/packager.rs:282-321 | a stored path returns its old value and changes nothing; a new path returns 0 and is added with its value; the nodes are those of the reference insertion |
| Lookup.LookupTable.Locate | kwui-cli/src/packager.rs:286-306 | the search loop computes the reference search |
| Lookup.LookupTable.AddPath | kwui-cli/src/packager.rs:308-320 | appending the rest of a missing key stores the path with its value and keeps the table valid |
| Lookup.LookupTable.AppendPath | kwui-cli/src/packager.rs:308-320 | the append loop adds one node per remaining unit and links the first to its parent |
| Lookup.LookupTable.StackKey | kwui-cli/src/packager.rs:255-263 | the units collected from the stack are the key of the current node |
| Lookup.LookupTable.BuildItems | kwui-cli/src/packager.rs:244-281 | the recursive walk appends exactly the reference walk of the subtree to its output |
| Lookup.LookupTable.Iter | kwui-cli/src/packager.rs:238-243 | iteration yields the reference walk, which on a valid table is exactly the stored path map, each path once |
| Lookup.AddPathWf | kwui-cli/src/packager.rs:308-320 | after appending a missing path the table invariant holds for the map with that path added |
| Lookup.AgreesInsert | kwui-cli/src/packager.rs:282-321 | adding a path to the string map and its units to the unit map keeps the two maps in agreement |
| Lookup.IterContents | kwui-cli/src/packager.rs:238-281 | on a valid table the walk is sound, complete and free of repeats for the string map |
| Items.ScanFile | kwui-cli/src/packager.rs:410-433 | `scan_file` succeeds exactly for readable paths and yields the file's length and SHA-1 |
| Items.FindItem | kwui-cli/src/packager.rs:398-408 | `find_item` skips the directory item and returns the first item with the given length and digest, or none when there is none |
| Items.FindFrom | kwui-cli/src/packager.rs:399-407 | the search loop from a given index finds the first match at or after it |
| Items.SolidSortKey | kwui-cli/src/packager.rs:435-452 | the key holds the lowered source, the text after its last dot (or `zzz` with no dot), and priority -1 exactly for exe, dll, ocx and sys |
| Items.KeyLeTotal | kwui-cli/src/packager.rs:435 | the tuple order on sort keys compares any two keys |
| Items.KeyLeTrans | kwui-cli/src/packager.rs:435 | the tuple order on sort keys is transitive |
| Items.SolidLeTotalPreorder | kwui-cli/src/packager.rs:351 | ordering pack items by their solid sort key is a total preorder, so the sort is well defined |
| Items.DirEntries | kwui-cli/src/packager.rs:340-346 | each directory becomes an entry to itself with item 0 |
| Items.BuildEntryAndItem | kwui-cli/src/packager.rs:324-390 | it computes `TablesOf`: it fails exactly when some source file is unreadable, with the I/O error of an unreadable file; otherwise the tables are the directory entries, then the files in solid order, deduplicated with reference counts, each new item named after the first file with its content |
| Items.DedupFiles | kwui-cli/src/packager.rs:354-389 | the dedup loop computes the reference fold `DedupOf`, fails exactly when a sorted file is unreadable, and otherwise yields contiguous items holding distinct contents, one entry per file in order pointing at an item with that file's content, reference counts matching the entries and each item named after its first file |
| Items.AddFile | kwui-cli/src/packager.rs:357-387 | one turn of the dedup loop is one step `AddFileTo` of the reference fold: reuse of the first item with the same content, or a new item at the running offset; the offset stays the items' total length |
| Items.ReuseStep | kwui-cli/src/packager.rs:361-369 | a file whose content is already stored bumps that item's count (mod 2^16) and points its entry at it |
| Items.AppendStep | kwui-cli/src/packager.rs:370-386 | a new content becomes an item at the running offset with count 1, and the entry points at it |
| Items.AddReference | kwui-cli/src/packager.rs:362 | bumping a reference count keeps every item's content and the total length |
| Items.AddItem | kwui-cli/src/packager.rs:371-378 | appending an item with new content at the running offset keeps the items valid |
| Items.RefCountsBump | kwui-cli/src/packager.rs:362 | one more entry for an item raises its count by one, modulo 2^16 |
| Items.RefCountsNew | kwui-cli/src/packager.rs:374 | a new item counted once matches the one entry that names it |
| Items.SharedItemIffSameContent | kwui-cli/src/packager.rs:359-386 | two files share an item exactly when their lengths and digests agree |
| Items.DedupOfFails | kwui-cli/src/packager.rs:354-389 | the fold succeeds exactly when every sorted file is readable; otherwise its error is the I/O error of the first unreadable file in sorted order |
| Items.DedupOfStops | kwui-cli/src/packager.rs:359 | once the fold fails on a prefix it fails the same way on the whole list (`?` returns at once) |
| Items.DedupOfTables | kwui-cli/src/packager.rs:354-389 | a successful fold yields the sentinel and items of distinct contents laid out one after another, one entry per sorted file pointing at its content, reference counts matching the entries, each item named after the first file that uses it |
| Items.AddFileToOk | kwui-cli/src/packager.rs:357-387 | one fold step keeps those table invariants for the files so far plus the new one |
| Items.ReuseOk | kwui-cli/src/packager.rs:361-369 | reusing a stored content keeps the table invariants |
| Items.AddFileToFound | kwui-cli/src/packager.rs:361-369 | a fold step on a stored content points the new entry at that item and bumps its count, leaving the file item count alone |
| Items.AppendOk | kwui-cli/src/packager.rs:370-386 | appending a new content keeps the table invariants |
| Items.DedupOfAppends | kwui-cli/src/packager.rs:370-386 | a readable next file whose content no item holds extends the fold by one entry pointing at a new item at the running offset with count 1, named after that file |
| Items.DedupOfSharing | kwui-cli/src/packager.rs:359-386 | two sorted files get the same item exactly when their lengths and digests agree |
| Items.SumLengthSame | kwui-cli/src/packager.rs:356-384 | items with the same lengths have the same total length |
| Codec.U16RoundTrip | kwui-cli/src/packager.rs:617-632 | reading back a little-endian u16 gives the value |
| Codec.U32RoundTrip | kwui-cli/src/packager.rs:707-733 | reading back a little-endian u32 gives the value modulo 2^32 |
| Codec.NodeBytes | kwui-cli/src/file_format.rs:30-36 | a node record is 8 bytes |
| Codec.ItemBytes | kwui-cli/src/file_format.rs:53-61 | an item record is 12 bytes in the table |
| Codec.ChunkBytes | kwui-cli/src/file_format.rs:45-51 | a chunk record is 12 bytes |
| Codec.ChunkDec | kwui-cli/src/packager.rs:658-671 | a chunk with an unknown algorithm tag fails with that tag; a decoded chunk's algorithm is the tag's |
| Codec.NodeRoundTrip | kwui-cli/src/packager.rs:626-639 | a written node reads back unchanged |
| Codec.ItemRoundTrip | kwui-cli/src/packager.rs:641-656 | a written item reads back as its stored form (offsets and lengths mod 2^32; digest and name not stored) |
| Codec.ChunkRoundTrip | kwui-cli/src/packager.rs:658-671 | a written chunk reads back as its stored form |
| Codec.Preamble | kwui-cli/src/packager.rs:703-709 | the preamble is 20 bytes |
| Codec.ParseHeader | kwui-cli/src/packager.rs:611-684 | a file not starting with the magic fails with `InvalidMagic`; a parsed header has the magic and version 1 and ends within the file after the preamble |
| Codec.ParseTable | kwui-cli/src/packager.rs:626-671 | a parsed table ends within the data |
| Codec.TableRoundTrip | kwui-cli/src/packager.rs:626-671 | a written table of fewer than 2^32 records parses back to its stored records and ends where it was written |
| Codec.ParseRecordsRoundTrip | kwui-cli/src/packager.rs:626-671 | parsing written records appends their stored forms |
| Codec.PreambleRoundTrip | kwui-cli/src/packager.rs:612-624 | a written preamble reads back magic, version, flags and the counts modulo 2^32 |
| Codec.HeaderRoundTrip | kwui-cli/src/packager.rs:611-773 | a written header, followed by anything, parses back to its stored contents and reports where it ends |
| Codec.ParseHeaderOk | kwui-cli/src/packager.rs:611-684 | a file whose preamble and three tables parse gives the header assembled from them |
| Files.Overwrite | kwui-cli/src/packager.rs:775-787 | writing at a position gives a file as long as the longer of the two |
| Files.OverwriteBytes | kwui-cli/src/packager.rs:775-787 | writing at a position puts the bytes there, keeps the other bytes and zero-fills a gap |
| Files.OverwriteAppend | kwui-cli/src/packager.rs:32-81 | writing at the end appends |
| Files.OverwriteThen | kwui-cli/src/packager.rs:778-786 | two writes back to back are one write of both |
| Files.OverwriteSpan | kwui-cli/src/packager.rs:775-787 | rewriting a span with bytes of the same length replaces exactly that span |
| Files.InFile.Read | kwui-cli/src/packager.rs:573 | one `read` returns the bytes available up to the requested count and advances by them |
| Files.InFile.ReadU16 | kwui-cli/src/packager.rs:611-684 | `read_u16` gives the value at the position or fails at end of file |
| Files.InFile.ReadU32 | kwui-cli/src/packager.rs:611-684 | `read_u32` gives the value at the position or fails at end of file |
| Files.OutFile.Write | kwui-cli/src/packager.rs:64 | a write overwrites at the position and advances it; at the end it appends |
| HeaderWrite.Placeholders | kwui-cli/src/packager.rs:742-751 | the reserved chunk table holds the given number of placeholder chunks |
| HeaderWrite.WriteTable | kwui-cli/src/packager.rs:717-734 | a table is written as its count then its records |
| HeaderWrite.WritePreamble | kwui-cli/src/packager.rs:703-709 | the preamble is appended |
| HeaderWrite.BuildIndex | kwui-cli/src/packager.rs:711-715 | the insert loop computes the reference fold `IndexOf`; on success the index stores, for each destination, the item of its first entry; it fails only on a path with NUL or a full index |
| HeaderWrite.IndexOf | kwui-cli/src/packager.rs:282-321 | a successful index has forward links only and fits the 16-bit links |
| HeaderWrite.IndexOfStops | kwui-cli/src/packager.rs:713-714 | once the inserts fail on a prefix they fail the same way on all entries |
| HeaderWrite.IndexOfNul | kwui-cli/src/packager.rs:282-284 | a successful index has no path with NUL, and a refused path is one of the entries' and holds NUL |
| HeaderWrite.IndexOfFull | kwui-cli/src/packager.rs:308-320 | a successful index has no more nodes than the entries' units with terminators; the only other error is a full index, and then those units exceed the 16-bit links |
| HeaderWrite.IndexOfFits | kwui-cli/src/packager.rs:282-321 | entries without NUL whose units fit the 16-bit links always index |
| HeaderWrite.BuildHeader | kwui-cli/src/packager.rs:696-715 | building the header computes `HeaderOf`; it fails with an I/O error exactly when a source is unreadable, and otherwise yields the built tables and an index of their first values |
| HeaderWrite.WriteTables | kwui-cli/src/packager.rs:717-760 | the node, item and chunk tables are appended in order, and their offsets are recorded |
| HeaderWrite.HeaderOfSucceeds | kwui-cli/src/packager.rs:710-714 | the tables build exactly when every source is readable; the header then builds exactly when the index does, which needs every path free of NUL and always succeeds when the paths' units also fit the 16-bit links |
| HeaderWrite.WriteHeaderData | kwui-cli/src/packager.rs:696-773 | it succeeds exactly when `HeaderOf` does, and fails with its error, leaving the preamble; otherwise it writes the header of the tables and index `HeaderOf` gives, with placeholder chunks, and returns the total size, the chunk count (per file item, or per solid chunk) and the offsets |
| HeaderWrite.UpdateHeaderData | kwui-cli/src/packager.rs:775-787 | the real chunk table is written over the reserved one at its offset |
| HeaderWrite.PatchChunkTable | kwui-cli/src/packager.rs:775-787 | patching a chunk table of the reserved size changes nothing else in the file |
| HeaderWrite.IndexOfTable | kwui-cli/src/packager.rs:238-321 | a valid lookup table indexes exactly its stored map |
| HeaderRead.ReadRecords | kwui-cli/src/packager.rs:627-671 | the record loop reads what the reference parser parses, failing the same way |
| HeaderRead.ReadTable | kwui-cli/src/packager.rs:626-671 | reading a table agrees with parsing it |
| HeaderRead.ReadHeader | kwui-cli/src/packager.rs:611-684 | `read_header` agrees with the header parser: the same header and end position, or the same error |
| Drain.DecodeChunk | kwui-cli/src/packager.rs:569-590 | a stored chunk decodes to its bytes when the lengths agree; an LZF chunk decodes exactly when decompression succeeds |
| Drain.DecodeStore | kwui-cli/src/packager.rs:569-590 | a stored chunk lying in the file contributes its own bytes to the stream |
| Drain.DecodeAt | kwui-cli/src/packager.rs:569-608 | the stream from chunk i is chunk i decoded, then the rest |
| Drain.BufferWriter.constructor | kwui-cli/src/packager.rs:540-550 | a new writer has the whole decoded stream still to come |
| Drain.BufferWriter.FetchChunk | kwui-cli/src/packager.rs:569-590 | one read of the compressed length, then decoding as the reference decoder does |
| Drain.BufferWriter.Fetch | kwui-cli/src/packager.rs:591-608 | fetching leaves the bytes to come unchanged and fails only when they are used up and the next chunk fails |
| Drain.BufferWriter.FetchFirst | kwui-cli/src/packager.rs:592-597 | the first fetch loads chunk 0 without changing the bytes to come |
| Drain.BufferWriter.FetchNext | kwui-cli/src/packager.rs:598-606 | an exhausted chunk gives way to the next one without changing the bytes to come |
| Drain.BufferWriter.Write | kwui-cli/src/packager.rs:551-568 | `write` hands out exactly the next `length` bytes and uses them up; with fewer left it writes what is left and fails with the chunk error, or `InvalidData` when the chunks ran out |
| Drain.BufferWriter.Pass | kwui-cli/src/packager.rs:557-566 | one turn of the write loop hands out between 1 and `remain` next bytes, or fails when none are left |
| Drain.BufferWriter.Advance | kwui-cli/src/packager.rs:563-565 | handing out bytes of the current chunk removes exactly them from the front of the bytes to come |
| Fill.Content | kwui-cli/src/packager.rs:114-170 | an item's bytes are as long as the item and are its source file when readable |
| Fill.StreamLength | kwui-cli/src/packager.rs:114-170 | the filler's stream is as long as the items' total length |
| Fill.StreamItem | kwui-cli/src/packager.rs:114-170 | each item's bytes sit in the stream right after those of the items before it |
| Fill.StreamPrefix | kwui-cli/src/packager.rs:114-170 | the stream of leading items is a prefix of the stream |
| Fill.BufferFiller.constructor | kwui-cli/src/packager.rs:122-129 | a new filler starts at the beginning of the stream |
| Fill.BufferFiller.Advance | kwui-cli/src/packager.rs:155-169 | `advance` skips items read in full and opens the current file without moving in the stream |
| Fill.BufferFiller.ReadFile | kwui-cli/src/packager.rs:141-150 | one read copies as many of the current file's remaining bytes as fit, and nothing else in the buffer changes |
| Fill.BufferFiller.Fill | kwui-cli/src/packager.rs:130-154 | `fill` puts the next bytes of the stream into the buffer, as many as fit or remain, leaves the rest of the buffer and advances by that many |
| Fill.BufferFiller.ReadPiece | kwui-cli/src/packager.rs:141-152 | a read from an item with bytes left hands out at least one byte, and the filled prefix stays the stream from where `fill` began |
| Fill.BufferFiller.FillStep | kwui-cli/src/packager.rs:133-152 | one turn of the fill loop extends the filled prefix with the next stream bytes and reads nothing only at the end of the stream |
| Packer.ImageNotCompressed | kwui-cli/src/packager.rs:789-796 | a name ending in .png, .gif, .jpg or .jpeg, in any case, is not compressed |
| Packer.LowerSuffix | kwui-cli/src/packager.rs:790 | the lowered name ends with the lowered suffix |
| Packer.ShrinksIsFourFifths | kwui-cli/src/packager.rs:52 | the division-free test `Shrinks` the model uses holds exactly when the compressed length is under four fifths of the input length, rounded down |
| Packer.EncodeChunk | kwui-cli/src/packager.rs:43-81 | a chunk records the item's length and the written length; it is LZF only when the name needs compression and the result is under 4/5 of the input, and otherwise stores the bytes verbatim |
| Packer.EncodeDecode | kwui-cli/src/packager.rs:43-81 | with a decompressor inverting the compressor, every written chunk decodes to the item's bytes |
| Packer.ItemsDirFirst | kwui-cli/src/packager.rs:39-42 | built items start with the one empty directory item, and every file item is readable |
| Packer.PayloadStep | kwui-cli/src/packager.rs:39-82 | each turn of the chunk loop skips a directory item or appends one chunk and its bytes |
| Packer.PayloadTotals | kwui-cli/src/packager.rs:83-100 | the chunks' lengths sum to the header's total size, their count is the number of file items, and the written bytes are as many as the compressed lengths say, so the consistency checks always pass |
| Packer.ReadItem | kwui-cli/src/packager.rs:43-47 | reading an item takes exactly its bytes from the filler's stream |
| Packer.WriteChunk | kwui-cli/src/packager.rs:48-81 | the chunk written for an item is its encoding, and its bytes are appended |
| Packer.PackItems | kwui-cli/src/packager.rs:36-82 | the chunk loop produces the reference chunk list and appends the reference payload |
| Packer.PackItem | kwui-cli/src/packager.rs:39-82 | one turn of the chunk loop advances the filler by the item and extends the payload by it |
| Packer.WritePayload | kwui-cli/src/packager.rs:36-108 | the loop, the checks and the patch never fail, and leave the header with the real chunk table followed by the payload |
| Packer.Pack | kwui-cli/src/packager.rs:27-112 | `pack` succeeds exactly when `HeaderOf` does; it fails with the header's error (an I/O error exactly for an unreadable source) with only the preamble written; otherwise the file is the archive of exactly the tables and index `HeaderOf` gives |
| RoundTrip.PayloadDecodes | kwui-cli/src/packager.rs:39-82 | the payload decoded through the stored chunk table is the items' stream, with no error |
| RoundTrip.DecodeRun | kwui-cli/src/packager.rs:569-608 | chunks whose bytes lie one after another in the file, each decoding on its own, decode as a run to their outputs one after another, with no error |
| RoundTrip.DecodeFiles | kwui-cli/src/packager.rs:569-608 | decoding the payload of a run of file items gives their concatenated bytes |
| RoundTrip.ArchiveParses | kwui-cli/src/packager.rs:611-684 | reading back a packed archive gives its preamble values, index, stored items and real chunk table |
| RoundTrip.ArchiveDecodes | kwui-cli/src/packager.rs:529-608 | the chunks of a packed archive decode to the concatenated file contents |
| RoundTrip.StoredAtOffsets | kwui-cli/src/packager.rs:356-384 | every stored item's offset is where its bytes begin in that stream |
| RoundTrip.PackUnpack | kwui-cli/src/packager.rs:454-501 | unpacking a packed archive as written succeeds and gives every path its directory or its file's bytes, provided every file item is named by some path |
| RoundTrip.PackUnpackAt | kwui-cli/src/packager.rs:454-501 | unpacking with each item read at its offset succeeds and gives every path its directory or its file's bytes, with no such proviso |
| RoundTrip.BuiltFits | kwui-cli/src/packager.rs:27-112 | the tables and index a successful `pack` builds meet the round trip's hypotheses, when totals fit 32 bits, items number at most 2^16 and destinations are rooted |
| RoundTrip.IndexedFits | kwui-cli/src/packager.rs:711-715 | an index of first values of entries with rooted paths and in-range items pairs each rooted path with one in-range item |
| RoundTrip.BuiltIds | kwui-cli/src/packager.rs:340-386 | every entry built points at an item of the table |
| RoundTrip.FirstValuesFrom | kwui-cli/src/packager.rs:711-715 | each path the index keeps is an entry's path, with an entry's item index |
| RoundTrip.WorkItemsListed | kwui-cli/src/packager.rs:465-466 | the sorted pairs `unpack` walks are pairs of the stored map |
| RoundTrip.PackedUnpacksAt | kwui-cli/src/packager.rs:27-112 | the archive a successful `pack` writes unpacks, reading at offsets, with no error, creating every directory and giving every file path its item's bytes |
| RoundTrip.SkipPackable | kwui-cli/src/packager.rs:324-390 | the counterexample's items fit the archive's fields |
| RoundTrip.SkipStoredLengths | kwui-cli/src/packager.rs:733 | storing those items keeps their lengths |
| RoundTrip.SkipArchiveStart | kwui-cli/src/packager.rs:457-470 | the archive `pack` writes for them parses, and `unpack` starts on the bytes of all items in order |
| RoundTrip.SkippedItemUnpacked | kwui-cli/src/packager.rs:455-501 | for the header `pack` builds for `a/x`, `b/x` and `c/y` and the archive it writes, `unpack` as written succeeds and writes byte 66 into `y`, whose own content is 67 |
| Extract.ByIdTotalPreorder | kwui-cli/src/packager.rs:466 | ordering pairs by item index is a total preorder |
| Extract.WorkItems | kwui-cli/src/packager.rs:465-466 | the work list is the index's pairs, permuted and sorted by item index |
| Extract.Relative | kwui-cli/src/packager.rs:475 | `&dst_path[1..]` succeeds exactly when the path's first character is a one-byte character, and then drops exactly it |
| Extract.Unpack | kwui-cli/src/packager.rs:454-501 | `unpack` performs the reference operations and ends with the reference result |
| Extract.ExtractAll | kwui-cli/src/packager.rs:470-498 | the extraction loop performs the reference fold's operations and error |
| Extract.ExtractOne | kwui-cli/src/packager.rs:474-497 | one turn creates a directory, copies the previous file of the same item, or writes the next `length` stream bytes |
| Extract.SortedPairs | kwui-cli/src/packager.rs:465-466 | the collected, sorted pairs are the work list |
| Extract.IndexPairs | kwui-cli/src/packager.rs:465 | collecting the iterator gives the index's pairs |
| Extract.ExtractStops | kwui-cli/src/packager.rs:473-498 | after the first error the loop does nothing more |
| Extract.Paths | kwui-cli/src/packager.rs:523-525 | the listed paths are the work list's paths, in order |
| Extract.List | kwui-cli/src/packager.rs:503-528 | `list` reports the solid flag, the counts and the paths in item order, or the header error |
| ExtractFacts.FilesOfSnoc | kwui-cli/src/packager.rs:476-496 | each operation acts on the files left by the ones before it |
| ExtractFacts.NoGapsOfMentions | kwui-cli/src/packager.rs:465-466 | sorted pairs that name every file item skip no item index |
| ExtractFacts.RelativeOfRooted | kwui-cli/src/packager.rs:475 | an index path starting with a slash always has a relative form |
| ExtractFacts.StepKeeps | kwui-cli/src/packager.rs:474-497 | one turn of the loop as written keeps the extraction invariant when the pairs are sorted without gaps |
| ExtractFacts.ExtractExact | kwui-cli/src/packager.rs:470-498 | the loop as written, on sorted pairs with no gap, creates every directory and gives every file path its item's bytes |
| ExtractFacts.StepAtKeeps | kwui-cli/src/packager.rs:474-497 | one turn with reads at offsets keeps the extraction invariant for any pairs |
| ExtractFacts.ExtractAtExact | kwui-cli/src/packager.rs:470-498 | with reads at offsets every directory is created and every file path gets its item's bytes, whatever the order |
| ExtractFacts.SkippedItemShiftsLaterFiles | kwui-cli/src/packager.rs:491-495 | counterexample: on those tables, the loop as written gives `y` the skipped item's byte 66 instead of its own 67 |
| ExtractFacts.SkippedItemReadAtOffset | kwui-cli/src/packager.rs:491-495 | on the same archive, reading at the item's offset gives `y` its own byte 67 |
| ExtractFacts.PlainKey | kwui-cli/src/packager.rs:435-452 | a lower-case source path without a dot sorts with priority 0, extension `zzz`, its file name and itself |
| ExtractFacts.SkipSorted | kwui-cli/src/packager.rs:351 | the three files of the counterexample are already in solid order |
| ExtractFacts.TablesOfSorted | kwui-cli/src/packager.rs:324-390 | files already in solid order are folded in the order given, after the directory entries |
| ExtractFacts.SkipDedup | kwui-cli/src/packager.rs:354-389 | the dedup fold over the three files gives each its own item, in order |
| ExtractFacts.SkipTables | kwui-cli/src/packager.rs:324-390 | packing `a/x` and `b/x` to `/x` and `c/y` to `/y`, all of distinct contents, builds four entries and four items, two of them for `/x` |
| ExtractFacts.SkipIndex | kwui-cli/src/packager.rs:711-715 | the index of those entries keeps item 1 for `/x`, so item 2 is named by no path |
| ExtractFacts.SkippedItemFromPack | kwui-cli/src/packager.rs:324-501 | the whole counterexample: what `pack` builds for those files, the index it keeps, and the loop as written giving `y` the byte 66 of another file |
| ExtractFacts.SkipPackSucceeds | kwui-cli/src/packager.rs:696-715 | `pack` gets past its header on the three files, and the tables it builds are exactly `SkipEntries` and `SkipItems` |
| ExtractFacts.SkipKeyUnits | kwui-cli/src/packager.rs:711-714 | the four paths hold no NUL and take at most 20 units in the index |
| ExtractFacts.SkipWorkOf | kwui-cli/src/packager.rs:465-466 | any index that stores the first item of each path of those entries yields the work list `/`, `/x`, `/y` with items 0, 1, 3 |
| ExtractFacts.SkipWorkListed | kwui-cli/src/packager.rs:465-466 | that work list lists the stored map with strictly increasing items |
| ExtractFacts.WorkItemsOfListing | kwui-cli/src/packager.rs:465-466 | sorting the walk by item gives exactly any listing of the stored map whose items strictly increase |
| ExtractFacts.ListingMembers | kwui-cli/src/packager.rs:465-466 | a permutation of one listing of the stored map has the same pairs as any other listing |
| ExtractFacts.DistinctWork | kwui-cli/src/packager.rs:465-466 | a permutation of the walk, whose paths are distinct, repeats no pair |
| ExtractFacts.StrictOfDistinct | kwui-cli/src/packager.rs:466 | a work list sorted by item, without repeats, inside a list of distinct items has strictly increasing items |
| ExtractFacts.StrictSame | kwui-cli/src/packager.rs:466 | two lists with the same pairs whose items strictly increase are equal |
| ExtractFacts.StrictHead | kwui-cli/src/packager.rs:466 | such lists start with the same pair |
| ExtractFacts.StrictTail | kwui-cli/src/packager.rs:466 | after that pair they still have the same pairs, strictly increasing |
| ExtractFacts.CountTwo | kwui-cli/src/packager.rs:466 | an element at two positions occurs at least twice |
| ExtractFacts.TwoOfCount | kwui-cli/src/packager.rs:466 | an element occurring at least twice sits at two positions |
| ExtractFacts.ExtractLengths | kwui-cli/src/packager.rs:470-498 | the loop reads only the items' lengths, so tables with the same lengths give the same run |
| Frontend.Scan | kwui-cli/src/lib.rs:113-145 | `scan_dir` fails exactly when some entry's metadata cannot be read |
| Frontend.ScanDir | kwui-cli/src/lib.rs:113-145 | the scan loop computes the reference scan |
| Frontend.ScanStops | kwui-cli/src/lib.rs:130 | the first metadata error ends the scan |
| Frontend.ScanShape | kwui-cli/src/lib.rs:127-141 | every scanned destination lies under the prefix, and every directory ends with a slash |
| Frontend.InputItems | kwui-cli/src/lib.rs:26-97 | a source file maps to `/name`; a file mapping keeps its destination, or appends the name after a trailing slash; a directory adds its scan, or nothing when the scan fails; a missing file name fails with that source |
| Frontend.DirPrefix | kwui-cli/src/lib.rs:83-87 | a directory mapping drops one trailing slash |
| Frontend.AddInput | kwui-cli/src/lib.rs:26-97 | the match arm computes the reference contribution of one input |
| Frontend.CollectStops | kwui-cli/src/lib.rs:25-99 | the first failing input fails the whole collection |
| Frontend.Parent | kwui-cli/src/lib.rs:101-102 | a destination's parent is its prefix up to the last slash, present exactly when it has a slash |
| Frontend.Parents | kwui-cli/src/lib.rs:100-106 | the parent list holds the parent of every file with one, and nothing else |
| Frontend.ParentDirs | kwui-cli/src/lib.rs:100-106 | the parent loop computes the parent list |
| Frontend.ByLowerTotalPreorder | kwui-cli/src/lib.rs:108 | ordering by lowered string is a total preorder |
| Frontend.FinalDirs | kwui-cli/src/lib.rs:100-109 | the directory list is sorted by lowered name, has no equal neighbours, and holds exactly the scanned directories, the files' parents and `/` |
| Frontend.Inputs | kwui-cli/src/lib.rs:22-109 | the input loop yields the collected files and the final directory list, or the first input's error |
| Frontend.Pack | kwui-cli/src/lib.rs:22-111 | `pack` writes nothing when an input fails; otherwise it succeeds exactly when the header of the collected lists builds, and then writes the archive of exactly those tables and index; on failure it leaves the preamble and the header's error |
| Cli.SplitArg | kwui-cli/src/main.rs:95-103 | an existing path is kept whole; otherwise it is split at its last colon; without a colon it is a source alone |
| Cli.PieceLen | kwui-cli/src/main.rs:111-113 | the first segment runs up to the first separator |
| Cli.Segments | kwui-cli/src/main.rs:111-114 | splitting at `/` and `\` and dropping empties leaves non-empty pieces without separators |
| Cli.NormalizeDst | kwui-cli/src/main.rs:109-129 | the normalised destination is empty exactly when there are no segments and no trailing slash, otherwise starts with a slash, and keeps the trailing slash exactly when the argument had one |
| Cli.JoinShape | kwui-cli/src/main.rs:115 | joined segments are empty only for no segments, neither start nor end with a separator, hold no backslash and no double slash |
| Cli.SegmentsOfJoin | kwui-cli/src/main.rs:111-115 | splitting joined segments gives them back |
| Cli.NormalizeDstSound | kwui-cli/src/main.rs:109-129 | normalising keeps the segments, leaves no backslash or double slash, and is idempotent |
| Cli.ArgInput | kwui-cli/src/main.rs:94-153 | an argument fails when its source has no file name, is skipped when it is neither file nor directory, and otherwise becomes the file or directory input, mapped when a destination remains |
| Cli.ParseArg | kwui-cli/src/main.rs:95-153 | the loop body computes the reference input of one argument |
| Cli.ParseArgs | kwui-cli/src/main.rs:93-155 | the argument loop computes the reference input list |
| Cli.SplitDst | kwui-cli/src/main.rs:111-114 | the split loop computes the reference segments |
| Cli.ArgInputsStop | kwui-cli/src/main.rs:94-155 | the first failing argument fails them all |
| Cli.PackArchive | kwui-cli/src/main.rs:89-158 | a failing argument stops the command before anything is written; otherwise the command succeeds exactly when the header of the collected lists builds, writing that archive, and fails with the header's error otherwise |

## Left out

- File-system effects are not modelled as effects. Source files are a map from
  path to bytes. The archive is an in-memory file. `unpack` yields a list of
  operations whose meaning is `ExtractFacts.FilesOf`. Write, create and copy
  errors of `std::fs` are not modelled.
- SHA-1, LZF compression and decompression, `path_clean::clean`,
  `Path::file_name`, `std::fs::metadata` and the walkdir traversal are
  function parameters. They are foreign code.
- `println!` and `Size` formatting are output only and are left out.
- The solid-mode path of `pack` is left out, since `pack` always passes
  `false`. `WriteHeaderData` still states the solid chunk count.
- `to_lowercase` is modelled on ASCII letters only. Unicode case mapping is
  not modelled.
- Lookup.LookupTable.Insert: requires a path without NUL, and room in the
  16-bit node space for the nodes the insert appends (`Trie.Added`: none for a
  stored path). Otherwise the source's index would no longer hold the path
  correctly. `HeaderWrite.BuildIndex` reports either case as an error
  (`InvalidSourceName`, `Abort("path index full")`) instead of inserting. The
  source has neither check.
- Lookup.LookupTable.Iter: its contract about the stored map holds only when the table is valid. An index read from a file (`unpack`, `list`) is checked first. The model rejects any index with a link that does not point forward, and reports `MalformedIndex`. This includes acyclic indexes with a backward link, which the source walks and lists. The source recurses without end only on a cycle. Walking such acyclic indexes is not modelled.
- Extract.Relative: a path whose first character is not one byte long makes the model stop with an error. The source panics there.
- The u32 and u16 fields are truncated explicitly: offsets, lengths and counts modulo 2^32, reference counts modulo 2^16. The round-trip lemmas assume totals below 2^32 (`RoundTrip.Packable`).
- RoundTrip.PackUnpack: its hypotheses `Packable` and `IndexFits` are stated, not derived from `Packer.Pack`'s result. `RoundTrip.BuiltFits` derives them for the corrected `unpack`, but its extra proviso that every file item is named by some path is not derived.
- RoundTrip.PackUnpackAt: it assumes `Packable` and `IndexFits`. `RoundTrip.PackedUnpacksAt` derives them from `pack`'s result but still assumes three things. The items' total length must be below 2^32, there must be at most 2^16 items, and every destination must start with `/`. The source checks none of these. Archives beyond the first two limits truncate fields. A destination without a leading `/` still unpacks, but `&dst_path[1..]` drops its first character, so the file is written under another name (`ab` becomes `b`). `unpack` stops only on an empty path or a first character wider than one byte (`Extract.Relative`). The main.rs route always gives a leading `/` (`Cli.NormalizeDst`), and lib.rs adds one for `SourceFile` and `SourceDir`; only a `FileMapping` or `DirMapping` handed to `pack` directly can carry a destination without it.
- Extract.Step: an item index past the item table is an `Abort` after the file is created, as `File::create` runs first. The source panics when it indexes `header.items` (kwui-cli/src/packager.rs:490-491).
- Cli.ArgInput: a cleaned source path without a file name is an `Abort`. The source panics in `file_name().unwrap()` (kwui-cli/src/main.rs:130).
- Drain.DecodeChunk: a stored chunk whose compressed length differs from its length is an `Abort`. The source panics in `copy_from_slice`.
- The `unpack-archive` and `list` arms of main.rs are not modelled. They only
  pass their arguments to `unpack` and `list`.
- The GUI runtime and its FFI bindings are not part of this model. Neither are
  the examples, the build scripts or the macros.

## Findings

| source | as written | input that shows it | evidently intended | confidence | as-written member | corrected member |
|---|---|---|---|---|---|---|
| kwui-cli/src/packager.rs:491-495 | `unpack` reads each file's bytes as the next `length` bytes of the decoded stream. It computes `item_offset` but never uses it. | Pack `a/x` (byte 65) to `/x`, `b/x` (byte 66) to `/x`, and `c/y` (byte 67) to `/y`. The three contents differ, so `pack` builds items 1, 2 and 3 in that order. The index keeps item 1 for `/x`, so item 2 is named by no path. `unpack` then writes 66 into `y`. | Each file gets its own item's bytes: they are read at the item's offset, or the bytes of skipped items are consumed. | not executed | RoundTrip.SkippedItemUnpacked | ExtractFacts.SkippedItemReadAtOffset |

`RoundTrip.PackUnpack` shows that the code as written is correct when every
file item is named by some path. `Extract.UnpackAtOf` and
`RoundTrip.PackUnpackAt` model the corrected `unpack`, which reads each item
at its offset. It needs no such proviso. `RoundTrip.PackedUnpacksAt` applies it
to the tables and index `pack` itself builds.
