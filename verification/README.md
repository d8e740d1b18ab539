# A Dafny model of the HFS+ reader, its decmpfs decoders and its auditor

The repository reads HFS+ and HFSX volumes from a byte buffer, decodes
transparently compressed files, and reports structural anomalies. This project
models that code at the level of bytes and proves what it does on every buffer,
hostile ones included.

* `byte_order`, `utf16`, `wrappers`, `sequences`: machine integers, endian readers
  and their writers, lossy UTF-16, and the vocabulary for closures over records.
* `chains`: bounded walks over numbered nodes, which may end, leave the volume or loop.
* `btree`: locating a tree and the leaf walk. `forks`, `extent_map`: fork data, and where
  its bytes lie in the volume.
* `catalog`, `attributes`, `reader`, `walk`: the lookups, `read_file` and the
  recursive listing.
* `decmpfs` and `decmpfs_*`: the decoders, their round trips, structure and errors.
* `anomalies`, `audit_btree`, `findings`, `auditor_soundness`, `whole_audit`: the auditor,
  what its findings mean for the reader, and when a whole audit makes them.
* `vfs`: windowed reads into a caller's array and streams listed by position.
* `tree_writer`, `leaf_writer`, `attribute_writer`, `overflow_writer`, `volume_writer`:
  writers for the on-disk records of Apple Technical Note TN1150 (sections "B-Trees",
  "Catalog File", "Fork Data Structure", "Extents Overflow File", "Attributes File"), used
  in `volume_reads` and `volume_audit` to state that the readers undo them and that the
  auditor finds what was written.

The writers, and the predicates that say what a volume or a record holds, use offsets,
type numbers and names as literals, and not the constants and functions of the readers.

## How the code is modelled

* Bytes are integers below 256 and slices are sequences. A whole volume has at most
  isize::MAX bytes, as every Rust slice does. `usize` is 64 bits. Where the source adds
  or multiplies without a check, the result is declared `usize`, so the model verifies
  only because no such sum can leave the type; checked operations return an `Option`.
* A closure passed to `for_each_record` becomes a loop over the list of slices that
  `ForEachRecord` returns, one element per call in call order. Each method is proved
  equal to a specification function (`ListDir` to `Directory`, `ReadFile` to
  `FileContents`, `Walk` to `Output`, `Audit` to `AuditFindings`), and the theorems are
  about those functions.
* zlib, LZVN and LZFSE are three function parameters; each theorem states the contract
  it needs of them, on the data at hand. Error values carry the source's distinctions
  and numbers, not its message texts; the details of findings are constructors.
* The constants of the `forensicnomicon` crate are not part of this repository: the
  16-byte header layout and CHUNK_SIZE follow core/src/decmpfs.rs:346-352 and
  docs/decisions/0002-forensicnomicon-knowledge-and-report.md:10-12, the type table
  docs/decisions/0003-decmpfs-codec-reuse-length-tolerant-lzvn.md:8-11 and
  core/src/decmpfs.rs:141-187. The magic number is the ASCII word `cmpf`. Type 14 is
  LZBitmap by core/src/decmpfs.rs:530-536; type 13 is taken to be its inline form.

## Where the code and its documentation differ

* The module comment of the decoder says type-4 block offsets are relative to
  `headerSize` (core/src/decmpfs.rs:14-19); the code adds them to `headerSize + 4`
  (lines 209-218, 231). The model follows the code.
* The finding BtreeNodeInvalid is documented to cover links "outside the tree" and any
  leaf at a non-leaf height (forensic/src/findings.rs:59-64); the code looks for four
  descriptor defects and a looping chain only. `TreeFindingsExact` and `LoopFindingExact`
  say exactly what it reports; `StrayLinkAndHeightPass` is a volume with a leaf of height
  5 that links to a node outside the volume and audits without a finding.
* A decmpfs finding is worded as "`read_file` cannot materialize it"
  (forensic/src/findings.rs:201-211). That is false for an empty inline file that
  declares size 0: `FlaggedFilesDoNotRead` gives the exact condition and
  `FlaggedEmptyFileDecodes` the input.
* CatalogExtentsMismatch is documented as the size and the extents disagreeing, with no
  overflow record making up the difference (forensic/src/findings.rs:73-79). The code
  reports a file exactly when its extents, overflow included, cover less than the size
  needs, counting at most 2^32 - 1 needed blocks. So a file with more blocks than it needs
  is not reported; nor is one whose blocks reach that cap but not its need, which reads
  short (`CappedNeedHidesShortfall`); nor is one with all eight slots in use whose missing
  blocks the overflow tree has, although `read_file` reads the inline extents only.
  `ReportedExactlyWhenShort` states when a report and a short read coincide.
* A time below HFS_EPOCH_TO_UNIX is reported as before the epoch of 1904
  (forensic/src/findings.rs:106-109, 594-608), but the constant is the second at which 1970
  begins: `FileOf1960IsReported`; `AuditTime` has the exact condition for passing.
* Streams are said to be read under the name they were listed with
  (core/src/vfs.rs:76-81). That holds with one record per name and at most 65536
  attributes; `ListedStreamReadsExactly` says when it holds otherwise, inline or fork,
  `DuplicateNameHidesSecond` is an input for which it does not, and `StreamNumberResolves`
  says what a position past 65535 reads.

## Model

| member | source | states |
|---|---|---|
| BTree.LocateBtree | core/src/lib.rs:149-187 | a located tree has its first 34 bytes, through the header record, inside the volume, a node size of at least 14 and a non-zero 32-bit block size, and node arithmetic on it cannot overflow |
| VolumeWriter.TreesAreLocated | core/src/lib.rs:131-187 | for every volume the catalog, attributes and extents trees are located exactly from their forks at 272, 352 and 192 in the header: at start block times block size, with the node size and first leaf of the header record there, and not at all for another signature, block size 0, no blocks, a header record outside the volume, or nodes shorter than a descriptor |
| BTree.NodeArithmeticFits | core/src/lib.rs:195-201 | the node offset and the unchecked end-of-node addition stay in usize for every node number of a located tree, so the checked operations never fail |
| ByteOrder.ProductFits | core/src/lib.rs:467-469 | a product of two 32-bit block numbers never fails its checked multiplication |
| BTree.ForEachRecord | core/src/lib.rs:190-219 | the closure is called with exactly the specified record slices in chain and slot order, whatever the links and slot counts are |
| BTree.VisitsIsTheLeafWalk | core/src/lib.rs:190-219 | the visited nodes are the one sequence that starts at the first leaf, follows forward links, enters only real nodes and stops only at a node it cannot enter or after 65536 |
| BTree.DeliveredExactly | core/src/lib.rs:204-216 | a slice is delivered exactly when a visited node names it in one of its declared slots that fit the node, with at least eight bytes left |
| Chains.RevisitNeverStops | core/src/lib.rs:190-219 | a walk that meets any node twice can only be ended by its budget |
| BTree.CallbacksAreBounded | core/src/lib.rs:193-216 | at most 65536 times half the node size callbacks, each with a slice of at least 8 bytes and at most one node |
| Utf16.NamesReadBack | core/src/lib.rs:715-721 | lossy decoding undoes the UTF-16 encoding of every well-formed string, surrogate pairs included |
| Utf16.IllFormedIsReplaced | core/src/lib.rs:715-721 | behind any well-formed text an unpaired surrogate becomes U+FFFD and decoding goes on with the next unit; an odd last byte is dropped |
| Catalog.ListDir | core/src/lib.rs:236-247 | a listing is the entries with that parent among the delivered records, in order, and None exactly when the catalog cannot be located |
| Catalog.Stat | core/src/lib.rs:314-323 | metadata is that of the first delivered file or folder record with the CNID |
| LeafWriter.RecordReadsBack | core/src/lib.rs:371-395 | a written file or folder record reads as its own parent, name, kind and CNID, a thread as nothing, however much of the node follows it |
| LeafWriter.StatReadsBack | core/src/lib.rs:330-368 | kind, the three times and a file's data-fork size are read from where they were written |
| LeafWriter.ForksReadBack | core/src/lib.rs:412-439 | a file record with both forks written yields exactly those two forks |
| LeafWriter.ThreadReadsBack | forensic/src/findings.rs:498-514 | a written thread is classified as the thread of its key's CNID, with its own parent and name |
| LeafWriter.FileClassifies | forensic/src/findings.rs:463-497 | a written file record with both forks is a file for the auditor, under its own name and CNID |
| LeafWriter.CutRecordsRead | core/src/lib.rs:330-439 | what a file record cut short yields: no metadata without its times, size 0 without its whole size, no forks without a whole data fork, an empty resource fork without a whole one, and for the auditor an entry without a file |
| LeafWriter.CutThreadReads | forensic/src/findings.rs:498-514 | a thread whose name runs past its record keeps CNID and parent and has no name |
| TreeWriter.LeafReadsBack | core/src/lib.rs:204-216 | a leaf written with its offset table backwards from the end gives back its forward link and, for any reading that a record's tail does not disturb, exactly what that reading makes of its records, in order |
| TreeWriter.RecordsReadBack | core/src/lib.rs:190-219 | the same for a whole chain of at most 65536 leaves of any kind of record, placed anywhere: any closure meets exactly the written records, in order |
| LeafWriter.DirectoryReadsBack | core/src/lib.rs:190-247 | any list of file, folder and thread records written into a chain of at most 65536 leaves, placed anywhere, lists as exactly the entries with that parent, in order |
| VolumeWriter.HeadersLocate | core/src/lib.rs:131-187 | a written volume header with any signature, block size and tree forks leads to each tree it describes, whatever follows it |
| VolumeWriter.ChainIsStored | core/src/lib.rs:190-219 | a volume written with any block size and catalog start stores its leaves at the nodes the reader enters |
| VolumeReads.VolumeReadsBack | core/src/lib.rs:149-247 | a whole written volume, with any header and whatever lies around its tree, lists for every folder exactly its written records |
| VolumeReads.LookupsReadBack | core/src/lib.rs:314-439 | on a volume that stores a catalog, metadata and forks of a CNID are those of its first written record, and the delivered threads are the written ones |
| VolumeReads.FilesReadBack | core/src/lib.rs:263-285 | end to end: read_file of a CNID returns, byte for byte, the data stored in the blocks of its first written file record; with a written compression attribute it returns what that decodes to, alone or with the bytes stored in the blocks of the resource fork; None for a CNID no file carries |
| VolumeReads.ChunkedFilesReadBack | core/src/lib.rs:263-285 | a file of type 8, 10 or 12, cut, encoded and stored as a chunked resource fork anywhere in a volume, is read back |
| VolumeReads.ZlibFilesReadBack | core/src/lib.rs:263-285 | a file of type 4 whose resource fork places its blocks is read back |
| VolumeReads.InlineFilesReadBack | core/src/lib.rs:263-285 | a file of type 1, 3, 7, 9 or 11 stored in its attribute is read back, whatever its resource fork holds |
| VolumeAudit.WrittenTreeAuditsClean | forensic/src/findings.rs:331-410 | the auditor reports nothing about a written tree, whose leaves the reader visits once each |
| VolumeAudit.StrayLinkAndHeightPass | forensic/src/findings.rs:59-64 | a located volume whose one leaf claims height 5 and links outside the volume gets no finding at all |
| VolumeAudit.AuditReadsBack | forensic/src/findings.rs:272-324 | behind its findings on trees, the audit of a stored catalog is that of the written records: threads against CNIDs, then the files one by one |
| VolumeAudit.AuditsCleanExactly | forensic/src/findings.rs:272-324 | the audit of a written volume without overflow tree is empty exactly when every written thread has its file or folder and every file's times pass, its blocks cover its size, and what its compression attribute promises is there |
| Walk.Walk | core/src/lib.rs:747-775 | the stack-and-visited-set worklist terminates and returns exactly the listings of the specified expansion order, or None when the catalog cannot be located |
| Walk.Expand | core/src/lib.rs:758-772 | one round lists a folder's entries under its prefix and pushes exactly the folders met for the first time |
| Walk.WalkExpandsTheReachableFolders | core/src/lib.rs:751-766 | the folders expanded are exactly those reachable from CNID 2 through folder entries, each once, for any catalog graph |
| Walk.WalkIsExact | core/src/lib.rs:747-775 | the output shows every entry whose parent is reachable, as often as the catalog records it, and nothing else |
| Walk.PathsHaveProvenance | core/src/lib.rs:758-771 | every output path is a name, under the root, or the path of a folder shown earlier that is its parent, a slash and a name |
| Walk.PathsAreTrails | core/src/lib.rs:751-774 | every output path is, from left to right and with slashes between, the names along a way through folder entries from CNID 2 to the entry that passes no CNID twice; empty names in front leave no slash |
| Walk.DepthFirst | core/src/lib.rs:751-772 | what lies on top of the stack is finished, with everything first met below it, before anything under it is expanded |
| Walk.PushesFirstMet | core/src/lib.rs:760-770 | a folder's listing pushes exactly the folders first met in it, in its order, each under its own path |
| Forks.ParseFork | core/src/lib.rs:442-457 | the extents are the slots with a non-zero block count, in order |
| Forks.ForkReadsBack | core/src/lib.rs:442-457 | fork data written for up to eight extents reads back exactly |
| Forks.ForkBytes | core/src/lib.rs:460-477 | the loop with its early exit, clipping and final truncation computes the specified bytes, or None on an extent whose end leaves usize |
| ExtentMap.ForkReadsItsBlocks | core/src/lib.rs:460-477 | with all extents inside the volume the result has the smaller of logical size and blocks times block size, and byte q of extent i, behind all blocks before it, is the volume byte at start block times block size plus q |
| ExtentMap.ReadByteIsVolumeByte | core/src/lib.rs:460-477 | behind extents inside the volume, every byte of an extent that the volume has is read from its place, clipped or not |
| ExtentMap.HeldFileReads | core/src/lib.rs:460-477 | data stored in order in the blocks of a fork's extents is what reading the fork returns |
| Forks.EarlyExitIsTruncation | core/src/lib.rs:464-475 | for any extents, where concatenating every one succeeds the early exit is its truncation, and where that fails it fails too or has its full logical size already |
| Attributes.ListXattrs | core/src/lib.rs:587-598 | the list is every listable attribute of the CNID, in record order |
| Attributes.ReadXattr | core/src/lib.rs:605-636 | reading a name returns the first record of that name that yields bytes, inline or from its extents |
| Attributes.DecmpfsXattr | core/src/lib.rs:482-491 | the compression attribute is the first inline record of its name |
| Attributes.DecmpfsLookupIsReadXattr | core/src/lib.rs:482-526 | the decoder's lookup equals the general one unless the first record that reads keeps its value in a fork |
| Attributes.ListedReadsBackExactly | core/src/lib.rs:587-712 | reading the name of a listed record, inline or fork, returns what that record holds exactly when no earlier record of the name reads as something else, or, if its fork does not read, when none of that name reads |
| Attributes.ListedReadsBack | core/src/lib.rs:587-712 | with one record per name every listed inline value reads back, and every listed fork reads as its extents: inside the volume to the smaller of listed and allocated length, each byte from its block |
| AttributeWriter.AttributeReadsBack | core/src/lib.rs:497-712 | a written attribute, inline, in a fork, of another kind or a continuation record, is read by all three parsers as what it is, however much of the node follows |
| AttributeWriter.AttributesReadBack | core/src/lib.rs:482-636 | on a stored attributes tree list_xattrs lists every written attribute of the CNID in order, read_xattr returns the first of the name that yields bytes, and the decoder's lookup the first inline one named com.apple.decmpfs |
| AttributeWriter.CutValuesDoNotRead | core/src/lib.rs:515-526 | a value or fork that its record does not hold in full is none for any of the parsers |
| AttributeWriter.DuplicateNameHidesSecond | core/src/lib.rs:592-635 | of two stored attributes with one name and different values both are listed and the second is never read |
| Reader.ReadFile | core/src/lib.rs:263-285 | a read is the data fork of the first file record with the CNID, or, when there is a compression attribute, its decoding or None |
| Reader.StatBoundsReadAmong | core/src/lib.rs:263-368 | among any records of which at most one is a file or folder with the CNID, an uncompressed read is bounded by the size in that file's metadata |
| Reader.StatBoundsRead | core/src/lib.rs:263-368 | for a CNID carried once and not compressed, a successful read implies metadata of a file whose size bounds the read |
| Decmpfs.Decompress | core/src/decmpfs.rs:98-139 | the decoder computes the specified result, error by error |
| Decmpfs.Decoded | core/src/decmpfs.rs:132-138 | a success has exactly the length the header declares |
| Decmpfs.DecodeZlibResourceFork | core/src/decmpfs.rs:206-237 | the block loop computes the specified concatenation or its first error |
| Decmpfs.DecodeChunkedResourceFork | core/src/decmpfs.rs:241-287 | the table loop computes the specified state, settling at the first error or at a complete output |
| DecmpfsInline.StoredRoundTrips | core/src/decmpfs.rs:151-174 | types 1 and 9 and the stored forms of 3 and 7 read back what they store |
| DecmpfsInline.CompressedRoundTrips | core/src/decmpfs.rs:163-182 | types 3, 7 and 11 read back for a codec that undoes its encoder and a stream without the stored-form marker |
| DecmpfsInline.OversizedLzvnIsRefused | core/src/decmpfs.rs:175-180 | the cap on inline LZVN never truncates silently: a larger declared size is an error |
| DecmpfsErrors.ErrorsAreExact | core/src/decmpfs.rs:98-139 | each error comes back exactly in its situation: short header, magic, unknown type, the three refused types, missing fork, a failure inside the payload, or a payload of another length than declared |
| DecmpfsChunked.BuildChunkedFork | core/src/decmpfs.rs:411-424 | the two encoder loops write the specified fork |
| DecmpfsChunked.EncoderLaysOut | core/src/decmpfs.rs:411-424 | an encoded fork, with any zero padding of its table and any trailing bytes, is laid out for the decoder |
| DecmpfsChunked.ChunkedForkDecodes | core/src/decmpfs.rs:241-287 | chunks laid out back to back decode to their pieces, each requested at what is missing capped at one chunk, whatever unused slots hold |
| DecmpfsChunked.ChunkedRoundTrip | core/src/decmpfs.rs:98-139 | types 8, 10 and 12 read back any file cut into pieces of 65536 bytes, each piece requested at its true length |
| DecmpfsChunked.AnyCutRoundTrip | core/src/decmpfs.rs:275-278 | types 10 and 12 read back any cut at all, empty pieces included |
| DecmpfsStructure.ChunkedForkExact | core/src/decmpfs.rs:246-286 | a chunked fork decodes to some bytes exactly when chunks that tile the fork from the header's end, one per table slot, each asked for exactly what is missing, give them, and the table is used until it ends or the output is complete |
| DecmpfsStructure.OutputStaysWithinSize | core/src/decmpfs.rs:261-274 | with a codec bounded by the requested length the output never exceeds the declared size |
| DecmpfsStructure.ChunkedIgnoresTrailing | core/src/decmpfs.rs:241-287 | appending bytes to a fork never changes a successful decode |
| DecmpfsZlib.ZlibForkExact | core/src/decmpfs.rs:206-237 | a type-4 fork decodes to some bytes exactly when its table places streams inflating to blocks with that concatenation, in any placement |
| DecmpfsZlib.ZlibWorkIsBounded | core/src/decmpfs.rs:215-229 | a table that decodes lies inside the fork, so the number of blocks is bounded by the input |
| DecmpfsZlib.ZlibRoundTrip | core/src/decmpfs.rs:98-237 | a type-4 file reads back for blocks stored anywhere, reordered or shared |
| AuditBtree.AuditBtreeNodes | forensic/src/findings.rs:331-356 | the findings are those of node 0, then of each fresh chain node, then one loop finding if the chain returns |
| AuditBtree.CheckNode | forensic/src/findings.rs:359-410 | a node's findings are exactly the descriptor rules it violates, none when it is outside the volume |
| AuditBtree.NodeSliceIsNode | forensic/src/findings.rs:413-422 | the auditor's node arithmetic accepts exactly the reader's nodes |
| Chains.FreshCoversEntered | forensic/src/findings.rs:339-355 | a walk that stops at the first repeated node covers the nodes of one that does not look, which then runs out its whole budget |
| AuditBtree.AuditorAgreesWithReader | forensic/src/findings.rs:331-356 | auditor and reader touch the same chain nodes; the loop finding appears, once, exactly when the reader visits a node twice, and then it makes 65536 visits |
| AuditBtree.TreeFindingsExact | forensic/src/findings.rs:331-410 | a descriptor rule is reported for a node exactly when it is node 0 or one the reader visits, lies in the volume and violates the rule |
| AuditBtree.LoopFindingExact | forensic/src/findings.rs:341-348 | the loop finding names exactly the first node the reader comes back to |
| AuditBtree.FindingsFollowTheWalk | forensic/src/findings.rs:331-356 | the report on a tree begins with node 0, goes on in the order of the reader's visits, and ends with the loop |
| AuditBtree.RulesInOrder | forensic/src/findings.rs:368-409 | the rules one node breaks are reported in one order, each once |
| Findings.Audit | forensic/src/findings.rs:272-324 | an audit is the tree findings, then dangling threads, then per file its time, extents and payload findings, in record order |
| Findings.AuditTime | forensic/src/findings.rs:580-629 | the first time relation that fails is reported, and nothing exactly when each time is unset or at least the boundary, in order, and not after the volume's last write |
| Findings.FileOf1960IsReported | forensic/src/findings.rs:594-608 | a file dated 1960 is reported as before the epoch of 1904 |
| Findings.ForkInlineBlocks | forensic/src/findings.rs:521-532 | the loop computes the saturating sum of the slot counts |
| Findings.AuditorReadsTheReadersExtents | forensic/src/findings.rs:521-544 | the saturating sum is the true total of the reader's extents up to 2^32 - 1, and all slots are used exactly when the reader keeps eight extents |
| Findings.OverflowBlocks | forensic/src/findings.rs:548-573 | the saturating sum over the overflow tree is the true total of all matching records up to 2^32 - 1 |
| Findings.OverflowTotalIsOrderFree | forensic/src/findings.rs:548-573 | the overflow total does not depend on the order of the records |
| OverflowWriter.RecordCounts | forensic/src/findings.rs:548-573 | a written overflow record counts for its own file and fork only, with the block counts of its extents, and one cut short with those it holds |
| OverflowWriter.OverflowReadsBack | forensic/src/findings.rs:548-573 | the overflow total of a stored tree is the sum of the block counts written for that fork of that file |
| Findings.AuditExtents | forensic/src/findings.rs:631-657 | a mismatch is reported exactly when inline plus overflow blocks fall short of the capped need |
| Findings.AuditDecmpfs | forensic/src/findings.rs:659-730 | at most one payload finding per file, carrying the compression type and the problem found |
| AuditorSoundness.FieldsAreForks | forensic/src/findings.rs:463-497 | for one file record the auditor's fields are the sizes and capped block totals of the reader's two forks |
| AuditorSoundness.ExtentsFindingMeansShortRead | forensic/src/findings.rs:631-657 | for the selected uncompressed file with extents inside the volume: the read is full exactly when the record's own extents cover the need, a finding is made exactly when all extents cover less than the capped need, and a finding means a short read |
| AuditorSoundness.ReportedExactlyWhenShort | forensic/src/findings.rs:272-324 | a whole audit contains that file's mismatch exactly when its extents, overflow included, cover less than the capped need; the file then reads short; and with a free slot and a 32-bit need it contains it exactly when read_file is short |
| AuditorSoundness.AuditOfFiles | forensic/src/findings.rs:313-321 | whatever a whole audit says of files is what the checks of one of the catalog's file records say, and all of that |
| WholeAudit.FileReportsExactly | forensic/src/findings.rs:313-321 | a whole audit contains a time, extents or payload finding exactly when a file record of the catalog deserves it: the first failing time relation, too few recorded blocks with both numbers, or the promised payload missing, each in terms of the record's fields and the bytes of the volume |
| WholeAudit.TreeReportsExactly | forensic/src/findings.rs:277-282 | a whole audit contains a descriptor finding for a node exactly when its tree is located, the node is node 0 or visited, lies in the volume, and its bytes break that rule; and a loop finding exactly for the first node the reader comes back to |
| WholeAudit.ReportIsOrdered | forensic/src/findings.rs:277-321 | the report is the catalog tree, the extents tree, the dangling threads, then the files |
| WholeAudit.ChecksInOrder | forensic/src/findings.rs:317-321 | of one file its times come first, then its extents, then its payload, each at most once |
| AuditorSoundness.CappedNeedHidesShortfall | forensic/src/findings.rs:576-578 | a written file record, selected by a read, whose need exceeds 32 bits is not reported and reads short |
| AuditorSoundness.ProblemMeansNoDecode | forensic/src/findings.rs:659-730 | for every payload problem the decoder fails, except for a bare inline header that declares size 0 and whose codec accepts it |
| AuditorSoundness.FlaggedFilesDoNotRead | forensic/src/findings.rs:659-730 | a flagged file record that read_file selects reads as None, with exactly that one exception |
| AuditorSoundness.FindingMeansNoRead | forensic/src/findings.rs:659-730 | the same for the volume's own records and attribute: a payload finding means read_file returns None, with that one exception |
| AuditorSoundness.FlaggedEmptyFileDecodes | forensic/src/findings.rs:715-727 | a bare type-1 header of size 0 is flagged and decodes to an empty file |
| AuditorSoundness.SameEntries | forensic/src/findings.rs:439-497 | classify_record and record_entry accept the same entries, with the same CNID and name |
| AuditorSoundness.ThreadCheckIsExact | forensic/src/findings.rs:284-311 | a whole audit reports a CNID as deleted but referenced once per thread record of it when no directory lists it, and otherwise never, whatever the record order |
| Vfs.HfsFs.ReadAt | core/src/vfs.rs:257-284 | a read takes all the stream has from the offset on or fills the buffer, puts it at the front, returns its length and leaves the rest of the buffer; on an error nothing is written |
| Vfs.HfsFs.ReadXattrAt | core/src/vfs.rs:82-102 | the position is resolved to a name and that attribute's window is copied |
| Vfs.HfsFs.DataStreams | core/src/vfs.rs:168-197 | the default stream with the file's size, then one stream per listed attribute |
| Vfs.WindowedReadsReassemble | core/src/vfs.rs:257-284 | the windows of any run of non-zero lengths, each starting where the last ended, make one contiguous stretch, which is the whole stream once a window is empty |
| Vfs.ReadWhole | core/src/vfs.rs:257-284 | a client that calls read_at with buffers of any non-zero sizes until it returns 0 gets exactly the stream, or its error, in at most one call more than the stream has bytes |
| Vfs.StreamNumberResolves | core/src/vfs.rs:178-197 | stream i resolves to the attribute listed at i, or at 65535 when i does not fit 16 bits |
| Vfs.StreamErrorsAreExact | core/src/vfs.rs:82-102 | a read is unsupported exactly for another kind of stream or a position past the list, and undecodable exactly where the file or attribute does not read |
| Vfs.DefaultSizeBounds | core/src/vfs.rs:168-177 | the default stream comes first and its size bounds what it reads, for a CNID carried once and not compressed |
| Vfs.ListedSizesAreTrue | core/src/vfs.rs:178-197 | a listed attribute shows its name and, with one record of it, its size: resident and exact for an inline value, the fork's size and a bound otherwise |
| Vfs.ListedStreamReadsItsAttribute | core/src/vfs.rs:82-102 | with one record per name and at most 65536 attributes a listed stream gives what the record listed at its position holds: the inline bytes, or success, length and every byte through that record's own extents |
| Vfs.ListedStreamReadsExactly | core/src/vfs.rs:76-102 | whatever the names, a stream of a 16-bit position gives what its record holds exactly when no earlier record of the name reads as something else, or, if that record does not read, when none of the name does |

## Left out

- The internals of zlib, LZFSE and LZVN: external crates; their contracts are hypotheses.
- Severity, code, note and display texts of findings and errors.
- `parse`, `list_root`, `hfs_time`, `cnid_of`, `kind`, `sector_sizes`, `meta`, `read_dir`
  and `lookup`: straight-line code over functions modelled here.
- Allocation capacity hints: they do not influence results.
- Reading files that spill into the extents-overflow tree: `read_file` itself uses the
  inline extents only.
- ExtentsFindingMeansShortRead: does not cover extents that reach past the volume, which
  the reader clips and then continues from.
- ReportedExactlyWhenShort: has the same bound.
- ForkReadsItsBlocks: states the address map for extents inside the volume; behind an
  extent that the volume clips only `ForkBytes` applies.
- AuditsCleanExactly: is stated without an overflow tree; with one, `FileReportsExactly`
  and `TreeReportsExactly` say what is reported.
- The name bytes a stream carries are kept as the decoded string, not as its UTF-8 bytes.
