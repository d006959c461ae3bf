# Verified model of the AgentOctopus VM boot path

A Dafny model of the parts of AgentOctopus where one side writes bytes, descriptors or state and
another side has to find them again: the sealed skill image of the micro-VM, the two launch-spec
codecs, the control channel and its descriptors, and the schedulers and state machines around them.
`dafny verify dfyconfig.toml` checks the whole project.

Code that changes state step by step is modelled by methods with loops, arrays and classes, each
proved equal to a specification function; the properties are lemmas about those functions. Bytes
are integers below 256, texts are sequences of characters (or of bytes where the C code sees
bytes), and 16-, 32- and 64-bit arithmetic wraps where the source's does.

**The sealed image** (`vm-image-builder.c`). `SourceTree` is the directory tree and the walk over
it; `DirBlock` the directory block, written in place and scanned; `SealedImage` the block cursor,
the data, inode and metadata writes; `ImageReader` the reader as functions over the bytes;
`ImageTheorem` and `Snapshot` the theorem that the finished image, read back along any path, is the
source tree. `ExtentTree` and `GuestStat` are the extent-mapped reader of the same file. `Sha256`
proves the streaming hash against FIPS 180-4, `Manifest` that the canonical JSON identifies the
tree, and `SnapshotManifest`, with the two orders of `CodeUnits`, when the host prints the same one.

**The launch specs.** `JsonScanner` and `LaunchSpec` are the helper's hand-written parser,
`JsonDocument` the JSON grammar it is proved on, `HelperLaunchSpec` the printer and the round trip
on strings of bytes, `HelperLaunchWire` the same from Unicode strings (`ByteText`).
`Cbor` is the guest's decoder, `CborDocument` the encoded items of RFC 8949, `WorkloadSpec` the
host's deterministic encoder and the round trip. `Base64Url` holds the two decoders, which are
built differently.

**The channel and the descriptors.** `ControlChannel` is the brace-matching frame extraction of the
ready handshake, read through the UTF-8 decoder of `Utf8`; `FdTable` is the descriptor table
through pipe, dup, file actions, exec and mass close.

**Schedulers and state machines.** `Planner`, `RateLimiter`, `Telemetry` and `TelemetryBuffer`,
`WorkerPool`, `EmbeddingIndex`, `SandboxSession`, `HostPath`, `McpFraming`, `CommandSpecs`. A
concurrent worker takes its steps one at a time, in an order given by an arbitrary schedule.

## What the proofs found

Where the code and its documentation or its limits disagree, the model follows the code.

- The inode table has room for 246 entries besides the root, but 512 entries are admitted. Inode
  257 is written over the root directory block. `Snapshot.Build` and
  `SealedImage.SlotBeyondTable` prove that the image is well formed if and only if at most 246
  entries were collected.
- When the records of a directory end four bytes before the end of the block, the scan for the last
  record reads two bytes past it. The model has a separate outcome for that
  (`DirBlock.FindLast`); it is not an image.
- Inodes carry no extents flag, so the stat reader of the same file refuses every image this
  writer makes (`GuestStat.SealedImageIsRefused`). The image theorem reads with direct pointers, as
  the comment at `vm-image-builder.c:1285-1291` says the guest kernel does.
- The comment on `buf_jsonstr` promises the bytes of `JSON.stringify`, which has short escapes for
  five control characters; the code has none. `JsonText.PrintersAgree` is the exact condition.
- The host normalizes the paths in its manifest, the image builder prints the bytes on disk. The two
  sides of the digest comparison print the same manifest if and only if every path is in
  normalization form C and shorter than 4096 bytes, no two paths fold to the same key, no path has
  a character with a short escape, and no two paths are ordered differently by UTF-8 and UTF-16
  (`SnapshotManifest.ManifestsAgree`, `SnapshotManifest.DecomposedNameDiffers`).
- Relative paths of 4096 bytes or more are cut by `snprintf`, and the block count of a file wraps at
  2^42 bytes, so that some larger files are emitted in part. The image is the tree if and only if
  there are none of either (`Snapshot.ImageIsTreeExactly`, `SealedImage.WholeExactly`).
- `parse_u64` returns the value if and only if it is below 2^64 (`JsonScanner.AccumulatedIsExact`);
  some larger numbers come back as others, but the range checks behind it are exact all the same
  (`JsonScanner.RangeCheckIsExact`).
- The helper refuses the `\u00XX` escapes that the builder prints for control characters without a
  short escape, and limits cpus, memory and environment entries that the builder does not check.
  `HelperLaunchSpec.RoundTrip` says exactly when a spec comes back.
- Exactly the extents that end at 2^32 or later are lost to a 32-bit sum
  (`ExtentTree.ResolveIsMap`, `ExtentTree.LastBlockIsLost`).
- The two base64url decoders disagree on padding inside the text, on more than two padding
  characters, on the empty input and beyond the guest's bound; `Base64Url.DecodersAgree` is the
  exact condition on all inputs.
- Every chunk of the control channel is decoded on its own (`engine.ts:1206-1207`), so a chunk that
  ends inside a multi-byte character, or inside the start of a broken one, changes the text. The
  handshake is independent of the cuts when no chunk does (`ControlChannel.WaitForReady`,
  `Utf8.SeenIsDecoded`), and can fail otherwise (`ControlChannel.CutChangesVerdict`).
- Descriptors 1 to 7 of the helper are right if and only if at least two of the parent's descriptors
  0 to 6 are open when it starts (`FdTable.Start`).
- The rate limit holds on minutes without their end; a request exactly 60 seconds after another is
  no longer counted with it. `RateLimiter.ClosedMinutesExactly` says when minutes with both ends
  keep it as well.
- A caller whose limit was lowered can be refused after waiting as told
  (`RateLimiter.LoweredLimitRefusesAgain`); `RateLimiter.WaitingExactly` is the exact condition.
- Repeated telemetry events overwrite each other, so their order shows: in a run through its last
  events (`Telemetry.RunsAgreeExactly`), in the status through terminal events of different outcomes
  (`Telemetry.StatusAgreesExactly`).
- A control frame that is the text `null` makes the frame handler throw; it is an outcome of its own.
- The guest's CBOR decoder accepts trailing bytes, steps over unknown strings without a bounds
  check, adds up the counts when a list key is repeated, and takes a container of 2^63 elements for
  an empty one because its doubled count wraps.

## Model

| member | source | states |
|---|---|---|
| `Snapshot.ImageIsTreeExactly` | packages/sandbox-vm-native/src/vm-image-builder.c:1211-1309 | a well-formed image of a built table shows, for every path, exactly what the source tree shows there, if and only if every path of the tree is shorter than the 4096 bytes it is printed into and every file at most twelve blocks |
| `Snapshot.BuiltImageIsTree` | packages/sandbox-vm-native/src/vm-image-builder.c:1211-1309 | when the paths fit, following the directory blocks of the finished image from inode 2 along any path and then the direct pointers gives the file with its bytes, the directory, nothing there, or a path that runs through a file, as in the tree, exactly when no file of more than twelve blocks is there |
| `Snapshot.CutPathIsNotShown` | packages/sandbox-vm-native/src/vm-image-builder.c:523-525 | a path of 4096 bytes or more, which snprintf cuts, does not show its node in the image |
| `Snapshot.TableDescribesExactly` | packages/sandbox-vm-native/src/vm-image-builder.c:1241-1241 | the sorted table is a description of the tree if and only if every path is shorter than 4096 bytes |
| `Snapshot.Build` | packages/sandbox-vm-native/src/vm-image-builder.c:1211-1309 | for every tree, the build yields an image exactly when the depth, the number of entries, every directory block and the block count of every file, in 32 bits, are within the limits; the image is a well-formed one if and only if at most 246 entries besides the root were collected |
| `Snapshot.Collect` | packages/sandbox-vm-native/src/vm-image-builder.c:1222-1226 | for every tree, collecting succeeds exactly up to depth 32 and 512 entries with the root, and then holds the whole tree in visiting order, with the paths as snprintf prints them |
| `Snapshot.TableDescribes` | packages/sandbox-vm-native/src/vm-image-builder.c:1241-1241 | when the paths fit, every entry is what its path reaches, every reachable path has its entry, the root has inode 2 |
| `Snapshot.InodesFitExactly` | packages/sandbox-vm-native/src/vm-image-builder.c:418-428 | all inode numbers lie inside the 256-slot table if and only if there are at most 246 entries besides the root, fewer than the 512 the table of entries takes |
| `Snapshot.EntryBeyondTable` | packages/sandbox-vm-native/src/vm-image-builder.c:211-220 | with more entries than that, some entry has inode 257, one slot beyond the table |
| `Snapshot.RootIsFirst` | packages/sandbox-vm-native/src/vm-image-builder.c:448-455 | after sorting the root comes first, so its directory block is the first data block |
| `Snapshot.TableIsValid` | packages/sandbox-vm-native/src/vm-image-builder.c:423-438 | no inode number, name or parent number in the table overflows the directory-entry fields |
| `SealedImage.Writer.EmitAll` | packages/sandbox-vm-native/src/vm-image-builder.c:1254-1267 | the emit loop completes exactly when every entry fits its format, block counts taken in 32 bits, and then the data area is the payloads of all entries in table order with nothing between them |
| `SealedImage.Writer.EmitDirectory` | packages/sandbox-vm-native/src/vm-image-builder.c:702-705 | a directory succeeds, fails, or reads past its block exactly as its block content says, and a success appends that block and records its number |
| `SealedImage.Writer.EmitFile` | packages/sandbox-vm-native/src/vm-image-builder.c:708-732 | a file succeeds exactly when its 32-bit block count is at most 12, and then its padded content, or what of it the counted blocks hold, is appended and its blocks recorded |
| `SealedImage.WholeExactly` | packages/sandbox-vm-native/src/vm-image-builder.c:709-711 | of the files that are emitted, those below 2^42 - 1023 bytes are emitted whole, and no others |
| `SealedImage.WrappedFileIsEmitted` | packages/sandbox-vm-native/src/vm-image-builder.c:709-711 | a file of 2^42 bytes is emitted as one block, its count having wrapped to none |
| `SealedImage.Writer.WriteBlocks` | packages/sandbox-vm-native/src/vm-image-builder.c:715-728 | the block loop writes the content followed by zeros, as far as the counted blocks go, in consecutive blocks whose numbers are recorded in file order |
| `SealedImage.Writer.AllocBlock` | packages/sandbox-vm-native/src/vm-image-builder.c:294-298 | each allocation hands out the cursor and advances it by one block |
| `SealedImage.Writer.XWriteAt` | packages/sandbox-vm-native/src/vm-image-builder.c:273-282 | a write replaces the bytes at its offset and no others, growing the image with zeros up to it |
| `SealedImage.Writer.CountSubdirs` | packages/sandbox-vm-native/src/vm-image-builder.c:1244-1252 | the count is the number of directories among the direct children |
| `SealedImage.Writer.InodeBuffer` | packages/sandbox-vm-native/src/vm-image-builder.c:1275-1294 | the inode buffer carries mode, size, link count, sector count and every block pointer of its entry |
| `SealedImage.Writer.WriteInodes` | packages/sandbox-vm-native/src/vm-image-builder.c:1273-1298 | when all numbers fit, every slot holds its own inode and the data area is unchanged; even when they do not, every entry ends in its own slot |
| `SealedImage.Writer.WriteMetadata` | packages/sandbox-vm-native/src/vm-image-builder.c:1300-1309 | bitmaps, group descriptor and superblock are written at their four places and nothing else changes: a written table becomes a well-formed image and no inode slot is disturbed |
| `SealedImage.SlotsAreDisjoint` | packages/sandbox-vm-native/src/vm-image-builder.c:357-360 | inode slots lie between the metadata and the data area and never overlap one another |
| `SealedImage.SlotWriteKeepsData` | packages/sandbox-vm-native/src/vm-image-builder.c:357-360 | writing any inode of the table leaves every data byte as it was |
| `SealedImage.MetadataWriteKeepsTable` | packages/sandbox-vm-native/src/vm-image-builder.c:300-355 | a write below the inode table leaves inodes and data as they were |
| `SealedImage.SlotBeyondTable` | packages/sandbox-vm-native/src/vm-image-builder.c:357-360 | an entry with inode 257 has overwritten the root directory block, so such an image is not well formed |
| `SealedImage.EmittedOneMore` | packages/sandbox-vm-native/src/vm-image-builder.c:1254-1267 | what the emit loop keeps: one more payload at the cursor extends the data area by exactly that payload |
| `SealedImage.FileStep` | packages/sandbox-vm-native/src/vm-image-builder.c:715-728 | what the block loop keeps: after each block the written bytes are the first blocks of the padded content |
| `SourceTree.Walker.NewEntry` | packages/sandbox-vm-native/src/vm-image-builder.c:423-438 | an entry is added exactly while there is room, numbered from 11 upwards, the root alone getting 2 |
| `SourceTree.Walker.Walk` | packages/sandbox-vm-native/src/vm-image-builder.c:499-551 | the recursive walk succeeds exactly when depth and entry limits allow, and then appends every node below the directory once, numbered consecutively, each under its path cut to the buffer |
| `SourceTree.RelIsCut` | packages/sandbox-vm-native/src/vm-image-builder.c:523-525 | cut name by name or once at the end, the text of a path is the same: the joined path, or its first 4095 bytes |
| `SourceTree.RelIsShort` | packages/sandbox-vm-native/src/vm-image-builder.c:523-525 | whatever is cut, the text stays below 4096 bytes, its last name below 256, and only the root has an empty one |
| `SourceTree.Walker.Visit` | packages/sandbox-vm-native/src/vm-image-builder.c:523-548 | one visited name contributes itself and, if a directory, all below it |
| `SourceTree.ListedIsReached` | packages/sandbox-vm-native/src/vm-image-builder.c:499-551 | everything the walk lists is reached in the tree by its own path |
| `SourceTree.ReachedIsListed` | packages/sandbox-vm-native/src/vm-image-builder.c:499-551 | everything a path reaches is listed under that path |
| `SourceTree.ListingIsDistinct` | packages/sandbox-vm-native/src/vm-image-builder.c:499-551 | no path is listed twice |
| `SourceTree.ResolveOneMore` | packages/sandbox-vm-native/src/vm-image-builder.c:614-630 | following a longer path is following the shorter one and then one more name |
| `SourceTree.JoinedPath` | packages/sandbox-vm-native/src/vm-image-builder.c:609-612 | the joined text of a path has its last name as base name, the joined text of the rest as parent, and is a direct child of exactly that directory |
| `SourceTree.CollectChildren` | packages/sandbox-vm-native/src/vm-image-builder.c:614-630 | the loop collects the direct children in table order, cut at the cap |
| `SourceTree.ChildrenOfMembers` | packages/sandbox-vm-native/src/vm-image-builder.c:614-630 | an entry is collected if and only if it is in the table and its path is the directory followed by one name |
| `SourceTree.InodeOfEntry` | packages/sandbox-vm-native/src/vm-image-builder.c:602-607 | the first match for the path of an entry is that entry |
| `DirBlock.WrittenBlockIsRead` | packages/sandbox-vm-native/src/vm-image-builder.c:634-706 | scanning a written directory block finds every child under its name, the directory under ".", the parent under "..", and nothing under any other name |
| `DirBlock.WriteDirectoryBlock` | packages/sandbox-vm-native/src/vm-image-builder.c:636-700 | the block built in place is the encoding of dots and children with the last record stretched to the end, or an overflow, or the one case where the scan for the last record runs past the block |
| `DirBlock.FindLast` | packages/sandbox-vm-native/src/vm-image-builder.c:689-695 | the scan finds where the last record starts; it reads past the block exactly when the records end four bytes before its end |
| `DirBlock.StretchLast` | packages/sandbox-vm-native/src/vm-image-builder.c:687-700 | only the length field of the last record changes, so that the record lengths fill the block |
| `DirBlock.StretchedIsWellFormed` | packages/sandbox-vm-native/src/vm-image-builder.c:687-700 | after stretching, the record lengths sum to the block size and every record is still well formed |
| `DirBlock.ScanBlock` | packages/sandbox-vm-native/src/vm-image-builder.c:968-988 | the scan loop returns the first live match, nothing, or a malformed record, and stays inside any buffer |
| `DirBlock.ScanOfEncoded` | packages/sandbox-vm-native/src/vm-image-builder.c:968-988 | on any run of well-formed records the scan is the search through the records |
| `DirBlock.ChildCapNeverDrops` | packages/sandbox-vm-native/src/vm-image-builder.c:632-678 | the cap of 256 children never hides one: from 126 children on, whatever their names, the block has overflowed |
| `DirBlock.FoundIsAChild` | packages/sandbox-vm-native/src/vm-image-builder.c:968-988 | whatever the children are called, what a lookup finds is a child of that name |
| `DirBlock.WrittenStartsWithSelf` | packages/sandbox-vm-native/src/vm-image-builder.c:640-649 | the first four bytes of a directory block are its own inode number |
| `ImageTheorem.SealedImageIsTree` | packages/sandbox-vm-native/src/vm-image-builder.c:839-886 | for any well-formed image of a table that describes a tree, reading a path gives what the tree has there exactly when that is not a file of more than twelve blocks |
| `ImageTheorem.GeometryIsRead` | packages/sandbox-vm-native/src/vm-image-builder.c:839-856 | the reader finds in the superblock the geometry the writer used |
| `ImageTheorem.InodeIsRead` | packages/sandbox-vm-native/src/vm-image-builder.c:859-886 | reading an entry's inode number gives back the mode, size, flags and pointers written for it |
| `ImageTheorem.PayloadIsRead` | packages/sandbox-vm-native/src/vm-image-builder.c:1254-1267 | the blocks of an entry hold exactly its payload |
| `ImageTheorem.DirectBlockIsRead` | packages/sandbox-vm-native/src/vm-image-builder.c:1285-1293 | the k-th direct pointer of an entry leads to the k-th block of its payload |
| `ImageTheorem.LookupIsRead` | packages/sandbox-vm-native/src/vm-image-builder.c:952-990 | one lookup step in the image is one step in the tree: the child's inode, absent, or not a directory |
| `ImageTheorem.FollowIsResolve` | packages/sandbox-vm-native/src/vm-image-builder.c:1002-1016 | following any list of names from any entry agrees with following it in the tree |
| `ImageTheorem.FollowSpells` | packages/sandbox-vm-native/src/vm-image-builder.c:1002-1016 | in the image of any table, whatever a path reaches is an entry whose text spells that path out |
| `ImageTheorem.FileIsRead` | packages/sandbox-vm-native/src/vm-image-builder.c:1281-1293 | reading the direct blocks of a file of at most twelve blocks up to its size gives its bytes, with no zero tail |
| `ImageTheorem.ViewIsEntry` | packages/sandbox-vm-native/src/vm-image-builder.c:1019-1031 | the inode of an entry shows a directory, or a file with the entry's content exactly when that is at most twelve blocks |
| `Paths.JoinIsInjective` | packages/sandbox-vm-native/src/vm-image-builder.c:523-525 | different lists of names have different joined texts |
| `ExtentTree.ResolveIsMap` | packages/sandbox-vm-native/src/vm-image-builder.c:894-944 | for every stored ordered tree of bounded depth and every logical block, the walk returns a block exactly when an extent that ends below 2^32 gives it and it is in range; otherwise it dies |
| `ExtentTree.ReachesIsMapped` | packages/sandbox-vm-native/src/vm-image-builder.c:911-915 | what the walk reaches is on the map of the tree, and below block 2^32 all of the map is reached |
| `ExtentTree.HitIsCovered` | packages/sandbox-vm-native/src/vm-image-builder.c:911-915 | the 32-bit comparison of one extent holds exactly when the extent covers the block and ends below 2^32 |
| `ExtentTree.ExtentResolve` | packages/sandbox-vm-native/src/vm-image-builder.c:894-944 | the recursive reader over buffers is the function over node bytes: same answer, same failures |
| `ExtentTree.SearchLeaf` | packages/sandbox-vm-native/src/vm-image-builder.c:907-923 | the leaf loop returns the block of the first extent that holds the logical block |
| `ExtentTree.SearchIndex` | packages/sandbox-vm-native/src/vm-image-builder.c:925-943 | the index loop returns the child under the last key not above the logical block |
| `ExtentTree.LeafFromIsMap` | packages/sandbox-vm-native/src/vm-image-builder.c:907-923 | in a sorted leaf, an answer is given if and only if some extent that ends below 2^32 covers the block |
| `ExtentTree.IndexFromChooses` | packages/sandbox-vm-native/src/vm-image-builder.c:925-943 | the chosen child is the one whose key range holds the block; none is chosen exactly when the block is below every key |
| `ExtentTree.MapsIsFunctional` | packages/sandbox-vm-native/src/vm-image-builder.c:930-931 | an ordered tree maps a logical block to at most one physical block |
| `ExtentTree.LastBlockIsLost` | packages/sandbox-vm-native/src/vm-image-builder.c:911-915 | the extents that are lost can be stored: one that ends at 2^32 covers block 2^32-1, yet the 32-bit sum wraps and the walk dies |
| `GuestStat.StatOfPath` | packages/sandbox-vm-native/src/vm-image-builder.c:997-1032 | for an image whose directories are extent-mapped, stat of an absolute path answers with the kind of the node the tree has there, or no entry, and dies through a file |
| `GuestStat.StatIsTree` | packages/sandbox-vm-native/src/vm-image-builder.c:1005-1016 | the same from any inode and for any remaining names, up to 64 components in all |
| `GuestStat.StatGuest` | packages/sandbox-vm-native/src/vm-image-builder.c:997-1032 | the pointer-walking loop is component by component resolution; slashes are collapsed and the limits applied in the code's order |
| `GuestStat.FolderLookup` | packages/sandbox-vm-native/src/vm-image-builder.c:952-990 | looking a name up through the extent tree and the first block finds what the directory's records hold |
| `GuestStat.SealedImageIsRefused` | packages/sandbox-vm-native/src/vm-image-builder.c:960-961 | the stat reader dies on every image the snapshot writer makes, since its inodes carry no extents flag |
| `Paths.ComponentsOfConcat` | packages/sandbox-vm-native/src/vm-image-builder.c:1005-1011 | splitting at slashes distributes over a slash between two texts |
| `Paths.ComponentsOfJoin` | packages/sandbox-vm-native/src/vm-image-builder.c:1005-1011 | splitting a joined path, with or without a leading slash, gives its names back |
| `Sha256.HashChunks` | packages/sandbox-vm-native/src/vm-image-builder.c:131-167 | for every message and every way to cut it into update calls, the digest is the one of FIPS 180-4 |
| `Sha256.Context.constructor` | packages/sandbox-vm-native/src/vm-image-builder.c:101-105 | a new context stands for the empty message |
| `Sha256.Context.Update` | packages/sandbox-vm-native/src/vm-image-builder.c:131-141 | an update appends its bytes to the message the context stands for |
| `Sha256.Context.Final` | packages/sandbox-vm-native/src/vm-image-builder.c:143-167 | finishing yields the digest of the message absorbed, in both padding cases |
| `Sha256.Context.Transform` | packages/sandbox-vm-native/src/vm-image-builder.c:107-129 | the in-place schedule and 64 rounds compute the compression of section 6.2.2 |
| `Sha256.Context.WriteLength` | packages/sandbox-vm-native/src/vm-image-builder.c:152-160 | the eight stores put the length big-endian in the last eight bytes |
| `Sha256.Context.WriteDigest` | packages/sandbox-vm-native/src/vm-image-builder.c:162-166 | the transposed loops write the eight words big-endian in order |
| `Sha256.PaddedInOneBlock` | packages/sandbox-vm-native/src/vm-image-builder.c:146-147 | with fewer than 56 bytes pending, the padded message ends with the one block compressed |
| `Sha256.PaddedInTwoBlocks` | packages/sandbox-vm-native/src/vm-image-builder.c:148-152 | with 56 or more pending, it ends with the two blocks compressed |
| `Sha256.ZeroCountIsLeast` | packages/sandbox-vm-native/src/vm-image-builder.c:146-152 | the zero padding is the least solution of the congruence in section 5.1.1 |
| `Sha256.LengthFieldIsExact` | packages/sandbox-vm-native/src/vm-image-builder.c:153-161 | below 2^61 bytes the length field is the length in bits, with no wrap |
| `Sha256.ConstantsAreCubeRoots` | packages/sandbox-vm-native/src/vm-image-builder.c:88-97 | each of the 64 constants is the fraction of the cube root of its prime, as section 4.2.2 defines them |
| `Manifest.ManifestIdentifiesTree` | packages/sandbox-vm-native/src/vm-image-builder.c:558-586 | two sets of entries print the same manifest if and only if they have the same entries besides the root |
| `Manifest.OrderIndependent` | packages/sandbox-vm-native/src/vm-image-builder.c:562-586 | the manifest is the same for every order in which the entries were met |
| `Manifest.Injective` | packages/sandbox-vm-native/src/vm-image-builder.c:568-586 | whatever the entries, equal manifests come from equal entries |
| `Manifest.ManifestJson` | packages/sandbox-vm-native/src/vm-image-builder.c:562-586 | the buffer loop prints the entries without the root, sorted by path, as one JSON array |
| `Manifest.ItemJson` | packages/sandbox-vm-native/src/vm-image-builder.c:571-584 | one entry prints as its four fields, the hash for files only |
| `Manifest.JsonString` | packages/sandbox-vm-native/src/vm-image-builder.c:379-395 | the escaping loop prints a quoted string with only \u00XX escapes for control characters |
| `SnapshotManifest.ManifestsAgree` | packages/sandbox/src/snapshot.ts:27-90 | the host has a manifest for a tree and its bytes are those the image builder prints if and only if every path is in normalization form C and shorter than 4096 bytes, no two paths fold to the same key, no path has a control character with a short escape, and no two paths are ordered differently by UTF-8 and by UTF-16 |
| `SnapshotManifest.DecomposedNameDiffers` | packages/sandbox/src/snapshot.ts:27-29 | one file with a decomposed name and nothing else amiss: the two manifests differ |
| `SnapshotManifest.CanonicalText` | packages/sandbox/src/snapshot.ts:75-90 | the host prints the sorted entries, normalization applied before, and throws exactly when two different paths fold to the same key |
| `SnapshotManifest.FindCollision` | packages/sandbox/src/snapshot.ts:81-88 | the loop with its map of seen keys finds a collision exactly when there is one |
| `SnapshotManifest.SameListsFit` | packages/sandbox-vm-native/src/vm-image-builder.c:523-525 | if the builder's sorted list, its paths cut to the buffer, is the host's sorted list of normalized paths, then none was cut |
| `SnapshotManifest.SameSort` | packages/sandbox/src/snapshot.ts:75-79 | sorting paths by UTF-16 units and by UTF-8 bytes gives the same list if and only if no pair of paths is crossed |
| `SnapshotManifest.CrossItem` | packages/sandbox/src/snapshot.ts:90-90 | an entry as the builder prints it is one as the host prints it only if they are the same entry and its path has no short escape, whatever follows |
| `CodeUnits.OrdersAgree` | packages/sandbox/src/snapshot.ts:79-79 | code-unit order and strcmp of the UTF-8 bytes agree on two texts if and only if their first difference is not between a character beyond U+FFFF and one from U+E000 to U+FFFF |
| `CodeUnits.EncodedOrder` | packages/sandbox-vm-native/src/vm-image-builder.c:440-446 | UTF-8 keeps the order of the characters |
| `CodeUnits.UnitOrder` | packages/sandbox/src/snapshot.ts:79-79 | UTF-16 units keep the order in which surrogates come before U+E000 |
| `JsonText.PrintersAgree` | packages/sandbox-vm-native/src/vm-image-builder.c:378-395 | its output is that of JSON.stringify if and only if none of the five characters with a short escape occurs |
| `JsonText.PlainStringIsDetermined` | packages/sandbox-vm-native/src/vm-image-builder.c:379-395 | a printed string can be told apart from what follows it, and determines the string |
| `Decimal.NumeralIsDetermined` | packages/sandbox-vm-native/src/vm-image-builder.c:578-579 | so does a printed number before a non-digit |
| `Decimal.ValueOfNumeral` | packages/sandbox-vm-native/src/vm-image-builder.c:578-579 | the value of a printed number is the number |
| `Sorting.SortBySorts` | packages/sandbox-vm-native/src/vm-image-builder.c:566-566 | sorting gives a sorted permutation |
| `Sorting.SortedPermutationIsUnique` | packages/sandbox-vm-native/src/vm-image-builder.c:440-455 | with distinct keys there is only one sorted permutation, so any qsort gives it |
| `Sorting.StrCmpIsAnOrder` | packages/sandbox-vm-native/src/vm-image-builder.c:442-446 | strcmp is antisymmetric and zero exactly on equal texts |
| `Base64Url.BothInvertEncode` | packages/sandbox-vm-native/src/vm-init.c:192-237 | both decoders return the bytes from their unpadded or padded RFC 4648 section 5 encoding, the guest's within its input bound |
| `Base64Url.DecodersAgree` | packages/sandbox-vm-native/src/vm-helper.c:335-358 | for every input: within the guest's bound the two decoders give the same answer if and only if it is not empty and padding occurs only as at most two characters at the end or there is a foreign character; beyond the bound if and only if the helper refuses too |
| `Base64Url.QuadTextRefuses` | packages/sandbox-vm-native/src/vm-init.c:221-230 | the guest's decoder refuses a text exactly for a foreign character |
| `Base64Url.AccumulatedRefuses` | packages/sandbox-vm-native/src/vm-helper.c:335-358 | the helper's decoder dies exactly on misplaced or more than two padding characters or a foreign character |
| `Base64Url.DecodersDiffer` | packages/sandbox-vm-native/src/vm-helper.c:335-338 | three padding characters, or padding in the middle, are refused by the helper and accepted by the guest |
| `Base64Url.DecodeAccumulating` | packages/sandbox-vm-native/src/vm-helper.c:300-359 | the helper's decoder with its 32-bit accumulator returns the octets of the text, or dies on bad padding or a foreign byte |
| `Base64Url.Accumulate` | packages/sandbox-vm-native/src/vm-helper.c:344-358 | shifting six bits in and eight out, with wrap-around, loses no pending bit and stays within the allocation |
| `Base64Url.DecodeQuads` | packages/sandbox-vm-native/src/vm-init.c:192-237 | the guest's decoder returns the octets group by group, restarting after inner padding, or refuses |
| `Base64Url.DecodeGroups` | packages/sandbox-vm-native/src/vm-init.c:220-236 | its loop writes exactly the octets of the groups and stays within the allocation |
| `Base64Url.ReadGroup` | packages/sandbox-vm-native/src/vm-init.c:221-230 | one group is at most four alphabet characters up to padding, or a refusal |
| `Base64Url.WriteOctets` | packages/sandbox-vm-native/src/vm-init.c:231-233 | the three guarded stores write the complete octets of the group |
| `Base64Url.OctetsInvertEncode` | packages/sandbox-vm-native/src/helper-launch-spec.ts:60-60 | regrouping sextets into octets undoes the encoder |
| `Base64Url.QuadTextWithoutPadding` | packages/sandbox-vm-native/src/vm-init.c:220-236 | without padding inside, group-wise decoding is decoding the whole |
| `HelperLaunchSpec.RoundTrip` | packages/sandbox-vm-native/src/vm-helper.c:543-629 | parsing the JSON printed for a spec the builder accepts gives that spec back exactly when it is within the helper's limits and free of control characters without short escapes, and dies otherwise |
| `HelperLaunchSpec.TokenIsReceived` | packages/sandbox-vm-native/src/vm-helper.c:681-698 | the same through base64url and the helper's length limit, for strings of bytes |
| `HelperLaunchWire.SpecIsReceived` | packages/sandbox-vm-native/src/vm-helper.c:681-698 | from Unicode strings: every spec the builder accepts reaches the helper, through JSON, UTF-8 and base64url, with the bytes of its strings, exactly when it is within the helper's limits, and dies otherwise |
| `HelperLaunchWire.TextOnWire` | packages/sandbox-vm-native/src/helper-launch-spec.ts:48-60 | the UTF-8 bytes of the printed spec are the printed spec of the UTF-8 bytes |
| `HelperLaunchWire.OnWireIsInjective` | packages/sandbox-vm-native/src/helper-launch-spec.ts:60-60 | different specs have different bytes |
| `ByteText.StringifiedInUtf8` | packages/sandbox-vm-native/src/helper-launch-spec.ts:60-60 | escaping a string and encoding it may be done in either order |
| `HelperLaunchSpec.MembersArePrinted` | packages/sandbox-vm-native/src/helper-launch-spec.ts:48-60 | what JSON.stringify prints is a document in the grammar the parser is proved on |
| `HelperLaunchSpec.UnitsOfString` | packages/sandbox-vm-native/src/helper-launch-spec.ts:60-60 | a stringified string is read back as itself exactly when it has no control character without a short escape |
| `HelperLaunchSpec.NoneFatalMeans` | packages/sandbox-vm-native/src/vm-helper.c:553-588 | the helper's per-field limits are what the builder leaves unchecked: cpus, memory, environment entries, odd characters |
| `LaunchSpec.ParseLaunchSpec` | packages/sandbox-vm-native/src/vm-helper.c:543-629 | the parser with its cursor is the function from text to spec, failing on the same texts |
| `LaunchSpec.DocumentIsParsed` | packages/sandbox-vm-native/src/vm-helper.c:543-629 | every well-formed object with a field, with any white space, order, repetition and unknown fields, is parsed to what its fields say, or dies exactly when they do not make a spec |
| `LaunchSpec.FieldsAreParsed` | packages/sandbox-vm-native/src/vm-helper.c:552-589 | the field loop applies the fields from left to right |
| `LaunchSpec.NumberIsParsed` | packages/sandbox-vm-native/src/vm-helper.c:561-574 | a number field is taken exactly when it is digits with a value from 1 to its limit, whatever its length |
| `LaunchSpec.ItemsAreParsed` | packages/sandbox-vm-native/src/vm-helper.c:512-541 | a list is taken exactly when all its items are good and the total stays within its cap |
| `LaunchSpec.ForeignIsIgnored` | packages/sandbox-vm-native/src/vm-helper.c:581-583 | an unknown readable field anywhere in the object changes nothing |
| `LaunchSpec.OrderDoesNotMatter` | packages/sandbox-vm-native/src/vm-helper.c:552-589 | with distinct keys the order of the fields does not change the result, failures included |
| `LaunchSpec.ReadFields` | packages/sandbox-vm-native/src/vm-helper.c:550-591 | the loop over keys consumes exactly one object and fills the draft with its fields |
| `LaunchSpec.ReadField` | packages/sandbox-vm-native/src/vm-helper.c:555-583 | the key chain dispatches each known field to its own parser and limit |
| `LaunchSpec.ReadList` | packages/sandbox-vm-native/src/vm-helper.c:512-541 | the two list parsers differ only in the empty list, the cap and the entry check |
| `LaunchSpec.ReadItems` | packages/sandbox-vm-native/src/vm-helper.c:515-540 | the item loop collects strings until the bracket |
| `JsonScanner.Scanner.ParseStringDup` | packages/sandbox-vm-native/src/vm-helper.c:389-443 | the string reader returns the unescaped text and the rest after the quote, or dies |
| `JsonScanner.Scanner.TakeUnit` | packages/sandbox-vm-native/src/vm-helper.c:395-430 | one character or escape is consumed with its meaning |
| `JsonScanner.Scanner.ParseUnsigned` | packages/sandbox-vm-native/src/vm-helper.c:446-458 | the digit loop with its wrap test returns the accumulated number |
| `JsonScanner.Scanner.SkipAnyValue` | packages/sandbox-vm-native/src/vm-helper.c:489-509 | the skipper consumes one value and terminates on every text |
| `JsonScanner.Scanner.SkipObjectValue` | packages/sandbox-vm-native/src/vm-helper.c:462-475 | likewise for an object |
| `JsonScanner.Scanner.SkipArrayValue` | packages/sandbox-vm-native/src/vm-helper.c:477-487 | likewise for an array |
| `JsonScanner.Scanner.TakeNumber` | packages/sandbox-vm-native/src/vm-helper.c:503-507 | a number is skipped over the characters strchr finds, the NUL character among them |
| `JsonScanner.Scanner.SkipWs` | packages/sandbox-vm-native/src/vm-helper.c:370-374 | the cursor moves past the white space and no further |
| `JsonScanner.Scanner.ExpectChar` | packages/sandbox-vm-native/src/vm-helper.c:378-383 | exactly the expected character after white space is consumed |
| `JsonScanner.RangeCheckIsExact` | packages/sandbox-vm-native/src/vm-helper.c:561-574 | with a limit of at most 32 bits, accepting after the wrap test is exactly the value being within the limit, for any number of digits |
| `JsonScanner.AccumulatedIsExact` | packages/sandbox-vm-native/src/vm-helper.c:450-456 | for any number of digits, the accumulated number is the value if and only if the value is below 2^64 |
| `JsonScanner.TwentyDigitsCanWrap` | packages/sandbox-vm-native/src/vm-helper.c:452-453 | a number that is not: 5 followed by 19 zeros is not refused and comes back as another one |
| `JsonDocument.ValueIsSkipped` | packages/sandbox-vm-native/src/vm-helper.c:489-509 | on the text of any well-formed value the skipper consumes exactly that value, and dies exactly when a string in it is one the reader refuses |
| `JsonDocument.MembersAreSkipped` | packages/sandbox-vm-native/src/vm-helper.c:462-475 | likewise for the members of an object up to its brace |
| `JsonDocument.ItemsAreSkipped` | packages/sandbox-vm-native/src/vm-helper.c:477-487 | likewise for the items of an array up to its bracket |
| `JsonDocument.StringIsRead` | packages/sandbox-vm-native/src/vm-helper.c:389-443 | on the text of any string of RFC 8259 section 7 the reader returns its meaning when every escape is admitted, and dies otherwise |
| `JsonDocument.BodyIsRead` | packages/sandbox-vm-native/src/vm-helper.c:394-442 | the same for the characters up to the closing quote |
| `WorkloadSpec.SpecIsReceived` | packages/sandbox-vm-native/src/vm-init.c:694-704 | a spec the host encodes is decoded by the guest to the same spec, the allowed executables in key order, exactly when it is within the guest's limits, and refused otherwise |
| `WorkloadSpec.CanonicalIsDecoded` | packages/sandbox-vm-native/src/vm-init.c:344-444 | the same for the canonical CBOR before base64url |
| `WorkloadSpec.OrderIsDeterministic` | packages/sandbox/src/vm/launch-spec.ts:95-100 | sorting keys by length and then bytes is sorting by encoded key, the deterministic order of RFC 8949 section 4.2.1 |
| `WorkloadSpec.FieldsMean` | packages/sandbox/src/vm/launch-spec.ts:121-128 | the six fields, in their order, mean the spec to the guest exactly within its limits |
| `WorkloadSpec.ArgvFitsInCbor` | packages/sandbox-vm-native/src/vm-init.c:383-383 | the arguments with their terminators are never longer than the encoded spec, so the guest's total limit cannot refuse what the host sent |
| `WorkloadSpec.EnvShapesAgree` | packages/sandbox-vm-native/src/vm-init.c:320-326 | what the host's pattern accepts as an environment entry the guest accepts |
| `CborDocument.DocumentIsDecoded` | packages/sandbox-vm-native/src/vm-init.c:344-444 | every encoding of a map of fields, each head in any width RFC 8949 section 3 allows, and with trailing bytes, is decoded to what its fields say, or refused |
| `CborDocument.OrderDoesNotMatter` | packages/sandbox-vm-native/src/vm-init.c:352-437 | with distinct keys the order of the fields does not change the result |
| `CborDocument.UnknownIsIgnored` | packages/sandbox-vm-native/src/vm-init.c:418-435 | an unknown scalar, string or empty container anywhere changes nothing |
| `CborDocument.FieldIsRead` | packages/sandbox-vm-native/src/vm-init.c:361-435 | one field, its item in any encoding, is consumed whole and has its effect, or the decode fails |
| `CborDocument.ItemIsSkipped` | packages/sandbox-vm-native/src/vm-init.c:419-435 | the skipper consumes exactly one unknown value in any encoding, or refuses a container that is not empty |
| `CborDocument.TextsAreRead` | packages/sandbox-vm-native/src/vm-init.c:377-382 | an array of texts in any encoding is read as those texts exactly when each is short enough, NUL-free and, for the environment, an entry |
| `CborDocument.PairsAreRead` | packages/sandbox-vm-native/src/vm-init.c:411-417 | a map of texts in any encoding is read as its pairs exactly when names and paths are good and every path absolute |
| `CborDocument.DocumentBytes` | packages/sandbox/src/vm/launch-spec.ts:95-128 | the deterministic encoding, with the shortest heads, is one of the encodings of its fields |
| `CborDocument.HeadIsRead` | packages/sandbox-vm-native/src/vm-init.c:257-281 | a head of any width is read back as its major type and argument |
| `Cbor.DecodeLaunchSpec` | packages/sandbox-vm-native/src/vm-init.c:344-444 | the decoder with its cursor is the function from bytes to the filled fields |
| `Cbor.Cursor.NextHead` | packages/sandbox-vm-native/src/vm-init.c:257-281 | the four argument widths are read big-endian and the rest left |
| `Cbor.Cursor.ReadArgument` | packages/sandbox-vm-native/src/vm-init.c:263-278 | the byte loop reads an argument of the given width |
| `Cbor.Cursor.ReadByte` | packages/sandbox-vm-native/src/vm-init.c:249-253 | one byte is consumed, or none is left |
| `Cbor.Cursor.NextText` | packages/sandbox-vm-native/src/vm-init.c:284-300 | a text is consumed exactly when present, short enough and NUL-free |
| `Cbor.Cursor.NextTexts` | packages/sandbox-vm-native/src/vm-init.c:377-382 | the array loop collects the texts |
| `Cbor.Cursor.NextPairs` | packages/sandbox-vm-native/src/vm-init.c:411-417 | the map loop collects the pairs |
| `Cbor.Cursor.SkipUnknown` | packages/sandbox-vm-native/src/vm-init.c:419-435 | one unknown value is stepped over as the code does it |
| `Cbor.Cursor.NextField` | packages/sandbox-vm-native/src/vm-init.c:361-435 | the key chain dispatches to the reader of the field |
| `Cbor.TotalBytes` | packages/sandbox-vm-native/src/vm-init.c:376-380 | the running total is the length of all arguments with a terminator each |
| `Folds.OrderDoesNotMatter` | packages/sandbox-vm-native/src/vm-init.c:352-437 | steps that commute pairwise give the same result in every order |
| `ControlChannel.WaitForReady` | packages/sandbox-vm-native/src/engine.ts:1088-1240 | the verdict of the handshake depends only on the text seen, each chunk of bytes decoded on its own; when no chunk ends inside a decoding unit it depends only on the stream |
| `ControlChannel.CutChangesVerdict` | packages/sandbox-vm-native/src/engine.ts:1206-1209 | otherwise it can change: three lines that are one no-break space each, cut inside it, make the same bytes fail that are ready in one chunk |
| `Utf8.SeenIsDecoded` | packages/sandbox-vm-native/src/engine.ts:1206-1207 | chunks decoded one by one give the decoding of the joined bytes if and only if no chunk ends inside a unit, a well-formed sequence or the longest start of one; otherwise they give a longer text |
| `Utf8.DecodedInParts` | packages/sandbox-vm-native/src/engine.ts:1206-1207 | a cut between units does not show, and any other cut leaves more characters than there were |
| `Utf8.BoundariesOfText` | packages/sandbox-vm-native/src/engine.ts:1206-1207 | in the encoding of a text the cuts that do not show are exactly those between characters |
| `Utf8.CutOfBrokenSequence` | packages/sandbox-vm-native/src/engine.ts:1206-1207 | in bytes that are not well formed a cut outside every whole sequence can show too: E2 82 41 cut after E2 |
| `Utf8.DecodeInvertsEncode` | packages/sandbox-vm-native/src/helper-launch-spec.ts:60-60 | decoding undoes the encoding of RFC 3629 section 3, whatever follows |
| `ControlChannel.CutInParts` | packages/sandbox-vm-native/src/engine.ts:1145-1204 | the frames of a stream are those of its first part and then those of what was left over with the rest; the leftover likewise |
| `ControlChannel.CutStays` | packages/sandbox-vm-native/src/engine.ts:1183-1201 | a frame, once complete, is the same whatever arrives after it |
| `ControlChannel.Listener.OnData` | packages/sandbox-vm-native/src/engine.ts:1206-1209 | after every chunk the state is the one the whole stream so far determines, and a settled verdict stays |
| `ControlChannel.Listener.OnEnd` | packages/sandbox-vm-native/src/engine.ts:1210-1213 | at the end the leftover counts as one last frame, and the verdict is that of the stream |
| `ControlChannel.Listener.Drain` | packages/sandbox-vm-native/src/engine.ts:1145-1204 | the loop judges the complete frames in order, stops when settled, and leaves the leftover; every pass shortens the buffer |
| `ControlChannel.ObjectsComeOutOneByOne` | packages/sandbox-vm-native/src/engine.ts:1134-1139 | well-formed JSON objects written back to back come out one by one, with nothing left over |
| `ControlChannel.ObjectIsOneFrame` | packages/sandbox-vm-native/src/engine.ts:1179-1191 | brace matching ends exactly at the end of any well-formed object, whatever braces and quotes its strings hold |
| `ControlChannel.ValueIsNeutral` | packages/sandbox-vm-native/src/engine.ts:1183-1191 | the text of any JSON value leaves the matching depth as it was and never closes the object around it |
| `FdTable.Start` | packages/sandbox-vm-native/src/engine.ts:849-931 | from any table the parent gains exactly its five retained pipe ends and keeps all it had; descriptors 1 to 7 of the child are on the intended files if and only if at least two of the parent's descriptors 0 to 6 were open; nothing else from 8 up survives below the ceiling |
| `FdTable.ChildIsWired` | packages/sandbox-vm-native/src/native-binding.ts:391-397 | the same for any table and any ends: the wiring holds if and only if the stdio ends are clear of the targets filled before they are used |
| `FdTable.EndsAreClearExactly` | packages/sandbox-vm-native/src/native-binding.ts:371-376 | the ends that are allocated are clear if and only if at least two of the descriptors 0 to 6 were open |
| `FdTable.TwoOpenAreEnough` | packages/sandbox-vm-native/src/native-binding.ts:371-376 | any two open descriptors below 7, such as the standard ones, give clear ends |
| `FdTable.RootImageAloneIsNotEnough` | packages/sandbox-vm-native/src/native-binding.ts:371-376 | a parent that holds the root image and nothing else gets an output end that its own file actions overwrite |
| `FdTable.ClosedLeavesRetained` | packages/sandbox-vm-native/src/native-binding.ts:402-402 | closing the handed-over ends leaves exactly the retained ones besides what was open before |
| `FdTable.Process.Spawn` | packages/sandbox-vm-native/src/native-binding.ts:423-457 | the child has the parent's table with the actions replayed and close-on-exec applied |
| `FdTable.Process.MassClose` | packages/sandbox-vm-native/src/vm-helper.c:240-263 | everything from the watermark up is closed, up to the ceiling when the loop has to do it |
| `FdTable.Process.Allocate` | packages/sandbox-vm-native/src/engine.ts:849-864 | every pipe end and temporary slot is the lowest free descriptor from its minimum up, and stands for the right file |
| `FdTable.Process.CloseAll` | packages/sandbox-vm-native/src/native-binding.ts:459-462 | exactly the listed descriptors are closed |
| `FdTable.Process.Pipe` | packages/sandbox-vm-native/src/engine.ts:850-851 | a pipe takes the lowest free descriptors, read end first |
| `FdTable.Process.DupCloexec` | packages/sandbox-vm-native/src/engine.ts:858-864 | a duplicate shares the file, sits at the lowest free descriptor from the minimum up, and closes on exec |
| `Telemetry.OrderDoesNotMatter` | packages/gateway/src/debug-telemetry.ts:85-120 | two orders of one trace's events, repeated ones included, every execution created before its end and all ending, with one outcome: the same final status, and the same run of an execution if and only if its last events are the same |
| `Telemetry.RunsAgreeExactly` | packages/gateway/src/debug-telemetry.ts:90-107 | the two runs of an execution are the same if and only if its last final and adapter events are the same, and without a final one its last created one |
| `Telemetry.StatusAgreesExactly` | packages/gateway/src/debug-telemetry.ts:108-120 | the status is the same in every order of a trace's events if and only if all its terminal events report the same outcome |
| `Telemetry.UnrepeatedAgree` | packages/gateway/src/debug-telemetry.ts:90-107 | when no event is repeated, the last events are the same in every order |
| `Telemetry.TwoEndsDiffer` | packages/gateway/src/debug-telemetry.ts:90-100 | two final events of one execution that are swapped leave different runs |
| `Telemetry.RunsAreTold` | packages/gateway/src/debug-telemetry.ts:90-107 | when each execution is created before it ends, the run of an execution is what its last events say of it, however they interleave and repeat |
| `Telemetry.StatusIsTold` | packages/gateway/src/debug-telemetry.ts:116-120 | with the terminal in and every execution ended, the status is not pending |
| `Telemetry.StatusFitsTerminal` | packages/gateway/src/debug-telemetry.ts:108-120 | when the terminal events report one outcome, a status that was set is that outcome |
| `Telemetry.AppliedKeepsValid` | packages/gateway/src/debug-telemetry.ts:85-120 | every event keeps execution ids unique and pending records with a terminal unfinished, and never changes a settled status or its time |
| `Telemetry.Upsert` | packages/gateway/src/debug-telemetry.ts:171-178 | the run with the id is replaced in place or appended, the others kept |
| `Telemetry.MaybeTransition` | packages/gateway/src/debug-telemetry.ts:185-191 | the status moves exactly when pending with all runs final |
| `Telemetry.Merge` | packages/gateway/src/debug-telemetry.ts:85-120 | one event changes the record as its kind says and re-evaluates the pending status |
| `TelemetryBuffer.CallsKeepValid` | packages/gateway/src/debug-telemetry.ts:67-165 | after any sequence of events and request starts ids are unique, every record is consistent, and the size is at most the capacity |
| `TelemetryBuffer.TracesDoNotMix` | packages/gateway/src/debug-telemetry.ts:67-165 | while the traces fit the capacity, the record of a trace is what its own events and request starts alone make of a fresh record, and the same as if its starts had all come before its events |
| `TelemetryBuffer.BindingCommutes` | packages/gateway/src/debug-telemetry.ts:136-142 | an event and a request start may come in either order: events keep the bound metadata, starts keep status, runs and terminal |
| `TelemetryBuffer.EvictedKeeps` | packages/gateway/src/debug-telemetry.ts:193-206 | eviction keeps the invariants and only removes records |
| `TelemetryBuffer.DebugTelemetryBuffer.RecordEvent` | packages/gateway/src/debug-telemetry.ts:67-121 | a call without trace id changes nothing; any other finds or admits its record and applies the event |
| `TelemetryBuffer.DebugTelemetryBuffer.RecordRequestStart` | packages/gateway/src/debug-telemetry.ts:143-165 | binding finds or admits the record and sets only the metadata that was given |
| `TelemetryBuffer.DebugTelemetryBuffer.EvictIfNeeded` | packages/gateway/src/debug-telemetry.ts:193-206 | the oldest records go, one by one, until the size is within the capacity |
| `TelemetryBuffer.DebugTelemetryBuffer.FindOldest` | packages/gateway/src/debug-telemetry.ts:195-203 | the scan finds the first among the records received earliest |
| `TelemetryBuffer.DebugTelemetryBuffer.Latest` | packages/gateway/src/debug-telemetry.ts:127-133 | the result is the last among the records received latest, or null exactly when there is none |
| `Planner.Execute` | packages/core/src/planner.ts:113-152 | for every plan, repeated ids included, the scheduler terminates, its results are those of the rounds and the fallback, and every step of the plan has a result, in plan order |
| `Planner.EveryStepRunsOnce` | packages/core/src/planner.ts:117-143 | rounds and fallback together start no step of any plan more than once, and every step exactly once when no id is repeated |
| `Planner.FallbackExactly` | packages/core/src/planner.ts:123-132 | the fallback is taken if and only if some dependency is not in the plan or the dependencies have a cycle |
| `Planner.StartsAfterDependencies` | packages/core/src/planner.ts:119-137 | a step outside the fallback is run on results that hold the final result of each of its dependencies |
| `Planner.RoundsAreInOrder` | packages/core/src/planner.ts:117-143 | every round only has steps whose dependencies were done before it |
| `Planner.FinalKeys` | packages/core/src/planner.ts:146-146 | at the end exactly the ids of the plan have results |
| `Planner.FindReady` | packages/core/src/planner.ts:119-121 | the filter finds the pending steps whose dependencies all have results |
| `Planner.RunBatch` | packages/core/src/planner.ts:135-142 | the steps of a batch all see the results from before the batch |
| `Planner.RunPending` | packages/core/src/planner.ts:125-130 | the fallback runs the first step of every id that is left, one after another, each seeing the results before it |
| `Planner.DistinctIds` | packages/core/src/planner.ts:115-115 | the pending set is the ids of the plan in the order they first occur |
| `Planner.PendingLater` | packages/core/src/planner.ts:139-142 | deleting the ids of a round leaves the first steps of the ids that are not done |
| `Planner.CycleIsStuck` | packages/core/src/planner.ts:123-132 | a step on a cycle is never ready and ends in the fallback |
| `RateLimiter.Limiter.Handle` | packages/gateway/src/rate-limiter.ts:87-128 | a decision depends only on the requests admitted to that identifier in the past minute and the limit of now, not on sweeps or other traffic; a denial tells how long to wait |
| `RateLimiter.Limiter.Sweep` | packages/gateway/src/rate-limiter.ts:34-42 | the sweep changes no past and no future decision |
| `RateLimiter.Limiter.Prune` | packages/gateway/src/rate-limiter.ts:100-100 | pruning keeps exactly the later entries, in order |
| `RateLimiter.Limiter.LimitIsKept` | packages/gateway/src/rate-limiter.ts:112-128 | in every reachable state no identifier was admitted more than the largest limit it ever had in any half-open minute |
| `RateLimiter.NoMinuteExceedsLimit` | packages/gateway/src/rate-limiter.ts:99-126 | the same of any history each of whose requests was admitted by the rule |
| `RateLimiter.ClosedMinutesExactly` | packages/gateway/src/rate-limiter.ts:99-126 | minutes with both ends counted keep the limit if and only if every admission would have been one with entries of exactly a minute ago still counted |
| `RateLimiter.ClosedMinuteAt` | packages/gateway/src/rate-limiter.ts:99-126 | the closed minute that ends with an admission is within the limit if and only if the closed window had room |
| `RateLimiter.MinuteWithItsEndExceedsLimit` | packages/gateway/src/rate-limiter.ts:100-100 | such a history that is admitted and exceeds it: a request exactly one minute later |
| `RateLimiter.WaitingExactly` | packages/gateway/src/rate-limiter.ts:112-126 | a denied caller, whatever the limit was before, who comes back later with no other traffic is admitted if and only if the entry limit places from the end of the window has left it |
| `RateLimiter.WaitingIsEnough` | packages/gateway/src/rate-limiter.ts:112-115 | so a denied caller who waits as long as told is admitted, when the limit is the one the history was admitted under |
| `RateLimiter.LoweredLimitRefusesAgain` | packages/gateway/src/rate-limiter.ts:112-115 | after the limit was lowered, a caller who waited as told can be denied again |
| `WorkerPool.PLimit` | scripts/build-skills-index.js:260-277 | under every schedule the results are the outcomes in input order, failures as null; with a limit of zero nothing is run |
| `WorkerPool.Pool.Step` | scripts/build-skills-index.js:264-273 | each step of any worker keeps the claims consistent and brings the run closer to its end |
| `WorkerPool.ClaimsAreExclusive` | scripts/build-skills-index.js:266-266 | no two workers ever hold the same index, and none holds one already done |
| `WorkerPool.AllAreFilled` | scripts/build-skills-index.js:265-276 | when all workers have left the loop every index has been done |
| `WorkerPool.Claimed` | scripts/build-skills-index.js:265-266 | claiming the next index keeps the claims consistent |
| `WorkerPool.Stored` | scripts/build-skills-index.js:268-270 | so does storing a result |
| `EmbeddingIndex.BuildIndex` | packages/core/src/router.ts:152-205 | under every schedule, with an honest cache and no collision among the texts in play, the index is in input order with the embedding of each skill, the same as without a cache when no embedding fails; the saved cache is honest again |
| `EmbeddingIndex.CachedIsEmbedding` | packages/core/src/router.ts:139-145 | a cache hit is the embedding of the skill's current text |
| `EmbeddingIndex.CollisionIsServed` | packages/core/src/router.ts:139-145 | with a collision between two texts an honest cache serves the embedding of the other one |
| `EmbeddingIndex.WrittenIsHonest` | packages/core/src/router.ts:184-187 | writing an entry keeps the cache honest though readers share it |
| `EmbeddingIndex.Builder.Step` | packages/core/src/router.ts:172-195 | each step of any worker keeps every finished entry right and brings the run closer to its end |
| `EmbeddingIndex.Builder.Store` | packages/core/src/router.ts:175-193 | the entry stored fits its skill, whether from the cache, the embedder, or as an empty vector after a failure |
| `SandboxSession.RunTearsDownOnce` | packages/core/src/sandbox-runner.ts:582-656 | for every failure pattern: cleanup is attempted if and only if a backend was selected, the proxy closed iff launched, the directory removed iff made, each once, in that order, after everything else |
| `SandboxSession.SpawnTearsDownOnce` | packages/core/src/sandbox-runner.ts:658-820 | for every failure pattern of a spawn and the first close of its session: each acquired resource is given back exactly once and in order, after everything else when the spawn fails, by the close when it succeeds |
| `SandboxSession.Runner.Run` | packages/core/src/sandbox-runner.ts:582-656 | the log and the output of a run for every failure pattern; a containment failure forces level none and no success, soft failures keep the level and mark degradation, and without a prepared session there is no success |
| `SandboxSession.Runner.PrepareSession` | packages/core/src/sandbox-runner.ts:828-960 | the operations are attempted in order up to the first failure, which is reported after what was acquired is undone |
| `SandboxSession.Runner.Spawn` | packages/core/src/sandbox-runner.ts:658-820 | a spawn succeeds exactly when preparation and spawning do, and otherwise tears everything down once |
| `SandboxSession.Runner.TearDown` | packages/core/src/sandbox-runner.ts:619-634 | all three teardown steps are attempted whatever fails; only the backend's failure is containment |
| `SandboxSession.ContainmentDowngrades` | packages/core/src/sandbox-runner.ts:966-1061 | a containment failure forces level none and no success on both outputs; soft failures keep the level and mark degradation |
| `SandboxSession.Session.Close` | packages/core/src/sandbox-runner.ts:711-793 | the first close tears down and settles the meta; a later one repeats its outcome and touches nothing |
| `SandboxSession.CloseRepeatedly` | packages/core/src/sandbox-runner.ts:699-716 | any number of closes in sequence have the same outcome |
| `HostPath.PathMatchesPrefix` | packages/sandbox/src/host-match.ts:88-93 | the match holds if and only if the segments of the prefix begin the segments of the path, percent-decoding being any function |
| `HostPath.NormalizedIsCanonical` | packages/sandbox/src/host-match.ts:69-85 | a normalized path has no empty, "." or ".." segment and resolving it again changes nothing |
| `HostPath.NormalizePath` | packages/sandbox/src/host-match.ts:69-85 | collapsing, splitting and the stack loop give the resolved segments joined by slashes |
| `HostPath.CollapsingKeepsComponents` | packages/sandbox/src/host-match.ts:76-80 | collapsing slashes changes no segment |
| `HostPath.TextPrefixIsSegmentPrefix` | packages/sandbox/src/host-match.ts:91-92 | on joined paths the textual test at a slash is the segment-wise prefix |
| `McpFraming.Relay` | packages/sandbox/src/mcp-stdio-relay.ts:10-30 | messages that are framed, encoded and sent in any chunks of bytes are delivered as they were, in order |
| `Utf8.StreamInParts` | packages/sandbox/src/mcp-stdio-relay.ts:16-18 | the text of a streaming decoder does not depend on where the bytes are cut |
| `Utf8.StreamDecoder.Decode` | packages/sandbox/src/mcp-stdio-relay.ts:16-18 | one chunk: the texts of the chunks add up to that of all the bytes, without a byte order mark at the front |
| `McpFraming.LinesInParts` | packages/sandbox/src/mcp-stdio-relay.ts:17-22 | the lines of a stream, and what is left over, do not depend on the cut |
| `McpFraming.FramedAreRead` | packages/sandbox/src/mcp-stdio-relay.ts:10-12 | the frames of a list of messages read back as that list |
| `McpFraming.FrameParser.Feed` | packages/sandbox/src/mcp-stdio-relay.ts:17-29 | a chunk delivers the messages up to the first malformed line, throws that line, and leaves the lines after it for the next chunk; without one the parser stands for the longer stream |
| `McpFraming.FrameParser.Drain` | packages/sandbox/src/mcp-stdio-relay.ts:20-28 | the loop delivers the messages of the complete lines and keeps the rest |
| `CommandSpecs.BuildCommandSpecs` | packages/skills/src/command-specs.ts:3-30 | one spec per invocable skill, in order, with pairwise different names, each the first of its candidates not taken before |
| `CommandSpecs.FreeName` | packages/skills/src/command-specs.ts:14-19 | the suffix loop ends within the number of names in use, at the first free candidate |
| `CommandSpecs.CandidatesDiffer` | packages/skills/src/command-specs.ts:17-17 | different suffixes give different names |
| `CommandSpecs.FewCanBeUsed` | packages/skills/src/command-specs.ts:16-19 | only as many candidates can be taken as there are names in use |

## Left out

- SourceTree.Walker.Walk: symlink, hard link, device and revisit checks are not modelled, the input being a tree.
- Snapshot.Build: the digest comparison before it is not modelled; where two paths are cut to the same text, the table has them in one of the orders qsort may give.
- Snapshot.BuiltImageIsTree: permission bits are the fixed ones the writer sets; bitmap contents and free counters are computed as the code does but no property of them is stated, as no reader uses them.
- GuestStat.StatOfPath: file data behind an extent tree is not read, only the kind of the inode, as in the code.
- Sha256.HashChunks: the hexadecimal printing and the comparison with the expected digest are not modelled.
- Manifest.ManifestIdentifiesTree: equality of manifests, not of their hashes.
- HelperLaunchSpec.TokenIsReceived: its strings are bytes, one character for each; `HelperLaunchWire.SpecIsReceived` says the same from Unicode strings.
- HelperLaunchWire.SpecIsReceived: strings of Unicode scalar values, so lone surrogates are not inputs; nor are cpus and memory sizes that are not natural numbers.
- SnapshotManifest.ManifestsAgree: names on disk are well-formed UTF-8; normalization and lower-casing are functions of which only the stated properties are used; symlinks, which the image builder refuses, are not modelled, nor are paths the builder cuts to the same text in more than one order.
- LaunchSpec.ParseLaunchSpec: the checks that the control descriptors are open, at the end of the function, belong to the descriptor model.
- Cbor.DecodeLaunchSpec: a cursor moved past the end of the input is a cursor with nothing left; running out of memory is not modelled.
- ControlChannel.WaitForReady: the stream ends; timeout, helper exit and stream errors also settle the wait and are not modelled; trim and JSON.parse of a frame are an arbitrary classification.
- McpFraming.Relay: printing and parsing are abstract inverses without a newline in the output.
- FdTable.Start: pipe, dup and spawn do not fail, dup2 of a descriptor onto itself does nothing as the source assumes, and Darwin's close-by-default spawn flag is not modelled.
- Telemetry.OrderDoesNotMatter: completion times and the order of the runs list depend on the order of the events and are not compared.
- TelemetryBuffer.DebugTelemetryBuffer.RecordEvent: records are values in a sequence in insertion order, so a record handed out earlier does not change with later events as the live object does.
- Planner.Execute: running a step is a total function of the step and the results it sees, which does not throw; synthesis of the answer is left out.
- Planner.StartsAfterDependencies: step ids are distinct, as in the rows on the fallback; of steps that share an id only the last result of a round is kept.
- RateLimiter.Limiter.Handle: the clock does not go back, and the limit of an identifier is positive and may change below the largest it ever has; response headers other than the remaining count and the waiting time are left out.
- EmbeddingIndex.BuildIndex: among the texts in play, those of the skills and of the cache, no two have the same hash; the hash is truncated, so `EmbeddingIndex.CollisionIsServed` can happen. The case without an embedding client is left out.
- SandboxSession.Runner.Run: cleanup errors that are swallowed when preparation fails are only logged as attempts; telemetry emission is left out.
- SandboxSession.Session.Close: overlapping calls, before the first has finished, are not modelled.
- HostPath.PathMatchesPrefix: percent-decoding is an arbitrary function.
- CommandSpecs.BuildCommandSpecs: the name clean-up is an arbitrary function.
- The `single-file` mode of the image builder, its command line, sealing and output.
- Foreign calls, mounts, forks, sockets and the forwarder; only their effect on bytes or descriptors is modelled.
- Host matching and public suffixes, policy resolution, backend selection, signature checks.
- Routing heuristics, prompting, adapters, gateways, chat front ends, configuration and stores: no hard property decided by the code.
