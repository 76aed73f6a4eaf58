# go-erofs, modelled and verified

go-erofs writes and reads EROFS images, the read-only file system of the Linux kernel. This project
models its writer and its reader as one codec over byte strings and proves that they agree: what the
writer plans, it writes there; what it writes, the reader finds; and where the two disagree, exactly
when.

The model follows the program's own parts.

- `Bytes`, `Order`, `Format` hold little-endian fields, byte-wise order and the on-disk constants; `Modes`
  converts between Unix modes, Go's file modes and dirent types.
- `Overlay` is the writer's mutable tree (`Writer`, `fsEntry`) with its path index. `Layers` runs adds,
  whiteouts and opaque markers on it and says which runs leave it standing for the plain map from path
  to entry that they describe. `LayerWalk` is the walk of `CopyFrom` over a general file system,
  `ImageCopy` that of `copyFromImage`, which registers entries without their missing ancestors;
  `LayerMerge` and `ImageMerge` say what these walks leave, path by path.
  `BuildTree` is the breadth-first conversion to the planner's tree, `CloseWriter` the end of `Close`:
  linked entry objects, planning, output.
- `EntryObjects`, `ErofsWriter`, `MetaSteps` are the entry objects and the passes over them: planning,
  parent links, block assignment, data, metadata, block 0. `Layout`, `Tree`, `Placement`, `Inodes`,
  `Dirents`, `Chunks`, `Xattrs`, `Superblock` describe by values what the passes compute.
- `DataFile` is the external data file: `Create`, `Write`, `Close` and the chunk lists they leave;
  `DataRuns` is any interleaving of these calls over any number of files.
- `Reader`, `DirReader`, `DirList`, `ChunkReader`, `XattrReader`, `Resolve`, `DirectReader` are the
  reader: inodes, blocks, two-level directory search, the `ReadDir` cursor, chunk maps, windowed
  attributes, path resolution and the direct section reader. `PathWalk` says what a path means on lists
  of names, `ChunkStored` which chunk-based files of any image hold a content. `MetaReader` is the
  in-memory fast path of image copying.
- `RoundTrip`, `TreeImage`, `TreeResolve`, `DirImage`, `XattrImage`, `DataFileImage`, `ChunkCopy`,
  `OverlayImage`, `StatImage`, `EndToEnd` put writer and reader together; `ChunkCopy` takes a chunk-based file from
  one image to another. `Examples` has a small tree that comes back and one that does not; `Failures`
  has one input for each further shortfall below.

The main results: a guarded run of overlay operations, closed, gives the image of the map it describes
(`CloseWriter.WriteLayers`). On it every live path resolves to its entry (`OverlayImage.LivePathResolves`),
`Lstat` shows the values and attributes the entry was given (`StatImage.Lstat`) and `ReadFile` returns its
bytes (`StatImage.LiveFile`); every other path fails, unless a symlink on its way leads elsewhere
(`OverlayImage.DeadPathFails`). Resolving any path on an image, through any chain of symlinks, is walking its
names in the tree, a followed link's names from the directory that holds it or from the root
(`TreeResolve.PathMeans`). A merged layer deletes from earlier layers exactly what its markers ask for
(`LayerMerge.PriorLayers`), and its own entries exactly when such a marker comes after them
(`LayerMerge.OwnEntries`). The planner puts data behind an inode exactly when it fits the block there
(`Layout.LayoutChosen`), and the passes over the entry objects produce that very image
(`EndToEnd.BuildImage`). A file's bytes come back under its path (`EndToEnd.WriteOpenRead`), a directory lists
its children in any batches (`DirImage.ListWritten`), and a chunk-based file that is one run keeps its content
from image to image (`ChunkCopy.CopiedFile`).

## What the code does not do

Proving these showed places where the code falls short of what it is for. Each is stated as an exact
condition, and each has a concrete input.

- `readInfo` asks for 64 bytes even for a 32-byte inode, so a bare compact inode that ends the last
  block cannot be read. `RoundTrip.EveryInodeReads` says exactly when; `Examples.LastUnreadable`
  is a three-entry tree.
- The writer stores the device table's offset in units of 16 bytes, the reader multiplies it by 128:
  every slot is read one place early. `Superblock.DeviceBlocksSurvive`: block counts come back exactly
  when all are zero. `Failures.DeviceShrinks`: one device of 8 blocks.
- The reader rounds the start of chunk indexes up to 8 bytes, the writer does not pad.
  `ChunkReader.IndexBaseAgrees`: they agree exactly when inode and attributes together are a multiple
  of 8. `ChunkReader.MisalignedIndexes`: one short attribute.
- `copyFromImage` links an entry under the root when a marker has taken its directory between the
  registration of the two. `ImageCopy.CopyFromImage`: it happens exactly then;
  `ImageCopy.StrayEntry`: `/d/-sub/f` becomes a second `/f`.
- A file given children by a later `add` keeps them when it, or a directory above it, is removed.
  `Overlay.RemoveExact` and `Overlay.ClearExact`: removals are exact when, and only when, no file in
  their reach has children; `Layers.OrphanStays`: a file with one child.
- A whiteout of the root (an entry `.wh..` in the root) takes the root out of the path index, after which
  markers on the root do nothing: they are exact only while the root is indexed or when nothing is below
  it (`Layers.RootMarkerExact`; `ImageCopy.RootMarkers`, and on the objects `ImageCopy.RootMarkersOnTree`).
- `CopyFrom` goes down into a marker that is a directory, so that the marker itself comes back as an
  implicit parent (`LayerWalk.MarkerDirectory`); a bare `.wh.` removes its own directory there and is an
  ordinary entry for `copyFromImage` (`LayerWalk.MarkersAgree`).
- Markers act where the walk meets them, so a layer loses entries of its own: in a directory with an opaque
  marker all whose names sort before `.wh..wh..opq`, hidden files for the most part. `LayerMerge.OwnEntries`:
  exactly the entries that a marker takes whose name comes after theirs; `LayerMerge.OpaqueTakesOwn`.
- A read that meets the end of the image inside a file reports the end of the file, with the offset moved on
  twice by what was delivered; `ReadFile` then gives zeros for the missing blocks and no error
  (`Reader.ReadCut`, `Reader.WholeCut`).
- A symlink with an empty target and names behind it counts from the root, like an absolute one, and a name
  with two leading slashes is not found (`PathWalk.ResolveMeans`, `PathWalk.TwoSlashesFail`). Behind a relative
  link `..` above the root is looked up there, which is the same as long as the root is its own parent, as on
  every written image (`TreeResolve.PathMeans`).
- `parseChunks` puts every block where its index says exactly when the holes are all at the end and a
  chunk that is no hole has fewer than 65536 blocks (`Chunks.ParsedExact`; `Failures.HoleInside`,
  `Failures.HugeChunk`).
- `copyFromImage` marks every chunk-based file contiguous, so the writer gives it one chunk. Its blocks
  then resolve right exactly when they are one run (`ChunkCopy.OneChunkResolves`; `Failures.TwoRuns`).
- A flat plain file whose source is short makes the write fail; an inline one is silently continued
  with zeros (`ErofsWriter.Writer.WriteDataBlocks`, `ErofsWriter.Writer.WriteMetadataInodes`;
  `Failures.ShortPlain`, `Failures.ShortInline`).
- A compact inode has no timestamp: it reads back the build time's nanoseconds
  (`Inodes.InodeLossless`, `Failures.NanosecondGained`).
- The last entry of a full 64 KiB directory block cannot be decoded by `lookup`, which then answers a
  format error. `DirReader.LookupExact` says for which names; `DirReader.LookupAllExact`: there is no such
  name exactly when blocks are smaller or the directory is shorter than 64 KiB. `Failures.FullBlock`: a
  directory of 250 files.
- A file of the data file is found through its chunk list exactly when it starts on a block and nothing
  else is appended between its creation and its last non-empty write (`DataRuns.FoundExactly`). Two files
  open at once (`DataFile.Interleaved`, `DataRuns.TwoOpen`) and a data file of odd length
  (`DataRuns.UnalignedStart`) are the two ways to fail.

Where the comments in the source and its code differ, the model follows the code: the comment above
`calcTrailingSize` speaks of a 64-byte inode, but the trailing data of a compact inode starts after 32.

## Model

| member | source | states |
|---|---|---|
| Overlay.PutShaped | mkfs.go:1004-1062 | add leaves every live entry under a live directory exactly when the nearest existing ancestor is a directory and no populated directory is overwritten by something else |
| Overlay.RemoveShaped | mkfs.go:1160-1195 | what whiteouts and opaque markers are for keeps the tree well shaped; removing what is not there changes nothing |
| Overlay.RemoveExact | mkfs.go:1160-1195 | in a tree in place, what remove takes is the path and all below it exactly when no file at or below it has children; and, the root aside, only then every entry left has its directory |
| Overlay.ClearExact | mkfs.go:1175-1195 | what removeSubtree takes is all below the path exactly when no file below it has children, and only then every entry left has its directory |
| Overlay.FsTree.constructor | mkfs.go:75-87 | a new writer holds the root directory alone, under / |
| Overlay.FsTree.AddChild | mkfs.go:1148-1156 | links a new entry under the entry indexed at its directory's path, under the root if there is none, and indexes it; links and index stay in agreement, and the tree stays in place exactly when the directory was there |
| Overlay.FsTree.EnsureParent | mkfs.go:1122-1144 | creates exactly the missing ancestors, top down, as default directories, each in its own directory and never under the root as a fallback |
| Overlay.FsTree.Put | mkfs.go:1004-1062 | on any sound tree the map of live paths changes to the given fields at the path plus its missing ancestors, all linked in their directories; an overwrite keeps the entry's place and children |
| Overlay.ImplicitDirectory | mkfs.go:1122-1144 | a missing ancestor comes up as a directory 0755 of user and group 0 with nothing else set |
| Overlay.RootTaken | mkfs.go:1015-1028 | an entry added for the root gives it its mode, owner, times and attributes, and its link count if it has one; all else stays |
| Overlay.RootRegistered | mkfs_image.go:291-303 | registering an image's root gives the root the same, and always its link count |
| Overlay.FsTree.Create | mkfs.go:179-200 | refuses the root and a path that is registered, and then changes nothing; otherwise adds as add does, without the fallback |
| Overlay.FsTree.Register | mkfs_image.go:291-310 | the entry alone, without its ancestors: overwritten in place if registered, else linked in its directory if that is indexed and under the root if not |
| Overlay.FsTree.RemoveSubtree | mkfs.go:1185-1195 | on any sound tree exactly the live entries reached from the entry through directories are marked and leave the index; terminates because each round marks a live entry |
| Overlay.FsTree.Remove | mkfs.go:1160-1171 | on any sound tree: the entry goes, and if it is a directory all live entries reached from it through directories; by paths, the exact condition for this to be the path and all below it, and for the tree to stay in place |
| Overlay.FsTree.RemoveChildren | mkfs.go:1175-1182 | on any sound tree the live entries reached from the directory through directories go and the directory stays; by paths, the exact condition for this to be all below it, and for the tree to stay in place |
| Layers.Step | mkfs.go:424-459 | one entry, registration, whiteout or opaque marker on a tree in place leaves it in place and standing for the changed map exactly when the event is allowed; links and index stay sound whatever is asked |
| Layers.Replay | mkfs.go:424-459 | any run keeps links and index sound, and an allowed run leaves the objects standing for the map that it describes |
| Layers.GuardedRun | mkfs.go:1004-1195 | a run whose adds have a directory to go to and overwrite no populated directory by something else is allowed, and ends with every entry below a directory |
| Layers.RootMarkerExact | mkfs.go:1160-1182 | whiteouts and opaque markers on the root do what they are for exactly while the root is indexed or when nothing is below it |
| Layers.OrphanStays | mkfs.go:1148-1171 | an entry added below a file stays live after the file's whiteout |
| Layers.SiblingsDistinct | mkfs.go:1148-1156 | live entries linked in one directory have distinct names |
| Layers.RemovedDownwards | mkfs.go:1185-1195 | in a tree in place everything below a removed entry is removed, at any depth |
| Layers.RunDownwards | mkfs.go:424-459 | after any allowed run on a new writer nothing, at any depth, outlives an entry above it |
| ImageCopy.CopyFromImage | mkfs_image.go:98-312 | the breadth-first walk, markers included: an entry is linked away from its directory exactly when a marker takes that directory between the registration of the two; an allowed walk leaves the map that its events describe |
| ImageCopy.WalkRegular | mkfs_image.go:98-103 | the order of the queue: every entry comes after its directory, and what is listed above an entry is a directory |
| ImageCopy.StrayWalk | mkfs_image.go:106-119 | for d with -sub/f and an opaque marker, f is registered after the marker has taken /d/-sub |
| ImageCopy.StrayEntry | mkfs_image.go:291-310 | in that walk over a tree with a file /f, the new f becomes a child of the root, converted under the same name as the old one |
| ImageCopy.RootMarkers | mkfs.go:1160-1182 | after a whiteout of the root an opaque marker in the root leaves what was added since |
| ImageCopy.RootMarkersOnTree | mkfs.go:1160-1182 | the same on the objects: an entry outlives the opaque marker of its directory, the root |
| ImageMerge.ImageLays | mkfs_image.go:98-312 | copied without merging, every node of the image ends at its path with its own attributes, and every other path is as before |
| ImageMerge.ImagePrior | mkfs_image.go:106-119 | merged, an entry of an earlier layer for which the image has none stays, as it was, exactly when no marker outside other markers asks for it to be deleted |
| PathWalk.QueuedPaths | mkfs_image.go:317-368 | a directory's children are queued under their absolute paths, in order |
| LayerWalk.CopyFrom | mkfs.go:424-557 | the depth-first walk in name order: links and index stay sound whatever the source; an allowed walk leaves the map of its events; without merging the source is laid over the map and the tree stays in place |
| LayerWalk.WalkLays | mkfs.go:424-557 | without merging, every node of the source ends at its path with its own attributes, and every other path is as before |
| LayerWalk.PlainCopy | mkfs.go:424-557 | such a walk is allowed from any map whose entries have their directories |
| LayerWalk.MarkersAgree | mkfs.go:442-456 | both walks take the same names for markers and draw the same event from them, but for a bare .wh., which here removes its own directory and is an entry there |
| LayerWalk.MarkerDirectory | mkfs.go:442-456 | a whiteout marker that is a directory with one file: the file is added below the marker, which thereby stays in the tree |
| LayerMerge.PriorLayers | mkfs.go:441-455 | an entry of an earlier layer, where the merged layer has none at or below it, stays as it was exactly when no marker of the layer asks for it to be deleted, wherever in the walk the marker comes |
| LayerMerge.OwnEntries | mkfs.go:441-455 | an entry of the merged layer itself ends at its path, as the layer has it, exactly when no marker takes it whose name comes after that of the entry, or of the directory above it, beside the marker |
| LayerMerge.OpaqueTakesOwn | mkfs.go:441-455 | a directory that the layer makes opaque loses the layer's own entries whose names sort before the marker's |
| BuildTree.BuildErofsTree | mkfs.go:1199-1244 | breadth first: one entry per live path and no other, with sorted child names and the default link count of a directory; its fields are those of `BuildTree.OwnFields` |
| BuildTree.OwnFields | mkfs.go:1199-1286 | the tree entry of every live path has that path's owner, times, size, device, link target, chunks and attributes, the link count given or 2 and one per live directory in it or 1, and the source of a non-empty regular file that is neither in chunks nor metadata only |
| CloseWriter.MakeEntry | mkfs.go:1199-1284 | the entry objects for a path and all below it, new and distinct, linked as the planner's tree of the map |
| CloseWriter.DefaultChunkBits | mkfs.go:592-595 | the default chunk size is the least doubling of a block that makes 4096 bytes |
| CloseWriter.Close | mkfs.go:563-609 | for a tree in place with every entry below a directory the output is the image of the live entries' tree, unless a plain source is short or a device count does not fit; what it shows at a live path is `StatImage.Lstat` |
| CloseWriter.WriteLayers | mkfs.go:379-609 | from a guarded run of all layers' operations to the image of the map that they describe; what it shows at a live path is `StatImage.Lstat` |
| CloseWriter.LayersFound | mkfs.go:563-609 | that output opens, and each live path resolves in it to an entry of its type |
| BuildTree.CountDirs | mkfs.go:1212-1220 | counts the live child directories |
| BuildTree.ConvertChildren | mkfs.go:1222-1236 | converts each live child once and queues each child directory once; an entry's fields are those of `BuildTree.OwnFields` |
| BuildTree.PathsComplete | mkfs.go:1199-1244 | every live path is in the pre-order list of the built tree |
| BuildTree.PathsDistinct | mkfs.go:1199-1244 | no path is in the list twice |
| OverlayImage.OnePlace | mkfs.go:1199-1244 | each live path has exactly one position in the writer's list, and the names leading there spell it |
| OverlayImage.NoOthers | mkfs.go:1199-1244 | every position of the list is a live path |
| OverlayImage.RootIsOK | mkfs.go:1199-1284 | a well-shaped map gives a tree that satisfies all that the planner and the reader ask of it |
| OverlayImage.LivePathResolves | mkfs.go:563-609 | on the mounted image a live path resolves to an inode of its type, whose blocks hold the entry's content if it is flat |
| StatImage.StatInfo | erofs.go:1020-1058 | statInfo: the inode's values, the device number of special files only, and the attributes behind the inode |
| StatImage.EntryInode | erofs.go:954-1006 | the inode of every entry of a written tree has the entry's mode, owner, link count, time and device number, nanoseconds included unless it fits the compact form, and then the build time's |
| StatImage.StatEntry | erofs.go:1020-1058 | stat on a written image shows every value and attribute of the tree entry |
| StatImage.Lstat | erofs.go:900-907 | Lstat of a live path after Close shows the values and attributes its entry was given, its link count completed |
| StatImage.LiveFile | erofs.go:845-868 | ReadFile of a live regular file gives its source's bytes, cut off or continued with zeros at its size, or a refusal above 128 MiB |
| StatImage.LiveDir | erofs.go:845-850 | ReadFile of a live directory is refused as a directory |
| OverlayImage.DeadPathFails | erofs.go:721-819 | any path of ordinary names that is not live: not-exist when its longest live prefix is a directory, not-a-directory when that is neither directory nor symlink; past a symlink, what walking the target's names and the rest gives, from the link's directory or from the root |
| Layout.PlanOneSafe | layout.go:38-133 | from a 32-aligned offset one round of the planner places the inode there or 32 bytes on, its core in one block, inline data in the same block, and ends 32-aligned |
| Layout.LayoutSafe | layout.go:38-133 | for every entry list: regions disjoint with growing nids, gaps of 0 or 32 bytes, no core across a block, inline regions inside one block, the first nid 0 |
| Layout.LayoutChosen | layout.go:38-133 | every entry of every list, from positions and sizes alone: a non-empty directory or link, or a file with data and neither chunks nor the metadata-only mark, is inline exactly when its data fits the block at the end of the region before and after alignment; a file is chunk-based exactly when it has chunks or that mark; all else is plain; with the trailing size and chunk size of each, and where the inode starts |
| TreeImage.CompactChosen | layout.go:43-46 | an entry gets the compact form exactly when owner, link count and size fit it and its time is the build time's second |
| EntryObjects.FixParentNids | mkfs.go:858-865 | every directory below the root gets its parent's nid, whatever the tree |
| EntryObjects.ObjectsAreItems | layout.go:14-29 | after planning and parent fixing each object carries the plan and the dirents of its list position |
| ErofsWriter.Writer.Walk | layout.go:15-29 | appends the tree's objects in pre-order |
| ErofsWriter.Writer.PlanEntry | layout.go:39-133 | one round of the planning loop stores the decided form, layout, nid and sizes and returns the end of the padded region; which these are is `Layout.LayoutChosen` |
| ErofsWriter.Writer.DecideLayout | layout.go:58-102 | the layout switch, with the chunk size of contiguous files; its outcome is `Layout.LayoutChosen` |
| ErofsWriter.Writer.CalcTrailingSize | layout.go:139-167 | bytes after inode and attributes, per layout |
| ErofsWriter.Writer.PlanLayout | layout.go:10-136 | the entry list is the pre-order of the tree and every object carries its planned values |
| Chunks.MinChunkBits | writer.go:65-71 | the least admissible chunk bits from the default on |
| Chunks.ChunkBitsMinimal | writer.go:65-71 | those bits hold the file in one chunk unless capped at 31, and no fewer would |
| Tree.ParentHasKid | layout.go:14-29 | the computed parent of a list position is an earlier directory that has the entry among its children |
| Tree.ParentOfKid | mkfs.go:858-865 | the position of a directory's child has that directory as its parent |
| Dirents.FitCountMaximal | writer.go:545-562 | a block takes the longest prefix of names that fits it |
| Dirents.DirentDataSize | layout.go:184-220 | the planner's size of directory data, with its shortcut for an empty directory |
| Dirents.DirSizeIsWritten | layout.go:184-220 | that size is the number of bytes written, padding between blocks included |
| Dirents.BlockAt | writer.go:545-599 | block n of directory data is the n-th group of entries, padded unless it is the last |
| ErofsWriter.Writer.WriteDirents | writer.go:515-602 | sorts, packs, pads and returns the count written; the 16-bit name offsets wrap as stored |
| DirReader.BlockDirentExact | erofs.go:1357-1389 | every entry of a block decodes, except the last of a full 64 KiB block |
| DirReader.BlockFirstNameExact | erofs.go:1322-1355 | the first name of a block decodes unless it stands alone in a full 64 KiB block |
| DirReader.LookupBlock | erofs.go:1391-1424 | the binary search inside a block; what each step decodes is `DirReader.BlockDirentExact` |
| DirReader.Lookup | erofs.go:1254-1319 | the two-level search, error cases included; on packed data its answer is `DirReader.LookupExact` |
| DirReader.LookupExact | erofs.go:1254-1424 | on packed directory data, at any block size, the search returns the entry of that name or not-exist; a format error exactly when it ends in a full 64 KiB block and comes to probe its last entry |
| DirReader.LookupAllExact | erofs.go:1254-1424 | the search is right for all names exactly when blocks are at most 32 KiB or the whole directory is shorter than 64 KiB |
| DirList.VisibleIsChildren | writer.go:515-541 | the listing of a packed directory is the sorted child list without dot entries |
| DirList.ScanBlock | erofs.go:1159-1236 | the entries of one block from the cursor on, up to the limit |
| DirList.Dir.ReadDir | erofs.go:1130-1247 | a positive n returns the next n children, fewer with EOF at the end, and moves the cursor exactly past them; otherwise all the rest |
| DirList.ListInBatches | erofs.go:1130-1247 | calls with any positive counts return, one after the other, the first entries still to be listed, as many as the counts add up to; a short call says EOF, and past the end every call gives nothing and EOF |
| DirImage.Listing | writer.go:524-541 | what a listing of a directory should show: name, planned nid and type of each tree child, in their order |
| DirImage.DirOnImage | writer.go:515-602 | a directory of the written image is stored as packed entries, whose visible ones are its listing |
| DirImage.ListWritten | erofs.go:1130-1247 | listing a directory of the written image in any batches returns its tree children in name order, each once, with their planned nids and types |
| DirImage.ParseWritten | mkfs_image.go:317-369 | reading that directory whole and parsing it queues the same children |
| MetaReader.ParseDirBlock | mkfs_image.go:317-369 | queues exactly the children that ReadDir lists, in the same order, with their nids |
| Chunks.WriteChunkIndexes | writer.go:466-512 | index n is the place of logical block n times blocks-per-chunk, null past the end |
| Chunks.ResolveIffAligned | erofs.go:562-659 | chunk-granular resolution is right for a list exactly when neighbours inside a chunk are neighbours on the device |
| Chunks.ContiguousResolves | erofs.go:562-659 | contiguous lists resolve at any chunk size |
| Chunks.SingleBlockResolves | erofs.go:562-659 | any list resolves at one block per chunk |
| Chunks.ScatteredCounterexample | writer.go:476-502 | two scattered blocks under two-block chunks: the second is looked up at the wrong place |
| Chunks.ParseChunks | mkfs_image.go:372-410 | grows the last run or starts a new one for each index, dropping holes; what the runs mean is `Chunks.ParsedDescribes` and `Chunks.ParsedExact` |
| Chunks.ParsedDescribes | mkfs_image.go:372-410 | on hole-free arrays the runs put every chunk where its index says, and no run overflows |
| Chunks.ParsedLongest | mkfs_image.go:396-403 | no run could take up the chunk behind it: neighbours are on other devices, not adjacent, or past 65535 blocks together |
| Chunks.ParsedExact | mkfs_image.go:372-410 | the runs of any array put each block where its index says, and no block of a hole anywhere, exactly when the holes are all at the end and a chunk that is no hole has fewer than 65536 blocks |
| Chunks.ParseWriteRoundTrip | mkfs_image.go:372-410 | writing the parsed runs at the same chunk size reproduces the array, device ids masked |
| ChunkReader.IndexBaseAgrees | erofs.go:581-589 | reader and writer agree on where indexes start exactly when the header is a multiple of 8 |
| ChunkReader.MisalignedIndexes | erofs.go:581-589 | a compact inode with one short attribute is off by four |
| ChunkReader.ChunkRoundTrip | erofs.go:562-659 | on the written image each block of a chunk-based file is read from where its list puts it, zeros past the list's end |
| ChunkCopy.SourceBlock | erofs.go:562-659 | what the source reads for a block is what lies where the parsed runs put it |
| ChunkCopy.ForcedChunk | mkfs_image.go:273-274 | the flag that a copy always sets gives the file one chunk, unless it would need 31 bits |
| ChunkCopy.OneChunkResolves | writer.go:466-512 | with the file in one chunk its blocks resolve right exactly when they are one run |
| ChunkCopy.CopiedBlock | mkfs_image.go:264-288 | a block that resolves right at the copy's chunk size reads from the copy what it reads from the source, device ids moved up |
| ChunkCopy.CopiedFile | mkfs_image.go:264-288 | a chunk-based file that is one run comes out of the copy with its content: parsed, marked contiguous, planned, written and opened |
| ChunkCopy.DirectIsOneRun | erofs.go:329-375 | a chunk-based file that openDirect serves, with fewer than 65536 blocks a chunk, is parsed into one run |
| Xattrs.CalcXattrSize | format.go:45-54 | summing entry sizes in any map order gives the size of the written area |
| Xattrs.WriteXattrs | writer.go:427-462 | header and sorted, padded entries |
| Xattrs.MapOfSorted | format.go:65-72 | the sorted listing loses no attribute |
| Xattrs.AreaStarts | writer.go:427-437 | the attribute area starts with a name filter of all ones, no shared attributes and reserved zeros, and then come the entries |
| Xattrs.IndexChosen | format.go:10-33 | the six name prefixes and the index each is stored as, index 0 for every other name, and the rest of the name behind it |
| XattrReader.ParseXattrs | mkfs_image.go:415-483 | the whole-buffer parser returns the listed map |
| XattrReader.LoadXattrs | xattr.go:42-222 | the windowed parser, reloading as often as needed, returns the same map at any block size |
| XattrImage.ReadAttributes | xattr.go:42-222 | on the written image it returns the entry's own attributes |
| Inodes.XattrCountRoundTrip | format.go:57-62 | the area size survives the 16-bit count exactly up to 65534 words after the header |
| Inodes.WriteInode | writer.go:399-424 | stores the fields at their offsets in the cleared scratch buffer and emits 32 or 64 bytes |
| Inodes.ReadInfoWindow | erofs.go:925-952 | readInfo succeeds exactly when 64 image bytes follow the inode's address |
| Inodes.ReadInfoWritten | erofs.go:954-1006 | a written inode decodes to its fields, up to their widths |
| Inodes.InodeLossless | layout.go:43-51 | the chosen form loses nothing exactly when sizes fit it and a compact inode's build time has no nanoseconds |
| ErofsWriter.Writer.WriteEntryInode | writer.go:371-424 | an entry's word and size per type, stored in its form; what comes back is `RoundTrip.InodeFields` |
| ErofsWriter.Writer.FlatPlainDataSize | writer.go:660-675 | bytes an entry contributes to the data area |
| ErofsWriter.Writer.AssignDataBlocks | writer.go:163-171 | plain entries get consecutive block runs after the superblock area, metadata follows |
| ErofsWriter.Writer.WriteDataBlocks | writer.go:605-657 | succeeds exactly when no plain file's source is short, and then writes every run padded to blocks |
| ErofsWriter.Writer.WriteTrailing | writer.go:315-347 | chunk indexes, inline data, dirents or link target after the attributes |
| ErofsWriter.Writer.WriteMetaEntry | writer.go:285-361 | gap, inode, attributes, trailing data and padding, the offset advancing by the bytes written |
| ErofsWriter.Writer.WriteMetadataInodes | writer.go:282-369 | every inode lands at byte nid times 32, every zero-buffer slice is in bounds, the offset equals bytes written, and the area ends on a block |
| MetaSteps.MetaStep | writer.go:285-361 | one entry keeps the pass on plan even when an inline source is short: the owed zeros are made up by the next gap |
| MetaSteps.MetaEnds | writer.go:363-369 | the closing padding completes the planned area |
| ErofsWriter.Writer.MetadataBytes | writer.go:193-207 | the size recomputed for block 0 is where the plan ends |
| Superblock.WriteBlock0 | writer.go:248-276 | superblock and device slots in a zeroed area; fails exactly when a device count exceeds 32 bits |
| ErofsWriter.Writer.MakeSuper | writer.go:209-246 | totals, flags and addresses of the superblock |
| Superblock.SuperStored | writer.go:209-258 | the superblock's fields in the bytes of a written image: magic, block size, root, inode count, times, blocks as the image's length, metadata area, and the feature bits exactly when there are chunks or devices; all other bytes are zero |
| ErofsWriter.Writer.Write | writer.go:82-111 | succeeds exactly when no plain source is short and device counts fit, and then leaves the image of the planned list |
| EndToEnd.BuildImage | mkfs.go:600-609 | planning, parent fixing and writing fresh entry objects gives the image of their tree, exactly when no plain source is short and the device counts fit |
| Placement.ImageLength | writer.go:193-222 | block total times block size is the length of the image |
| Placement.DataInImage | writer.go:605-657 | the data of a plain entry lies at its assigned block address |
| Placement.RegionInImage | writer.go:282-369 | every inode region lies at its nid's address |
| RoundTrip.InodeOnImage | erofs.go:920-1019 | readInfo on the written image returns the entry's fields, with attributes and trailing data right behind; the fields one by one are `RoundTrip.InodeFields` |
| RoundTrip.InodeFields | writer.go:371-424 | readInfo on the written image gives mode, owner, link count and time of each entry from its own values, and the device number of special files |
| RoundTrip.EveryInodeReads | erofs.go:925-952 | all inodes can be read exactly when the last is not a bare compact inode that ends a block |
| Examples.LastUnreadable | erofs.go:925-952 | a directory with a 352-byte and an empty file at block size 512: the last inode cannot be read |
| Failures.DeviceShrinks | erofs.go:167-187 | a tree with one device of 8 blocks opens with another count |
| Failures.HugeChunk | mkfs_image.go:388-407 | one index for a chunk of 65536 blocks is parsed as a run of none |
| Failures.HoleInside | mkfs_image.go:388-392 | a hole before a chunk: the runs no longer say what the indexes say |
| Failures.TwoRuns | mkfs_image.go:273-274 | two scattered blocks copied as one chunk: the second is looked up behind the first |
| Failures.ShortPlain | writer.go:605-657 | a file of 1024 bytes with a source of 10 at block size 512 makes the write fail |
| Failures.ShortInline | writer.go:315-347 | a file of 352 bytes with a source of one is written inline and reads back as that byte and zeros |
| Failures.NanosecondGained | erofs.go:954-1006 | with a build time of one nanosecond an empty file reads back one nanosecond late |
| Failures.FullBlock | erofs.go:1254-1424 | a directory of 250 files with long legal names, written in 64 KiB blocks: it has an entry for which lookup answers a format error |
| RoundTrip.ContentRoundTrip | erofs.go:516-561 | the blocks of every flat file, directory and link hold exactly its content |
| RoundTrip.TailInlineStored | erofs.go:532-561 | an inline file of any size whose full blocks lie from its data address on and whose tail follows inode and attributes holds its content exactly when the tail does not cross a block |
| ChunkStored.ChunksStored | erofs.go:562-659 | a chunk-based file of any image, with 4-byte addresses or 8-byte indexes, reads as its content when its chunks lie where the entries say, on a device or in a range mapped to one, holes being zeros |
| ChunkStored.MapDevExact | erofs.go:253-280 | an extra device by its number, and for the primary one the first device whose mapped range holds the address, or else the image |
| ChunkStored.LoadRefuses | erofs.go:516-600 | no block loads past the last one, of compressed or unknown layouts, or of chunk formats beyond bit 5, and with which error |
| Reader.LoadBlockProgress | erofs.go:516-680 | a block that loads inside a file is not empty, so reading always advances |
| Reader.File.Read | erofs.go:1062-1090 | one call delivers what the block-by-block reading from the offset gives, error and moved offset included, and leaves the rest of the buffer alone; what that is are `Reader.ReadStored` and `Reader.ReadCut` |
| Reader.ReadStored | erofs.go:1062-1090 | on a stored file, from any offset with any buffer length, the bytes are exactly the content's from there, with EOF only on a short count |
| Reader.ReadCut | erofs.go:1062-1090 | a read across a block that does not load delivers what lies before it and reports the error at that block; the end of the image is reported as the end of the file, with the offset moved on once too often |
| Reader.WholeCut | erofs.go:845-868 | reading a file whole from an image that ends within it gives zeros for the missing blocks and no error |
| Superblock.Open | erofs.go:122-201 | accepts, refuses and decodes as the source does: `Superblock.OpensExactly`; what it makes of a written image is `Superblock.OpenWritten` |
| Superblock.OpensExactly | erofs.go:122-201 | the images that open, from their bytes: magic, block size, known features, no compression, as many devices as the table has and the table within the image; and what each field and device slot is decoded from |
| Superblock.RoundupIsLeast | erofs.go:209-218 | the bit smearing gives a single bit that is at least v, and half of it is less |
| Superblock.MaskIsSmeared | erofs.go:157 | the device id mask that Open uses is the smeared word less one |
| Superblock.OpenWritten | erofs.go:122-201 | a written image opens with the settings it was written with |
| Superblock.DeviceBlocksSurvive | erofs.go:167-187 | the devices of the opened image have the block counts it was written with exactly when all are zero |
| TreeImage.TreePlanned | layout.go:10-136 | planning a tree gives a list that the passes can land |
| TreeImage.FindIsTreeLookup | writer.go:524-541 | the dirents of a directory answer dot, dot-dot and every other name as the tree does |
| TreeImage.LookupOnImage | erofs.go:1254-1424 | the reader's search in a written directory gives the nid and type that the tree has under the name, dot-dot giving the parent, or not-exist; at 64 KiB a format error exactly in the case of `DirReader.LookupExact` |
| EndToEnd.OutputMounts | mkfs.go:563-609 | a written tree opens as an image on which all entries can be read |
| EndToEnd.WriteOpenRead | erofs.go:845-868 | writing a tree, opening the output and reading a file under its path gives its source's bytes, cut off or continued with zeros at the file's size |
| Modes.TypesShown | internal/disk/ftypes.go:28-45 | the type that a dirent shows for each of the seven types of entries; a stat shows the same exactly for these |
| Modes.UnixBack | format.go:84-115 | a Unix mode survives the conversion to Go's mode and back exactly when its type is one of the seven or none |
| Modes.GoBack | internal/disk/ftypes.go:47-75 | Go's mode survives the conversion to Unix's and back exactly when its type bits are those of one of the seven types, or irregular |
| Modes.Samples | internal/disk/ftypes.go:47-75 | 0104755 is set-user-ID, 042755 a set-group-ID directory, 0101777 sticky, 020620 a character and 060660 a block device |
| Examples.SmallTreeReads | erofs.go:845-868 | a directory with one 352-byte file of any source meets all that the theorems ask for, and the file comes back |
| Resolve.Resolve | erofs.go:721-819 | the loop over components and symlinks; it ends because the link budget or the name shrinks; what it computes is `PathWalk.ResolveMeans` |
| PathWalk.RestartIs | erofs.go:784-801 | the path to continue with after a symlink is, name by name, the target's names and the rest from the link's directory, or from the root for an absolute target |
| PathWalk.WalkIsTravel | erofs.go:740-813 | the walk over path strings is the walk on lists of names, from any state |
| PathWalk.ResolveIsTravel | erofs.go:721-819 | the same for resolve of any name that does not begin with two slashes |
| PathWalk.ResolveMeans | erofs.go:721-819 | with a root that is its own parent, resolve walks the path's names and those of the links on its way: dot stays, dot-dot goes up and stays at the root, at most 255 links |
| PathWalk.TwoSlashesFail | erofs.go:721-729 | a name with two leading slashes looks up an entry without a name, and fails as that lookup does |
| Resolve.ReadLink | erofs.go:699-716 | a link target within the size limit, read in one buffer; what it gives on a written link is `Reader.WholeStored` |
| Resolve.ReadFile | erofs.go:845-868 | the bytes behind a path, links followed, directories and over-long files refused; what it gives on a written file is `TreeResolve.FileByPath` |
| Reader.WholeStored | erofs.go:699-716 | reading a stored file into a buffer of its size gives its content |
| Resolve.WalkReaches | erofs.go:740-813 | from any consistent state, an answer is reached from the root by plain lookups along some path of plain names |
| Resolve.ResolveReaches | erofs.go:721-819 | the same for resolve of any name, two leading slashes included |
| TreeResolve.AnswerIsEntry | erofs.go:721-819 | whatever name is asked for, an answer on the image is nid and type of an entry of the tree that plain names lead to |
| Resolve.WalkIsFold | erofs.go:740-813 | without links on the way the walk is a fold of lookups |
| Resolve.WalkMirrors | erofs.go:721-819 | two readers whose lookups and links agree resolve every path alike |
| Resolve.NamedStart | erofs.go:721-729 | a path of ordinary names is walked as it stands |
| TreeResolve.ResolveOnImage | erofs.go:721-819 | any path, with or without following a final link, resolves on the image as in the tree; what that means is `TreeResolve.PathMeans` |
| TreeResolve.PathMeans | erofs.go:721-819 | on the written image, any path resolves to what walking its names in the tree gives, links followed from the directory that holds them or from the root |
| TreeResolve.TwoSlashesMissing | erofs.go:721-729 | on the written image a name with two leading slashes is not found |
| TreeResolve.EntryByPath | erofs.go:721-819 | every entry is found under its path with its nid and type, and its blocks hold its content |
| TreeResolve.FileByPath | erofs.go:845-868 | ReadFile under a file's path returns its source's bytes, or refuses above the limit |
| DirectReader.OpenDirect | erofs.go:303-379 | offers a section for plain, single-block inline and contiguous chunk files, and only for those (`DirectReader.OffersExactly`); its bytes are those of `DirectReader.DirectRefines` |
| DirectReader.OffersExactly | erofs.go:303-379 | a section is offered exactly for a non-empty file that is plain, inline within a block, or whose indexes are all there, without holes, and one run on one device |
| DirectReader.DirectRefines | erofs.go:303-379 | wherever the block reader succeeds the section's bytes are the same, for chunk addresses below 2^32 and blocks of device 0 that no mapped range covers |
| DirectReader.DirectReads | erofs.go:1062-1090 | whatever a read through blocks delivers, from any offset with any buffer length, is what the section holds there |
| DataFile.RunsCover | mkfs.go:1373-1389 | the emitted runs are contiguous, hold 1 to 65535 blocks each and map logical block b to start plus b |
| DataFile.OpenFile.Write | mkfs.go:659-675 | appends and counts; refused after Close |
| DataFile.OpenFile.Close | mkfs.go:1356-1392 | pads a non-empty file to a block and appends the runs that cover it; refused the second time |
| DataFile.StoreFile | mkfs.go:179-217 | on a data file of any length, a file written in any parts lies whole at its start, its chunk list beginning with its start's block, and a non-empty one leaves the offset block-aligned |
| DataFile.StoreFiles | mkfs.go:578-582 | any run of files one after the other on a data file of any length: bytes kept, one after the other, the device block count covers all; a file starts on a block exactly when the data file did or an earlier file was not empty |
| DataFile.Interleaved | mkfs.go:179-217 | two files open at once get the same block |
| DataRuns.FoundExactly | mkfs.go:656-715 | in any interleaving of Create, Write and Close over any files and any existing data, a file's chunk list leads to its bytes exactly when it is empty, or starts on a block and nothing else is appended between its creation and its last non-empty write |
| DataRuns.FoundWhole | mkfs.go:656-715 | a file that is not disturbed lies in one piece at its start, whatever is appended later |
| DataRuns.RunEvents | mkfs.go:656-715 | the File objects and the data file after any such run are what the values say |
| DataRuns.TwoOpen | mkfs.go:656-675 | two files open together: the second is disturbed |
| DataRuns.UnalignedStart | mkfs.go:97-105 | on a data file of one byte the first file is not found |
| DataFileImage.DataFileStored | erofs.go:562-659 | a file in the data file reads back in full through the image |
| MetaReader.Accessor.constructor | mkfs_image.go:16-26 | the accessor lives exactly when the metadata area is not empty and can be read |
| MetaReader.Accessor.At | mkfs_image.go:28-54 | returns nil or the image's bytes from the offset on, whatever the cache holds |

## Left out

- ErofsWriter.Writer.AssignDataBlocks: the metadata-first branch is not modelled, because no caller selects it.
- ErofsWriter.Writer.WriteMetadataInodes: asks that a chunk list's first run is not empty, because an empty one is emitted as if it held a block.
- ErofsWriter.Writer.PlanLayout: children arrive sorted from `buildErofsTree`, so the second sort of the same lists is not repeated.
- ErofsWriter.Writer.Write: requires fewer than 2^32 blocks in all; wrap-around of 32-bit block addresses and 64-bit byte offsets beyond that is not modelled.
- XattrReader.LoadXattrs: shared attributes and long prefixes answer "not implemented"; the writer never produces them.
- XattrReader.ParseXattrs: the same restriction.
- ChunkReader.ChunkRoundTrip: asks for attributes of a multiple of 8 bytes, since otherwise reader and writer disagree on where the indexes are.
- DirectReader.DirectRefines: asks for chunk addresses below 2^32, of which the block reader drops the upper bits, and for blocks of device 0 outside every mapped range, which the section reader does not look up.
- BuildTree.BuildErofsTree: the entries under construction are a table by path; `CloseWriter.MakeEntry` links the objects afterwards, children before parents.
- BuildTree.BuildErofsTree: asks for a tree in place with every entry below a directory; with two children of one name, as `ImageCopy.StrayEntry` leaves them, the order of equal names is not determined.
- ImageCopy.CopyFromImage: the source is a tree of values, its inodes already decoded; the parsers and the accessor that decode them are modelled separately, read errors are not.
- ChunkCopy.CopiedFile: asks for addresses below 2^32, for devices that are the same bytes on both sides and for attributes of a multiple of 8 bytes, as the two readers it joins do; a file in chunks on device 0, which the copy does not carry over, is left out.
- EndToEnd.OutputMounts: asks that no directory of 64 KiB or more is written in 64 KiB blocks, which is the exact condition of `DirReader.LookupAllExact` for its names to be found.
- Paths in `Overlay` are component lists; that cleaned path strings and component lists correspond is proved only for path resolution.
- Compressed layouts, the packed inode, fragments and checksums.
- Temporary spool files, the operating system's file copy, seek and write errors, context of error values: a source is a byte string, an output a buffer.
- Block buffer pooling and lazy initialisation: every block is a fresh buffer.
- `Chmod`, `Chown`, `Chtimes`, `Setxattr` and build-time discovery: one-branch updates.
- LayerMerge.OwnEntries: asks that no marker is a bare `.wh.`, `.wh..` or `.wh...`, which mean a directory above them.
- StatImage.StatInfo: attributes that do not lie behind the inode as the writer lays them are those of `XattrReader.LoadXattrs`; the mode that FileInfo takes from the dirent is not modelled.
- ChunkStored.ChunksStored: the addresses are the lower 32 bits of an index, the only ones the block reader looks at.
- LayerWalk.CopyFrom: the source is a tree of values; opening files, reading link targets and errors of the source are not modelled.
