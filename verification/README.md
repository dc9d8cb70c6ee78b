# RADOS in Dafny

A model of eight parts of the RADOS kernel and of what they promise, proved with Dafny 4.11:

- **Compositor** (`Painting`, `Compositor`): repainting only the damaged rectangles leaves the frame
  that a full bottom-up repaint would give, and the hit test agrees with the screen.
- **ext4 driver** (`Ext4Common`, `Ext4Volume`, `Ext4Extents`, `Ext4Space`, `Ext4File`, `Ext4Handle`,
  `Ext4Runs`, `Ext4FullVolume`, `RecordChain`, `Ext4DirBlock`, `Ext4DirMap`, `Ext4Directory`,
  `Ext4Names`, `Ext4Namespace`, `Ext4Paths`, `Ext4Mount`, `Ext4EntryTypes`, `Ext4FullDirectory`): a set
  of free blocks, a finite map per inode, a byte sequence per open file, a name map per directory held in
  the records of its blocks, and a tree with link counts, each layer refining the simpler thing above it. Runs on an open file act
  on one byte sequence and stop exactly where the free blocks and the extent list say (`Ext4Space`); runs
  of path operations on inodes and blocks are runs on the tree, and what they answer and where paths lead
  afterwards is read off it (`Ext4Paths`).
- **Descriptor tables** (`FdTable`, `FdRuntime`, `FdHosted`, `FdRuns`): the kernel's fixed table, where
  one slot owns an object and ownership moves on close, and the hosted kernel's shared objects. Along
  every run of granted calls both serve one map from (pid, fd) to objects and close every object
  exactly once, with its last name.
- **Scheduler** (`Scheduler`): the interleaved steps of dispatch on any number of cores, as a state
  machine over runs of any length.
- **Kernel heap** (`HeapLayout`, `KernelHeap`): first fit with splitting and joining.
- **FAT32 driver** (`FatTable`, `FatVolume`, `FatDriver`, `FatRuns`, `FatContents`): cluster chains in
  copies of one table. Runs of open, read, write, seek and close over any number of files answer as a
  table of byte strings with one number of free clusters does, and files survive closing and opening
  again.
- **Overlays** (`Crc`, `OverlayFormat`, `OverlayDocument`, `OverlayMeaning`, `OverlayCollector`,
  `OverlayCompile`, `OverlayTree`, `OverlayLoader`): what a document says is collected, packed, checked
  and loaded into the kernel's tree, and comes out as what went in.
- **Search tree of the C library** (`SearchTree`, `TreeMemory`): pointer slots overwritten in memory,
  refining a set of keys.

`Bytes` and `Arithmetic` hold what several of them share. What the source changes in place is a class
here, whose methods are proved against functions of the state; the properties are lemmas about those
functions. `dafny verify dfyconfig.toml` checks the whole project.

## Where the code does not keep what it is for

Some of these properties do not hold of the code as it stands. In each case the code is modelled as it
is, a concrete input shows the failure where one is not plain from the condition, and the exact
condition is proved.

| what fails | exact condition |
|---|---|
| the paint loop can pass over a window | `Painting.DrawsAllIffNoClash`, shown by `Compositor.FocusHidesWindow` |
| the paint loop never ends | `Painting.PaintLoopEndsIff` |
| a repaint reads past a client's pixels | `Painting.ReadsInsideIff` |
| a full damage ring forgets damage | `Compositor.QueueKeepsDamageIff` |
| marking a surface dirty damages the wrong place | `Compositor.MarkDirtyCoversIff` |
| a destroyed surface stays on the screen | `Compositor.DestroyKeepsCleanIff`, shown by `Compositor.DestroyedStaysOnScreen` |
| an ext4 write that runs out of space leaves bytes behind the end, which a later gap shows | `Ext4Handle.FailedWriteKeepsTailIff`, shown by `Ext4FullVolume.GapShowsFailedWrite` |
| so does a FAT write | `FatContents.WriteNeatIff`, shown by `FatContents.CutShortRun` and `FatContents.SpoiledFiles` |
| an ext4 write or truncation that runs out of space loses the blocks it has taken | `Ext4Runs.WriteLosesIff`, `Ext4Runs.GrowthLosesIff`, shown by `Ext4FullVolume.RunOut` |
| growing an ext4 file by 4 GiB or more never ends | `Ext4Handle.StallsIff` |
| the last 32-bit block of an ext4 file can be mapped but never found again | `Ext4Extents.LastBlockUnreachable` |
| an ext4 rename inside a full directory loses the name | `Ext4DirMap.RenamedEntryMap`, `Ext4Mount.SaneIff`, shown by `Ext4FullDirectory.FullDirectoryRun` |
| removing "a/." frees a directory that its parent still names | `Ext4Names.RmdirConsistentIff`, shown by `Ext4Namespace.RmdirDotRun` |
| a symlink, link or rename under a file is accepted and names nothing | `Ext4Names.CreateConsistentIff`, `Ext4Names.LinkConsistentIff`, `Ext4Names.RenameConsistentIff`, shown by `Ext4Namespace.SymlinkUnderFileRun` |
| the 16-bit link count wraps | `Ext4Names.MkdirConsistentIff`, `Ext4Names.LinkConsistentIff`, shown by `Ext4Namespace.LinkCountRun` |
| dup, dup2 and cloning lose a reference, and the object is never closed | `FdTable.DupSoundIff`, `FdTable.Dup2SoundIff`, `FdTable.CloneSoundIff`, then `FdTable.LostReferenceNeverCloses` |
| dup2 onto the owner of the same object leaves a descriptor that comes to read another file | `FdTable.Dup2SoundIff`, shown by `FdTable.Dup2OntoOwnerReadsAnother` |
| a task slot is taken while its last task is being released | `Scheduler.SpawnKeepsIff`, shown by `Scheduler.ReusedSlotOnTwoCores` |
| a task finishes on another core than it began on, or after a nested dispatch | `Scheduler.ExitKeepsIff`, shown by `Scheduler.MigratedTaskGoesAstray` and `Scheduler.SpentContextGoesAstray` |
| an allocation size wraps and the block is too small | `KernelHeap.TotalHoldsIff` |
| an empty FAT write past the last cluster leaves a file that cannot be read to its end | `FatContents.WriteWholeIff`, shown by `FatContents.PastClustersRun` and `FatContents.SpoiledFiles` |
| an overlay value is cut when loaded | `OverlayTree.LoadedExactIff` |

An ext4 write of nothing past the end grows the file as well, but keeps it readable
(`Ext4Runs.EmptyWriteGrows`).

## Model

| member | source | states |
|---|---|---|
| `Painting.IntersectPoints` | services/RADCompositor/RADCompositorCore.cpp:36-49 | The overlap of two rectangles holds exactly their common points, and is missing exactly when there are none. |
| `Painting.BlendStaysBetween` | services/RADCompositor/RADCompositorCore.cpp:59-74 | Each colour channel of a blend lies between those of the two pixels, and a blend onto an opaque pixel is opaque. |
| `Painting.BlendRounds` | services/RADCompositor/RADCompositorCore.cpp:59-74 | Each colour channel of a blend is the whole number nearest to the average of the two pixels' channels, weighted by the source's alpha; full alpha gives the source, alpha 0 the destination, and any other an opaque pixel. |
| `Painting.DrawsAllIffNoClash` | services/RADCompositor/RADCompositorCore.cpp:139-158 | The paint loop draws every visible surface that meets a rectangle if and only if no two of them clash: equal z, or a higher surface in a lower slot whose presence makes the scan skip the one standing at its restart value. |
| `Painting.PaintLoopEndsIff` | services/RADCompositor/RADCompositorCore.cpp:144-156 | The paint loop ends if and only if no visible surface that meets the rectangle has the largest 32-bit z, which its restart value would overflow. |
| `Painting.LayerIsPaint` | services/RADCompositor/RADCompositorCore.cpp:139-158 | Surfaces laid down in ascending z give, pixel for pixel, the recursive bottom-up picture of the surfaces that cover the point. |
| `Painting.DrawOrderPaintsScene` | services/RADCompositor/RADCompositorCore.cpp:139-158 | In a scene without clashes the loop, started on the clear colour, gives every point of the rectangle its colour in the full picture. |
| `Painting.TopDecidesPixel` | services/RADCompositor/RADCompositorCore.cpp:98-121 | Under an opaque top surface the picture shows that surface's own pixel; where nothing lies it shows the clear colour. |
| `Painting.TopShowsItsPixel` | services/RADCompositor/RADCompositorCore.cpp:98-121 | The pixel in row j and column i of the top surface's buffer shows j down and i right of its corner, blended over the picture below if the surface has alpha. |
| `Painting.ReadsInsideIff` | services/RADCompositor/RADCompositorCore.cpp:112-118 | Every point of the bounds is read inside the client's pixels if and only if the last row and column are. |
| `Painting.PaintThroughVeil` | services/RADCompositor/RADCompositorCore.cpp:98-121 | The picture with and without one surface, each as the surfaces above it laid over what is below. |
| `Painting.OpaqueVeils` | services/RADCompositor/RADCompositorCore.cpp:59-74 | Over a higher opaque surface it makes no difference what a lower one shows. |
| `Painting.ThinSheetsVeil` | services/RADCompositor/RADCompositorCore.cpp:59-74 | Two sheets that are each not quite opaque can hide what is below all the same, because a blend of nearly full opacity rounds to it. |
| `Compositor.QueueKeepsDamageIff` | services/RADCompositor/RADCompositorCore.cpp:271-297 | Queueing keeps every damaged point, old and new, if and only if the ring has room or the surface's bounds swallow every pending rectangle. |
| `Compositor.MarkDirtyCoversIff` | services/RADCompositor/RADCompositorCore.cpp:264-269 | The rectangle that marking a surface dirty queues covers the surface if and only if it sits at the origin. |
| `Compositor.PlacedPoints` | services/RADCompositor/RADCompositorCore.cpp:283-292 | Damage that is not exposed covers the points of its rectangle counted from the surface's corner. |
| `Compositor.Compositor.MarkSurfaceDirty` | services/RADCompositor/RADCompositorCore.cpp:264-269 | What is queued is the surface's bounds placed by those bounds once more. |
| `Compositor.DestroyKeepsCleanIff` | services/RADCompositor/RADCompositorCore.cpp:216-221 | Whatever its pixels were, destroying a surface leaves the undamaged part of the frame right if and only if wherever it covers that part the surfaces above let nothing through. |
| `Compositor.CoveredIsVeiled` | services/RADCompositor/RADCompositorCore.cpp:216-221 | That is so in particular when the surface is hidden, off the frame, or there under opaque higher ones. |
| `Compositor.DestroyedStaysOnScreen` | services/RADCompositor/RADCompositorCore.cpp:216-221 | Create, submit, compose, destroy: no surface is left, no damage is pending, and the frame still shows the surface. |
| `Compositor.FocusHidesWindow` | services/RADCompositor/RADCompositorCore.cpp:188-253 | Three windows created and two focus calls: all three meet a rectangle and the paint loop does not draw all of them. |
| `Compositor.Compositor.CopyForwardRect` | services/RADCompositor/RADCompositorCore.cpp:76-96 | Without a frontbuffer a rectangle is cleared and nothing outside it changes. |
| `Compositor.Compositor.BlitSurfaceRect` | services/RADCompositor/RADCompositorCore.cpp:98-121 | Inside the rectangle every pixel becomes the surface laid over what was there; outside nothing changes. |
| `Compositor.Compositor.SelectNext` | services/RADCompositor/RADCompositorCore.cpp:146-153 | The slot chosen by one scan of the table. |
| `Compositor.Compositor.DrawSurfacesForRect` | services/RADCompositor/RADCompositorCore.cpp:139-158 | The rectangle is left with the surfaces of the drawing order laid over it, first to last, and the rest of the frame as it was. |
| `Compositor.Compositor.RepaintRect` | services/RADCompositor/RADCompositorCore.cpp:318-323 | Inside the rectangle the frame shows the surfaces that the loop draws over the clear colour, which in a scene without clashes is the full bottom-up picture; outside it is untouched. |
| `Compositor.Compositor.ComposeFrame` | services/RADCompositor/RADCompositorCore.cpp:309-335 | What is presented is the in-frame part of each pending rectangle, in order; every point shows what was drawn for the last of them over it, and the others are as they were. If every pixel outside the pending damage was right, then after composing a scene without clashes every pixel of the frame is. No damage is pending, and no surface that was drawn for is dirty. |
| `Compositor.Compositor.QueueDamage` | services/RADCompositor/RADCompositorCore.cpp:271-297 | Which rectangle is queued, where it is placed, what an overflow leaves, and that a refused call queues nothing. |
| `Compositor.Compositor.QueueFull` | services/RADCompositor/RADCompositorCore.cpp:127-137 | Queueing a changed surface's footprint makes a frame that was clean for the old table clean for the new one, while the ring has room. |
| `Compositor.Compositor.CreateSurface` | services/RADCompositor/RADCompositorCore.cpp:188-214 | The new surface takes the first free slot and the next id; a clean frame stays clean, a refused call changes nothing. |
| `Compositor.Compositor.DestroySurface` | services/RADCompositor/RADCompositorCore.cpp:216-221 | Exactly one slot is cleared and nothing is queued; a clean frame stays clean if the surface was veiled outside the damage. |
| `Compositor.Compositor.SetSurfaceBounds` | services/RADCompositor/RADCompositorCore.cpp:223-236 | Exactly the bounds change, and a clean frame stays clean while the ring has room for the old and the new footprint. |
| `Compositor.Compositor.SetSurfaceVisible` | services/RADCompositor/RADCompositorCore.cpp:255-262 | Exactly the visibility changes, and a clean frame stays clean. |
| `Compositor.Compositor.FocusSurface` | services/RADCompositor/RADCompositorCore.cpp:238-253 | The surface stands one above the highest z, alone has the focus, and a clean frame stays clean. |
| `Compositor.Compositor.SubmitSurfacePixels` | services/RADCompositor/RADCompositorCore.cpp:299-307 | Exactly the pixels and the stride change, and a clean frame stays clean. |
| `Compositor.Compositor.HitTest` | services/RADCompositor/RADCompositorCore.cpp:337-352 | The id of the first of the highest visible surfaces under the point and the point in its coordinates, or a miss when nothing covers it. |
| `Compositor.Compositor.HitAgreesWithScreen` | services/RADCompositor/RADCompositorCore.cpp:337-352 | On a composed frame an opaque hit is the pixel on the screen, and a miss shows the clear colour. |
| `Compositor.Compositor.HitIsInTheBuffer` | services/RADCompositor/RADCompositorCore.cpp:337-352 | The local point of an opaque hit is the row and column of the client's pixel that stands in the frame, in the row and column of the hit. |
| `Ext4Volume.FlipBalanced` | RADKernel/fs/ext4.cpp:352-404 | Taking or releasing one block keeps each group's free count equal to its clear bits and the superblock's equal to their sum, and moves just that block. |
| `Ext4Volume.Ledger.ToggleMovesOne` | RADKernel/fs/ext4.cpp:352-404 | Exactly one block changes hands. |
| `Ext4Volume.Ledger.ToggleTwice` | RADKernel/fs/ext4.cpp:498-513 | Releasing the block just taken restores bitmap and counters exactly. |
| `Ext4Volume.Volume.FindClearBit` | RADKernel/fs/ext4.cpp:361-365 | The first clear bit of a group that stands for a block of the volume, or none. |
| `Ext4Volume.Volume.AllocateBlock` | RADKernel/fs/ext4.cpp:352-383 | The lowest free block is taken and zeroed with the counters kept balanced; the call fails exactly when every block is in use, and then changes nothing. |
| `Ext4Volume.Volume.FreeBlock` | RADKernel/fs/ext4.cpp:385-404 | Exactly that block is released; a block that is free already, or out of range, changes nothing. |
| `Ext4Extents.FileBlockNumber` | RADKernel/fs/ext4.cpp:300-338 | The physical block of the first extent that holds the logical block, 0 for a hole. |
| `Ext4Extents.LastBlockUnreachable` | RADKernel/fs/ext4.cpp:300-327 | Logical block 2^32-1 can never be found again, because an extent holding it ends at 0. |
| `Ext4Extents.MergeAddsPair` | RADKernel/fs/ext4.cpp:474-482 | Growing an extent adds just the new pair to the map and keeps the list sorted and disjoint. |
| `Ext4Extents.InsertAddsPair` | RADKernel/fs/ext4.cpp:483-495 | So does inserting an extent in order. |
| `Ext4Extents.SetInodeBlock` | RADKernel/fs/ext4.cpp:469-496 | An unmapped block is mapped, in the first extent that it continues or else in a new one in order, and nothing else moves; it fails exactly when neither is possible. |
| `Ext4Space.WithBlockAdds` | RADKernel/fs/ext4.cpp:469-496 | The list that this leaves maps just that pair more. |
| `Ext4Space.NoneFree` | RADKernel/fs/ext4.cpp:352-383 | The superblock counts no free block exactly when there is none to take. |
| `Ext4Space.MapRangeSplits` | RADKernel/fs/ext4.cpp:498-513 | Mapping a range of blocks one after another is mapping its first part and then the rest. |
| `Ext4Space.MapRangeMaps` | RADKernel/fs/ext4.cpp:498-513 | The blocks of a range up to where the mapping stops are mapped, no other block moves, and it stops at a hole. |
| `Ext4Space.MapRangeTakes` | RADKernel/fs/ext4.cpp:352-513 | That takes one free block for each hole; it stops for want of memory exactly when those holes took all there was, and otherwise because the extent list has no place. |
| `Ext4Space.FilledMore` | RADKernel/fs/ext4.cpp:569-591 | A write and the one behind it get exactly as far as both in one. |
| `Ext4Space.KeptWhenStopped` | RADKernel/fs/ext4.cpp:648-658 | A growth in chunks fails in the chunk that holds the first block that cannot be mapped, and what was grown before it lasts. |
| `Ext4Extents.KeepRestricts` | RADKernel/fs/ext4.cpp:593-628 | What truncation leaves of an extent list is the map restricted to the lower logical blocks. |
| `Ext4File.NoDoubleMapping` | RADKernel/fs/ext4.cpp:498-513 | No physical block is mapped by two (inode, logical block) pairs, and every mapped block has its bit set. |
| `Ext4File.GivenIsHarmless` | RADKernel/fs/ext4.cpp:498-513 | Mapping a zeroed block where a hole was leaves every byte of every file as it was. |
| `Ext4File.EnsureInodeBlock` | RADKernel/fs/ext4.cpp:498-513 | Finds or makes the block: a hole takes the lowest free block, and the call fails exactly when there is none or the extent list has no place for it; then bitmap, counters and map are as before. The content of every file is kept. |
| `Ext4File.ChunkWritten` | RADKernel/fs/ext4.cpp:569-591 | Bytes stored in one mapped block appear in this file at their offset and nowhere else. |
| `Ext4File.WriteChunk` | RADKernel/fs/ext4.cpp:569-591 | One step of a write shows the chunk at its offset, or nothing at all exactly when its block cannot be mapped, with every other byte and file untouched. |
| `Ext4File.WriteInodeDataGrow` | RADKernel/fs/ext4.cpp:569-591 | Whether a write succeeds, what it takes and how many bytes are stored is fixed by the free blocks and the holes beforehand. On success the file shows the data at the offset and covers it; on failure exactly that part was stored, and size and inode table are unchanged; other files are untouched either way. |
| `Ext4File.ReadInodeData` | RADKernel/fs/ext4.cpp:515-545 | Exactly the bytes of the file from the offset on, up to its size, holes reading as zero. |
| `Ext4File.BlocksInOrder` | RADKernel/fs/ext4.cpp:515-545 | The kth block's worth of a file is the physical block that its extents give, byte for byte, or zeros. |
| `Ext4Handle.FreeInodeBlocks` | RADKernel/fs/ext4.cpp:593-628 | Exactly the blocks mapped from the cut on are freed, the sector count follows, and every other file keeps its blocks and bytes. |
| `Ext4Handle.ReleasedConserves` | RADKernel/fs/ext4.cpp:593-628 | Releasing the tail of a file gives back its own blocks only: what is in use besides the file is the same. |
| `Ext4Handle.Shrink` | RADKernel/fs/ext4.cpp:630-647 | Bytes below the new size are kept, all bytes from it on read as zero. |
| `Ext4Handle.Grow` | RADKernel/fs/ext4.cpp:648-658 | The file grows by zeros only; whether by all of them, and how much of the padding lasts in the table otherwise, is fixed beforehand. |
| `Ext4Handle.StallsIff` | RADKernel/fs/ext4.cpp:651-657 | The growth loop asks for a chunk of length 0, and so never ends, if and only if it must grow by 4 GiB or more. |
| `Ext4Handle.TruncateInode` | RADKernel/fs/ext4.cpp:630-662 | The byte sequence is cut, or padded with zeros, and bytes past the end are zero afterwards; only a growth can fail, exactly when a block that it needs cannot be mapped. |
| `Ext4Handle.WriteSplices` | RADKernel/fs/ext4.cpp:569-591 | After a successful write the sequence is the old one with the data spliced in, gaps zero, and bytes past the size still zero. |
| `Ext4Handle.FailedWriteKeepsTailIff` | RADKernel/fs/ext4.cpp:569-591 | After a failed write the bytes past the size are zero if and only if every byte that found a block there was, which the free blocks and the holes decide. |
| `Ext4Handle.FailedWriteShows` | RADKernel/fs/ext4.cpp:569-591 | Below the size the file then shows the part that was stored. |
| `Ext4Handle.Handle.Read` | RADKernel/fs/ext4.cpp:912-920 | A read returns the sequence's bytes at the position and moves the position by as many. |
| `Ext4Handle.Handle.Write` | RADKernel/fs/ext4.cpp:922-934 | A successful write splices the data in at the position, or at the end when appending. It fails exactly when a block cannot be mapped, answers that nothing was written, and leaves the part that was stored. |
| `Ext4Handle.Handle.Seek` | RADKernel/fs/ext4.cpp:940-950 | The position moves from start, position or end; a negative target is refused and nothing changes. |
| `Ext4Runs.Perform` | RADKernel/fs/ext4.cpp:869-950 | One read, write, seek or truncation does to the file what it does to a sequence of bytes and a position. It stops exactly when it is a write or growth one of whose blocks cannot be mapped; then the bytes it leaves are given, blocks are lost exactly when a hole was filled, and other files are as before. |
| `Ext4Runs.Replay` | RADKernel/fs/ext4.cpp:498-662 | A run of any length answers as the sequence of bytes does and leaves what it leaves, exactly as far as the first write or growth that needs a block which cannot be mapped; all along other files keep their bytes, and the blocks in use besides this file's are the same. |
| `Ext4Runs.ReachedIs` | RADKernel/fs/ext4.cpp:498-662 | Where a run stops the file holds what the operations before made of its bytes, and the next one is one that stops. |
| `Ext4Runs.LosesIff` | RADKernel/fs/ext4.cpp:569-662 | Blocks in use are accounted for by the stored extent list exactly when no hole of it was filled in the driver's copy. |
| `Ext4Runs.WriteLosesIff` | RADKernel/fs/ext4.cpp:569-591 | A write that fails loses blocks if and only if there is a hole before the block that could not be mapped. |
| `Ext4Runs.GrowthLosesIff` | RADKernel/fs/ext4.cpp:648-658 | A growth that fails loses blocks if and only if there is a hole between the part that lasts and that block. |
| `Ext4Runs.WrittenReadsBack` | RADKernel/fs/ext4.cpp:912-950 | What a write puts in, a seek back and a read return. |
| `Ext4Runs.CutThenGrown` | RADKernel/fs/ext4.cpp:630-662 | A file cut and grown again keeps what was below the cut and shows zeros above it. |
| `Ext4Runs.ReadsJoin` | RADKernel/fs/ext4.cpp:515-545 | Two reads in a row give what one read of both lengths gives: the bytes from the position on, as far as the file goes. |
| `Ext4Runs.ReadAgain` | RADKernel/fs/ext4.cpp:912-950 | After a seek back by what was read, the file and the position are as before. |
| `Ext4Runs.WrittenBehind` | RADKernel/fs/ext4.cpp:922-950 | A write after a seek to the end, or through a handle that appends, puts the bytes behind the file. |
| `Ext4Runs.SeeksTo` | RADKernel/fs/ext4.cpp:922-950 | A seek counts from the start, the position or the end; a negative target, and a write without the right, are refused and change nothing. |
| `Ext4Runs.EmptyWriteGrows` | RADKernel/fs/ext4.cpp:569-591 | A write of nothing past the end never stops, takes no block and grows the file. |
| `Ext4FullVolume.SecondHoleStops` | RADKernel/fs/ext4.cpp:352-383 | With one block free, mapping two holes in turn stops at the second. |
| `Ext4FullVolume.RunOut` | RADKernel/fs/ext4.cpp:569-662 | On a volume with one free block, a write of 1025 bytes and a growth to 2048 each fail and lose that block. |
| `Ext4FullVolume.GapShowsFailedWrite` | RADKernel/fs/ext4.cpp:569-591 | There a failed write leaves its bytes behind the end, and the gap before a byte written later shows them. |
| `RecordChain.RewriteLocal` | RADKernel/fs/ext4.cpp:719-776 | When only one record's bytes are rewritten, the chain still covers the block exactly and only that record's entries change. |
| `RecordChain.SplitGains` | RADKernel/fs/ext4.cpp:745-758 | Cutting a record and using its slack adds one entry and keeps the tiling. |
| `RecordChain.ReusedGains` | RADKernel/fs/ext4.cpp:736-744 | Giving an unused record a name adds one entry and keeps the tiling. |
| `RecordChain.ClearedLoses` | RADKernel/fs/ext4.cpp:778-807 | Clearing a record takes away one entry and keeps the tiling. |
| `Ext4DirBlock.RecordReads` | RADKernel/fs/ext4.cpp:748-754 | A stored record reads back, and the bytes around it are untouched. |
| `Ext4DirBlock.RecordBytes` | RADKernel/fs/ext4.cpp:736-742 | A record is the inode number, its own length, the length of the name, the type and the name, words lowest byte first. |
| `Ext4DirBlock.WithNameGains` | RADKernel/fs/ext4.cpp:731-760 | First fit within a block lists the name exactly when some record has room, and otherwise leaves the block alone; the records still tile it. |
| `Ext4DirBlock.PositionFinds` | RADKernel/fs/ext4.cpp:680-690 | The position found for a name is where the block lists it, and none is found exactly when it does not. |
| `Ext4DirBlock.CutReads` | RADKernel/fs/ext4.cpp:745-758 | The record cut short keeps its entry, the slack behind it reads as the new one, and no byte outside the record changes. |
| `Ext4DirBlock.FindEntry` | RADKernel/fs/ext4.cpp:680-690 | A live record of that name, or proof that the block lists no such name. |
| `Ext4DirBlock.ClearEntry` | RADKernel/fs/ext4.cpp:793-801 | The block still tiles and its listing has lost exactly that entry. |
| `Ext4DirBlock.InsertEntry` | RADKernel/fs/ext4.cpp:731-760 | First fit within a block: it succeeds exactly when some record has room, the block still tiles and its listing gains exactly the entry. |
| `Ext4DirBlock.OnlyDots` | RADKernel/fs/ext4.cpp:809-829 | Exactly whether the block lists nothing but "." and "..". |
| `Ext4DirBlock.DotsBlock` | RADKernel/fs/ext4.cpp:1038-1050 | The first block of a new directory tiles and lists "." and "..". |
| `Ext4DirMap.GainedMap` | RADKernel/fs/ext4.cpp:719-776 | An entry gained under an absent name is one pair more in the map. |
| `Ext4DirMap.LostMap` | RADKernel/fs/ext4.cpp:778-807 | An entry lost is one pair less. |
| `Ext4DirMap.WithEntryAdds` | RADKernel/fs/ext4.cpp:719-776 | Adding an absent name to the blocks, in the first with room or in a new one, adds just that pair to the map. |
| `Ext4DirMap.WithoutEntryDrops` | RADKernel/fs/ext4.cpp:778-807 | Clearing the first record of a name takes just that pair from the map. |
| `Ext4DirMap.RenamedEntryMap` | RADKernel/fs/ext4.cpp:1148-1150 | Adding through one copy of the directory inode and removing through an older one keeps the new name if and only if it fits a block that the directory had; in a full directory the name is lost. |
| `Ext4DirMap.CrowdedIsFull` | RADKernel/fs/ext4.cpp:731-760 | A block whose names and the new one need more bytes than it has has no room for it. |
| `Ext4Directory.AddDirent` | RADKernel/fs/ext4.cpp:719-776 | The directory's blocks on the volume become those of `WithEntry`, so an absent name adds just that pair, in an existing block exactly when one has room. The call fails exactly when none has and a new one cannot be mapped, and then changes neither map nor table. |
| `Ext4Directory.RemoveDirent` | RADKernel/fs/ext4.cpp:778-807 | The blocks become those of `WithoutEntry`: just that pair goes, and the call fails exactly when the name is absent. |
| `Ext4Directory.LookupChild` | RADKernel/fs/ext4.cpp:668-694 | Looking a name up gives exactly the map's answer. |
| `Ext4Directory.DirIsEmpty` | RADKernel/fs/ext4.cpp:809-829 | A directory is empty exactly when the map holds no name but "." and "..". |
| `Ext4Directory.InitDirectory` | RADKernel/fs/ext4.cpp:1032-1053 | A new directory's map is "." to itself and ".." to its parent; the call fails exactly when its first block cannot be mapped. |
| `Ext4Directory.RenameWithin` | RADKernel/fs/ext4.cpp:1123-1153 | On the volume, renaming inside one directory leaves the blocks of `RenamedEntry`: the new name is there if and only if it fitted an existing block, and otherwise the block it went to is lost. The call fails, and then changes no map, exactly when adding the new name does. |
| `Ext4Names.CreateConsistentIff` | RADKernel/fs/ext4.cpp:1185-1221 | Creating a file or symlink keeps link counts and tree consistent exactly when the parent is a directory. |
| `Ext4Names.MkdirConsistentIff` | RADKernel/fs/ext4.cpp:1017-1064 | mkdir does so exactly while the parent's 16-bit link count has room. |
| `Ext4Names.LinkConsistentIff` | RADKernel/fs/ext4.cpp:1223-1244 | A hard link does so exactly when its parent is a directory and the link count has room. |
| `Ext4Names.RemoveConsistent` | RADKernel/fs/ext4.cpp:1066-1093 | Unlinking always does, and frees the inode exactly when its last name goes. |
| `Ext4Names.RmdirConsistentIff` | RADKernel/fs/ext4.cpp:1095-1121 | rmdir does so exactly when the directory was not named as "." or "..". |
| `Ext4Names.RenameConsistentIff` | RADKernel/fs/ext4.cpp:1123-1153 | rename does so exactly when the old name is not a dot name, the new parent is a directory and, in one directory, the new entry fits; when it fits is settled by `Ext4Mount.MovedTree`. |
| `Ext4Namespace.RefusesIff` | RADKernel/fs/ext4.cpp:869-1244 | An operation leaves the tree alone exactly when one of its guards refuses it. |
| `Ext4Namespace.StepSafeIff` | RADKernel/fs/ext4.cpp:1017-1244 | Any operation keeps the tree consistent exactly when one of its guards refuses it or it meets a condition checkable beforehand. |
| `Ext4Namespace.RunGoodIffSafe` | RADKernel/fs/ext4.cpp:1017-1244 | Every state of a run of any length on the tree is consistent exactly when each operation is refused or safe where it comes, whatever the room in the directories. |
| `Ext4Namespace.LiveIffNamed` | RADKernel/fs/ext4.cpp:1066-1121 | In a consistent tree an inode is live exactly while some entry names it. |
| `Ext4Namespace.OthersResolve` | RADKernel/fs/ext4.cpp:831-857 | A path that does not pass an entry which the operation takes away still resolves to the same inode. |
| `Ext4Namespace.RmdirDotRun` | RADKernel/fs/ext4.cpp:1095-1121 | Making "a" and removing "a/." leaves the root naming a freed directory. |
| `Ext4Namespace.SymlinkUnderFileRun` | RADKernel/fs/ext4.cpp:1185-1221 | Made from an empty volume, a file "a" and a symlink "a/b" leave an inode that no directory names. |
| `Ext4Namespace.LinkCountRun` | RADKernel/fs/ext4.cpp:1223-1243 | From an empty volume, a file takes 65534 more names; with one more its count is back at 0. |
| `Ext4Paths.WalkMeans` | RADKernel/fs/ext4.cpp:831-857 | A walk finds the inode that a trail of directory entries leads to, "." staying in place; it fails exactly when there is none, with the reason of the component that it cannot pass. |
| `Ext4Paths.CreateAnswers` | RADKernel/fs/ext4.cpp:869-910 | Creating a file answers Ok and leaves the tree alone where the path leads to one, and an error where it leads to something else; else a path that cannot be walked, want of an inode and want of room are answered in this order. |
| `Ext4Paths.Answers` | RADKernel/fs/ext4.cpp:1017-1244 | Every other operation answers the status of the first of its guards that holds, over paths, kinds and entries. |
| `Ext4Paths.RefusedIsNotOk` | RADKernel/fs/ext4.cpp:1017-1244 | None of them answers Ok without changing the tree. |
| `Ext4Paths.CreateMakes` | RADKernel/fs/ext4.cpp:874-892 | A path that was created leads to a new regular file, of the lowest number that was free, and its entry is the only one that has come. |
| `Ext4Paths.SymlinkMakes` | RADKernel/fs/ext4.cpp:1185-1221 | So does that of a symlink, to a symlink. |
| `Ext4Paths.MkdirMakes` | RADKernel/fs/ext4.cpp:1017-1064 | So does that of a directory, to a directory with "." and "..". |
| `Ext4Paths.LinkLeads` | RADKernel/fs/ext4.cpp:1223-1244 | After a link both paths lead to the one inode, and one entry has come. |
| `Ext4Paths.RemoveLeaves` | RADKernel/fs/ext4.cpp:1066-1093 | After an unlink the path leads nowhere, no other entry has gone, and the inode has gone exactly if no other entry names it. |
| `Ext4Paths.RmdirLeaves` | RADKernel/fs/ext4.cpp:1095-1121 | After an rmdir the path leads nowhere, and exactly the directory has gone, with its own two entries and the one that named it. |
| `Ext4Paths.RenameLeads` | RADKernel/fs/ext4.cpp:1123-1153 | After a rename the new path leads where the old one did, the old one leads nowhere, and no other entry has come or gone. |
| `Ext4Paths.OneDepth` | RADKernel/fs/ext4.cpp:831-857 | In a consistent tree all paths to a directory are equally long, "." aside. |
| `Ext4Mount.MovedTree` | RADKernel/fs/ext4.cpp:1148-1150 | A rename on the blocks is the rename of the tree in which the name fits exactly when the directory is not full. |
| `Ext4Mount.AfterIsStep` | RADKernel/fs/ext4.cpp:719-1244 | For every operation, the inodes and blocks it leaves hold exactly the tree that the operation makes of the names, with the room read from the directory's records. |
| `Ext4Mount.SaneIff` | RADKernel/fs/ext4.cpp:869-1244 | One operation keeps inodes and blocks consistent exactly when a guard refuses it or it is safe; for a rename in one directory, when that is not full. |
| `Ext4Mount.RunSaneIff` | RADKernel/fs/ext4.cpp:869-1244 | The same along runs of any length, from the blocks alone and the block layer's answers. |
| `Ext4Mount.RunIsTreeRun` | RADKernel/fs/ext4.cpp:869-1244 | Such a run is a run of the tree with the room that the blocks had. |
| `Ext4Mount.FullLosesName` | RADKernel/fs/ext4.cpp:1123-1153 | A rename within a full directory answers that it is done and leaves the inode without that name. |
| `Ext4FullDirectory.TailTakes` | RADKernel/fs/ext4.cpp:731-760 | In a block filled from the front the next name goes behind the last one while the slack lasts. |
| `Ext4FullDirectory.FullDirectoryRun` | RADKernel/fs/ext4.cpp:869-1153 | On a new volume of 1024-byte blocks, seven files with long names fill the root's block, and renaming one of them then loses it. |
| `Ext4Mount.Namespace.FindChild` | RADKernel/fs/ext4.cpp:668-694 | Searching the blocks gives the answer of the name map. |
| `Ext4Mount.Namespace.LookupPath` | RADKernel/fs/ext4.cpp:831-857 | A path resolves as the walk through the maps that the blocks hold. |
| `Ext4Mount.Namespace.AllocateInode` | RADKernel/fs/ext4.cpp:406-442 | The lowest free number from the first usable one on, or failure exactly when there is none. |
| `Ext4Mount.Namespace.FreeInode` | RADKernel/fs/ext4.cpp:444-467 | Exactly that inode goes, with its blocks; reserved numbers and numbers past the last are refused. |
| `Ext4Mount.Namespace.AddDirent` | RADKernel/fs/ext4.cpp:719-776 | The entry goes to the first block with room, else to a new block if one can be had, else the block layer's error is returned and nothing changes. |
| `Ext4Mount.Namespace.RemoveDirent` | RADKernel/fs/ext4.cpp:778-807 | The entry is cleared within the blocks that the caller's copy of the inode knows, and the directory is left with those. |
| `Ext4Mount.Namespace.DirIsEmpty` | RADKernel/fs/ext4.cpp:809-829 | No block lists a name but "." and "..". |
| `Ext4Mount.Namespace.Place` | RADKernel/fs/ext4.cpp:874-892 | An inode claimed for a name is given back when its content or its entry cannot be stored. |
| `Ext4Mount.Namespace.PlaceDir` | RADKernel/fs/ext4.cpp:1028-1062 | So is one claimed for a directory, whose own block comes first. |
| `Ext4Mount.Namespace.Open` | RADKernel/fs/ext4.cpp:869-910 | Opening with creation is the create step, and never breaks the tree; where the path leads to an inode it changes nothing and succeeds exactly when that is a regular file. |
| `Ext4Mount.Namespace.SymlinkAt` | RADKernel/fs/ext4.cpp:1185-1221 | The symlink step; the tree stays consistent exactly when the parent is a directory. |
| `Ext4Mount.Namespace.MakeDir` | RADKernel/fs/ext4.cpp:1017-1064 | The mkdir step; the tree stays consistent exactly while the parent's link count has room. |
| `Ext4Mount.Namespace.HardLink` | RADKernel/fs/ext4.cpp:1223-1244 | The link step, with the exact condition under which the tree stays consistent. |
| `Ext4Mount.Namespace.RemoveFile` | RADKernel/fs/ext4.cpp:1066-1093 | The unlink step, which never breaks the tree. |
| `Ext4Mount.Namespace.RemoveDir` | RADKernel/fs/ext4.cpp:1095-1121 | The rmdir step, which keeps the tree exactly when the path does not end in a dot name. |
| `Ext4Mount.Namespace.RenamePath` | RADKernel/fs/ext4.cpp:1123-1153 | The rename on the blocks, through a newer and an older copy of the parent, with the exact condition under which inodes and blocks stay consistent. |
| `Ext4EntryTypes.TypesTell` | RADKernel/fs/ext4.cpp:719-776 | Along every run that stays consistent the type byte of each directory record tells the kind of the inode that it names. |
| `Ext4EntryTypes.TypesTellFromNew` | RADKernel/fs/ext4.cpp:719-776 | So they do from a new volume on. |
| `Ext4EntryTypes.TypeCodes` | RADKernel/fs/ext4.cpp:269-273 | The byte is 1 for a file, 2 for a directory and 7 for a symlink. |
| `FdTable.CloseKeepsSound` | RADKernel/core/RADKernel_runtime.cpp:1405-1438 | Closing a descriptor keeps "owners own themselves and count their group", promotion of an alias included. |
| `FdTable.CloseShows` | RADKernel/core/RADKernel_runtime.cpp:1405-1438 | The table then shows the same (pid, fd) to object map less the one name. |
| `FdTable.ShowsOne` | RADKernel/core/RADKernel_runtime.cpp:1440-1450 | The map that a table shows is one. |
| `FdTable.FinalIffLast` | RADKernel/core/RADKernel_runtime.cpp:1405-1438 | The object is closed exactly when its last name goes, and never while a surplus reference is counted on it. |
| `FdTable.FindResolves` | RADKernel/core/RADKernel_runtime.cpp:1440-1450 | Searching the slots answers from the map: the process's own descriptor, else a global one. |
| `FdTable.LowestIsLeast` | RADKernel/core/RADKernel_runtime.cpp:1490-1498 | The candidate loop finds the least number that the map leaves free. |
| `FdTable.OpenInstalls` | RADKernel/core/RADKernel_runtime.cpp:1487-1514 | Opening shows the object at the lowest free number; without a number or a slot the table is left alone. |
| `FdTable.DupSoundIff` | RADKernel/core/RADKernel_runtime.cpp:5974-5985 | dup shows the same object at the lowest free number; the table is sound afterwards exactly when there was a number and a slot, otherwise one reference is lost. |
| `FdTable.Dup2SoundIff` | RADKernel/core/RADKernel_runtime.cpp:5987-6000 | dup2 replaces what the target meant; the table is sound afterwards exactly when the target is in range, a slot is free or freed, and the target does not own the same object. Without range or slot it fails and an owner is left counting one reference too many; onto the owner it answers as if it had worked. |
| `FdTable.OntoOwnerStrays` | RADKernel/core/RADKernel_runtime.cpp:1405-1514 | dup2 onto the owner leaves the target pointing at the slot that was freed. |
| `FdTable.Dup2OntoOwnerReadsAnother` | RADKernel/core/RADKernel_runtime.cpp:5987-6000 | Once something is opened into that slot, the target reads and writes it instead of its own object. |
| `FdTable.CloneSoundIff` | RADKernel/core/RADKernel_runtime.cpp:5049-5066 | Cloning into a fresh child gives it the parent's map exactly when there are slots for all of it; otherwise it fails and an owner is left counting one reference too many. |
| `FdTable.LostReferenceNeverCloses` | RADKernel/core/RADKernel_runtime.cpp:1363-1403 | Once an owner counts a reference too many, as after a dup, dup2 or clone that failed, no sequence of closes closes the object. |
| `FdRuntime.PipeBoth` | RADKernel/core/RADKernel_runtime.cpp:5598-5612 | A new pipe record counts one reader and one writer. |
| `FdRuntime.ReleaseMatches` | RADKernel/core/RADKernel_runtime.cpp:1375-1383 | A pipe record keeps counting its open ends, and is cleared with the second. |
| `FdRuntime.Runtime.FindFdSlot` | RADKernel/core/RADKernel_runtime.cpp:1440-1450 | The slot that the search specification names. |
| `FdRuntime.Runtime.Promote` | RADKernel/core/RADKernel_runtime.cpp:1424-1434 | Object, count and all other aliases move to the promoted slot. |
| `FdRuntime.Runtime.CloseFdRecord` | RADKernel/core/RADKernel_runtime.cpp:1363-1403 | With references left the slot only loses its name; without, the object is closed and a pipe end leaves its pipe. |
| `FdRuntime.Runtime.CloseFdIndex` | RADKernel/core/RADKernel_runtime.cpp:1405-1438 | The whole close of one slot: the table, the objects closed and the pipe records afterwards. |
| `FdRuntime.Runtime.CloseFd` | RADKernel/core/RADKernel_runtime.cpp:5465-5470 | Exactly the name goes, and exactly the objects no longer named are closed. |
| `FdRuntime.Runtime.InstallRecord` | RADKernel/core/RADKernel_runtime.cpp:1487-1514 | A record goes to the first free slot at the number asked for, closing what the process had there. |
| `FdRuntime.Runtime.OpenFd` | RADKernel/core/RADKernel_runtime.cpp:5440-5463 | Opening serves the map; everything opened is shown or closed afterwards if and only if there was room. |
| `FdRuntime.Runtime.DupFd` | RADKernel/core/RADKernel_runtime.cpp:5974-5985 | dup serves the map whenever there is room, and otherwise leaves the table unsound with the map unchanged. |
| `FdRuntime.Runtime.Dup2Fd` | RADKernel/core/RADKernel_runtime.cpp:5987-6000 | dup2 serves the map, closing what it replaces with its last name, exactly under the condition of `Dup2SoundIff`. |
| `FdRuntime.Runtime.CloseProcessFds` | RADKernel/core/RADKernel_runtime.cpp:1459-1466 | Exactly the process's names go; the table stays sound and what was last named is closed. |
| `FdRuntime.Runtime.CloneProcessFds` | RADKernel/core/RADKernel_runtime.cpp:5049-5066 | The child gets the parent's map exactly when there are slots, and no object is closed. |
| `FdRuntime.Runtime.PipeCreate` | RADKernel/core/RADKernel_runtime.cpp:5598-5647 | Two new ends at the two lowest free numbers, counted by their pipe record; the call fails exactly when no pipe record is free or the process has no room for two names, and then changes no name. |
| `FdHosted.Hosted.FindEntry` | RADKernel/core/RADKernel.cpp:676-685 | The entry that resolves a number for a process, as the map says. |
| `FdHosted.Hosted.CloseEntry` | RADKernel/core/RADKernel.cpp:687-692 | The entry goes, the object's count falls, and the object is closed with its last entry. |
| `FdHosted.Hosted.CloseFd` | RADKernel/core/RADKernel.cpp:2554-2560 | Exactly the name goes, and exactly the objects no longer named are closed. |
| `FdHosted.Hosted.CloseProcessFds` | RADKernel/core/RADKernel.cpp:694-705 | Exactly the process's names go. |
| `FdHosted.Hosted.InstallAtNumber` | RADKernel/core/RADKernel.cpp:740-765 | The entry replaces the process's own at that number. |
| `FdHosted.Hosted.OpenFd` | RADKernel/core/RADKernel.cpp:2531-2552 | Opening serves the map; the books balance afterwards exactly when a number was free. |
| `FdHosted.Hosted.DupFd` | RADKernel/core/RADKernel.cpp:2941-2946 | dup serves the map; the books balance exactly when the call is refused or a number was free. |
| `FdHosted.Hosted.Dup2Fd` | RADKernel/core/RADKernel.cpp:2948-2955 | dup2 always serves the map and closes what it replaces with its last name. |
| `FdHosted.Hosted.CloneProcessFds` | RADKernel/core/RADKernel.cpp:2214-2234 | The child gets the parent's map. |
| `FdHosted.CountedIffShown` | RADKernel/core/RADKernel.cpp:654-674 | An object is counted exactly while some (pid, fd) shows it. |
| `FdHosted.SameService` | RADKernel/core/RADKernel.cpp:740-765 | Whatever the runtime table grants, the hosted table grants identically: the same map and the same answer. |
| `FdRuns.StepIsRight` | RADKernel/core/RADKernel_runtime.cpp:1405-1514 | Every call of open, close, dup, dup2, clone and exit keeps the books exactly when it is granted; it then answers from the map and closes, once each, what no name shows any more. |
| `FdRuns.ExitKept` | RADKernel/core/RADKernel_runtime.cpp:1459-1466 | Closing a process's descriptors slot by slot takes all of its names and no other, and closes what they named last. |
| `FdRuns.RunKeepsIff` | RADKernel/core/RADKernel_runtime.cpp:1405-1514 | Along any run the table stays sound and goes on showing the map, with every object accounted for, exactly when every call is granted. |
| `FdRuns.RunFromStartIff` | RADKernel/core/RADKernel_runtime.cpp:1405-1514 | The same from an empty table. |
| `FdRuns.RunAnswers` | RADKernel/core/RADKernel_runtime.cpp:1405-1514 | A run of granted calls answers from the map alone. |
| `FdRuns.ServiceMeans` | RADKernel/core/RADKernel_runtime.cpp:1405-1514 | What a call does to what processes find: open and dup use the least number from 3 on, dup and dup2 make the new number find what the old one does, close takes away the own descriptor or else the global one, cloning copies a process and exit empties it; the errors are those of what cannot be found or had. |
| `FdRuns.ClosesWithLastName` | RADKernel/core/RADKernel_runtime.cpp:1363-1438 | Each call of such a run closes exactly the objects whose last name it takes away, once each, and never takes a close back. |
| `FdRuns.ClosedExactlyOnce` | RADKernel/core/RADKernel_runtime.cpp:1363-1438 | An object opened once in the run has been closed exactly once if no name shows it, and not at all otherwise. |
| `FdRuns.Perform` | RADKernel/core/RADKernel_runtime.cpp:1405-1514 | Each call of the runtime leaves the table that the run step names, and the books with it when it is granted. |
| `FdRuns.Replay` | RADKernel/core/RADKernel_runtime.cpp:1405-1514 | The runtime's calls, one after another, are such a run. |
| `FdRuns.HostPerform` | RADKernel/core/RADKernel.cpp:676-765 | A hosted call answers from the map, closes what no name shows any more, and keeps the table valid exactly when a number is to be had. |
| `FdRuns.HostReplay` | RADKernel/core/RADKernel.cpp:676-765 | So does a run of hosted calls. |
| `FdRuns.ClosedAlong` | RADKernel/core/RADKernel_runtime.cpp:1363-1438 | What a run closes in all is what loses its last name along it. |
| `FdRuns.SameRuns` | RADKernel/core/RADKernel.cpp:654-765 | Whatever run the runtime table grants, the hosted table grants as well: the same map, the same objects closed, and the same answers but for dup2 of a number that is not open onto itself. |
| `Scheduler.StepKeepsIff` | RADKernel/core/RADKernel_runtime.cpp:3084-3177 | A single step of dispatch, yield, sleep, finish, release or task creation keeps the safety invariant exactly when it meets a condition visible beforehand. |
| `Scheduler.RunKeepsIff` | RADKernel/core/RADKernel_runtime.cpp:3084-3177 | Every state of an interleaving of any length on any number of cores keeps it exactly when each step does. |
| `Scheduler.InvIsSafety` | RADKernel/core/RADKernel_runtime.cpp:3103-3164 | What the invariant says: no task on two cores, a held task is marked running or on_cpu, no core astray, and a context about to be restored is a saved one. |
| `Scheduler.SwitchRestoresSaved` | RADKernel/core/RADKernel_runtime.cpp:3146-3150 | A task context is never restored before its previous save has completed. |
| `Scheduler.CarefulRunsAreSafe` | RADKernel/core/RADKernel_runtime.cpp:3084-3177 | Without dispatch inside a task, without reuse of a marked slot and with tasks finishing on their first core, every interleaving is safe. |
| `Scheduler.CarefulFromStart` | RADKernel/core/RADKernel_runtime.cpp:3084-3177 | In particular from the state at start. |
| `Scheduler.YieldMeans` | RADKernel/core/RADKernel_runtime.cpp:4111-4128 | A task that yields keeps its core and is choosable by none until it is released, and then by the cores that wanted it before, from the time they could. |
| `Scheduler.SleepMeans` | RADKernel/core/RADKernel_runtime.cpp:4142-4158 | Nor is one that sleeps choosable, and once its context is saved exactly the cores that wanted it can choose it, from the time it asked for. |
| `Scheduler.FinishMeans` | RADKernel/core/RADKernel_runtime.cpp:3090-3097 | A finished task is never chosen again, whatever becomes of its flags. |
| `Scheduler.ReleaseMeans` | RADKernel/core/RADKernel_runtime.cpp:3152-3163 | A released task is held by no core, its context is saved, and it is choosable exactly by the cores that want it, from its time on. |
| `Scheduler.StartInv` | RADKernel/core/RADKernel_runtime.cpp:3264-3268 | The state at start satisfies the invariant. |
| `Scheduler.SpawnKeepsIff` | RADKernel/core/RADKernel_runtime.cpp:4033-4060 | Taking a task slot is safe exactly when its on_cpu mark is clear, which the creation code does not check. |
| `Scheduler.SpawnMeans` | RADKernel/core/RADKernel_runtime.cpp:4033-4060 | A new task can be chosen at any time by its own core and by no other, or, without one of its own, by every core except the service core while workers run. |
| `Scheduler.ExitKeepsIff` | RADKernel/core/RADKernel_runtime.cpp:3084-3100 | Leaving a finished task is safe exactly on the core that first entered it, with its scheduler context unused. |
| `Scheduler.PickFindsIff` | RADKernel/core/RADKernel_runtime.cpp:3107-3126 | A selection finds a task exactly when some task matches the core, and then the one that comes first behind the last one chosen. |
| `Scheduler.EnterMeans` | RADKernel/core/RADKernel_runtime.cpp:3106-3150 | Chosen, marked and switched to, a task runs on top of its core, is what the core thinks is current, and is bound to the core if it never ran before; nothing else changes. |
| `Scheduler.LeaveMeans` | RADKernel/core/RADKernel_runtime.cpp:3150-3163 | Back in the scheduler that dispatched it, a task is saved and unmarked, one that has finished no longer runs, and the core goes on where it was; nothing else changes. |
| `Scheduler.YieldTurn` | RADKernel/core/RADKernel_runtime.cpp:3106-4128 | A whole turn from selection to release that ends in a yield leaves the task choosable by the same cores at the same times, and the core searching on behind it. |
| `Scheduler.SleepTurn` | RADKernel/core/RADKernel_runtime.cpp:3106-4158 | One that ends in a sleep leaves it choosable by the same cores from the time asked for. |
| `Scheduler.StepIsLocal` | RADKernel/core/RADKernel_runtime.cpp:3084-3177 | A step changes only its own core and its own task, but that a task which finishes clears what the core it began on thinks is current; only the clock step moves the clock. |
| `Scheduler.BoundedWaiting` | RADKernel/core/RADKernel_runtime.cpp:3106-3127 | A task that stays eligible is chosen within as many selections of its core as its cyclic distance and one more, hence within the number of task slots. |
| `Scheduler.MigratedTaskGoesAstray` | RADKernel/core/RADKernel_runtime.cpp:3084-3100 | From a state at start, a run in which a task moved to another core finishes into the first core's scheduler context. |
| `Scheduler.SpentContextGoesAstray` | RADKernel/core/RADKernel_runtime.cpp:4106-4136 | From a state at start with two cores, a dispatch nested in a contended yield uses up the scheduler context that the outer task finishes into. |
| `Scheduler.ReusedSlotOnTwoCores` | RADKernel/core/RADKernel_runtime.cpp:3103-3163 | From a state at start, a slot taken while its last task is being released ends with one task on two cores, one of them about to restore a context that is not saved. |
| `Scheduler.Kernel.SelectTask` | RADKernel/core/RADKernel_runtime.cpp:3106-3127 | The critical section of selection is the select step, and it finds a task exactly when one matches. |
| `Scheduler.Kernel.CreateTask` | RADKernel/core/RADKernel_runtime.cpp:4033-4060 | The first slot that is empty or finished is taken, exactly the cores that the target asks for can choose the new task, and the invariant is kept exactly when the on_cpu mark of the slot is clear. |
| `Scheduler.Kernel.MarkTask` | RADKernel/core/RADKernel_runtime.cpp:3135-3149 | A task that is switched to is marked on_cpu and has a saved context; the invariant is kept. |
| `Scheduler.Kernel.YieldTask` | RADKernel/core/RADKernel_runtime.cpp:4111-4128 | Yielding keeps the invariant; the core still holds the task, no core can choose it, and once unmarked exactly those that wanted it can. |
| `Scheduler.Kernel.SleepTask` | RADKernel/core/RADKernel_runtime.cpp:4142-4158 | Sleeping keeps the invariant; no core can choose the task, and once unmarked exactly those that wanted it can, from the time asked for. |
| `Scheduler.Kernel.FinishTask` | RADKernel/core/RADKernel_runtime.cpp:3090-3097 | Finishing keeps the invariant, and no core can choose the task again whatever its flags. |
| `Scheduler.Kernel.ReleaseTask` | RADKernel/core/RADKernel_runtime.cpp:3152-3163 | Releasing keeps the invariant; no core holds the task, its context is saved, and exactly the cores that want it can choose it from its time on. |
| `HeapLayout.LayoutIsUnique` | RADKernel/runtime/freestanding_runtime.cpp:88-115 | Which blocks are in use alone decides the whole coalesced block list. |
| `HeapLayout.SplitLays` | RADKernel/runtime/freestanding_runtime.cpp:96-104 | Splitting a block leaves headers that tile the same range. |
| `HeapLayout.JoinLays` | RADKernel/runtime/freestanding_runtime.cpp:106-115 | So does joining a block with its free neighbour. |
| `HeapLayout.JoinUsed` | RADKernel/runtime/freestanding_runtime.cpp:106-115 | Joining free neighbours changes nothing that is in use. |
| `HeapLayout.BlocksApart` | RADKernel/runtime/freestanding_runtime.cpp:96-115 | The data of one block never reaches another block. |
| `KernelHeap.TotalHoldsIff` | RADKernel/runtime/freestanding_runtime.cpp:117-121 | The block size asked for holds the tag, the alignment gap and the requested bytes exactly when the 64-bit sum does not wrap, and is then their sum rounded up to 64. |
| `KernelHeap.SupportedIff` | RADKernel/runtime/freestanding_runtime.cpp:119 | The alignments that are supported are the powers of two from 16 to 4096, by the test of the lowest set bit. |
| `KernelHeap.GrantsIff` | RADKernel/runtime/freestanding_runtime.cpp:117-142 | From a heap with nothing in use, requests of one size are granted exactly as long as one more block and its header fit into what the others leave. |
| `KernelHeap.LiveApart` | RADKernel/runtime/freestanding_runtime.cpp:127-138 | Live allocations never overlap, tags included. |
| `KernelHeap.LiveOffHeaders` | RADKernel/runtime/freestanding_runtime.cpp:127-138 | Nor does one overlap any block header. |
| `KernelHeap.Heap.SplitBlock` | RADKernel/runtime/freestanding_runtime.cpp:96-104 | The list of cells is split at exactly one place, and only when the rest holds a header and 64 bytes. |
| `KernelHeap.Heap.AllocateAligned` | RADKernel/runtime/freestanding_runtime.cpp:117-142 | A pointer is granted exactly when the alignment is supported and some free block is large enough. Then the first such block is taken for the rounded request, and what is beyond it becomes a free block unless it is less than a header and 64 bytes; the pointer is the first aligned one behind header and tag, and nothing else changes. |
| `KernelHeap.Heap.CoalesceHeap` | RADKernel/runtime/freestanding_runtime.cpp:106-115 | Afterwards no two free blocks are neighbours and what is in use is unchanged. |
| `KernelHeap.Heap.Free` | RADKernel/runtime/freestanding_runtime.cpp:430-451 | Freeing a live pointer releases exactly its own block; any other pointer changes nothing. |
| `KernelHeap.Heap.ValidIsIntact` | RADKernel/runtime/freestanding_runtime.cpp:183-213 | After any sequence of allocations and releases the block list tiles the heap exactly, so the integrity check has nothing to report. |
| `KernelHeap.Heap.NothingLive` | RADKernel/runtime/freestanding_runtime.cpp:430-451 | Freeing everything returns the single initial block. |
| `KernelHeap.Heap.LiveAreApart` | RADKernel/runtime/freestanding_runtime.cpp:117-142 | Every live pointer is aligned as asked, lies inside the heap, and apart from every other allocation and every header. |
| `KernelHeap.IntactIff` | RADKernel/runtime/freestanding_runtime.cpp:183-213 | The integrity check passes exactly the lists whose headers tile the heap. |
| `KernelHeap.Heap.Check` | RADKernel/runtime/freestanding_runtime.cpp:183-213 | The walk reports exactly when the list does not pass, and only once. |
| `FatTable.Extend` | RADKernel/fs/fat.cpp:174-203 | Appending a free cluster to a chain gives a longer acyclic chain that ends in an end mark. |
| `FatTable.TakeStep` | RADKernel/fs/fat.cpp:139-154 | Taking the lowest free cluster for a chain leaves one less free and a longer chain. |
| `FatTable.TakeCounts` | RADKernel/fs/fat.cpp:174-203 | A chain that asks for more clusters gets as many as it asks for, or all that were free. |
| `FatTable.FreedChain` | RADKernel/fs/fat.cpp:160-172 | Releasing a chain frees exactly its clusters; the walk ends on any in-range table, cyclic ones included, because each further step clears an entry in use. |
| `FatTable.ClearedKeeps` | RADKernel/fs/fat.cpp:160-172 | Other chains do not notice. |
| `FatVolume.GrownSound` | RADKernel/fs/fat.cpp:174-203 | Growing a file keeps every chain acyclic, in range, ended and disjoint from all others. |
| `FatVolume.GrownShows` | RADKernel/fs/fat.cpp:129-154 | Growing changes no byte of any file: the new cluster is zero. |
| `FatVolume.ClustersInOrder` | RADKernel/fs/fat.cpp:343-371 | The kth cluster's worth of a file are the bytes of the kth cluster of its chain, in order. |
| `FatVolume.StoredShows` | RADKernel/fs/fat.cpp:373-401 | Bytes stored in a cluster appear in its file at their offset and nowhere else. |
| `FatDriver.FindAfterCreate` | RADKernel/fs/fat.cpp:256-318 | Writing an entry where a search offered changes the answer for no other name. |
| `FatDriver.LookupMeans` | RADKernel/fs/fat.cpp:256-290 | A search finds the first entry of the name before the end mark, passing over deleted entries and parts of long names, or offers the first slot that is deleted or at the end mark. |
| `FatDriver.Volume.FatEntry` | RADKernel/fs/fat.cpp:103-112 | The entry that all copies of the table agree on. |
| `FatDriver.Volume.SetFatEntry` | RADKernel/fs/fat.cpp:114-127 | Exactly that entry changes, in every copy. |
| `FatDriver.Volume.AllocateCluster` | RADKernel/fs/fat.cpp:139-154 | The lowest free cluster, marked as an end and zeroed, or failure exactly when none is free. |
| `FatDriver.Volume.FreeChain` | RADKernel/fs/fat.cpp:160-172 | Leaves the table that clearing along the chain leaves, in every copy, on any in-range table. |
| `FatDriver.Volume.FindEntry` | RADKernel/fs/fat.cpp:256-290 | The slot of the name, or the first slot that a new entry can take. |
| `FatDriver.Volume.CreateEntry` | RADKernel/fs/fat.cpp:310-318 | The new name is found at its slot and every other name as before. |
| `FatDriver.Volume.Open` | RADKernel/fs/fat.cpp:302-341 | Opening fails exactly for a name that is not there and cannot be made, for a folder, or when all handles are taken. Otherwise the entry is as it was, or new and without clusters, exactly one slot more is open, and no other entry, chain or cluster changes. |
| `FatDriver.OpenFile.ClusterAt` | RADKernel/fs/fat.cpp:174-203 | The cluster so many steps along the chain, 0 past its end. |
| `FatDriver.OpenFile.AppendCluster` | RADKernel/fs/fat.cpp:194-197 | The lowest free cluster goes to the end of the chain, zeroed; exactly when none is free nothing changes. |
| `FatDriver.OpenFile.GrowTo` | RADKernel/fs/fat.cpp:174-203 | Exactly as many clusters are appended as are lacking and to be had, the lowest free ones, without changing a byte. |
| `FatDriver.OpenFile.WriteSector` | RADKernel/fs/fat.cpp:380-396 | One round stores a piece at its place, or finds the volume full exactly when its cluster is not to be had. |
| `FatDriver.TakenStops` | RADKernel/fs/fat.cpp:373-401 | When a write stops, all that was free is taken and what was stored ends where the chain does. |
| `FatDriver.OpenFile.Write` | RADKernel/fs/fat.cpp:373-401 | A write succeeds exactly when the free clusters suffice for what the chain lacks, and takes just those; otherwise the part that fits is stored while size and position stay; other files are untouched. |
| `FatDriver.OpenFile.Read` | RADKernel/fs/fat.cpp:343-371 | Exactly the file's bytes from the position on, as far as its chain reaches. |
| `FatDriver.OpenFile.Seek` | RADKernel/fs/fat.cpp:403-413 | The position moves modulo 2^32; a negative target is refused. |
| `FatDriver.OpenFile.Close` | RADKernel/fs/fat.cpp:420-431 | The directory entry takes over size and first cluster, so that opening again shows the same bytes. |
| `FatDriver.ReleasedSound` | RADKernel/fs/fat.cpp:320-330 | Emptying one file leaves all others sound and unchanged. |
| `FatRuns.WriteMatches` | RADKernel/fs/fat.cpp:373-401 | A write, as the driver describes it, makes the step of the table of files, its answer included. |
| `FatRuns.PreparedMatches` | RADKernel/fs/fat.cpp:302-341 | So does finding, making or emptying a file before it is opened. |
| `FatRuns.CloseMatches` | RADKernel/fs/fat.cpp:420-431 | So does writing the entry and dropping the handle. |
| `FatRuns.Perform` | RADKernel/fs/fat.cpp:302-431 | Each open, read, write, seek or close answers as a table of byte strings with one number of free clusters does, failures included, and leaves the volume showing the table that it leaves. |
| `FatRuns.Replay` | RADKernel/fs/fat.cpp:302-431 | So does a run of any length over any number of open files. |
| `FatRuns.ReplayFromNew` | RADKernel/fs/fat.cpp:302-431 | The same from a volume just formatted. |
| `FatContents.WriteSplices` | RADKernel/fs/fat.cpp:373-401 | A write that succeeds splices the data into the file, a gap before it reading as zeros. |
| `FatContents.WriteNeatIff` | RADKernel/fs/fat.cpp:373-401 | A write keeps the bytes past the end zero unless it runs out of clusters and has stored another byte there. |
| `FatContents.WriteWholeIff` | RADKernel/fs/fat.cpp:373-401 | A file that has clusters up to its end keeps them exactly unless a write of no bytes is made behind its last cluster. |
| `FatContents.ReadShows` | RADKernel/fs/fat.cpp:343-371 | What can be read is the whole file exactly when it has clusters up to its end. |
| `FatContents.StepOrderlyIff` | RADKernel/fs/fat.cpp:302-431 | An operation keeps all files zero past the end and readable to it exactly when it is none of those two writes. |
| `FatContents.RunOrderlyIff` | RADKernel/fs/fat.cpp:302-431 | A run does so throughout exactly when none of its operations is. |
| `FatContents.NewOrderly` | RADKernel/fs/fat.cpp:302-431 | A volume just formatted is in order. |
| `FatContents.OpenRefuses` | RADKernel/fs/fat.cpp:302-341 | Opening refuses a folder, a name that is not there and may not or cannot be made, and a ninth open file, and nothing else. |
| `FatContents.OpenMeans` | RADKernel/fs/fat.cpp:302-341 | An open file is what was closed under its name, empty if it is new or is to be emptied and may be, at its start or, to append, at its end. |
| `FatContents.ReadMeans` | RADKernel/fs/fat.cpp:343-371 | A read gives the bytes from the position on, as far as the file can be read, and moves behind them. |
| `FatContents.SeekMeans` | RADKernel/fs/fat.cpp:403-413 | A seek counts from the start, the position or the end, in 32 bits; a negative target, and reads and writes without the right, are refused and change nothing. |
| `FatContents.CloseMeans` | RADKernel/fs/fat.cpp:420-431 | A closed file is the one that was open, and nothing else changes. |
| `FatContents.SavedIsLoaded` | RADKernel/fs/fat.cpp:302-431 | Written, closed and opened again, a file shows what it showed with the data spliced in, gaps zero. |
| `FatContents.CutShortRun` | RADKernel/fs/fat.cpp:373-401 | On a volume of one cluster, a write of 513 bytes fails and a later gap shows its bytes. |
| `FatContents.PastClustersRun` | RADKernel/fs/fat.cpp:343-401 | There a write of nothing at 600 makes a file of 600 bytes of which none can be read. |
| `FatContents.SpoiledFiles` | RADKernel/fs/fat.cpp:302-431 | The driver answers so. |
| `Crc.Crc32Update` | RADKernel/subsystems/RADOverlayRuntime.cpp:292-301 | The table-free loop computes the CRC-32 of section 8 of RFC 1952. |
| `Crc.UpdateConcat` | RADKernel/subsystems/RADOverlayRuntime.cpp:292-301 | The checksum of a concatenation is that of two chained calls. |
| `Crc.OneByteDetected` | RADKernel/subsystems/RADOverlayRuntime.cpp:292-301 | Two payloads of equal length that differ in exactly one byte have different checksums. |
| `Crc.BurstDetected` | RADKernel/subsystems/RADOverlayRuntime.cpp:292-301 | So have two that differ only within four neighbouring bytes. |
| `Crc.CheckValue` | RADKernel/subsystems/RADOverlayRuntime.cpp:292-301 | The nine digits "123456789" have the checksum cbf43926. |
| `Crc.ChecksumAppended` | RADKernel/subsystems/RADOverlayRuntime.cpp:292-301 | Data followed by its own checksum, lowest byte first, always has the same checksum. |
| `OverlayFormat.ParseBlob` | RADKernel/subsystems/RADOverlayRuntime.cpp:1313-1327 | Parsing undoes packing: header, sections and records read back. |
| `OverlayFormat.ParseIff` | RADKernel/subsystems/RADOverlayRuntime.cpp:1313-1327 | The loader accepts a text exactly when it is a packed image, but for the six header bytes that it does not read, and reads that image. |
| `OverlayFormat.BlobBegins` | tools/radoverlay_compile.py:178-194 | An overlay begins with "RADO", version 1, no flags, the four sizes, a zero word and the checksum of what follows. |
| `OverlayFormat.RecordWords` | tools/radoverlay_compile.py:139-176 | The five words of a node record and of a property record, in order. |
| `OverlayFormat.OneByteIsRejected` | RADKernel/subsystems/RADOverlayRuntime.cpp:1322 | An accepted overlay with one payload byte changed is rejected. |
| `OverlayFormat.TamperedIsRejected` | RADKernel/subsystems/RADOverlayRuntime.cpp:1322 | So is one changed anywhere within four neighbouring payload bytes. |
| `OverlayDocument.JoinSplitsIff` | tools/radoverlay_compile.py:32-52 | A child's path leads back to its parent and name exactly when the name has no slash and the parent, unless it is the root, does not end in one. |
| `OverlayDocument.RunMeans` | tools/radoverlay_compile.py:61-74 | A list of assignments is accepted exactly when each is; the nodes are then those named, and each property has the last value given to it. |
| `OverlayDocument.KeysAreSpelled` | tools/radoverlay_compile.py:93-132 | The keys that are looked up are "name", "compatible", "boot", "memory", "regions", "fragments", "target", "properties" and "children". |
| `OverlayDocument.JoinMeans` | tools/radoverlay_compile.py:45-52 | A child without a name stands at its parent, one that begins with a slash at its own name, and any other behind the parent and one slash. |
| `OverlayMeaning.LiteralIsRead` | tools/radoverlay_compile.py:55-74 | A value written out in a document is read as that value. |
| `OverlayMeaning.ReadIsLiteral` | tools/radoverlay_compile.py:55-74 | What is read was so written, truth values in a list standing for 0 and 1; all else is refused. |
| `OverlayMeaning.TreeHas` | tools/radoverlay_compile.py:77-90 | The assignments made of an object are the simple members of the objects inside it, each at the path where its object stands, and the nodes of these objects and of lists of objects. |
| `OverlayMeaning.FragmentAdds` | tools/radoverlay_compile.py:111-132 | A fragment is taken exactly when it has the right shape and its values can be read; it adds its target and its children, and a property has the value that the fragment says last or else what it had. |
| `OverlayMeaning.CollectedMeans` | tools/radoverlay_compile.py:93-133 | A document is collected exactly when it has the right shape and its values can be read. The nodes are then the root and those it mentions, a property is there exactly when the document says it, and has the value said last. |
| `OverlayMeaning.PropertyStands` | tools/radoverlay_compile.py:121-123 | A member of a fragment's properties stands at the target, under its key, with its value, unless something later says it again. |
| `OverlayMeaning.ChildStands` | tools/radoverlay_compile.py:124-132 | A member of a child stands at the child's path below the target. |
| `OverlayMeaning.NameStands` | tools/radoverlay_compile.py:95-96 | The document's name stands at the root, unless a fragment says it again. |
| `OverlayCollector.Collector.AddProperty` | tools/radoverlay_compile.py:61-74 | One assignment: typed, range-checked, replacing an earlier value. |
| `OverlayCollector.Collector.AddObjectAsTree` | tools/radoverlay_compile.py:77-90 | An object is the list of assignments of its members, nested objects and lists of objects becoming nodes. |
| `OverlayCollector.Collector.AddFragment` | tools/radoverlay_compile.py:111-132 | The nodes gain what the fragment says, or it is refused for its shape or its values. |
| `OverlayCollector.Collector.CollectNodes` | tools/radoverlay_compile.py:93-133 | The nodes are what the document says, every number in its 32-bit word; it is refused exactly for its shape or its values. |
| `OverlayCollector.CollectedIsLoaded` | RADKernel/subsystems/RADOverlayRuntime.cpp:1313-1355 | Loaded into a reset tree, the collected nodes come back exactly, called after their paths, and each value exactly when it is within the loader's limits. |
| `OverlayCollector.SaidIsLoaded` | RADKernel/subsystems/RADOverlayRuntime.cpp:1313-1355 | What a document says last of a property is what the tree then holds, exactly when it is within these limits. |
| `OverlayCollector.DocumentIsTaken` | tools/radoverlay_compile.py:136-194 | What was collected, arranged and packed is accepted by the loader as saying just that. |
| `OverlayCompile.StringTable.Add` | tools/radoverlay_compile.py:21-29 | The text stands in the table at the offset with a zero byte behind it; a text already there is not stored again. |
| `OverlayCompile.Packer.PackProperty` | tools/radoverlay_compile.py:147-164 | One record more, holding the property, and nothing packed before it moves. |
| `OverlayCompile.Packer.PackNode` | tools/radoverlay_compile.py:145-171 | One node record more, holding the node and its run of properties. |
| `OverlayCompile.BuildBlob` | tools/radoverlay_compile.py:136-194 | There is a blob exactly when the texts, counted once each, the records and the array data are small enough for 32-bit words; its size is theirs, it parses as an image that encodes the nodes, and each property record carries its node's number. |
| `OverlayCompile.PackableIff` | tools/radoverlay_compile.py:175-194 | Records that stay within their sections fit their words exactly when the sections are small enough. |
| `OverlayCompile.BuildParses` | RADKernel/subsystems/RADOverlayRuntime.cpp:1313-1355 | What the compiler packs, the loader's parser reads back as the same nodes. |
| `OverlayTree.ClipExactIff` | RADKernel/subsystems/RADOverlayRuntime.cpp:283-290 | A field holds a text whole exactly when it is short enough and free of zero bytes. |
| `OverlayTree.LoadedExactIff` | RADKernel/subsystems/RADOverlayRuntime.cpp:433-472 | A value survives loading exactly when it is within the loader's limits. |
| `OverlayTree.LoadedCuts` | RADKernel/subsystems/RADOverlayRuntime.cpp:433-472 | Beyond the limits what is kept is 95 bytes of a text up to a zero byte, eight numbers, and of several texts the first. |
| `OverlayTree.AllMerge` | RADKernel/subsystems/RADOverlayRuntime.cpp:1336-1353 | Loading gives the union of tree and overlay, the overlay's value standing where both have one. |
| `OverlayTree.NamedAfterPath` | RADKernel/subsystems/RADOverlayRuntime.cpp:318-335 | Each node of the overlay takes name and parent from its path, and no other node is renamed. |
| `OverlayTree.ResetLoad` | RADKernel/subsystems/RADOverlayRuntime.cpp:1295-1355 | A reset tree then holds exactly the overlay's nodes, the root, and exactly its properties. |
| `OverlayLoader.Tree.AllocateNode` | RADKernel/subsystems/RADOverlayRuntime.cpp:310-335 | The node is found or made exactly when it is there or the table has room. |
| `OverlayLoader.Tree.AllocateProperty` | RADKernel/subsystems/RADOverlayRuntime.cpp:337-361 | The property is found or made exactly when it is there or node and table have room. |
| `OverlayLoader.Tree.ApplyProperty` | RADKernel/subsystems/RADOverlayRuntime.cpp:433-472 | The property takes the value that loading makes of it, or the tables are full. |
| `OverlayLoader.Tree.LoadMemory` | RADKernel/subsystems/RADOverlayRuntime.cpp:1313-1355 | Loading a blob that encodes a document into a tree succeeds exactly when the merged tree fits the tables, and then shows it; one more overlay is counted; a blob that does not parse changes nothing. |
| `OverlayLoader.CompiledIsSound` | RADKernel/subsystems/RADOverlayRuntime.cpp:1313-1355 | A compiled overlay is one that the loader takes as what its document says. |
| `OverlayLoader.TwoMerge` | RADKernel/subsystems/RADOverlayRuntime.cpp:1313-1355 | Two overlays loaded in turn into a reset tree give the union of both, the later value standing where both have one. |
| `OverlayLoader.LoadTwo` | RADKernel/subsystems/RADOverlayRuntime.cpp:1313-1355 | Two documents compiled and loaded in turn into a new tree: both are taken exactly when the union fits the tables, and the tree then shows it. |
| `OverlayLoader.Tree.GetNumber` | RADKernel/subsystems/RADOverlayRuntime.cpp:1512-1518 | The number held, or which of the two errors. |
| `OverlayLoader.Tree.GetNumbers` | RADKernel/subsystems/RADOverlayRuntime.cpp:1520-1527 | How many numbers the array has, and as many of them as there is room for. |
| `OverlayLoader.Tree.GetFlag` | RADKernel/subsystems/RADOverlayRuntime.cpp:1529-1535 | The flag held, or which of the two errors. |
| `OverlayLoader.Tree.GetString` | RADKernel/subsystems/RADOverlayRuntime.cpp:1537-1543 | The string held, or an array's first, cut to the buffer. |
| `SearchTree.HasIsMember` | libs/libradc/rad_libc.c:1329-1338 | Searching decides membership. |
| `SearchTree.InsertKeeps` | libs/libradc/rad_libc.c:1340-1353 | Inserting keeps a search tree whose keys are the old ones and the new one. |
| `SearchTree.InsertLevels` | libs/libradc/rad_libc.c:1340-1353 | The new node stands where the search ended, and no other node moves. |
| `SearchTree.DeleteKeeps` | libs/libradc/rad_libc.c:1363-1389 | Deleting keeps a search tree whose keys are the old ones less that one. |
| `SearchTree.DeleteApart` | libs/libradc/rad_libc.c:1363-1389 | Exactly the node that held the key is freed. |
| `SearchTree.JoinSucceeds` | libs/libradc/rad_libc.c:1371-1384 | A node with two subtrees is followed in its place by the next greater key, and its left subtree stays; any other by its only subtree. |
| `SearchTree.WalkOrders` | libs/libradc/rad_libc.c:1391-1406 | Besides the leaves, visited once, the preorder visits list each node before those below it, the postorder visits between its left and right ones, and the endorder visits after them. |
| `SearchTree.WalkDepths` | libs/libradc/rad_libc.c:1391-1406 | Every visit tells how many comparisons lead to its node. |
| `SearchTree.WalkAscends` | libs/libradc/rad_libc.c:1391-1406 | They list exactly the keys, in ascending order. |
| `TreeMemory.PutLaid` | libs/libradc/rad_libc.c:1340-1389 | Overwriting the pointer slot at the end of a path replaces the subtree there and nothing else. |
| `TreeMemory.UnlinkLaid` | libs/libradc/rad_libc.c:1355-1361 | Unlinking the least node on the right and giving it the victim's children leaves memory holding the joined subtree. |
| `TreeMemory.SearchRoot.TFind` | libs/libradc/rad_libc.c:1329-1338 | The node with the key, or null exactly when the key is not there. |
| `TreeMemory.SearchRoot.TSearch` | libs/libradc/rad_libc.c:1340-1353 | The node with the key, inserting it when absent; without memory nothing changes. |
| `TreeMemory.SearchRoot.MinSlot` | libs/libradc/rad_libc.c:1355-1358 | The slot of the least node of the right subtree. |
| `TreeMemory.SearchRoot.Replacement` | libs/libradc/rad_libc.c:1371-1384 | What takes a deleted node's place: its only child, or the least node on its right with the node's children. |
| `TreeMemory.SearchRoot.TDelete` | libs/libradc/rad_libc.c:1363-1389 | Exactly the key and its node go; the result is the key slot of the node now in place, or the root variable, or null when the key was not there. |
| `TreeMemory.SearchRoot.TWalk` | libs/libradc/rad_libc.c:1391-1406 | The visits, in the three orders and with their depths; the leaf and postorder ones list exactly the keys in ascending order. |

## Left out

Compositor:

- The mode with a frontbuffer: its repaint does not clear, so the invariant is another one.
- Titles, application ids and input dispatch beyond the hit test.
- Compositor.Compositor.ComposeFrame: requires that no shown surface has the largest 32-bit z, because the paint loop then overflows it (`PaintLoopEndsIff`); for the same reason Compositor.Compositor.FocusSurface excludes it for any surface.
- Compositor.Compositor.DrawSurfacesForRect: the same for the surfaces that are shown.
- Compositor.Compositor.RepaintRect: likewise.
- Compositor.Compositor.CreateSurface: requires a client buffer of at least stride times height; over a shorter one the code reads past its end (`ReadsInsideIff`).
- Compositor.Compositor.SetSurfaceBounds: requires bounds inside the client's pixels; outside them the code reads past the buffer (`ReadsInsideIff`).
- Compositor.Compositor.SubmitSurfacePixels: the same for a buffer smaller than stride and height.
- Aliasing of a surface's pixels with the framebuffer, pixel writes by the client between submit and compose, and coordinates whose sums leave 32 bits.

ext4:

- The byte layout of superblock, group descriptors and inodes, which are records here; disk errors; timestamps, modes and owners.
- Extent trees of depth above 0; files that need block 2^32-1, and reads or writes of 4 GiB or more.
- Ext4Mount.Namespace.AllocateInode: does not model inode bitmaps and the counters of groups and superblock: a free inode number is one without an inode.
- Ext4Mount.Namespace.FreeInode: does not model the bitmap and the counters either, nor that the blocks of the reserved root are freed before rmdir of "/." is refused the inode.
- Ext4Mount.Namespace.Open: does not model truncation or the table of open files; `Ext4Handle` and `Ext4Runs` treat an open file by itself.
- Ext4Mount.Namespace.PlaceDir: does not model which blocks are free: whether the new directory's own block and the parent's next block can be had are two answers given to the call; `Ext4Directory` derives them from the volume.
- Ext4Mount.Namespace.AddDirent: where the parent is not a directory, whether its data takes the entry is the block layer's answer; the data itself is not in this part of the model.
- Ext4Runs.Replay: does not model truncation by path while a handle is open, nor several handles of one inode: a handle works on a cached copy, so the run closes the file before it and opens it again after it.
- Link targets, including those kept inside the inode, readlink, and the blocks a failing symlink leaks.
- What the driver does with a file after an operation on it has stopped for want of space: the runs of `Ext4Runs` end there, and `Ext4FullVolume.GapShowsFailedWrite` goes on from one.
- Splitting paths at slashes and the limits on their length: a path is its list of components.
- The inodes of `Ext4Mount` hold kind and link count, and its directories their blocks; that the blocks of a directory are reached through its extents is `Ext4Directory`, whose methods leave the same blocks (`WithEntry`, `WithoutEntry`, `RenamedEntry`).

Descriptors:

- Sockets, shared memory, close-on-exec and status flags, the contents of pipes, and the hosted pipe records.
- Cloning into a process that already has descriptors.
- Pipe creation as a call of a run: `FdRuntime.Runtime.PipeCreate` is proved by itself; closing, duplicating and cloning pipe ends are in the runs.
- Calls after a reference has been lost, other than closing (`LostReferenceNeverCloses`).

Scheduler:

- `rad_process_kill`, pinning by interrupts, the mode without saved contexts, and data races below the granularity of the task lock and the atomic stores.
- Scheduler.Kernel.CreateTask: does not model the refusal of a core that does not exist or does not run.
- Task stacks, priorities, and waking by other means than time.

Heap:

- KernelHeap.Heap.AllocateAligned: requires that the sum of tag, gap and size does not wrap (`TotalHoldsIff`).
- What a request whose size wraps does to neighbouring headers; freeing a pointer whose tag was overwritten, and a second free of a pointer whose memory was handed out again.
- Bytes: headers and tags are maps from addresses, so a program that writes over them is not modelled.

FAT:

- The sector layout of table and boot record, the top four bits of table entries, disk errors, times, and root directories of more than one cluster.
- Conversion of paths to short names, listing and stat. Which entry of the handle table an open file takes: the runs number open files in the order of opening.
- FatDriver.OpenFile.Write: does not model a 32-bit position that wraps during the write.
- FatDriver.Volume.Open: does not model two openers of one file at a time, each of which would hold its own size.

Overlays:

- The order in which nodes and properties are packed (`sorted`): the results hold for any order that lists each once.
- OverlayCollector.Collector.CollectNodes: requires objects without repeated keys, which is what the JSON reader makes of any document.
- The JSON reader itself and Python's `str` of a value, which is a parameter; the size field of a string property, which counts code points and which the loader does not read.
- Paths and property names longer than the tree's fields or with zero bytes (`DocNames`): the loader cuts them, and two may then become one.
- The list of loaded overlays beyond its count, what a malformed overlay has merged before it is refused, and reads past the data of a string array without a zero byte.
- Binding of drivers, services and interrupts to the tree.

C library:

- tdestroy, comparators that are not total orders, and a comparator that calls different keys equal.
- TreeMemory.SearchRoot.TDelete: does not model the parent pointer that POSIX asks to be returned; like the code, it returns the node now in place.
- Memory is a map of nodes, and the allocator's answer is a parameter.

Everything else in the repository (networking, terminal, devices, ELF loading, the rest of the C library, services and drivers) is not part of this model.
