# BucketOS: a verified model of the kernel core

BucketOS is a small 32-bit kernel written in C. This project models the parts of it that carry state, pointer structure or
address arithmetic, and proves what they promise. The in-place parts are classes with methods; each method is proved
against a function on values, and the promises are lemmas about those functions and invariants of those classes.
`dafny verify dfyconfig.toml` checks everything.

| modules | kernel part |
|---|---|
| Machine, Memory, Heap | 32-bit words, masks, byte memory, the bump allocator |
| Paths, FileSystem, Ramfs, Directories | the linked file tree, refining a map from component sequences to directories and files |
| Ustar, Initrd, Replay, Archive | the initial ramdisk: parsing, loading, what loading means, and a writer as its inverse |
| Framebuffer, Glyphs, Transcript, Terminal | drawing, the reference rendering and the reference layout, the terminal that keeps to both |
| PageEntries, Paging, UserSpace, BootMap | page-table entries, the two-level table refining a flat page map, the initial user space, the display in it |
| UserMemory, Blit, FramebufferCalls | user ranges checked whole and in pieces, fills and blits |
| Elf, ElfWriter, Loader, ArgumentStack, Exec | executable files and a writer as their inverse, segment overlay, argument block, and both together |
| Processes, Scheduler, Fairness | process slots, the ring, and what round robin promises |
| Ownership, Runs, Effects, Syscalls, Descriptors | the descriptor calls as a state machine, framebuffer ownership over runs, what each call does, open files as snapshots |
| SharedScreen | kernel, console and terminal together: who holds the framebuffer and what the screen shows |
| RingPlaces, ConsoleInput, Mouse | ring buffers, the console's input queue, packet assembly against a reference parser, the event queue |

## How the kernel's values are modelled

Addresses and sizes are words below 2^32 with wrap-around written out; address 0 is the null pointer. Memory is one array of
bytes indexed by address wherever overlap matters. C strings are their bytes before the NUL. The kernel's panic is a method
result that says it happened. The number of slots, the ring's capacity, the event queue's capacity, the pieces of a checked
range and the screen size are parameters of the statements. The file system's answer to a path, the font, and the number of
bytes of RAM are parameters too. The documents behind the formats are the "ustar Interchange Format" of the pax utility in
IEEE Std 1003.1, sections 4.3 and 4.6 of volume 3A of the Intel SDM (32-bit paging, access rights), and the chapter "Program
Header" of the System V ABI.

## Where the code does less than one would expect

- The allocator accepts a request whose end wraps around 2^32 (`src/kernel/memory.c:68-74`). Soundness holds if and only if the
  end does not wrap: Heap.AcceptedIsSoundIffNoWrap, with Heap.WrappingRequestExample.
- Backspace in the first column goes to column 79 on any width (`src/kernel/terminal.c:376`). The cursor stays on the screen
  under every output if and only if the screen has at least 80 columns or one row: Transcript.CursorStaysOnScreenIff.
- The next archive header is found by rounding the absolute address, not the offset (`src/kernel/ramfs.c:388-390`):
  Initrd.NextHeaderIffAligned.
- The loop of `ramfs_ensure_parent_directory` stops before index 0 (`src/kernel/ramfs.c:343-353`), so it returns false for a
  file directly under the root: Replay.EnsureParentSucceedsIff. The loader ignores the result, and Replay.LoadIsReplay shows
  that loading is right all the same.
- The loader never compares a segment's file size with its memory size (`src/kernel/exec.c:74-83`). Writes stay in the image if
  and only if the file bytes end there: Elf.ContainedIffFileFits for a segment, Elf.OutsideKeptIffContained for a file, with
  ElfWriter.OverlongFileEscapes.
- Ownership goes by pid, and the pid counter wraps. exec keeps ownership and lock sound if and only if the next pid is not the
  owner's, 0 standing for no owner (Ownership.ExecKeepsIff, Ownership.ExecThenOpenIff). Runs of fewer than 2^32 processes never
  meet the bad case (Runs.UnwrappedRuns); longer ones can, from every sound system with a free slot (Runs.PromiseCanBreak,
  Runs.CounterComesAround).
- exec does not demote a process that is already running (`src/kernel/exec.c:148-149`): Ownership.ExecKeepsOneRunningIff.
- A yield does not update the current process of `process.c`, for which system calls act. The two current processes stay the
  same over a yield or an exit if and only if no other process is live: Ownership.YieldKeepsCurrentIff,
  Ownership.ExitKeepsCurrentIff, with Runs.CurrentsComeApart.
- A read on the console takes characters from the queue before the buffer is checked (`src/kernel/syscall.c:281-289`), so they
  can be lost: ConsoleInput.ReadConsole says exactly when.
- The framebuffer calls of `syscall.c` do not look at the display's address while the drawing code does. Displays that differ
  in the address only take the same calls (FramebufferCalls.AddressDoesNotDecide), drawing has an effect if and only if the
  address is not 0 (FramebufferCalls.DrawsIffAddressed), and with address 0 a successful fill or blit leaves the display memory
  as it was (FramebufferCalls.FbFillRect, FramebufferCalls.FbBlit).
- The heap starts just above the kernel and is 32 MiB long, so some of its addresses (0x400000 to 0x4FFFFF and 0x7E0000 to
  0x7FFFFF) are those of user pages. The kernel clears user frames through its page map while it changes it, so with the heap
  pointer just below such addresses some user pages are never cleared: UserSpace.AllClearedIff and UserSpace.ZeroFramesIff say
  exactly when, UserSpace.StackPageMissed is an instance.
- What the kernel keeps at such heap addresses later, file contents and tree nodes alike, a process can write over. Bytes
  survive everything it stores if and only if they lie outside the user pages (Descriptors.SafeIffOffRegions).
- The archive the Makefile builds starts with the entry "./" (`Makefile:177`), whose path is the root; the loader's result for
  it is ignored and it changes nothing: Replay.RootRecordFits.
- A framebuffer that ends in the last page of the address space is not mapped, because its rounded end wraps around to 0
  (`src/kernel/paging.c:115-120`): Paging.PageTables.FramebufferMappedIff.
- Checking a range in pieces is the same as checking it whole only because image and stack do not touch:
  UserMemory.TouchingRegionsDiffer.

## Model

| member | source | states |
|---|---|---|
| Machine.AlignUpRounds | src/kernel/memory.c:17-20 | for every power-of-two alignment the mask arithmetic is rounding up to a multiple, and 0 exactly where the rounded value does not fit in 32 bits |
| Machine.RoundUpIsLeastMultiple | src/kernel/memory.c:17-20 | rounding up gives the least multiple of the alignment that is not below the value |
| Machine.AlignDownRounds | src/kernel/paging.c:41-43 | the mask arithmetic subtracts exactly the remainder |
| Heap.AllocBlock | src/kernel/memory.c:66-88 | a request that does not wrap, aligned to at most a page, succeeds exactly when it fits; its block is aligned, starts at or above everything handed out, and ends where the heap pointer now is; a failed one changes nothing |
| Heap.AcceptedIsSoundIffNoWrap | src/kernel/memory.c:68-74 | an accepted request is sound (block end = heap pointer, not below its start) if and only if its end did not wrap |
| Heap.WrappingRequestExample | src/kernel/memory.c:68-74 | a concrete request that wraps is accepted and drops the heap pointer below the heap's start |
| Heap.WrappedRunOverlaps | src/kernel/memory.c:66-76 | a concrete run of three accepted requests: after the one that wraps, the next block lies below the heap and overlaps the first |
| Heap.RunBlocksDisjoint | src/kernel/memory.c:66-88 | over every run of non-wrapping requests the blocks lie in the heap, are pairwise disjoint, and the heap pointer never moves down |
| Heap.Allocator.constructor | src/kernel/memory.c:53-59 | the heap is the 32 MiB above the page-aligned end of the kernel |
| Heap.Allocator.Kmalloc | src/kernel/memory.c:66-76 | the in-place code is the allocation function with alignment 16 |
| Heap.Allocator.KmallocAligned | src/kernel/memory.c:78-88 | the in-place code is the allocation function for every power-of-two alignment below 2^32 |
| Memory.MemCpy | src/kernel/ramfs.c:195 | the destination holds the source bytes, every other byte is kept |
| Memory.MemSet | src/kernel/paging.c:152 | the range holds the value, every other byte is kept |
| Paths.SegmentLength | src/kernel/ramfs.c:50-58 | the length up to the first slash or the end |
| Paths.ComponentsWellFormed | src/kernel/ramfs.c:127-143 | the components of a path string are non-empty and slash-free |
| Paths.ComponentsConcat | src/kernel/ramfs.c:127-143 | components on the two sides of a slash are independent |
| Paths.ComponentsOfJoin | src/kernel/ramfs.c:127-143 | joining components to a path string and cutting it again gives the components back |
| Paths.ComponentsSplitLast | src/kernel/ramfs.c:153-164 | what follows the last slash is the last component, unless it is empty |
| FileSystem.CreateAddsOneKey | src/kernel/ramfs.c:422-450 | a successful mkdir or touch adds exactly one key below an existing directory and keeps the tree well formed; a failed one changes nothing |
| FileSystem.CreateSucceedsIff | src/kernel/ramfs.c:148-187 | for a canonical path creation succeeds exactly when the name has at most 31 bytes, the parent is a directory with a path below 128 bytes, the name is free, and the heap holds a node |
| FileSystem.CreatedResolves | src/kernel/ramfs.c:422-450 | a path just created resolves |
| FileSystem.WriteThenRead | src/kernel/ramfs.c:452-467 | after a successful write the path reads back the written bytes and all else is unchanged; a failed write adds at most an empty file |
| FileSystem.WriteSucceedsIff | src/kernel/ramfs.c:452-467 | for a canonical path a write succeeds exactly when there is a file or one can be made (name, parent, path length), and the heap holds the 56-byte node if it is missing and then the data and its terminator; when only the data does not fit, a missing file has become an empty one, and every other failure changes nothing |
| FileSystem.RunKeepsTree | src/kernel/ramfs.c:422-467 | over every run of mkdir, touch and write the tree stays well formed, nothing disappears or changes kind, and files no write names keep their bytes |
| Ramfs.Tree.constructor | src/kernel/ramfs.c:356-358 | the tree starts as the root directory alone; no byte outside the free heap changes |
| Ramfs.Tree.FindChild | src/kernel/ramfs.c:83-101 | the sibling list search finds exactly the child of that name |
| Ramfs.Tree.ResolvePath | src/kernel/ramfs.c:115-146 | the walk along pointers resolves a path if and only if it is absolute and the map has its components, and finds that node |
| Ramfs.Tree.SplitParent | src/kernel/ramfs.c:148-187 | the split succeeds under exactly the stated condition, and then gives the parent directory's node and the last component |
| Ramfs.Tree.AddChild | src/kernel/ramfs.c:60-81 | a fresh, cleared node becomes the first child; parent links, sibling lists, unique names and the map all agree afterwards; no byte outside the free heap changes |
| Ramfs.Tree.LinkNode | src/kernel/ramfs.c:109-112 | the three pointer updates add exactly one key to the map |
| Ramfs.Tree.IsDirectory | src/kernel/ramfs.c:406-409 | true exactly for paths that resolve to a directory |
| Ramfs.Tree.Read | src/kernel/ramfs.c:411-420 | succeeds exactly for files; the returned address and size hold the file's bytes, in the part of the heap already handed out |
| Ramfs.Tree.Mkdir | src/kernel/ramfs.c:422-435 | the linked tree refines the map's creation of a directory, heap included |
| Ramfs.Tree.Touch | src/kernel/ramfs.c:437-450 | the linked tree refines the map's creation of an empty file |
| Ramfs.Tree.WriteBytes | src/kernel/ramfs.c:189-200 | the file gets the bytes in a fresh buffer; no byte outside the free heap changes |
| Ramfs.Tree.Write | src/kernel/ramfs.c:452-467 | the linked tree refines the map's write, and no byte outside the free heap changes |
| Directories.MakeDirectories | src/kernel/ramfs.c:296-331 | the loop over a 128-byte partial path refines making the prefixes directories one by one, also when the buffer is too small |
| Directories.EnsureParentDirectory | src/kernel/ramfs.c:333-354 | the backward scan refines ensuring the parent's chain; false for top-level files and over-long paths |
| Directories.EnsureChainAdds | src/kernel/ramfs.c:296-331 | success adds exactly the missing prefixes as directories; failure has added a shorter chain of prefixes only; no existing entry changes |
| Directories.EnsureSucceedsIff | src/kernel/ramfs.c:307-330 | for a chain of components: it succeeds exactly when no prefix is a file, the missing names fit a node, and the heap holds a node for each |
| Directories.EnsureDirectorySucceedsIff | src/kernel/ramfs.c:296-331 | the call on a path string succeeds exactly when, besides that, the path is absolute and shorter than 128 bytes |
| Directories.EnsureTwice | src/kernel/ramfs.c:296-331 | after success every prefix is a directory and a second call changes nothing |
| Ustar.ParseOctal | src/kernel/ramfs.c:202-213 | the value is the integer the field denotes in base eight, modulo 2^32, for any bytes |
| Ustar.OctalRoundTrip | src/kernel/ramfs.c:202-213 | a size written in octal digits parses back to itself |
| Ustar.AppendField | src/kernel/ramfs.c:258-269 | cutting a field in place at its slashes appends exactly its components |
| Ustar.BuildHeaderPath | src/kernel/ramfs.c:248-294 | prefix and name are appended in order behind one slash, within 256 bytes |
| Ustar.BuildPathIsCanonical | src/kernel/ramfs.c:225-294 | the built path is the canonical path of the components without '.', if and only if that fits the buffer |
| Initrd.IsEmptyHeader | src/kernel/ramfs.c:215-223 | true exactly when all bytes of the header are zero |
| Initrd.LoadOne | src/kernel/ramfs.c:365-386 | the record at an address in memory is loaded as its kind says: directory, file, or skipped; no byte outside the free heap changes |
| Initrd.LoadInitrd | src/kernel/ramfs.c:360-392 | loading an archive in memory, at a 512-aligned address apart from the free heap, is loading its records in order, and the archive stays as it was; it terminates because the cursor advances by at least 512 |
| Initrd.NextHeaderIffAligned | src/kernel/ramfs.c:388-390 | the rounded address is the next header's if and only if the archive starts on a 512-byte boundary |
| Replay.LoadIsReplay | src/kernel/ramfs.c:360-392 | well-formed records without clashes, with room on the heap, load to exactly the ideal replay of the map |
| Replay.ReplayReadsBack | src/kernel/ramfs.c:376-386 | each file record's path reads back the bytes of its last occurrence; each directory record's path is a directory |
| Replay.OtherKindsSkipped | src/kernel/ramfs.c:376-386 | records of other kinds than '5', '0' and NUL change nothing |
| Replay.ReplayKeeps | src/kernel/ramfs.c:376-386 | directories stay, and files that no record names keep their bytes |
| Replay.ReplayAddsOnlyAncestors | src/kernel/ramfs.c:376-386 | besides the records' paths only their ancestors are added |
| Replay.EnsureParentSucceedsIff | src/kernel/ramfs.c:333-354 | on the path of a file it succeeds exactly when the path is shorter than 128 bytes, the file is not directly under the root, and the ancestors can be made directories |
| Replay.RootRecordFits | Makefile:177 | the entry an archive of a whole directory starts with, './', fits every tree and changes nothing, in the ideal and in the loader |
| Archive.SplitFieldsBuild | src/kernel/ramfs.c:248-294 | every path the tree can hold, up to 127 bytes, is written by the prefix field for its directory and the name field for its last component |
| Archive.DottedNameBuilds | src/kernel/ramfs.c:248-294 | a name with a leading dot, as in an archive of '.', builds the same path; './' builds the root |
| Archive.WellFormedIsWritable | src/kernel/ramfs.c:28-46 | every well-formed directory or file record, the root included, has a header; only the component '.' cannot be written |
| Archive.RecordRoundTrip | src/kernel/ramfs.c:28-46 | parsing a written header and data gives the record back, and what follows it: every kind byte, either field, the root |
| Archive.ArchiveRoundTrip | src/kernel/ramfs.c:360-392 | parsing a written archive gives exactly the records written |
| Archive.LoadWrittenArchive | src/kernel/ramfs.c:360-392 | end to end: loading a written archive of fitting records is their ideal replay |
| Framebuffer.Display.OffsetInBounds | src/kernel/framebuffer.c:57-59 | a pixel's bytes lie in the display memory and the 32-bit offset does not wrap, when rows fit the pitch |
| Framebuffer.Display.PixelsDisjoint | src/kernel/framebuffer.c:57-67 | distinct pixels occupy disjoint bytes |
| Framebuffer.Display.PixelPlaces | src/kernel/framebuffer.c:57-59 | the first pixel is at the display's address, the next one in a row a pixel's bytes further, the next row a pitch further, and the last byte of the last pixel before the end of the last row |
| Framebuffer.Display.PixelBytes | src/kernel/framebuffer.c:61-67 | a pixel has a colour exactly when its bytes are blue, green and red, and on a 32-bit display the fourth byte, in this order |
| Framebuffer.Display.PutPixel | src/kernel/framebuffer.c:48-68 | the pixel has the colour the depth keeps; every other pixel and every other byte is kept; off the screen or without a display address nothing changes |
| Framebuffer.Display.Plot | src/kernel/terminal.c:157-168 | the pixel has the colour, its fourth byte cleared; every other pixel is kept |
| Blit.DrawRect | src/kernel/framebuffer.c:81-87 | every pixel of the rectangle has the colour; all pixels and bytes outside are kept, and everything when the display cannot be drawn on |
| Blit.RectValidIff | src/kernel/syscall.c:120-135 | a rectangle is accepted exactly when it has pixels and all of them are on the screen |
| Glyphs.DrawCell | src/kernel/terminal.c:170-199 | the cell's pixels are the reference rendering of glyph, colours and cursor line; no other cell changes |
| Glyphs.CellLooks | src/kernel/terminal.c:175-198 | a cell shows the font's glyph of its character, each row twice, in its two colours, other characters blank, and the cursor as a foreground line in row 14 |
| Glyphs.ColumnsAreDigits | src/kernel/terminal.c:182-188 | the columns of a glyph row, from left to right, are the binary digits of its byte, from the highest on |
| Glyphs.BlankIsBackground | src/kernel/terminal.c:175-191 | a space without cursor is all background |
| Glyphs.CursorOnlyUnderlines | src/kernel/terminal.c:193-198 | the cursor changes only the row before last |
| Transcript.PutKeepsLog | src/kernel/terminal.c:356-400 | every safe character keeps the transcript and its cursor well formed |
| Transcript.HistoryIsFrozen | src/kernel/terminal.c:246-279 | rows that left the screen never change, and a character adds at most one row |
| Transcript.BackspaceBlanks | src/kernel/terminal.c:371-387 | a backspace steps back one cell, over the start of a row to column 79 of the row before, and blanks that cell; every other cell stays; at the home position nothing changes |
| Transcript.LineFeedKeepsCells | src/kernel/terminal.c:357-363 | a line feed goes to the start of the next row; no cell changes, and a row that it adds is blank |
| Transcript.CarriageReturnKeepsCells | src/kernel/terminal.c:365-369 | a carriage return goes to the start of the row and changes no cell |
| Transcript.PlainWritesOneCell | src/kernel/terminal.c:389-399 | any other character is written at the cursor in the current colour and the cursor steps on; no other cell changes, and a row that this adds is blank |
| Transcript.TypedThenErased | src/kernel/terminal.c:371-399 | a plain character and then a backspace leave a blank in its place, the cursor where it was, and every other cell as it was; in the last column this needs exactly 80 columns |
| Transcript.ClearedIsBlank | src/kernel/terminal.c:332-354 | after a clear every cell is blank in the current colour and the cursor is at the home position |
| Transcript.PutTextThen | src/kernel/terminal.c:402-406 | a string's last character is put where the rest of the string has left the cursor |
| Transcript.PlainTextIsText | src/kernel/terminal.c:402-406 | a string of plain characters is laid out in reading order |
| Transcript.PlainTextLayout | src/kernel/terminal.c:389-399 | the i-th plain character lands i places after the cursor in reading order; nothing before the cursor changes |
| Transcript.PutMoves | src/kernel/terminal.c:356-400 | the transcript's cursor, seen through the window, moves as the screen's |
| Transcript.CursorStaysOnScreenIff | src/kernel/terminal.c:374-376 | every output from the home position keeps the cursor on the screen if and only if the screen has at least 80 columns or a single row |
| Transcript.NeverUnsafe | src/kernel/terminal.c:374-376 | on such screens no output is unsafe |
| Terminal.Terminal.constructor | src/kernel/terminal.c:281-330 | which displays are used, the grid size, a new transcript and a cleared screen, unlocked, with the invariant |
| Terminal.Terminal.DrawFramebufferCell | src/kernel/terminal.c:170-199 | the cell is shown and no other cell changes; locked or outside, nothing changes |
| Terminal.Terminal.UpdateCursor | src/kernel/terminal.c:201-228 | the screen becomes the full rendering with the cursor line at the cursor only |
| Terminal.Terminal.WriteCell | src/kernel/terminal.c:230-244 | the cell is shown on the display or in VGA text memory, others kept |
| Terminal.Terminal.TextModeMemory | src/kernel/terminal.c:201-244 | in text mode VGA memory holds the grid row after row, 80 words to a row, the character in the low byte and its colours in the high one, and the hardware cursor is at the cursor |
| Terminal.Terminal.ScrollIfNeeded | src/kernel/terminal.c:246-279 | at the bottom the grid moves up one row and is redrawn; otherwise nothing changes |
| Terminal.Terminal.Clear | src/kernel/terminal.c:332-354 | the grid is blank, the transcript new, the screen rendered |
| Terminal.Terminal.PutBackspace | src/kernel/terminal.c:371-387 | the step back over a row, and at a wrap to column 79 |
| Terminal.Terminal.PutPlainChar | src/kernel/terminal.c:389-399 | store, draw, advance, wrap and scroll refine the transcript's step |
| Terminal.Terminal.PutChar | src/kernel/terminal.c:356-400 | after any safe character the grid is exactly the last rows of the transcript and the screen exactly its rendering, although only touched cells were drawn |
| Terminal.Terminal.RedrawFramebuffer | src/kernel/terminal.c:421-434 | whatever is on the screen, it becomes the rendering of the grid |
| Terminal.Terminal.SetFramebufferLock | src/kernel/terminal.c:436-448 | locking and unlocking keep the invariant; locking leaves every pixel as it was, unlocking restores the rendering over anything drawn meanwhile |
| Terminal.Terminal.DrawOver | src/kernel/framebuffer.c:48-68 | drawing while locked leaves the grid alone |
| Terminal.Terminal.Run | src/kernel/terminal.c:332-448 | over every run of output, clear, colour, lock and foreign drawing on a screen of at least 80 columns: the screen is the rendering when unlocked, and grid, colour and lock are those of the reference layout |
| Terminal.AfterAllThen | src/kernel/terminal.c:332-448 | what one event more does to colour, lock and transcript of the reference layout |
| Terminal.Terminal.WriteText | src/kernel/terminal.c:402-406 | a string is its characters in order |
| UserMemory.CopyFromUser | src/kernel/process.c:136-145 | succeeds exactly for ranges within one region, and gives their bytes |
| UserMemory.CopyToUser | src/kernel/process.c:147-156 | succeeds exactly for ranges within one region; only they change |
| UserMemory.CopyUserString | src/kernel/process.c:158-181 | succeeds exactly when a terminator comes within the buffer and every byte up to it is in a region |
| UserMemory.ValidRangeIff | src/kernel/process.c:114-134 | a range is valid exactly when each of its bytes is one of the image or one of the stack |
| UserMemory.ChunksValidIffWhole | src/kernel/process.c:114-134 | checking a range in pieces accepts exactly what checking it whole accepts, when the regions do not touch |
| UserMemory.TouchingRegionsDiffer | src/kernel/process.c:114-134 | with touching regions it does not: a concrete range |
| Blit.BlitRow | src/kernel/syscall.c:519-534 | a row copied in chunks of 32 succeeds exactly when the whole row is readable, and is then the source row |
| Blit.Copy | src/kernel/syscall.c:504-537 | a successful blit is the per-pixel copy from source + row*stride + 4*column in 32-bit arithmetic; it succeeds exactly for acceptable requests; outside the rectangle nothing changes even on failure, and nothing at all when a check made before the copy fails |
| Blit.SourceAddress | src/kernel/syscall.c:516-532 | the source pixel is the word that many rows of stride bytes and that many words behind the source address, the address of a row wrapping around |
| Blit.PackedImage | src/kernel/syscall.c:516-532 | without padding between rows the rectangle shows the source words in reading order |
| Blit.AcceptedIff | src/kernel/syscall.c:504-537 | a blit is accepted exactly when its format is the known one, its rectangle has pixels and all of them on the screen, its source is not null, a source row holds a row of pixels, and every byte of every source row is the process's own |
| FramebufferCalls.FbBlit | src/kernel/syscall.c:484-538 | the same for the whole system call: descriptor, owner, request read from user memory |
| FramebufferCalls.RequestRoundTrip | src/kernel/syscall.c:51-59 | the kernel reads the request a program wrote, field by field |
| FramebufferCalls.RectRoundTrip | src/kernel/syscall.c:43-49 | the kernel reads the rectangle a program wrote, field by field |
| FramebufferCalls.WhoMayNotDraw | src/kernel/syscall.c:464-470 | no process but the owner, none without a descriptor on the framebuffer, and nobody without a linear display of 24 or 32 bits may draw |
| FramebufferCalls.FbFillRect | src/kernel/syscall.c:457-482 | success exactly for the owner with an acceptable rectangle, which then has the colour; failure changes nothing, and neither does success on a display without an address |
| FramebufferCalls.FbPutPixel | src/kernel/syscall.c:433-455 | success exactly for the owner and a pixel of the display, which then has the colour; every other pixel is kept, and failure changes nothing |
| FramebufferCalls.DrawsIffAddressed | src/kernel/framebuffer.c:48-50 | on a display the calls accept, drawing has an effect if and only if its address is not 0 |
| FramebufferCalls.AddressDoesNotDecide | src/kernel/syscall.c:457-538 | displays that differ in their address only take exactly the same fills and blits |
| FramebufferCalls.HolderMayDraw | src/kernel/syscall.c:464-470 | in every sound system a process with a framebuffer descriptor is the owner, so the ownership check never refuses it |
| PageEntries.EntryTests | src/kernel/paging.c:62-74 | the masks read the present bit, the user bit and the frame of an entry |
| PageEntries.BuildEntry | src/kernel/paging.c:88 | ORing builds an entry with exactly the given frame and rights |
| PageEntries.BuildDirectoryEntry | src/kernel/paging.c:68-69 | the same for directory entries |
| PageEntries.AddUser | src/kernel/paging.c:73 | ORing the user flag changes nothing but that flag |
| PageEntries.Indices | src/kernel/paging.c:60-86 | directory and table index of an address |
| Paging.PageTables.AllocateTable | src/kernel/paging.c:49-57 | a zeroed table, or a panic exactly when the pool is used up |
| Paging.PageTables.TableFor | src/kernel/paging.c:59-75 | a table for the slot, new exactly when the slot was empty; no translation changes |
| Paging.PageTables.EntryWidened | src/kernel/paging.c:73 | setting the user flag of a shared directory entry changes no page's translation or access, because no entry below it was for user mode unless it was set |
| Paging.PageTables.MapPage | src/kernel/paging.c:78-89 | a point update of the flat page map, keeping the table pool and the user-bit invariant; panic exactly when a new table is needed and none is left |
| Paging.PageTables.PoolUse | src/kernel/paging.c:49-75 | the pool count is the number of directory slots in use |
| Paging.PageTables.IdentityMapRange | src/kernel/paging.c:92-100 | all pages of the range and no others map to themselves; panic exactly when the slots exceed the pool |
| Paging.PageTables.Initialize | src/kernel/paging.c:102-131 | low memory and framebuffer map to themselves for the kernel only, nothing else is mapped; so every byte below the heap's end or 16 MiB, and every byte of the framebuffer's rows, is in a page of the kernel's own, when no end wraps around |
| Paging.PageTables.KernelPagesIff | src/kernel/paging.c:102-121 | a page is mapped exactly when it begins below the heap's end or 16 MiB or overlaps the framebuffer's rows |
| Paging.PageTables.KernelSlotsIff | src/kernel/paging.c:102-121 | the directory slots used are exactly those of these pages |
| Paging.PageTables.FramebufferMappedIff | src/kernel/paging.c:114-121 | a framebuffer above the heap is mapped whole if and only if it ends at least a page below the top of the address space |
| UserSpace.PageAllocation | src/kernel/memory.c:78-88 | taking a page succeeds exactly when the heap has room for one, and leaves room for one less |
| UserSpace.MapUserPages | src/kernel/paging.c:147-158 | a run of user pages gets the next frames of the heap, in order; it succeeds exactly when heap and pool suffice; which page of memory each step clears is exact, the page map being as it is at that step |
| UserSpace.MapInitialUserSpace | src/kernel/paging.c:141-171 | the i-th user page maps user-writable to the i-th frame from the heap pointer on, and all other translations are kept; memory is cleared in exactly the stated pages and kept elsewhere |
| UserSpace.ClearedIff | src/kernel/paging.c:147-170 | the frame of a user page is cleared exactly when its address is not that of a user page mapped before, or when a later frame has the address of this user page |
| UserSpace.AllClearedIff | src/kernel/paging.c:147-170 | all frames are cleared if and only if the first free page of the heap is not in 0x2E1..0x3FF or 0x6C1..0x6DF |
| UserSpace.ZeroFramesIff | src/kernel/paging.c:147-170 | the user pages are zero whatever memory held before, if and only if the same holds of the heap pointer |
| UserSpace.StackPageMissed | src/kernel/paging.c:160-170 | with the heap pointer at 0x3FF000 the lowest stack page keeps what memory held |
| UserSpace.Boot | src/kernel/paging.c:102-171 | both boot calls together: no panic exactly when the distinct slots fit the pool and the heap has room; then the whole page map, the pool count and the cleared pages are as stated, and the user pages are zero unless the heap pointer is in a bad place |
| BootMap.SetUpPaging | src/kernel/kernel.c:64-65 | after both calls with the boot loader's display, every byte of low memory and of every pixel is in a page that maps to itself, writable, for the kernel only, or under a user page |
| Elf.RuleKeptIsTame | src/kernel/exec.c:70-84 | segments that keep filesz <= memsz and do not wrap are copied within the image |
| Elf.AcceptedMemoryInside | src/kernel/exec.c:37-42 | the region check is exact: the memory lies in the image |
| Elf.ContainedIffFileFits | src/kernel/exec.c:74-83 | an accepted segment writes inside the image only, if and only if its file bytes end there too |
| Elf.OutsideKeptIffContained | src/kernel/exec.c:67-84 | an accepted file leaves every byte outside the image as it was, whatever that is, if and only if the file bytes of all its segments end inside the image |
| Elf.LastSegmentWins | src/kernel/exec.c:67-84 | each byte of the image comes from the last segment that covers it |
| Elf.LoadedFromFile | src/kernel/exec.c:82-83 | at the i-th byte of a segment that no later one reaches is the i-th byte from the segment's offset in the file on, as far as its file size goes, and zero behind that |
| Elf.HeaderIffBytes | src/kernel/exec.c:27-35 | the header is valid exactly when these bytes are: magic number, 32 bits, little-endian, executable, processor, size of program headers |
| Elf.AcceptableIff | src/kernel/exec.c:44-90 | where no sum wraps, a file is loaded exactly when its header is valid, its table lies in it, every loadable segment has its file bytes in the file and its memory in the image, and the entry is in the image |
| Elf.UncoveredByte | src/kernel/exec.c:62 | bytes no segment covers are zero in the image and untouched outside |
| ElfWriter.FileRoundTrip | include/bucketos/elf.h:24-53 | a file written in the ELF layout is read back: valid header, entry, and exactly its program headers |
| ElfWriter.ImageHoldsContents | src/kernel/exec.c:67-84 | from one end to the other: a segment of a written file that names some of its contents is in the image, contents first and zeros behind them |
| ElfWriter.OverlongFileEscapes | src/kernel/exec.c:74-83 | a concrete file that the loader accepts and that writes a byte right behind the image |
| Loader.CheckHeader | src/kernel/exec.c:27-35 | the header check on memory is the check on the file |
| Loader.LoadSegment | src/kernel/exec.c:82-83 | clearing and copying one segment overlays it; the file stays intact |
| Loader.LoadSegments | src/kernel/exec.c:67-84 | the loop succeeds exactly when all segments are accepted, and leaves their overlay |
| Loader.Load | src/kernel/exec.c:44-90 | loading succeeds exactly for acceptable files, with the entry in the image; every byte of memory is the overlay over a cleared image, and outside the image nothing is written, also on failure, when all segments end in it |
| ArgumentStack.PushTexts | src/kernel/exec.c:112-117 | the strings are stored with their terminators, last first, and their addresses kept |
| ArgumentStack.PushVector | src/kernel/exec.c:120-126 | the pointer vector ends with NULL and points at the strings |
| ArgumentStack.PrepareStack | src/kernel/exec.c:100-137 | for arguments that fit, reading memory from the returned pointer gives back the first min(argc, 16); it is word-aligned; only the stack is written |
| ArgumentStack.ReadStored | src/kernel/exec.c:113-116 | reading up to the NUL gives back a stored string |
| ArgumentStack.BlockDecodes | src/kernel/exec.c:100-137 | a finished block decodes to the arguments |
| ArgumentStack.BlockInMemory | src/kernel/exec.c:100-137 | a finished block as a C program finds it: argc, argv, argv[argc] == NULL, behind each argv[i] the argument's bytes and a NUL, below the top of the stack, with no more than three bytes unused |
| ArgumentStack.ClampIs | src/kernel/exec.c:101-109 | argc between 0 and 16 is kept, less is 0, more is 16 |
| ArgumentStack.BlockSurvives | src/kernel/exec.c:139-146 | the block stays as long as memory above the stack pointer is kept |
| Exec.RunArgv | src/kernel/exec.c:139-151 | the whole call succeeds exactly when the file is there and acceptable and a slot is reusable; then the new process is current and running at the entry, with its image loaded and its arguments readable, and the system's state is that of Ownership.Executed; otherwise the system is unchanged |
| Exec.PrepareAndLoad | src/kernel/exec.c:139-146 | arguments first, file second: it succeeds exactly for an acceptable file, and the arguments outlive the loading |
| Processes.FirstReusable | src/kernel/process.c:60-66 | the first unused or exited slot |
| Processes.ProcessTable.constructor | src/kernel/process.c:43-47 | power-on state of the slots |
| Processes.ProcessTable.Create | src/kernel/process.c:57-98 | the first reusable slot becomes a new process with the next pid and console descriptors; otherwise nothing changes |
| Processes.ProcessTable.ResetFds | src/kernel/process.c:29-41 | descriptors 0 to 2 on the console, the others free |
| Processes.ProcessTable.MarkRunning | src/kernel/process.c:100-105 | the slot runs and is current |
| Processes.ProcessTable.MarkExited | src/kernel/process.c:107-112 | the slot is exited with its code |
| Scheduler.RoundRobin.Register | src/kernel/scheduler.c:27-46 | the loop over the ring is the registration function |
| Scheduler.RoundRobin.SetCurrent | src/kernel/scheduler.c:52-61 | the search sets the index to the slot's place |
| Scheduler.RoundRobin.Yield | src/kernel/scheduler.c:63-89 | the search loop with its state changes is the yield function |
| Fairness.RegisterNeverDrops | src/kernel/scheduler.c:27-46 | with room for all slots a registered slot is in the ring exactly once and nobody leaves it |
| Fairness.FullRingDrops | src/kernel/scheduler.c:38-45 | with less room a registration is lost and the index names somebody else: a concrete ring |
| Fairness.SelectKeeps | src/kernel/scheduler.c:52-61 | selecting a member keeps the ring sound, the index naming it |
| Fairness.YieldKeeps | src/kernel/scheduler.c:63-89 | a yield keeps the ring sound, and changes nothing but states between ready and running |
| Fairness.YieldKeepsOneRunning | src/kernel/scheduler.c:75-83 | at most one process is running and it is the chosen one, before and after; with a live member somebody runs after |
| Fairness.OrderIsExact | src/kernel/scheduler.c:68-69 | a round lists each live member once |
| Fairness.RoundVisitsEachOnce | src/kernel/scheduler.c:63-89 | as many yields as there are live members choose each of them exactly once, in ring order from the current place |
| Effects.CloseFrees | src/kernel/syscall.c:335-349 | close succeeds exactly for a descriptor in use from 3 on; then it is free, all other descriptors and processes are as before, a second close fails, and the framebuffer is given up exactly with its last descriptor; a failing close changes nothing |
| Effects.OpenTakesLowest | src/kernel/syscall.c:220-265 | open succeeds exactly when the path names something, the framebuffer is nobody else's if it is that, and a descriptor from 3 on is free; then the lowest such is in use for it, a file from its start, and all else is as before; a failing open changes nothing |
| Effects.CloseThenOpen | src/kernel/syscall.c:220-265 | what is opened after a close gets the lowest descriptor that was free or is free now |
| Effects.OpenThenClose | src/kernel/syscall.c:335-349 | opening and then closing leaves the whole system as it was |
| Effects.AdvanceMoves | src/kernel/syscall.c:298-308 | a read moves the offset of one open file and nothing else |
| Effects.ExitEnds | src/kernel/syscall.c:189-202 | after exit the process is over, with its code and without descriptors, the framebuffer given up if it was its own; of other processes at most states change |
| Effects.ExitChoosesNext | src/kernel/syscall.c:189-202 | the first live process ahead in the ring runs after an exit, the leaving one left aside |
| Effects.ExecStarts | src/kernel/process.c:57-98 | a successful exec takes the first reusable slot for a process with the next pid, running at the entry in its regions, named after the path, with descriptors 0 to 2 on the console; both current processes are it; nothing else changes but ring and pid counter |
| Effects.YieldChoosesNext | src/kernel/scheduler.c:63-89 | a yield chooses the first live process going forward around the ring from the index; it runs, the one running before waits, nobody else is touched |
| Effects.YieldWithNobody | src/kernel/scheduler.c:63-89 | with nobody live a yield changes nothing |
| Ownership.LockMeansOneHolder | src/kernel/syscall.c:82-118 | in a sound system the terminal is locked if and only if there is an owner, if and only if exactly one process holds a framebuffer descriptor; it is live and the owner |
| Ownership.OpenKeeps | src/kernel/syscall.c:220-265 | open keeps the system sound |
| Ownership.CloseKeeps | src/kernel/syscall.c:335-349 | close keeps the system sound: the last framebuffer descriptor releases ownership and lock |
| Ownership.AdvanceKeeps | src/kernel/syscall.c:298-308 | a file read keeps the system sound |
| Ownership.ExitKeeps | src/kernel/syscall.c:189-202 | exit keeps the system sound: ownership is released, the slot's descriptors are free |
| Ownership.YieldKeepsInv | src/kernel/syscall.c:351-360 | a yield keeps the system sound |
| Ownership.ExecFindsSlot | src/kernel/process.c:60-66 | exec finds a slot exactly when one is reusable, and changes nothing otherwise |
| Ownership.ExecKeepsIff | src/kernel/process.c:72-73 | exec keeps ownership, lock, slots and ring sound if and only if it finds no slot or the next pid is not the owner's, 0 standing for no owner; nobody leaves the ring |
| Ownership.ExecThenOpenIff | src/kernel/syscall.c:87-92 | a new process that opens the framebuffer leaves lock, owner and unique holder in agreement if and only if its pid was not the owner's |
| Ownership.ExecKeepsPidsIff | src/kernel/process.c:72-73 | exec keeps live pids non-zero and pairwise different if and only if the next one is neither 0 nor in use |
| Ownership.ExecKeepsOneRunningIff | src/kernel/exec.c:148-149 | exec leaves exactly one running process if and only if none was running before; both current pointers name the new one |
| Ownership.ExitKeepsOneRunning | src/kernel/syscall.c:189-202 | exit keeps at most one process running, the chosen one |
| Ownership.YieldKeepsCurrentIff | src/kernel/syscall.c:351-360 | when both current processes are the same, they still are after a yield if and only if no other process is live |
| Ownership.ExitKeepsCurrentIff | src/kernel/syscall.c:189-202 | the same for an exit |
| Runs.RunKeeps | src/kernel/syscall.c:189-360 | over every run of exec, open, close, read, yield and exit in which each exec finds no slot or a next pid other than the owner's, the system stays sound and nobody leaves the ring |
| Runs.LockOverRuns | src/kernel/syscall.c:82-118 | from power-on, over every such run: locked, owned, and held by exactly one live process are the same |
| Runs.UnwrappedRuns | src/kernel/process.c:72-73 | a run of fewer than 2^32 execs from power-on needs no such guard, and live processes have different pids at its end |
| Runs.PromiseCanBreak | src/kernel/process.c:72-73 | from every sound system with a free slot there is a run, processes coming and going until the pid counter is the owner's, after which locked, owned and held are no longer the same |
| Runs.CounterComesAround | src/kernel/process.c:72-73 | the run from power-on that brings the pid counter back to 0 while nobody is the owner |
| Runs.CurrentsComeApart | src/kernel/syscall.c:351-360 | from power-on: two execs and a yield, and the scheduler has chosen one process while system calls act for the other |
| Runs.RunKeepsOneRunning | src/kernel/scheduler.c:75-83 | over every run in which exec comes only when nothing is running, or finds no slot, at most one process is running, the chosen one |
| Syscalls.Kernel.constructor | src/kernel/kernel.c:68-69 | power-on state of slots, ring, owner and lock |
| Syscalls.Kernel.ForceAcquire | src/kernel/syscall.c:82-94 | owner and lock are taken exactly when the display is there and nobody else owns it |
| Syscalls.Kernel.ReleaseIfUnused | src/kernel/syscall.c:96-109 | owner and lock are given back exactly when the owner has no framebuffer descriptor left |
| Syscalls.Kernel.ForceRelease | src/kernel/syscall.c:111-118 | owner and lock are given back by the owner only |
| Syscalls.Kernel.OpenNamed | src/kernel/syscall.c:216-265 | the search for the first free descriptor and the device names leave exactly the state and result of Ownership.Opened; a descriptor is taken only if the whole call succeeds |
| Syscalls.DeviceNames | src/kernel/syscall.c:204-252 | /dev/fb0, /dev/mouse0, /dev/console and /dev/null name the four devices; any other path is a file's, or nothing's |
| Syscalls.Kernel.Open | src/kernel/syscall.c:204-266 | open on a user string: it refines the pure step for what the string names, and fails exactly on unreadable or over-long strings before that |
| Syscalls.Kernel.Close | src/kernel/syscall.c:335-349 | the in-place code leaves exactly the state and result of Ownership.Closed, so what holds over runs holds of it: standard descriptors cannot be closed, and the last framebuffer descriptor gives back owner and lock |
| Syscalls.Kernel.Exit | src/kernel/syscall.c:189-199 | it leaves exactly the state of Ownership.Left: ownership released, descriptors freed, slot exited, and a yield from there |
| Syscalls.Kernel.Yield | src/kernel/syscall.c:351-360 | it leaves exactly the state of a yield of the ring, descriptors and ownership untouched |
| Syscalls.Kernel.Exec | src/kernel/exec.c:91-97 | create, register, select, run and reset in this order leave exactly the state of Ownership.Executed |
| Syscalls.Kernel.WriteChunks | src/kernel/syscall.c:168-186 | in pieces of 64 bytes it accepts exactly the ranges whole in one region |
| Syscalls.Kernel.Write | src/kernel/syscall.c:156-187 | to a console it succeeds exactly for ranges in one region and sends exactly those bytes; otherwise it sends the longest prefix of whole pieces that can be read; other descriptors send nothing |
| Syscalls.Kernel.CopyOut | src/kernel/syscall.c:298-308 | bytes reach the user's buffer exactly when it is a user range, and no other byte changes |
| Syscalls.Kernel.ReadFile | src/kernel/syscall.c:268-308 | the next bytes of the file go to the user's buffer and the offset moves on, or nothing changes; no other byte of memory changes |
| Descriptors.OpenFile | src/kernel/syscall.c:253-262 | a new descriptor is at offset 0 of exactly the bytes the tree has for the path |
| Descriptors.ReadOne | src/kernel/syscall.c:298-308 | a read returns the next bytes and leaves the file's bytes alone |
| Descriptors.WriteOne | src/kernel/ramfs.c:189-200 | a write to any path, the opened one included, leaves the opened bytes alone |
| Descriptors.Session | src/kernel/syscall.c:298-308 | over any sequence of reads and writes the reads concatenate to the opened contents from the first offset to the last, and to all the rest once a non-empty request returns 0 |
| Descriptors.SafeIffOffRegions | src/kernel/process.c:114-134 | an open file's bytes survive everything a process may store in its regions if and only if they lie outside the regions |
| ConsoleInput.Input.Push | src/kernel/console.c:28-35 | the character is queued, and dropped exactly when the queue is full |
| ConsoleInput.Input.Read | src/kernel/console.c:44-54 | the oldest characters up to the limit leave the queue, in order |
| ConsoleInput.ReadConsole | src/kernel/syscall.c:278-292 | a read takes up to 64 characters from the queue and copies them out; they leave the queue also when the copy fails, so input is lost if and only if characters were waiting and the buffer is no user range |
| SharedScreen.PowerOn | src/kernel/terminal.c:281-330 | kernel, queue and terminal start joined: sound, unlocked, the cleared screen shown |
| SharedScreen.ChangeHolders | src/kernel/syscall.c:82-118 | a call that changes who holds the framebuffer hands the lock to the terminal; the transcript stays, and so does every pixel if the terminal is locked then |
| SharedScreen.Draw | src/kernel/syscall.c:433-538 | a put-pixel, fill or blit draws only while the terminal is locked, only after the checks of its request, and only in its rectangle |
| SharedScreen.Print | src/kernel/console.c:28-42 | what a write sends, a key that finds room, and a clear reach the transcript, locked or not; a locked display is left alone |
| SharedScreen.GridIsPicture | src/kernel/terminal.c:170-199 | an unlocked display is, pixel by pixel, the rendering of the transcript |
| SharedScreen.Act | src/kernel/syscall.c:545-572 | one action: its mark is what it did to transcript and display, and a drawn rectangle is the one an accepted request asks for |
| SharedScreen.RunShared | src/kernel/terminal.c:436-448 | over every run of exec, system calls, keys and stores: the grid is the window of everything written and typed since the last clear; whenever no process holds a framebuffer descriptor, and in text mode always, the screen shows it; while one holds it, the display is the rendering from before it was taken, but for the rectangles that accepted calls drew since |
| SharedScreen.PlayedIsText | src/kernel/terminal.c:402-406 | a run without a clear leaves the transcript of what was written and typed, character after character |
| SharedScreen.PlayedSinceClear | src/kernel/terminal.c:332-354 | after a clear nothing before it matters |
| Mouse.DyIsNegated | src/kernel/mouse.c:159 | dy is the movement negated, except -128 |
| Mouse.EventFields | src/kernel/mouse.c:150-162 | dx is the second byte as a signed number, dy the third one negated, the buttons the low three bits of the first, and the changes what differs from the last buttons |
| Mouse.ParseSkipsToPacket | src/kernel/mouse.c:142-148 | bytes without bit 3 are skipped until a packet starts, which takes three bytes whatever the other two are |
| Mouse.EmitsWhatParserReads | src/kernel/mouse.c:142-166 | for every byte stream the state machine emits the events of the reference parser |
| Mouse.ChangesAddUp | src/kernel/mouse.c:154-156 | from any point on, the changes XOR to the difference of the buttons before and after |
| Mouse.ChangesAreButtons | src/kernel/mouse.c:154-156 | since start-up the changes XOR to the buttons held now |
| Mouse.Driver.Push | src/kernel/mouse.c:85-93 | the ring buffer appends to the queue, and drops the event exactly when it is full |
| Mouse.Driver.ReadEvents | src/kernel/mouse.c:95-105 | the oldest events up to the limit leave the queue, in order |
| Mouse.Driver.HandleIrq | src/kernel/mouse.c:130-167 | one interrupt is one step of the state machine and at most one push; without a mouse byte nothing changes |

## Left out

- Loader.Load: the file must be "tame" (its table's end and its segments' offsets do not wrap around 2^32, it lies outside the image, and its accepted segments do not overwrite it); other files make the kernel read its own memory as a file or overwrite the file it is reading, and the model says nothing about them.
- Loader.LoadSegment: the same for one segment: it does not wrap and does not overwrite the file.
- Loader.LoadSegments: the same for the loop over the table.
- Exec.RunArgv: the arguments must fit the stack and the file must lie outside it; the kernel does not check either.
- Exec.PrepareAndLoad: the same.
- Heap.AllocBlock: a request whose end wraps around 2^32 is Heap.AcceptedIsSoundIffNoWrap's subject; alignments above a page, which no caller uses, are left out.
- Heap.RunBlocksDisjoint: runs with a request that wraps; after one blocks can overlap, as Heap.WrappedRunOverlaps shows.
- Ramfs.Tree.constructor: a heap without room for the root node leaves the source with a null root; at boot the heap has 32 MiB.
- UserSpace.MapUserPages: a translation the processor has cached from before a page was mapped again is not modelled.
- Initrd.LoadOne: a record whose data goes beyond the archive is not covered.
- Initrd.LoadInitrd: an archive base that is not 512-aligned, data beyond the archive's end, and an archive inside the free heap, where loading writes over what it has yet to read, are not covered.
- Ramfs.Tree.WriteBytes: sizes for which the allocation's end could wrap around 2^32 are not covered.
- Ramfs.Tree.Write: the same sizes; null path pointers are not modelled.
- Framebuffer.Display.Plot: coordinates off the screen, which the terminal never uses because its cells are on the screen.
- Blit.DrawRect: a rectangle whose far edge wraps around 2^32; the system calls refuse one.
- Terminal.Terminal.PutBackspace: a backspace at the start of a lower row of a screen with fewer than 80 columns puts the cursor off the screen, and every further cell with it.
- Terminal.Terminal.Run: screens with several rows and fewer than 80 columns, where that can happen.
- Terminal.Terminal.WriteText: the same screens.
- SharedScreen.RunShared: the same screens; an exec that gives out the owner's pid is not followed; the rectangle that each mark names is tied to its request by Act, action by action.
- Terminal.Terminal.PutChar: the one unsafe output on narrow screens, a backspace at the start of a lower row, is not followed further.
- Terminal.Terminal.UpdateCursor: the port writes of the VGA cursor are one field holding the position.
- Processes.ProcessTable.Create: saved registers and the page directory of a process are not fields of the model.
- Syscalls.Kernel.ReadFile: a file whose bytes lie under the user pages is not covered; reading from the console is ConsoleInput.ReadConsole; reading from the mouse, the null device and the framebuffer device is not modelled, but the mouse queue is, in Mouse.
- Syscalls.Kernel.Write: the console is a growing sequence of bytes; SharedScreen connects it to the terminal; the serial port is not modelled.
- Syscalls.Kernel.ForceAcquire: the terminal's lock is a flag here; in SharedScreen the terminal takes it over at the end of each call.
- Ramfs.Tree.AddChild: a node is an object; that its storage is cleared is in the model, that the process may write over it when it lies under a user page is not.
- Runs.RunKeeps: calls come from a live current process, since only such a process is in user mode; an exec that cannot load its file is no event, as it changes no slot.
- The list and info system calls, the routing of paths to /dev and the device directory itself: short functions that copy a name list or a structure out, with nothing to say beyond the members they call.
- framebuffer_fill and the shell's drawing demo: nothing beyond a rectangle fill; the demo draws without the lock.
- Segment tables, interrupt and timer set-up, ring changes, control registers, keyboard, serial port, panic screen, kernel and user shells: hardware effects, foreign code and lookup tables.
- The glyphs and colours themselves: the font is a parameter with a blank space, the palette a table.
- ustar magic, checksum and links: the kernel does not look at them; entries of other types are skipped with their data.
- Preemption: system calls run to completion, so each is one step.
