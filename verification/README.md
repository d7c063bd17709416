# WaluOS verification

A Dafny model of three parts of the WaluOS kernel, with proofs about all their runs.

**Memory.** `pmm.dfy` is the frame bitmap of `kernel/src/core/pmm.c`. `paging.dfy` models
physical memory as pages of 512 words and gives the hardware walk (4-level paging, section
4.5 of Intel SDM volume 3A) as the function `Translate`. `pagemap.dfy` says what mapping a
2 MiB page does to physical memory: a functional update of that walk that keeps the tables a
tree. The code never sees physical memory: it reaches each table through the tables
themselves, by the identity map of the first GiB. `window.dfy` has those linear accesses,
proves that they are the physical ones as long as that window is open, says exactly which
calls keep it open, and has the theorems about whole runs. `vmm.dfy`, `video.dfy` and
`boot.dfy` are the code that edits the tables in place, the framebuffer mapping and the
bring-up order of `kernel_main`.

**Terminal.** `terminal.dfy` is the console of `kernel/src/core/console.c` as a function
from a screen and a byte to a screen. `screen.dfy` has the two backends, the VGA word array
and the shadow cells with the pixel framebuffer, `console.dfy` the parser and cursor code on
top of them, `terminaltheorems.dfy` says what running text does, and `sequences.dfy` what each
control sequence does, from ESC to its final byte. `utf8.dfy` relates the keyboard's encoder
to the console's decoder (section 3 of RFC 3629).

**Input.** `scancodes.dfy` is the interrupt handler's key state, `keyboard.dfy` the
interrupt-driven byte queue, one memory access at a time.
`lineeditor.dfy` and `tty.dfy` are the canonical line discipline, `pty.dfy` the
pseudo-terminals, `shell.dfy` the command assembler; `ring.dfy` holds what the rings share.
`keystrokes.dfy` joins them: from the keys pressed to the command executed.

State that the kernel updates in place is a class; each of its methods is proved equal to a
function on values, and the lemmas are about those functions, for all inputs and all runs.

Some statements fail of the code as one might first expect them, and are given with their
exact condition:

- A successful `vmm_map_2m` does not always map the page it was asked for. A call that maps
  over the first GiB can take a table away from the code, and a later call then reports
  success through the wrong memory: `Window.MapOverWindowLosesATable` is a run.
  `Window.WindowStaysOpenIff` gives the exact condition on a call, and everything about
  later calls is stated for runs that meet it.
- The framebuffer mapping does not always meet it: physical ranges from 2^48 on fold onto low
  linear addresses, because the mapper drops bits 63..48 of the linear address but keeps bits
  51..48 of the physical one. `Video.FoldsIffSomePageCloses` and `Video.FirstGiBSurvivesIff`
  give the condition on the range, `Video.FoldingDescription` a framebuffer that folds.
  Nothing is claimed about the loop past the page that closes the window.
- A mapping requested with the user flag is not user-accessible: parent entries never carry
  that bit. `Paging.TranslateInTree` and `Window.MapUpdatesTranslation` report the leaf bit
  and the path separately (`pathUser` is always false).
- A frame that `pmm_init` leaves free need not be available memory as a whole, because entries
  are rounded outwards; `Pmm.FreeFramesAreWholeAfterInit` excludes it for page-aligned maps,
  and `Pmm.WholeFramesIffAligned` is the exact condition on a single entry. An entry whose end
  wraps at 64 bits releases almost nothing (`Pmm.MarksIffOverlaps`).
- A poll can lose deliveries even when it starts with an empty PTY. `Tty.PollsNeverDropIff`
  gives the exact length for every held line.
- Text pixels can overlap in memory, because the pitch is not compared with the width:
  `Screens.TextPixelsAreDistinctIff`.
- An accepted UTF-8 sequence need not be one stretch of the input: characters below 0x80 are
  shown in the middle of it and do not disturb it (`Utf8.AsciiPassesThrough`).
- A clear modifier bit does not mean that no such key is held: left and right keys share it.
  `Scancodes.BitAgreesIff` says when it does, `Scancodes.SharedShiftBit` gives a run.
- While frame 0 is free the next allocation takes it and reads as a failure, although other
  frames are free; `PageMap.HasRoom` therefore asks for frame 0 in use, which `pmm_init`
  always leaves it.
- Control sequences do not always mean what they do elsewhere: an absent first parameter is
  skipped, so that the column of `ESC [ ; n H` is taken for the row
  (`Sequences.LeadingBlankIsSkipped`); a coordinate written as 0 is the last one, not the
  first (`Sequences.MoveSequenceMoves`); bold before a colour is lost, so the prompt's
  `ESC [ 1 ; 32 m` at `kernel/src/core/shell.c` line 18 is dark green
  (`Sequences.BoldIsLostBeforeColour`); after `ESC [ ?` the rest is shown as text
  (`Sequences.OtherByteEndsSequence`).
- A character typed with Alt never reaches the line, and Alt with `[` or `O` also swallows
  what is typed next up to a byte from 0x40 to 0x7E (`LineEditor.AltKeyIsSwallowed`).
- The comment at `kernel/src/core/keyboard.c` line 415 says that Pause is ignored; the code
  also drops three scancodes after it (`Scancodes.PauseSwallowsThreeMore`), and an arrow key
  among them makes it misread a later key (`Scancodes.ArrowAfterPause`).

Conventions: 64-bit words are natural numbers below 2^64 with wrap-around written out; `|` of
words without common bits is `+`. A 32-bit parameter that overflows is taken to wrap (in C it
is undefined); the bounds of `Terminal.PutBytes` do not depend on parameter values.

## Model

| member | source | states |
|---|---|---|
| `Pmm.FrameAllocator.SetFrame` | kernel/src/core/pmm.c:16-26 | setting a bit adds exactly that frame to the used set (nothing at or above the total), and the counter stays the size of the set |
| `Pmm.FrameAllocator.ClearFrame` | kernel/src/core/pmm.c:28-40 | clearing removes exactly that frame; the `used_frames > 0` guard never decides anything |
| `Pmm.FrameAllocator.TestFrame` | kernel/src/core/pmm.c:42-47 | a frame reads as used when its bit is set or it lies at or above the total |
| `Pmm.FrameAllocator.MarkRegion` | kernel/src/core/pmm.c:49-69 | for every address and length exactly the frames of Marks change: rounded outwards, cut at 1 GiB, with an end that wraps at 64 bits |
| `Pmm.MarksIffOverlaps` | kernel/src/core/pmm.c:49-60 | those frames are the ones that share a byte with the region if and only if the end does not wrap (or the region is empty, above 1 GiB, or both amount to the last frame) |
| `Pmm.OverlapsIsASharedByte` | kernel/src/core/pmm.c:59-60 | the rounding outwards in both directions means: the frame and the region have a byte in common |
| `Pmm.WholeFramesIffAligned` | kernel/src/core/pmm.c:54-60 | every frame an entry touches lies inside the entry if and only if the entry is page-aligned |
| `Pmm.FreeFramesAreWholeAfterInit` | kernel/src/core/pmm.c:71-135 | when all available entries are page-aligned, every frame that pmm_init leaves free lies inside one of them |
| `Pmm.FrameAllocator.HighestAvailableEnd` | kernel/src/core/pmm.c:75-97 | the first pass computes the highest 64-bit end of an available entry, at least 16 MiB |
| `Pmm.HighestEndIsMaximum` | kernel/src/core/pmm.c:75-90 | that value bounds every available entry's end and is attained, or is the 16 MiB floor |
| `Pmm.FrameAllocator.ReleaseAvailable` | kernel/src/core/pmm.c:111-128 | the second pass leaves used exactly the frames no available entry touches |
| `Pmm.FrameAllocator.Init` | kernel/src/core/pmm.c:71-135 | for every memory map, wrapping entries included: a frame below the total is free exactly when an available entry marks it, it lies at or above 1 MiB and it does not overlap the kernel image |
| `Pmm.BootFreeByBytes` | kernel/src/core/pmm.c:71-135 | the same byte by byte, for entries that do not wrap: a frame is free after boot if and only if some byte of it is available and every byte lies at or above 1 MiB and outside the kernel image |
| `Pmm.FrameAllocator.AllocFrame` | kernel/src/core/pmm.c:137-145 | the scan refines lowest-free-frame allocation over the whole range |
| `Pmm.FrameAllocator.AllocFrameLow` | kernel/src/core/pmm.c:147-161 | the same under a physical bound |
| `Pmm.AllocTakesLowestFree` | kernel/src/core/pmm.c:137-161 | allocation takes the lowest free frame under the bound and marks only it; it reports 0 exactly when none is free there, or when frame 0 had been freed and is the one taken |
| `Pmm.ReleaseUndoesAlloc` | kernel/src/core/pmm.c:147-165 | freeing an allocated frame restores the allocator exactly, and freeing it twice changes nothing more |
| `Pmm.FrameAllocator.FreeFrame` | kernel/src/core/pmm.c:163-165 | freeing removes the frame that contains the address |
| `Pmm.FrameAllocator.Kib` | kernel/src/core/pmm.c:167-180 | in every valid state total KiB is used plus free KiB, and used is four times the number of set bits; the guard in the free counter never fires |
| `Paging.TranslateInTree` | kernel/src/core/vmm.c:20-34 | inside the table tree the 4-level walk is decided by one PD entry, on a path that is writable and never user-accessible |
| `PageMap.LeafEntryFields` | kernel/src/core/vmm.c:61-72 | the leaf word decodes to the physical page modulo 2^52 and exactly the requested writable, user and NX bits |
| `PageMap.SetLeafTranslation` | kernel/src/core/vmm.c:72 | writing one PD slot changes the walk of exactly the addresses with those three indices |
| `PageMap.EnsureTableGrows` | kernel/src/core/vmm.c:20-34 | a table can be had if and only if it exists or a frame is free (with frame 0 in use); then exactly the missing table is added, in a frame that was free |
| `PageMap.RoomInParts` | kernel/src/core/vmm.c:46-57 | after one part of some tables has been added there is room for the rest if and only if there was room for all: running out is decided by counts, not by order |
| `PageMap.OneParentSlot` | kernel/src/core/vmm.c:28-32 | each table hangs in exactly one slot of exactly one parent |
| `Window.ZeroIsPhysical` | kernel/src/core/vmm.c:27 | clearing a new table through the tables clears exactly its frame: the window stays open from store to store |
| `Window.EnsureTableThroughWindow` | kernel/src/core/vmm.c:20-34 | from a tree with its window open, the accesses of `ensure_table` do not fault, reach the frames meant, keep the tree and leave the window open |
| `Window.EnsureTableChangesNoTranslation` | kernel/src/core/vmm.c:20-34 | making room for a table changes no translation |
| `Window.MapIsPhysical` | kernel/src/core/vmm.c:41-75 | with the window open the whole call, access by access through the tables it edits, is the transformation of physical memory that PageMap describes |
| `Window.MapUpdatesTranslation` | kernel/src/core/vmm.c:41-75 | with the window open no access faults, and for every 48-bit address a successful mapping is a functional update of the walk on one 2 MiB page, a failure at any level changes nothing |
| `Window.MapSucceedsIff` | kernel/src/core/vmm.c:41-75 | with the window open a request succeeds if and only if both addresses are 2 MiB aligned and there is room for every missing table on its path; it then takes one frame for each of them and no other |
| `Window.WindowStaysOpenIff` | kernel/src/core/vmm.c:12-18 | the window is open after a call if and only if the call failed, or the page lies outside the first GiB, or it maps a page of the window to itself, writable |
| `Window.StepIsSafeIffCareful` | kernel/src/core/vmm.c:20-75 | one map, allocation or free keeps shape and window if and only if it frees no table and maps over no part of the window |
| `Window.RunKeepsTree` | kernel/src/core/vmm.c:20-75 | over every run of careful operations the shape holds, the window stays open, no access faults and no table ever moves |
| `Window.TablesAreNeverHandedOut` | kernel/src/core/vmm.c:20-34 | over such a run a frame that was a table at any earlier time is never returned by a later allocation |
| `Window.RunKeepsOtherFrames` | kernel/src/core/vmm.c:20-75 | over such a run a frame allocated for something else and not freed keeps its content and never becomes a table |
| `Window.LostTable` | kernel/src/core/vmm.c:16-34 | when the page of a PDPT leads elsewhere, a map through it can report success and change no translation |
| `Window.MapOverWindowLosesATable` | kernel/src/core/vmm.c:20-75 | two successful maps, the second over the window, after which the next map reports success and its page is not mapped |
| `Vmm.PageMapper.EnsureTable` | kernel/src/core/vmm.c:20-34 | load, `memset`, link and re-read through linear addresses, in every state of the tables, are the function the lemmas are about |
| `Vmm.PageMapper.ClearTable` | kernel/src/core/vmm.c:27 | the zeroing loop, each store translated by the tables as they are then |
| `Vmm.PageMapper.MapSteps` | kernel/src/core/vmm.c:41-75 | in every state, tree or not, the accesses of `vmm_map_2m` in their order, up to the first fault |
| `Vmm.PageMapper.LeafWord` | kernel/src/core/vmm.c:61-72 | the flag-by-flag word is the entry whose fields LeafEntryFields describes |
| `Vmm.PageMapper.Map2m` | kernel/src/core/vmm.c:41-75 | from a tree with its window open: no fault; success if and only if both addresses are aligned and every missing table on the path can get a frame, each taking exactly one; the walk of all 48-bit addresses is updated on the one page or, on failure, unchanged; the window stays open exactly when the page keeps it |
| `Vmm.PageMapper.Init` | kernel/src/core/vmm.c:36-39 | succeeds if and only if the tables above 1 GiB are there or can get frames; then the 2 MiB above the first GiB become identity mapped, otherwise nothing; everything else translates as before, and tree and window are kept |
| `Video.AlignDown2m` | kernel/src/core/video.c:11-13 | the largest multiple of 2 MiB not above the value |
| `Video.AcceptedNeverWrapped` | kernel/src/core/video.c:71-87 | when the range check passes, neither 64-bit addition wrapped and the page range covers the framebuffer tightly |
| `Video.AcceptedIff` | kernel/src/core/video.c:71-87 | accepted are exactly the present framebuffers of 1 byte to 256 MiB whose address plus size plus 2 MiB - 1 stays below 2^64 |
| `Video.ExtendRange` | kernel/src/core/video.c:89-94 | mapping one more page extends the identity-mapped range by exactly 2 MiB on the 48-bit circle |
| `Video.FoldsIffSomePageCloses` | kernel/src/core/video.c:89-94 | a range folds onto the first GiB if and only if one of its pages, mapped to itself, closes the identity window |
| `Video.FramebufferDriver.MapRange` | kernel/src/core/video.c:89-97 | while the window stays open the loop has mapped exactly the pages up to the one where it stops, and it stops before the end if and only if there is no room for the tables of the next page; a page that closes the window belongs to a folding range, and past it nothing is claimed; the counter never wraps |
| `Video.FramebufferDriver.MapFramebuffer` | kernel/src/core/video.c:71-98 | rejected descriptions change nothing; accepted ones that do not fold succeed if and only if there is room for all their tables, and map the enclosing pages or, on failure, an initial piece of them, with the mapped flag set to the result; a successful call closed the window if and only if the range folds |
| `Video.StopsAtEndIffRoom` | kernel/src/core/video.c:89-97 | the loop reaches the end of the range if and only if there is room for the tables of all its pages together |
| `Video.AtMostFourTables` | kernel/src/core/video.c:71-97 | the pages of an accepted range need at most four tables |
| `Video.FramebufferIsIdentityMapped` | kernel/src/core/video.c:83-97 | after success every framebuffer byte below 2^47, where addresses are canonical, translates to itself, writable |
| `Video.FirstGiBSurvivesIff` | kernel/src/core/video.c:83-94 | identity-mapping a range preserves the identity map of the first GiB if and only if the range does not fold onto it with non-zero bits 51..48 |
| `Video.FirstGiBSurvives` | kernel/src/core/video.c:89-97 | wherever the loop stopped, a range that does not fold leaves the first GiB as it was |
| `Video.FoldingDescription` | kernel/src/core/video.c:71-87 | a 2 MiB framebuffer at 2^48 is accepted and folds onto the first page |
| `Boot.BootIsTree` | kernel/src/arch/x86_64/boot.S:92-109 | the three boot tables in reserved frames are a valid table tree |
| `Boot.BootIdentity` | kernel/src/arch/x86_64/boot.S:92-109 | they translate each address of the first GiB to itself, writable, and no other address |
| `Boot.BootCanLoseATable` | kernel/src/arch/x86_64/boot.S:92-109 | the run of MapOverWindowLosesATable can start from the boot tables |
| `Boot.InitPaging` | kernel/src/core/kernel.c:41-44 | `pmm_init` then `vmm_init`, from boot tables inside the kernel image and for every memory map, give a valid tree over the allocator with the first GiB identity mapped, and the page above it if and only if the memory map leaves any frame free |
| `Boot.InitNeedsOneFrame` | kernel/src/core/vmm.c:36-39 | on the boot tables `vmm_init` succeeds if and only if one frame is free, and takes one |
| `Boot.RoomAfterInit` | kernel/src/core/vmm.c:20-75 | after it there is room for given tables if and only if none is missing or there is a free frame for each and for the one `vmm_init` took |
| `Boot.FiveFramesAreEnough` | kernel/src/core/video.c:71-97 | five frames free after `pmm_init` are enough for every framebuffer that is accepted |
| `Boot.MapScreen` | kernel/src/core/kernel.c:47 | the framebuffer mapping after `vmm_init`, unless the range folds: success if and only if the description is accepted and there are enough frames |
| `Boot.BringUp` | kernel/src/core/kernel.c:41-47 | unless an accepted framebuffer range folds: the tree is valid, the first GiB is identity mapped, and the framebuffer gets mapped if and only if its description is accepted and the memory map leaves enough frames for its missing tables; every framebuffer byte below 2^47 is then reachable |
| `Rings.NextIsModulo` | kernel/src/core/keyboard.c:134 | the index step of the rings is addition of one modulo the size |
| `Rings.PushAppends` | kernel/src/core/keyboard.c:133-142 | a ring push appends exactly when fewer than size - 1 bytes wait, otherwise changes nothing |
| `Rings.AdvancePops` | kernel/src/core/keyboard.c:459-467 | the ring is empty exactly when head equals tail; advancing the tail removes the byte stored there, which is the oldest |
| `Keyboard.PushKeepsInv` | kernel/src/core/keyboard.c:133-142 | a push at any point of the consumer keeps the queue invariant and counts a drop exactly when 1023 bytes wait |
| `Keyboard.ConsumeKeepsInv` | kernel/src/core/keyboard.c:459-467 | every single read or write of `keyboard_pop_char` keeps it |
| `Keyboard.EveryInterleavingIsFifo` | kernel/src/core/keyboard.c:133-142 | for every interleaving of pushes with the consumer's accesses: popped plus queued bytes are the accepted ones in order, at most 1023 wait, drops are exactly the rejected pushes |
| `Keyboard.PopSucceeds` | kernel/src/core/keyboard.c:459-467 | a pop with a byte waiting returns the oldest one after its six accesses, however many interrupts fall in between |
| `Keyboard.FewPushesDropNothing` | kernel/src/core/keyboard.c:133-142 | up to 1023 pushes in all, no interleaving drops any |
| `Keyboard.EventBytesMean` | kernel/src/core/keyboard.c:366-380 | what the bytes of a key event mean, by decoding them: nothing on release, otherwise ESC for Alt and exactly the code point, or the special key |
| `Keyboard.SequencesAreDistinct` | kernel/src/core/keyboard.c:337-364 | no special key sends the bytes of another or the beginning of them |
| `Keyboard.KeyboardQueue.PushByte` | kernel/src/core/keyboard.c:133-142 | the array-level push offers one byte to a 1023-byte queue and counts the refusal |
| `Keyboard.KeyboardQueue.EmitSequence` | kernel/src/core/keyboard.c:185-189 | a sequence is queued up to the point where the queue is full, the rest is counted as dropped |
| `Keyboard.KeyboardQueue.EmitInput` | kernel/src/core/keyboard.c:366-380 | with room for five bytes: a release queues nothing; a press queues, after an ESC for Alt, bytes that decode to exactly its code point, or the sequence of its special key; in any case the part that fits is queued and the rest counted |
| `Keyboard.KeyboardQueue.PopChar` | kernel/src/core/keyboard.c:459-467 | returns and removes the oldest byte, or reports emptiness exactly when nothing waits |
| `Scancodes.SetBitsAreHeld` | kernel/src/core/keyboard.c:199-218 | over every run of scancodes a set modifier bit has one of its keys down |
| `Scancodes.BitAgreesIff` | kernel/src/core/keyboard.c:191-218 | after a modifier key moves, its bit tells whether one of its keys is held if and only if the key went down or its twin is up |
| `Scancodes.SharedShiftBit` | kernel/src/core/keyboard.c:201-204 | with both shift keys down, releasing the left one clears the bit while the right one is held |
| `Scancodes.PauseSwallowsThreeMore` | kernel/src/core/keyboard.c:405-423 | the second E1 of Pause arms the skip count again: whatever follows is read as after a count of three, for any stream, prefixes included |
| `Scancodes.ScanAfterSkipping` | kernel/src/core/keyboard.c:405-423 | while the skip count lasts, no scancode reports anything or touches anything but count and prefix flag |
| `Scancodes.SkippedPart` | kernel/src/core/keyboard.c:405-423 | without E1 the skipped part holds exactly as many scancodes other than E0 as the count said, and the prefix flag ends up set if it was set or E0 is among it |
| `Scancodes.ArrowAfterPause` | kernel/src/core/keyboard.c:405-435 | an arrow key and one more scancode after Pause vanish but for the prefix flag: the next plain key is looked up as an E0 key |
| `Scancodes.LocksCountPresses` | kernel/src/core/keyboard.c:219-233 | over every run a lock is on according to the parity of the reported presses, auto-repeat included |
| `Scancodes.KeysFollowReports` | kernel/src/core/keyboard.c:434-443 | over every run a key counts as held as the last report about it said, and as before if there was none |
| `Scancodes.StrokesDecideBytes` | kernel/src/core/keyboard.c:400-467 | over every run of key strokes, prefixed or not: the bytes sent are those of the keys going down, by code point or special key, after ESC if an Alt key is held, with the modifiers and locks then on; releases, unknown keys and auto-repeat add nothing of their own |
| `Scancodes.StrokesAreQueued` | kernel/src/core/keyboard.c:400-467 | so a run of interrupts offers the queue exactly the bytes of the strokes, whatever it held |
| `Scancodes.IrqsOfferBytes` | kernel/src/core/keyboard.c:400-467 | a run of interrupts is one offer of all bytes reported, in order: refusals by a full queue do not depend on how it is cut |
| `Scancodes.TypingSendsCharacters` | kernel/src/core/keyboard.c:400-467 | presses and releases of keys that type characters send the encodings of the characters of the keys pressed, in order |
| `Scancodes.TypedKeysAreQueued` | kernel/src/core/keyboard.c:400-467 | what such a run queues decodes to exactly those characters |
| `Scancodes.KeyboardDriver.constructor` | kernel/src/core/keyboard.c:382-398 | the handler starts with no prefix, no skip, no modifier, no lock and no key down |
| `Scancodes.KeyboardDriver.OnIrq` | kernel/src/core/keyboard.c:400-457 | the handler follows the scanner, and the queue is offered the bytes of the event it reports, a refused byte being counted |
| `Utf8.DecodeUndoesEncode` | kernel/src/core/keyboard.c:155-183 | any sequence of scalar values encoded by the keyboard decodes to the same sequence with nothing pending |
| `Utf8.AsciiPassesThrough` | kernel/src/core/console.c:588-599 | in every stream of ground-state bytes those below 0x80 appear as themselves in order, and everything else shown, like the decoder state, is that of the stream without them |
| `Utf8.TraceEmits` | kernel/src/core/console.c:494-599 | cutting a stream into characters and sequences accounts for every emission, in order |
| `Utf8.TracePartitions` | kernel/src/core/console.c:494-599 | the sequences and the bytes still held partition the bytes from 0x80 on, in order |
| `Utf8.AcceptedBytesAreEncodings` | kernel/src/core/console.c:494-599 | in every stream of ground-state bytes, those from 0x80 on of an accepted sequence are exactly its encoding, and the stretch from its first to its last byte is that encoding if and only if no ASCII byte came in between |
| `Utf8.SpellingIsEncoding` | kernel/src/core/console.c:494-558 | the sequences the decoder accepts are exactly the encodings of the scalar values from 0x80 on, so none is overlong, a surrogate or above 10FFFF |
| `Utf8.CompleteSequenceIsDecoded` | kernel/src/core/console.c:494-558 | a complete sequence is the code point it encodes, or one mistake if it is nobody's encoding |
| `Utf8.StrayByteIsBad` | kernel/src/core/console.c:526-553 | a byte from 0x80 on that cannot begin a sequence is one mistake |
| `Utf8.BrokenSequenceIsBad` | kernel/src/core/console.c:499-506 | a sequence broken off by another byte from 0x80 on is one mistake, which that byte is part of |
| `Pty.DoIsFifo` | kernel/src/core/pty.c:21-103 | one call moves bytes through at most one of the sixteen channels, first in first out |
| `Pty.EveryChannelIsFifo` | kernel/src/core/pty.c:21-103 | over any interleaving of calls on all PTYs each channel is an independent FIFO of capacity 2047 |
| `Pty.RequestsAreAcceptedOrDropped` | kernel/src/core/pty.c:21-36 | bytes requested by valid writes are bytes accepted plus the growth of the global drop counter |
| `Pty.AllocMakesValid` | kernel/src/core/pty.c:59-71 | an allocation makes exactly one more id valid, with empty channels, unless all eight are in use |
| `Pty.AllocatedIdsAreNew` | kernel/src/core/pty.c:55-71 | over every run valid ids stay valid, no two allocations return the same id, and they succeed until all eight are in use |
| `Pty.ValidAfterAllocations` | kernel/src/core/pty.c:49-71 | after k allocations from the start, whatever calls are in between, exactly Min(k, 8) ids are valid, the ones returned |
| `Pty.InvalidCallsAreCounted` | kernel/src/core/pty.c:73-111 | over every run the invalid-operation counter grows by exactly the calls on ids not valid at the time or without a buffer |
| `Pty.PtyTable.constructor` | kernel/src/core/pty.c:49-53 | eight free slots with empty channels and zero counters |
| `Pty.PtyTable.QueueWrite` | kernel/src/core/pty.c:21-36 | the loop takes the longest prefix that fits and adds the rest to the drop counter |
| `Pty.PtyTable.QueueRead` | kernel/src/core/pty.c:38-47 | the loop returns and removes the longest prefix up to the requested length |
| `Pty.PtyTable.Alloc` | kernel/src/core/pty.c:59-71 | returns -1 exactly when all slots are in use; otherwise the lowest id that was not valid, which is valid afterwards with empty channels, all else unchanged |
| `Pty.PtyTable.Write` | kernel/src/core/pty.c:73-79 | a write on a valid PTY with a buffer feeds its channel only; otherwise only the invalid-operation counter moves |
| `Pty.PtyTable.Read` | kernel/src/core/pty.c:97-103 | a read on a valid PTY drains its channel only; otherwise only the invalid-operation counter moves |
| `LineEditor.FilterThenEdit` | kernel/src/core/tty.c:62-168 | for every stream the canonical handler is the composition of an escape-sequence filter and a list-based line editor |
| `LineEditor.CanonicalSplit` | kernel/src/core/tty.c:91-168 | cutting the stream anywhere makes no difference to line or deliveries |
| `LineEditor.DeliveryIsSafe` | kernel/src/core/tty.c:91-168 | the held line stays within 511 text bytes; a delivered byte is never ESC, DEL or a control byte other than 03, 04, 09, 0A, 0C; each byte adds at most one to delivered plus held |
| `LineEditor.LineIsDeliveredTruncated` | kernel/src/core/tty.c:123-168 | a typed line is delivered cut to 511 characters, with its newline exactly when fewer than 511 are held |
| `LineEditor.BackspaceUndoesTyping` | kernel/src/core/tty.c:113-121 | typing any text and erasing as many characters leaves the line as it was |
| `LineEditor.InterruptAndEndOfFile` | kernel/src/core/tty.c:99-106 | Ctrl-C discards the line and is delivered; Ctrl-D delivers the line without a newline, or itself on an empty line |
| `LineEditor.SequenceIsSwallowed` | kernel/src/core/keyboard.c:337-364 | every navigation and function key sequence is filtered out completely |
| `LineEditor.KeysDoNotDisturbTheLine` | kernel/src/core/tty.c:62-97 | inserting any number of such keys between ordinary bytes changes neither the line nor what is delivered |
| `LineEditor.FilterTakesSequences` | kernel/src/core/tty.c:62-89 | unit by unit what the filter removes: ESC and one byte, or ESC, `[` or `O`, and everything up to a byte from 0x40 to 0x7E |
| `LineEditor.AltKeyIsSwallowed` | kernel/src/core/tty.c:62-89 | a 7-bit key pressed with Alt never reaches the line, and with `[` or `O` leaves the filter inside a sequence |
| `Tty.ReceiveRefinesDiscipline` | kernel/src/core/tty.c:30-168 | over every stream the queue ends with as much of the delivered stream as fits, and the rest is counted as rejected |
| `Tty.DropsAreOverflowsPlusRejected` | kernel/src/core/tty.c:30-168 | the drop counter grows by line overflows plus rejected deliveries, over every run |
| `Tty.EveryByteHasOneFate` | kernel/src/core/tty.c:62-168 | received bytes are escaped, overflowed, ignored, control or buffered; the discard and overflow counters count their class and the classes add up to the bytes received |
| `Tty.FateDecidesEffect` | kernel/src/core/tty.c:62-168 | what a byte does to line and deliveries, exactly, by its class: for each control byte, an overflow, an ignored, escaped or buffered byte |
| `Tty.CutUntilNewline` | kernel/src/core/tty.c:123-168 | the line counts as cut from the first byte that overflowed it until its newline |
| `Tty.NoncanonicalPassesEverything` | kernel/src/core/tty.c:170-175 | in noncanonical mode every byte that fits is delivered as it is and the line is untouched |
| `Tty.DeliveryIsBounded` | kernel/src/core/tty.c:51-168 | a stream delivers at most its own length plus what the held line is worth, at most 510 |
| `Tty.PollsNeverDropIff` | kernel/src/core/tty.c:193-205 | for every held line: no poll of n bytes into an empty queue loses a delivery if and only if n plus the credit of the line is at most 2047, or 2048 inside a key sequence |
| `Tty.ShortPollsNeverDrop` | kernel/src/core/tty.c:193-205 | so up to 1537 bytes into an empty queue lose nothing and arrive in order, whatever the line held |
| `Tty.LongerPollsCanDrop` | kernel/src/core/tty.c:193-205 | and with 510 or more characters held, 1538 bytes can lose some |
| `Tty.TtyDevice.EnqueueRead` | kernel/src/core/tty.c:30-49 | one byte goes to the attached PTY or the own ring; a refusal adds one to the TTY drop counter, one to the PTY drop counter if attached, and never to its invalid-operation counter |
| `Tty.TtyDevice.FlushLineBuffer` | kernel/src/core/tty.c:51-56 | the loop offers the whole line in order and empties it |
| `Tty.TtyDevice.EscapeFilter` | kernel/src/core/tty.c:62-89 | refines the three-state filter |
| `Tty.TtyDevice.HandleCanonical` | kernel/src/core/tty.c:91-168 | line buffer, ring or PTY, and all counters after a byte are the list-based model's |
| `Tty.TtyDevice.HandleNoncanonical` | kernel/src/core/tty.c:170-175 | the byte goes straight to the queue |
| `Tty.TtyDevice.PollInput` | kernel/src/core/tty.c:193-205 | the poll is the model run over the popped bytes; other PTY channels are untouched |
| `Tty.TtyDevice.PopChar` | kernel/src/core/tty.c:207-215 | returns and removes the oldest byte of the own ring |
| `Shell.CommandsAreAFunctionOfTheStream` | kernel/src/core/shell.c:303-395 | however the keyboard stream is cut into polls, the commands executed are the assembler over the line discipline over the whole stream, as long as no poll overflows the queue |
| `Shell.ShortPollsDoNotOverflow` | kernel/src/core/shell.c:303-315 | polls of at most 1537 bytes never overflow |
| `Shell.CuttingDoesNotMatter` | kernel/src/core/shell.c:303-395 | two ways of cutting one stream into such polls execute the same commands |
| `Shell.KeystrokesToCommands` | kernel/src/core/shell.c:303-395 | for any interleaving of interrupts and pops the commands are those of an initial part of the accepted key bytes |
| `Shell.CommandsAreText` | kernel/src/core/shell.c:335-353 | a command is at most 127 bytes of text without control bytes, and executed commands are never taken back |
| `Shell.TypedLineIsOneCommand` | kernel/src/core/shell.c:335-353 | a typed line under 511 characters becomes one command, its first 127 characters |
| `Shell.OtherBytesDoNotMatter` | kernel/src/core/shell.c:316-353 | Ctrl-D, Ctrl-L and every other control byte but Ctrl-C and newline change neither the line nor the commands |
| `Shell.LineWithControlsIsOneCommand` | kernel/src/core/shell.c:316-353 | a line typed with any number of Ctrl-D and Ctrl-L in between becomes one command, its text cut to 127 characters |
| `Shell.InterruptForgetsTheLine` | kernel/src/core/shell.c:320-324 | a delivered Ctrl-C makes the shell forget the part of a line already read |
| `Shell.ShellLoop.Feed` | kernel/src/core/shell.c:320-353 | the shared loop body refines the assembler |
| `Shell.ShellLoop.DrainPty` | kernel/src/core/shell.c:311-357 | reading 128 bytes at a time empties the PTY and feeds its whole content in order |
| `Shell.ShellLoop.DrainTty` | kernel/src/core/shell.c:359-394 | popping byte by byte does the same from the TTY's own ring |
| `Shell.ShellLoop.PollOnce` | kernel/src/core/shell.c:303-395 | one poll is the same function of the input whether the shell reads the PTY or the TTY ring |
| `Keystrokes.TypedKeysBecomeACommand` | kernel/src/core/shell.c:303-395 | from scancodes to the shell: strokes that send the bytes of a line and Enter become exactly one command, for every interleaving of interrupts and pops and every way of polling |
| `Terminal.PutBytes` | kernel/src/core/console.c:662-709 | after every byte of every stream, whatever the parameter values: both cursors on the screen, colours below 16, at most 8 parameters, at most 3 UTF-8 bytes outstanding, 7-bit cells |
| `Terminal.Erased` | kernel/src/core/console.c:434-461 | an erasure blanks exactly the positions between two points in reading order |
| `TerminalTheorems.GroundStreamIsDecoded` | kernel/src/core/console.c:494-599 | in ground state any stream of bytes from 0x20 on acts on the screen exactly like the 7-bit text it decodes to, with a question mark for each other code point or broken sequence |
| `TerminalTheorems.EncodedTextAppears` | kernel/src/core/console.c:481-599 | code points encoded by the keyboard do to the screen what the same text with question marks for non-ASCII does, and leave nothing pending |
| `TerminalTheorems.BackspaceErasesLast` | kernel/src/core/console.c:711-724 | backspace right after a character leaves the grid as if a space had been shown, across wraps and scrolls, with the cursor back on it |
| `TerminalTheorems.NewlineGoesDown` | kernel/src/core/console.c:289-293 | a newline goes to column 0 of the next row; above the last row no cell changes, on it every row moves up and the bottom one is blank in the current colours |
| `TerminalTheorems.BackspaceStepsBack` | kernel/src/core/console.c:711-724 | a backspace goes back one position in reading order and blanks exactly that cell, and does nothing at the top left |
| `TerminalTheorems.TextFillsTheTape` | kernel/src/core/console.c:242-287 | text of any length with line feeds, carriage returns and tabs, wrapping and scrolling, leaves the screen as a window on an endless tape written from the cursor on, with the positions given by arithmetic, scrolled no more than needed |
| `TerminalTheorems.PrintableTextIsConsecutive` | kernel/src/core/console.c:277-287 | on that tape printable text occupies one cell after the other |
| `Sequences.CsiExecutes` | kernel/src/core/console.c:354-392 | every `ESC [ parameters final`, of any number of parameters below 2^31, executes its final byte on the parameters kept and leaves the parser at rest |
| `Sequences.StoresKept` | kernel/src/core/console.c:367-378 | kept are the first eight parameters after the absent ones at the front, an absent one counting as zero |
| `Sequences.LeadingBlankIsSkipped` | kernel/src/core/console.c:367-378 | an absent first parameter is skipped: in `ESC [ ; n H` the column is taken for the row |
| `Sequences.NinthIsLost` | kernel/src/core/console.c:367-378 | a ninth parameter and all after it make no difference |
| `Sequences.MoveSequenceMoves` | kernel/src/core/console.c:394-408 | `H` and `f` for all coordinates: the cursor goes to row and column counted from 1, to the last one if beyond or 0, and nothing else changes |
| `Sequences.HomeSequence` | kernel/src/core/console.c:394-408 | without parameters `H` goes home; a row alone leaves column 0 |
| `Sequences.MotionSequenceMoves` | kernel/src/core/console.c:409-433 | `A` up, `B` down, `C` right, `D` left, by the parameter (absent or 0: by one), no further than the edge |
| `Sequences.ArrowKeyMovesCursor` | kernel/src/core/keyboard.c:337-342 | the bytes of the four arrow keys, shown on the console, move the cursor by one in the direction of their names |
| `Sequences.SavedCursorReturns` | kernel/src/core/console.c:462-475 | `s`, any text without ESC, then `u` puts the cursor back, the cells as the text left them |
| `Sequences.EraseSequenceErases` | kernel/src/core/console.c:434-461 | which cells each mode of `J` and `K` blanks, in the current colours, and that it leaves all others and the cursor |
| `Sequences.ClearSequenceClears` | kernel/src/core/console.c:434-450 | `ESC [ 2 J` gives a blank screen in default colours, home cursors and nothing pending |
| `Sequences.ColourSequenceColours` | kernel/src/core/console.c:303-352 | both colours after any list of `m` codes as numbers, each depending only on its own earlier value and the codes |
| `Sequences.BoldIsLostBeforeColour` | kernel/src/core/console.c:303-352 | bold before one of the dark colours is lost, after it brightens it |
| `Sequences.UnknownFinalDoesNothing` | kernel/src/core/console.c:380-479 | every other final byte changes nothing |
| `Sequences.OtherByteEndsSequence` | kernel/src/core/console.c:676-702 | a byte that cannot belong to a sequence ends it without effect |
| `Sequences.LoneEscapeIsDropped` | kernel/src/core/console.c:665-674 | ESC before a byte other than `[` disappears and the byte acts by itself |
| `Terminal.DecimalIsTheNumber` | kernel/src/core/console.c:741-757 | the digits printed denote the number, without zeros in front |
| `Screens.VgaEntryFields` | kernel/src/core/console.c:96-98 | for 7-bit characters the low byte of the VGA word is the character and the high byte its colours |
| `Screens.Screen.Plot` | kernel/src/core/console.c:129-135 | a plot changes exactly the addressed pixel, inside pitch times height, and none beyond the width |
| `Screens.Screen.DrawCell` | kernel/src/core/console.c:137-170 | exactly the 8 by 16 pixels of the cell get the ink that font bit and colour dictate; the clipping return never fires |
| `Screens.Screen.RedrawFull` | kernel/src/core/console.c:172-178 | every pixel of the text area shows its cell, every other pixel is as before |
| `Screens.Screen.PutCell` | kernel/src/core/console.c:180-193 | both backends refine the update of one cell of the abstract grid; positions off the screen change nothing |
| `Screens.Screen.ClearAll` | kernel/src/core/console.c:195-213 | both backends refine the blank grid |
| `Screens.Screen.ScrollUp` | kernel/src/core/console.c:215-240 | both backends refine dropping the top row and adding a blank one, with in-place moves in row-major memory |
| `Screens.TextPixelsAreDistinctIff` | kernel/src/core/console.c:129-135 | two pixels of the text area share a word of memory if and only if a scan line is shorter than the text columns, which is the condition TakeFramebuffer requires |
| `Screens.Screen.GridIsDisplayed` | kernel/src/core/console.c:137-193 | what a cell holds is what is seen: on VGA the character in the low byte and foreground and background in the nibbles above, on a framebuffer the glyph's pixels in the two palette colours |
| `Screens.Screen.TakeFramebuffer` | kernel/src/core/console.c:609-637 | taken exactly when present, mapped, RGB of 32 bits, at least one glyph large, with a non-zero pitch that is a multiple of 4; the text area is the largest whole-glyph area up to 160 by 100 |
| `Consoles.Console.ScrollIfNeeded` | kernel/src/core/console.c:242-251 | scrolls once and stays on the last row exactly when the cursor has left the screen |
| `Consoles.Console.ClearLineRange` | kernel/src/core/console.c:253-275 | blanks the clamped range of the row, or nothing when it is empty or off the screen |
| `Consoles.Console.PutVisible` | kernel/src/core/console.c:277-287 | the character is on display in the console's colours where the cursor was, one row higher after a scroll; the rest is the abstract character step |
| `Consoles.Console.RawNewline` | kernel/src/core/console.c:289-293 | refines the abstract newline |
| `Consoles.Console.PushParameter` | kernel/src/core/console.c:367-378 | refines parameter storage: an empty first parameter is skipped, a ninth one is lost |
| `Consoles.Console.MoveTo` | kernel/src/core/console.c:394-408 | the conversion to an unsigned size and the clamps land on the row and column of the abstract step |
| `Consoles.Console.EraseBelow` | kernel/src/core/console.c:438-442 | the row-by-row loop of ED 0 is one erasure in reading order from the cursor to the end |
| `Consoles.Console.EraseAbove` | kernel/src/core/console.c:443-448 | the row-by-row loop of ED 1 is one erasure in reading order from the start to the cursor |
| `Consoles.Console.Restore` | kernel/src/core/console.c:466-475 | the saved cursor always lies on the screen, so the restore clamps change nothing |
| `Consoles.Console.ExecuteCsi` | kernel/src/core/console.c:380-479 | refines the abstract control functions |
| `Consoles.Console.EmitUtf8Byte` | kernel/src/core/console.c:494-558 | refines the decoder step and its emission |
| `Consoles.Console.HandleGround` | kernel/src/core/console.c:560-599 | the code of a ground-state byte does to either backend what the theorems say of streams (NewlineGoesDown, BackspaceStepsBack, TextFillsTheTape, GroundStreamIsDecoded) |
| `Consoles.Console.EnableFramebuffer` | kernel/src/core/console.c:609-640 | on success a cleared screen over the untouched margins, otherwise no change |
| `Consoles.Console.ClearScreen` | kernel/src/core/console.c:642-660 | full reset: blank grid, home cursors, default colours, no parser or decoder state |
| `Consoles.Console.PutC` | kernel/src/core/console.c:662-709 | after every byte, on either backend: the display is the abstract terminal's grid, each text pixel is what font and shadow cell dictate, and no pixel outside the text area has changed |
| `Consoles.Console.EraseBack` | kernel/src/core/console.c:711-724 | refines the abstract backspace |
| `Consoles.Console.Write` | kernel/src/core/console.c:726-730 | the same over whole strings, so both backends show the same grid for the same bytes and dimensions |
| `Consoles.Console.WriteDec` | kernel/src/core/console.c:741-757 | prints the decimal digits of any 64-bit value; the buffer never fills up |

## Left out

- Echo: `tty_echo` only prints to the console; the line discipline's calls of the console are not modelled.
- The scancode, code point and special-key tables are parameters of the key-state model; the key-event ring, a second ring of the same shape, is not modelled.
- Sessions: the active PTY is fixed, and is the PTY the TTY is attached to, or there is none. A shell reading another PTY than the TTY feeds is not modelled.
- Shell command bodies and `cmd_selftest`, which injects bytes from inside a command; the observed output is the list of command lines.
- Multiboot tag walking byte by byte: the memory map is a list of entries and the framebuffer description a record.
- Consoles.Console.EnableFramebuffer: requires scan lines that hold the text columns, which the code does not check, and memory of pitch times height; a framebuffer on which text pixels overlap is not followed.
- Screens.Screen.Plot: requires the pixel to lie inside its scan line, as every pixel of the text area does.
- Keyboard.KeyboardQueue.PopChar: has no interrupt between its accesses; the interleaved form is the state machine of `Keyboard.EveryInterleavingIsFifo`.
- Vmm.PageMapper.Map2m: does not model `invlpg`, the TLB or EFER.NXE. CR0.WP is taken as set, which the kernel leaves to the loader: without it the window need not be writable.
- Window.MapAt: `memset` stores words, not bytes; memory from 1 GiB on is not modelled, and an access that leaves the first GiB ends the run like a fault. Code, stack and the frame bitmap, which the kernel also reaches through the window, are not followed.
- Pty.PtyTable.Write: ring buffers are values inside the slot, as the C struct embeds them, not arrays of their own; statistics counters are unbounded.
- Serial output, PIC, PIT, IDT set-up, `console_write_hex`, the Rust history ring and the userland services.
- Font and palette contents: any 128-glyph font and any 16 colours.
