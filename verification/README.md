# Verified models of the device cores

This project models the stateful cores of five emulated devices and proves what they keep over every
run: the paravirtual GPU shell (`hw/display/apple-gfx-common-linux.c`, `apple-gfx-pci-linux.c`), the
VMware SVGA adapter (`hw/display/vmware_vga.c`), the USB keyboard and mouse (`hw/usb/dev-hid.c`), the
trackpad (`hw/usb/dev-hid-apple-trackpad.c`) and the System Management Controller
(`hw/misc/applesmc.c`).  `dafny verify dfyconfig.toml` checks all of it.

Each device that changes its state in place is a class over arrays and fields (`Shell`, `Fifo`,
`Display`, `Ring`, `Mouse`, `Trackpad`, `Keyboard`, `Controller`, `Property`).  Every method is
proved to perform one step of a specification on values, and the laws are proved about runs of those
steps.  The frame protocol, which is about interleaving, is a transition system from the start.

| files | what they hold |
|---|---|
| `FrameProtocol` | compare-and-swap, schedule, read and subtract steps of any number of render threads and the bottom half that rearms itself |
| `TaskMemory`, `TaskMemoryShell` | tasks, packed range lists, rollback, region references |
| `SvgaCommands`, `SvgaFifo` | the command ring: lengths, word accounting, rewinding, a queue that the ring refines |
| `SvgaOvertaking` | when the consumer passes the producer |
| `SvgaSchedules` | a guest that stores words into the ring and a device that runs on it, in any order |
| `SvgaBlit` | rectangle copy and fill over the bytes of video memory |
| `SvgaDamage`, `SvgaDisplay` | the bounded redraw queue and the flag for the whole screen |
| `SvgaDrawing` | the commands that the ring delivers, carried out on the memory and the redraw queue |
| `ReportRing` | the masked ring that both pointing devices use |
| `MouseMotion`, `MightyMouse` | unbounded motion cut into 8-bit reports |
| `TrackpadMotion`, `MagicTrackpad` | position mapping, finger records, relative reports |
| `BootKeys`, `BootKeyboard` | six key slots and the modifier bitmap |
| `SmcProtocol`, `AppleSmc` | the byte-wise command protocol and the key list |
| `DisplayMode` | printing and parsing of a display mode |
| `MachineInts` | 32-bit and 8-bit wrap-around, and division that truncates |

## What the proofs found

Some promises are false of the code.  The code is kept as it is, and the exact condition is proved.

* **A frame notification can be lost.**  The early return of the bottom half reads `pending_frames`
  a second time and may take a token that arrived between the two reads
  (`hw/display/apple-gfx-common-linux.c:422-427`); the rearming order makes two bottom halves for
  one token reachable.  `ANotificationCanBeLost` is a run that ends at rest with notification 2
  unread.  At rest, all are read if and only if the early branch has not taken the last token since
  the last read began (`QuietMeansServedUnlessOvertaken`).
* **A failed map is all-or-nothing only over unmapped addresses.**  Rollback unmaps what it mapped,
  so an earlier mapping in the window of the ranges that went through is gone.  Tasks, arrays and
  counts are always restored (`FailedMapRestores`, if and only if).
* **Unrealize leaves the library's tasks.**  It drops every reference but never destroys a library
  task (`hw/display/apple-gfx-pci-linux.c:202-213`), so mappings may outlive their references unless
  none existed (`UnrealizeReleasesAll`).
* **Some opcodes are not debited.**  One fence can send the consumer past the producer, up to 1023
  words (`AFenceOvertakesTheProducer`).  Whether it passes is told by the words before the run: it
  does exactly when the first command that they lay out across the producer goes through on one word
  of credit for each undebited opcode before it (`ConsumerPassesTheProducer`; `AccountedStaysBehind`
  and `FirstUndebited` spell out the commonest cases).  For such opcodes the pieces in which a
  stream is published matter (`FencesMakePiecesMatter`); for all others they do not.
* **A reset of the SVGA device drops queued damage** until the device is enabled again
  (`ResetForgetsUntilEnabled`; `AResetCanLoseDamage` is a run that does).
* **A sync that needs all 64 mouse reports loses its own first one**, because the ring holds 63
  (`SixtyFourReportsLoseTheFirst`).
* **A seventh key is dropped**, not reported as a rollover error, and stays hidden after a slot frees
  up.  The comment at `hw/usb/dev-hid.c:1386` speaks of seven slots; the code has six
  (`SlotsShowTheKeysDown`, if and only if).
* **A keyboard reset can leave the host with keys it last saw held**, until something is pressed.  In
  every run, host and keyboard agree exactly while this is not so (`AgreementOverARun`,
  `TheHostSeesTheState`).
* **An SMC write of 252 to 255 bytes is not ended by its own bytes**, because the 8-bit position wraps
  and the last of them are taken for a new key (`WritingAKey`: it ends if and only if there are 1 to
  251).  An unknown key read with a length above 32 shows stale bytes (`UnknownKeysReadAsZeros`), and
  an empty reply never ends a command (`ReadingAKnownKey`, `ReadingAnUnknownKey`).
* **Key names and types that the SMC stages cannot be read.**  The comment at
  `hw/misc/applesmc.c:305-315` says a guest gets them, but the data port serves only READ
  (`StagedNamesCannotBeRead`).
* **A finger's y loses its two upper bits.**  The comment at `hw/usb/dev-hid-apple-trackpad.c:400-402`
  says 13 bits; 11 are packed (`FingerRoundTrip`, `TwoPlacesLookAlike`).
* **A refused display mode may already be half stored.**  It changes nothing exactly if the width does
  not parse, or is the old one and the height is not reached, not parsed or the old one
  (`RefusedWritesAreNotUndone`).
* **The trackpad's ring loses motion for good.**  Its relative reports are made from absolute
  positions, so what a full ring gives up is never made up for (`OverflowIsLost`); otherwise the
  host is off by at most three units a report (`HostDrift`).

## What is assumed

* The GPU library: a map call takes a whole range or changes nothing, an unmap clears exactly its
  window, a handle is not handed out again while it is live, and a task is smaller than 2^64 bytes.
  Its answers, and those of address translation, are parameters of each operation.
* Freeing the display waits for callbacks in flight, as the comment at
  `hw/display/apple-gfx-pci-linux.c:182-189` says, and bottom halves run one at a time.
* Signed arithmetic wraps, as QEMU is compiled.
* The guest does not write the FIFO memory while `vmsvga_fifo_run` is at work; between runs it may.
* `SvgaBlit.Fits`: a row of pixels fits a line, and all lines fit the video memory.
* In VGA mode a new surface is redrawn in full by the console.

## Model

| member | source | states |
|---|---|---|
| FrameProtocol.PendingStaysInRange | hw/display/apple-gfx-common-linux.c:502-525 | in every interleaving of any number of notifications, bottom halves and teardown the counter stays in 0..2 |
| FrameProtocol.TheCapIsReached | hw/display/apple-gfx-common-linux.c:502-519 | two callers can bring it to 2 before any bottom half runs |
| FrameProtocol.NeverStalls | hw/display/apple-gfx-common-linux.c:422-467 | while the display lives, a positive counter has a bottom half queued, about to be queued by a caller, or running before its last look at the counter |
| FrameProtocol.TokensAreConserved | hw/display/apple-gfx-common-linux.c:422-428 | accepted = taken on the main path + taken by the early return + pending + wiped by teardown; each token taken on the main path begins one frame read |
| FrameProtocol.UnservedMeansNoLaterRead | hw/display/apple-gfx-common-linux.c:407-468 | the history set holds exactly the notifications after whose first compare-and-swap no frame read has begun |
| FrameProtocol.QuietMeansServedUnlessOvertaken | hw/display/apple-gfx-common-linux.c:422-467 | at rest with a live display no token is left, and every notification has been followed by a read iff the early return did not take the last token since the last read began |
| FrameProtocol.EveryNotificationIsRead | hw/display/apple-gfx-common-linux.c:496-526 | in a run that comes to rest and whose early return takes no token, each notification, accepted or dropped, is followed by a frame read that begins after it |
| FrameProtocol.ANotificationCanBeLost | hw/display/apple-gfx-common-linux.c:422-427 | a run that ends at rest, with a live display, with one notification that no read follows |
| FrameProtocol.EveryStepMakesProgress | hw/display/apple-gfx-common-linux.c:407-526 | every enabled step of a caller or a bottom half lowers a non-negative measure |
| FrameProtocol.ComesToRest | hw/display/apple-gfx-common-linux.c:407-526 | without new notifications every schedule ends within that measure |
| FrameProtocol.RestIsQuiet | hw/display/apple-gfx-common-linux.c:407-526 | where no step is left, all callers have returned and no bottom half is queued or running |
| FrameProtocol.TeardownDrains | hw/display/apple-gfx-pci-linux.c:215-231 | once the display is gone and the counter cleared, no later run reads a frame, takes a token or queues another bottom half |
| FrameProtocol.NeverReadsAFreedDisplay | hw/display/apple-gfx-common-linux.c:422-444 | whenever a frame read begins, in any run with teardown, the display is non-NULL |
| TaskMemory.MappedWhere | hw/display/apple-gfx-common-linux.c:245-286 | a successful map puts range j at the base plus the lengths of the ranges before it, byte for byte onto its backing, whatever later ranges did |
| TaskMemory.MappedOutside | hw/display/apple-gfx-common-linux.c:245-286 | no address outside the packed window changes |
| TaskMemory.MappedThenCleared | hw/display/apple-gfx-common-linux.c:288-298 | undoing the first i ranges leaves the old map without the packed window |
| TaskMemory.SeenGrows | hw/display/apple-gfx-common-linux.c:266-272 | the region array only grows at its end during a map, and stays without duplicates |
| TaskMemory.SeenAre | hw/display/apple-gfx-common-linux.c:266-272 | after i ranges the array holds exactly the regions held before and those backing one of the ranges |
| TaskMemory.FailedMapRestores | hw/display/apple-gfx-common-linux.c:288-306 | after a failure at any index tasks, arrays and counts are as before, and the address map is as before iff the window of the ranges that went through was unmapped |
| TaskMemory.CreateAdds | hw/display/apple-gfx-common-linux.c:111-142 | a new task comes last, holds no region and has nothing mapped; no other task, count or mapping changes; a refusal changes nothing |
| TaskMemory.MapMaps | hw/display/apple-gfx-common-linux.c:245-286 | a map succeeds iff every range is backed, accepted and inside the task; then only this task and its library side change, its regions are the old ones followed by the new backing regions, with one reference more for each of those |
| TaskMemory.UnmapClears | hw/display/apple-gfx-common-linux.c:311-327 | succeeds iff the library knows the task and agrees; then exactly the addresses of the window are cleared, and nothing else changes |
| TaskMemory.DestroyRemoves | hw/display/apple-gfx-common-linux.c:149-181 | the task is gone from the list and from the library, the count of a region is one lower exactly if the task held it, every other task and library entry stays, in order |
| TaskMemory.DestroyUnknown | hw/display/apple-gfx-common-linux.c:159-163 | destroying a handle that no task has changes nothing |
| TaskMemory.ApplyKeepsInv | hw/display/apple-gfx-common-linux.c:111-327 | create, map, unmap, destroy and unrealize each keep: no duplicate regions, distinct handles, each count is the number of tasks holding the region, every mapping of a live task points into a region the task holds |
| TaskMemory.CountIsNumberOfHolders | hw/display/apple-gfx-common-linux.c:111-327 | in every run the count of a region is the cardinality of the set of live tasks holding it |
| TaskMemory.MappedRegionsAreReferenced | hw/display/apple-gfx-common-linux.c:111-327 | in every run whatever a live task has mapped lies in a region with a reference |
| TaskMemory.UnrealizeReleasesAll | hw/display/apple-gfx-pci-linux.c:202-213 | after any run, unrealize leaves no task and no reference and the library as it was; mappings then all have references iff there are none |
| TaskMemoryShell.RemoveFastBeyond | hw/display/apple-gfx-common-linux.c:299-305 | removal that moves the last element into the gap keeps a prefix that does not hold the element in place and order |
| TaskMemoryShell.Shell.CreateTask | hw/display/apple-gfx-common-linux.c:111-142 | adds the task at the end of the list, or changes nothing when the library refuses |
| TaskMemoryShell.Shell.MapRanges | hw/display/apple-gfx-common-linux.c:245-286 | stops at the first range that is not accessible, refused or outside the task; what is mapped, counted and recorded is exactly what precedes it, and the region of the failing range if it was reached |
| TaskMemoryShell.Shell.Rollback | hw/display/apple-gfx-common-linux.c:288-306 | from any such stop: the array is the old sequence despite removals that reorder it, the counts are the old ones, the packed window is unmapped |
| TaskMemoryShell.Shell.MapMemory | hw/display/apple-gfx-common-linux.c:204-309 | carries out the transaction: full success with one new reference per newly seen region, or failure with the state FailedMapRestores speaks of |
| TaskMemoryShell.Shell.UnmapMemory | hw/display/apple-gfx-common-linux.c:311-327 | clears exactly the window, or reports the refusal and changes nothing |
| TaskMemoryShell.Shell.DestroyTask | hw/display/apple-gfx-common-linux.c:144-183 | carries out the removal that DestroyRemoves and DestroyUnknown speak of, and drops only references that are held |
| TaskMemoryShell.Shell.Teardown | hw/display/apple-gfx-pci-linux.c:200-213 | task by task, releases every reference exactly once until none is left |
| SvgaCommands.AcceptedCursorFits | hw/display/vmware_vga.c:702-722 | an accepted cursor reads exactly its bitmap and pixmap words, in C's 32-bit arithmetic, within 1024 and 4096 words |
| SvgaCommands.WhichCursorsAreAccepted | hw/display/vmware_vga.c:702-710 | exactly those of at most 256 by 256 pixels and 32 bits whose padded rows fit the two arrays, in plain numbers |
| SvgaCommands.DistanceIsExact | hw/display/vmware_vga.c:597-601 | the computed length is the least number of steps from consumer to producer across the wrap |
| SvgaCommands.HeaderIsNotInTheRing | hw/display/vmware_vga.c:612-613 | writing a position back into the header changes no queued word and no position |
| SvgaCommands.WordAccounting | hw/display/vmware_vga.c:621-796 | in every run, words consumed = initial length - length left + commands taken through arms that do not debit the opcode + 2^32 for each negative variable part; at most the given number of commands run |
| SvgaOvertaking.ConsumerPassesTheProducer | hw/display/vmware_vga.c:621-796 | the consumer passes the producer iff the first command that the words lay out across it goes through when each undebited opcode before it counts for one word more; no command is excluded |
| SvgaOvertaking.AccountedStaysBehind | hw/display/vmware_vga.c:635-761 | it never does when every queued command debits its words |
| SvgaOvertaking.FirstUndebited | hw/display/vmware_vga.c:747-789 | when the first undebited command ends the queue: too few words and it waits, one too few and it passes, exactly enough and it passes iff the stale word behind the producer is an undebited opcode without arguments and another turn is left |
| SvgaOvertaking.AFenceOvertakesTheProducer | hw/display/vmware_vga.c:766-775 | over a ring of fences and zeros any published length, be it one, is followed by as many words as the loop limit allows |
| SvgaCommands.RunTakes | hw/display/vmware_vga.c:621-796 | the ring refines a queue of words: a run takes its complete commands off the front in order, and leaves the consumer at exactly the words that stay |
| SvgaCommands.DrainExtends | hw/display/vmware_vga.c:792-796 | what is complete in a piece is taken the same way whatever words follow; an incomplete command has no effect until its words are there |
| SvgaCommands.AccountedPrefix | hw/display/vmware_vga.c:638-778 | if every command of a stream debits its words, so does every command of any beginning of it |
| SvgaSchedules.PublishAppends | hw/display/vmware_vga.c:597-614 | words that a guest stores at the producer's position and onward, while a word stays free, are appended to the queue in order, across the wrap |
| SvgaSchedules.RunningTakes | hw/display/vmware_vga.c:621-799 | a run of the device on the ring takes up to 1023 complete commands off the queue and leaves the rest queued at the new consumer position |
| SvgaSchedules.ScheduleOutcome | hw/display/vmware_vga.c:621-799 | after any schedule of pieces and runs that leaves the device at rest, the effects are those of the complete commands of the whole stream, the incomplete rest is queued, and the consumer is as many words on as the commands take |
| SvgaSchedules.PiecesDoNotMatter | hw/display/vmware_vga.c:621-799 | two schedules of the same words, in any pieces with any runs in between, leave the device at rest with the same effects in the same order, queue and pointers |
| SvgaSchedules.RunsComeToRest | hw/display/vmware_vga.c:624-632 | as many runs as there are words queued bring the device to rest |
| SvgaSchedules.FencesMakePiecesMatter | hw/display/vmware_vga.c:766-775 | two fences published at once, or one by one with a run after each, leave the consumer in different places |
| SvgaFifo.Fifo.Length | hw/display/vmware_vga.c:567-602 | loads the pointers and yields the distance iff device and pointers pass every check, 0 otherwise; a non-zero length keeps every read inside the memory, on the ring or off it |
| SvgaFifo.WhichPointersAreAccepted | hw/display/vmware_vga.c:577-595 | the pointer checks in numbers: whole words, a header of 16 bytes, at least 10 KiB of ring, all inside 64 KiB |
| SvgaFifo.UpdateIs | hw/display/vmware_vga.c:635-647 | opcodes 1 and 25 take five words, x, y, width and height after the opcode in that order, as signed numbers; with fewer they wait |
| SvgaFifo.FillIs | hw/display/vmware_vga.c:649-664 | opcode 2 takes six words: colour, x, y, width, height |
| SvgaFifo.CopyIs | hw/display/vmware_vga.c:668-684 | opcode 3 takes seven: source x and y, destination x and y, width, height |
| SvgaFifo.CursorIs | hw/display/vmware_vga.c:688-732 | opcode 19 takes its header and then exactly the mask and the image if the cursor is accepted, and skips as many words as the sizes ask for if not |
| SvgaFifo.AlphaCursorIs | hw/display/vmware_vga.c:735-746 | opcode 22 skips width times height words, in 32-bit signed arithmetic, after its header |
| SvgaFifo.GlyphIs | hw/display/vmware_vga.c:753-761 | opcode 24 skips seven words and a quarter of its size after its header |
| SvgaFifo.UnsupportedIs | hw/display/vmware_vga.c:747-764 | opcodes 13, 14 and 28 skip 6, 7 and 12 words after the opcode, which is not counted |
| SvgaFifo.ShortOrUnknownIs | hw/display/vmware_vga.c:635-796 | incomplete headers wait; any other opcode is passed over alone, and five of them silently |
| SvgaFifo.Fifo.Read | hw/display/vmware_vga.c:604-614 | reads stay inside the FIFO memory for any accepted pointers; on the ring the word is the next of the queue |
| SvgaFifo.Fifo.ArmCursor | hw/display/vmware_vga.c:688-732 | a cursor command is rewound, skipped or executed with exactly the bitmap and pixmap words that follow its header |
| SvgaFifo.Fifo.Execute | hw/display/vmware_vga.c:636-796 | every arm does what the specification of one turn says: effect, words used, length left, or a rewind without effect |
| SvgaFifo.Fifo.RunCommands | hw/display/vmware_vga.c:621-799 | from pointers on the ring, effects and the whole FIFO memory are those of the device step that the schedules speak of |
| SvgaBlit.CopyRect | hw/display/vmware_vga.c:425-459 | for every overlap the destination holds the source as it was before the call and every byte outside is unchanged; a rejected rectangle changes nothing |
| SvgaBlit.OutsideUntouched | hw/display/vmware_vga.c:425-459 | after a copy every byte outside the destination rectangle, on screen or off it, is as before |
| SvgaBlit.CopiedPixel | hw/display/vmware_vga.c:425-459 | each byte of each destination pixel is the byte of the source pixel before the call |
| SvgaBlit.OneMoreLine | hw/display/vmware_vga.c:439-454 | in the direction chosen from the coordinates, moving a line reads no byte that an earlier line overwrote |
| SvgaBlit.FillRect | hw/display/vmware_vga.c:463-505 | accepted iff the rectangle verifies; then painted, and every byte outside unchanged, for w or h of 0 too |
| SvgaBlit.PaintedPixelIsTheColour | hw/display/vmware_vga.c:463-505 | the bytes of every painted pixel, read as a little-endian number, are the colour modulo 256 to the number of bytes, for 1 to 4 of them |
| SvgaBlit.AcceptedRectsAreOnScreen | hw/display/vmware_vga.c:301-356 | a rectangle of pixels verifies iff each of them is on the surface and no coordinate or side exceeds the limits of the device |
| SvgaBlit.EmptyAndNegativeRects | hw/display/vmware_vga.c:301-356 | an empty one verifies iff its corner is on the surface or its far edge; one with a negative side never does |
| SvgaBlit.FillTouchesOnlyItsRect | hw/display/vmware_vga.c:463-505 | no on-screen pixel outside the rectangle queued for redrawing changes in a fill |
| SvgaBlit.CopyTouchesOnlyItsRect | hw/display/vmware_vga.c:425-459 | nor in a copy |
| SvgaDamage.DamageIsNeverLost | hw/display/vmware_vga.c:358-422 | in every run of commands, overflows, mode changes, resets and enables, the queue holds at most 512, and while enabled each unreported on-screen pixel is covered by a queued rectangle or the flag |
| SvgaDamage.RefreshSettles | hw/display/vmware_vga.c:1154-1173 | after a refresh of an enabled, configured device no on-screen pixel is outstanding |
| SvgaDamage.ResetForgetsUntilEnabled | hw/display/vmware_vga.c:1175-1189 | after a reset pixels are covered iff the flag was up; the next write to the enable register covers all |
| SvgaDamage.AResetCanLoseDamage | hw/display/vmware_vga.c:1175-1189 | a run that ends with a reset and an unreported on-screen pixel that nothing covers |
| SvgaDamage.FlushSettles | hw/display/vmware_vga.c:358-405 | a flush leaves no on-screen pixel outstanding unless the flag stands for it |
| SvgaDamage.WhatIsShown | hw/display/vmware_vga.c:358-387 | a rectangle that verifies is shown as it is and any other as the whole screen, so a screen pixel inside it is shown either way |
| SvgaDamage.FlushTells | hw/display/vmware_vga.c:389-405 | with the flag down the console is told exactly one rectangle for each queued one, in order; with the flag up none |
| SvgaDamage.DrawQueues | hw/display/vmware_vga.c:407-422 | a rectangle goes behind the others while there are fewer than 512, and otherwise alone after a flush |
| SvgaDamage.RefreshTells | hw/display/vmware_vga.c:1154-1173 | a refresh ends by telling the console the whole screen if the flag is up, and what is shown of each queued rectangle if not |
| SvgaDamage.EveryEventTells | hw/display/vmware_vga.c:358-422 | whatever happens the console only hears more, and a pixel stops being outstanding only if a rectangle the console was told contains it |
| SvgaDamage.RefreshWhileOff | hw/display/vmware_vga.c:1158-1162 | while the device is off or not configured a refresh or a run changes nothing |
| SvgaDamage.SurfaceFollowsTheMode | hw/display/vmware_vga.c:1135-1152 | afterwards the surface matches the mode registers, for good until they change, and a new one has every pixel owed |
| SvgaDamage.ModeChangesOweEverything | hw/display/vmware_vga.c:1020-1066 | a register write that changes the enable flag or the mode owes every pixel, and none forgets an owed one |
| SvgaDamage.RegistersAreFollowed | hw/display/vmware_vga.c:1020-1066 | which register sets which flag or mode, and which values are refused |
| SvgaDamage.ResetSwitchesOff | hw/display/vmware_vga.c:1175-1189 | reset switches off and empties the queue; mode, surface, flag and what is outstanding stay |
| SvgaDamage.ApplyKeepsInv | hw/display/vmware_vga.c:358-422 | each operation, register writes, surface changes and reset included, keeps the coverage promise |
| SvgaDrawing.CommandsAreSound | hw/display/vmware_vga.c:635-686 | whatever commands the FIFO delivers, accepted or rejected, each changes only on-screen pixels of the rectangle it queues, and a rejected one changes nothing and queues nothing |
| SvgaDrawing.WhatACommandQueues | hw/display/vmware_vga.c:635-686 | an update queues its rectangle always, a fill or copy iff its rectangles verify, with the pixels it changed; any other command nothing |
| SvgaDrawing.WhatACommandDraws | hw/display/vmware_vga.c:635-686 | an accepted fill paints and an accepted copy copies; everything else leaves the memory alone |
| SvgaDrawing.RefreshReportsCommands | hw/display/vmware_vga.c:1154-1173 | a refresh that runs such commands leaves no on-screen pixel unreported, neither what they changed nor what was owed before |
| SvgaDrawing.Perform | hw/display/vmware_vga.c:635-686 | one command of the FIFO on the video memory and the redraw array: what it changes and what it queues |
| SvgaDrawing.RunFifoOn | hw/display/vmware_vga.c:621-799 | a run on a live ring carries the commands of the ring out in order, each on the memory the one before left, and queues what the damage laws speak of |
| SvgaDisplay.Display.FlushQueue | hw/display/vmware_vga.c:389-405 | appends to the log of what the console was told what is shown of each queued rectangle, in order, or nothing while the flag is up; the queue is empty afterwards |
| SvgaDisplay.Display.DelayRect | hw/display/vmware_vga.c:407-422 | queues a rectangle, flushing a full queue first, inside the 512 slots |
| SvgaDisplay.Display.Refresh | hw/display/vmware_vga.c:1154-1173 | size check, run, flush and, with the flag up, the whole screen, over the array and the log: the refresh that RefreshTells and RefreshSettles speak of |
| ReportRing.PushAllKeepsYoungest | hw/usb/dev-hid.c:1933-1942 | whatever is pushed, exactly the youngest elements stay, in order, as many as there are up to the capacity |
| ReportRing.Ring.Enqueue | hw/usb/dev-hid.c:1918-1942 | the masked ring is a queue of depth - 1 that gives up its oldest element when full, and nothing otherwise |
| ReportRing.Ring.Dequeue | hw/usb/dev-hid.c:2225-2227 | takes the oldest element off the queue |
| MouseMotion.MotionIsConserved | hw/usb/dev-hid.c:1961-2099 | over any interleaving since a reset, on four axes: pending = relative motion + last position - first position (+ clicks) - polled - queued - dropped, modulo 2^32, and exactly iff that fits 32 bits |
| MouseMotion.InjectedIs | hw/usb/dev-hid.c:1994-2025 | absolute events telescope: together they ask for the last scaled position less the first, which only sets the anchor |
| MouseMotion.ScaledIs | hw/usb/dev-hid.c:2008-2023 | positions 0..32767 are scaled to 1920 and 1080 pixels and rounded down |
| MouseMotion.ButtonsArePressed | hw/usb/dev-hid.c:2026-2041 | in every run each of the three buttons is held iff its last event since the last reset was a press |
| MouseMotion.MarksAreKept | hw/usb/dev-hid.c:1994-2066 | in every run the next sync has something to report iff motion, a change of the three buttons or the press of a wheel button came after the last sync or reset |
| MouseMotion.ReportOfOneTurn | hw/usb/dev-hid.c:1961-1984 | the newest report shows left, right and middle in its low bits in that order, and its four signed bytes are what left the four accumulators, within 127 |
| MouseMotion.SyncReportsButtons | hw/usb/dev-hid.c:1974-1976 | in every run each report of a sync shows exactly which of the three buttons were last pressed |
| MouseMotion.PollTakesTheOldest | hw/usb/dev-hid.c:2212-2228 | a poll takes the oldest report and changes nothing else; a sync with nothing to report changes nothing |
| MouseMotion.ResetStartsAfresh | hw/usb/dev-hid.c:2147-2158 | whatever came before, after a reset the device is as new |
| MouseMotion.SyncDrains | hw/usb/dev-hid.c:2083-2099 | a triggered sync queues max(1, ceil(largest/127)) reports, at most 64; leaves exactly the undrained remainder, nothing iff no axis exceeds 64*127; drops none iff they fit beside the queued ones, else exactly the oldest |
| MouseMotion.EmittedCarries | hw/usb/dev-hid.c:1944-1981 | the reports, as the host decodes them, carry at most 127 a piece on each axis, the buttons, and together all that was pending less the remainder |
| MouseMotion.SixtyFourReportsLoseTheFirst | hw/usb/dev-hid.c:2093-2098 | a sync with an axis beyond 63*127 leaves the ring with its own reports 2 to 64 only |
| MightyMouse.Mouse.InputEvent | hw/usb/dev-hid.c:1987-2071 | every relative, absolute, button and wheel event changes the accumulators, buttons, anchors and the event mark as the conservation law's step says |
| MightyMouse.Mouse.EmitBootMouse | hw/usb/dev-hid.c:1961-1984 | moves the clamped part of each accumulator into one report of five bytes, whose low bits are left, right and middle |
| MightyMouse.Mouse.InputSync | hw/usb/dev-hid.c:2083-2099 | the loop performs the specified sync, once at least and 64 times at most |
| MightyMouse.Mouse.HandleData | hw/usb/dev-hid.c:2212-2228 | STALL for other requests, NAK when empty, otherwise the oldest report |
| MightyMouse.Mouse.HandleReset | hw/usb/dev-hid.c:2147-2158 | puts the device into the state where conservation starts afresh |
| BootKeys.SlotsStayWellFormed | hw/usb/dev-hid.c:1386-1417 | in every run the occupied slots hold distinct non-zero keys that are not modifiers |
| BootKeys.ModifiersAreExact | hw/usb/dev-hid.c:1374-1384 | a modifier bit is set iff the last event of its key since the last reset was a press |
| BootKeys.HeldAreTheKeysDown | hw/usb/dev-hid.c:1364-1418 | the unlimited keyboard that serves as reference holds exactly the keys whose last event was a press |
| BootKeys.HeldInOrder | hw/usb/dev-hid.c:1386-1417 | and in the order in which they went down: a press appends, a release closes the gap |
| BootKeys.SlotsHoldOnlyKeysDown | hw/usb/dev-hid.c:1386-1417 | in every run a key in a slot is down |
| BootKeys.SlotsShowTheKeysDown | hw/usb/dev-hid.c:1386-1417 | the slots show the keys down in order of press at every moment of a run iff there are never more than six |
| BootKeys.TheSeventhKeyStaysHidden | hw/usb/dev-hid.c:1393-1403 | a key pressed while six are held is not shown after one of the six is released |
| BootKeys.ReportRoundTrip | hw/usb/dev-hid.c:1353-1361 | from a packed report a host reads back the modifiers and the keys in order |
| BootKeys.ReportBytes | hw/usb/dev-hid.c:1353-1361 | byte for byte: 1, the modifiers, 0, the keys from the first slot on, zeros |
| BootKeys.BitsAreInOrder | hw/usb/dev-hid.c:1374-1384 | bit i of the modifier byte belongs to usage 0xe0 + i |
| BootKeys.OnlyChangesAreMarked | hw/usb/dev-hid.c:1442-1447 | a key event marks the keyboard iff it changes what is held |
| BootKeys.PollTells | hw/usb/dev-hid.c:1645-1658 | a poll of a marked keyboard tells the host the first bytes of the report, min(size, 10) of them, and takes the mark away; any other changes nothing |
| BootKeys.ResetReleases | hw/usb/dev-hid.c:1478-1485 | a reset releases everything and takes the mark away |
| BootKeys.AgreementIsKept | hw/usb/dev-hid.c:1439-1444 | every operation but reset keeps: when nothing is marked for the host, its last report is the current state as far as it made room for it |
| BootKeys.AgreementAfterReset | hw/usb/dev-hid.c:1478-1485 | after a reset that holds iff the last report was one of an untouched keyboard |
| BootKeys.AgreementOverARun | hw/usb/dev-hid.c:1364-1664 | in every run, with resets and polls of any size, it fails exactly while the last reset found the host with a report of something held and nothing has been pressed since |
| BootKeys.TheHostSeesTheState | hw/usb/dev-hid.c:1645-1658 | in every run with nothing marked, a whole last report shows the slots and modifiers as they are iff it is not stale in that sense |
| BootKeys.AQuietKeyboardIsKnown | hw/usb/dev-hid.c:1645-1658 | in every run with nothing marked, a whole last report that is not stale names exactly the modifiers down, only keys that are down, and all of them in order if never more than six were since the last reset |
| BootKeyboard.Keyboard.TakeUsage | hw/usb/dev-hid.c:1364-1418 | presses append or are dropped, releases remove and compact in place; the result is true iff the state changed |
| BootKeyboard.Keyboard.CloseGap | hw/usb/dev-hid.c:1408-1412 | every later slot moves down by one and the last becomes zero |
| BootKeyboard.Keyboard.InputEvent | hw/usb/dev-hid.c:1420-1448 | marks the state for the host iff it changed |
| BootKeyboard.Keyboard.PackBootReport | hw/usb/dev-hid.c:1353-1361 | fills the ten bytes of the report |
| BootKeyboard.Keyboard.HandleData | hw/usb/dev-hid.c:1626-1664 | STALL, NAK, or iff a change is marked exactly min(size, 10) bytes: 1, the modifiers, 0, the six slots, 0; a whole report shows the keys and the modifiers |
| BootKeyboard.Keyboard.HandleReset | hw/usb/dev-hid.c:1478-1485 | releases everything without marking it for the host |
| SmcProtocol.TwoWritesAreEnough | hw/misc/applesmc.c:121-155 | from any state two writes of a standard command get it accepted; one does iff the device is idle or newly commanded, and otherwise reports an interruption |
| SmcProtocol.OtherCommandsAreRefused | hw/misc/applesmc.c:147-154 | any other command is refused with 82, and the next standard one is accepted at once |
| SmcProtocol.StrayBytes | hw/misc/applesmc.c:169-180 | bytes that no command asks for change nothing but the position, or report 81 when there is no command |
| SmcProtocol.ResetEnds | hw/misc/applesmc.c:431-438 | a reset clears status, error and last byte, and leaves buffers and positions |
| SmcProtocol.ReadOut | hw/misc/applesmc.c:367-399 | reading out a staged reply gives exactly its bytes in order, changes none, and ends the command with the last |
| SmcProtocol.FindIs | hw/misc/applesmc.c:157-167 | the search finds nothing iff no entry has the name, and otherwise the data of the first that has |
| SmcProtocol.ReadingAKnownKey | hw/misc/applesmc.c:177-211 | from any state a whole READ of a name in the table yields exactly the data of its first entry, whatever length was sent, and ends the command with the last byte; no number of reads ends an empty one |
| SmcProtocol.ReadingAnUnknownKey | hw/misc/applesmc.c:190-211 | a READ of a name that is not in the table yields as many bytes as were asked for, zeros up to the 32nd and what the buffer held beyond |
| SmcProtocol.UnknownKeysReadAsZeros | hw/misc/applesmc.c:190-210 | a name that is not in the table reads as zeros iff no stale byte shows beyond the 32nd |
| SmcProtocol.WritingAKey | hw/misc/applesmc.c:212-245 | from any state a whole WRITE transaction ends the command iff the payload has 1 to 251 bytes, and then the payload and the key name are stored |
| SmcProtocol.AskingForAType | hw/misc/applesmc.c:246-303 | from any state four name bytes stage `ui8 `, `ui16`, `ui32` or `ch8*` by the size of the first entry of that name, the size and d0; the description of one byte if no entry has the name |
| SmcProtocol.AskingByIndex | hw/misc/applesmc.c:304-351 | from any state four bytes, the most significant first, stage the name at that place of the table iff it is below the length, and are refused with b8 otherwise |
| SmcProtocol.StagedNamesCannotBeRead | hw/misc/applesmc.c:367-399 | any number of data reads after a command other than READ repeat the last byte returned and end the command with an error |
| SmcProtocol.EnumerationListsTheTable | hw/misc/applesmc.c:646-668 | reading the number of keys gives the table length; each index below it names its entry and the next is refused; with distinct names each name belongs to one index and finds that entry |
| AppleSmc.Controller.AddNumberOfKeys | hw/misc/applesmc.c:656-668 | counts the list and inserts the count, itself included, at the head in big-endian order |
| AppleSmc.Controller.FindKey | hw/misc/applesmc.c:157-167 | the data of the first entry of that name; nothing iff no entry has it |
| AppleSmc.Controller.NameAt | hw/misc/applesmc.c:328-340 | the name at that index of the list, with a 32-bit counter, iff there is one |
| AppleSmc.Controller.DataWrite | hw/misc/applesmc.c:169-358 | the step of the four transactions, over the key, the data buffer and 8-bit positions |
| TrackpadMotion.MapIsMonotone | hw/usb/dev-hid-apple-trackpad.c:438-442 | the map keeps order, stays in range and takes both ends exactly to the ends |
| TrackpadMotion.MapScales | hw/usb/dev-hid-apple-trackpad.c:438-442 | it scales by the span of the range over 32767, and rounds down |
| TrackpadMotion.FingerRoundTrip | hw/usb/dev-hid-apple-trackpad.c:419-434 | x decodes iff it fits 13 signed bits, y iff it fits 11; two places pack alike iff x agrees modulo 8192 and y modulo 2048 |
| TrackpadMotion.MultitouchReportCarries | hw/usb/dev-hid-apple-trackpad.c:444-475 | from a report the host reads the button, the counter, the mapped x exactly and the mapped y modulo 2048 |
| TrackpadMotion.MultitouchReportShape | hw/usb/dev-hid-apple-trackpad.c:444-475 | the other bytes: pressure by the button, state and shape of a touch, zeros; 12 bytes without a finger and 21 with one |
| TrackpadMotion.BootReportShape | hw/usb/dev-hid-apple-trackpad.c:381-386 | number, button and the two signed steps, in eight bytes |
| TrackpadMotion.FingerBytes | hw/usb/dev-hid-apple-trackpad.c:419-434 | pressure, number and state of a finger in their bytes |
| TrackpadMotion.InputIsKept | hw/usb/dev-hid-apple-trackpad.c:481-509 | in every run the device knows the last position of each axis, whether the left button is pressed, whether a finger is down and whether there is something to report |
| TrackpadMotion.RelativeReport | hw/usb/dev-hid-apple-trackpad.c:517-544 | a relative report says the quarters of the way from the position last reported, which it moves to the position now |
| TrackpadMotion.FingerReport | hw/usb/dev-hid-apple-trackpad.c:444-475 | a finger report leaves the position last reported and counts up modulo 2^32 |
| TrackpadMotion.PollsAndResets | hw/usb/dev-hid-apple-trackpad.c:558-569 | a poll takes the oldest report, an idle sync does nothing, and a reset forgets all but the position |
| TrackpadMotion.TwoPlacesLookAlike | hw/usb/dev-hid-apple-trackpad.c:424-427 | two positions 2048 units apart whose reports are equal |
| TrackpadMotion.DriftOverARun | hw/usb/dev-hid-apple-trackpad.c:511-545 | in every run, while no report was clamped, the moves in all the reports made add up to the last position reported within 3 units a relative report |
| TrackpadMotion.MovesConservedOverARun | hw/usb/dev-hid-apple-trackpad.c:356-372 | in every run each move in a report has been polled, is queued, or was given up by the full ring |
| TrackpadMotion.HostDrift | hw/usb/dev-hid-apple-trackpad.c:511-545 | in every run and for any polling, while no report was clamped, what the host has read and has yet to read is off by at most 3 units a relative report plus what the ring gave up; by 3 units a report if it gave nothing up and all is read |
| TrackpadMotion.OverflowIsLost | hw/usb/dev-hid-apple-trackpad.c:356-372 | frames of 400 units that nobody polls: the host can only learn of the last 31, and the bound of 3 units a frame holds iff there were no more |
| TrackpadMotion.ModeIsTheHosts | hw/usb/dev-hid-apple-trackpad.c:611-627 | in every run a sync makes a finger report iff the host has asked for multitouch since the last reset, and a relative one otherwise |
| TrackpadMotion.CreepingIsNotSeen | hw/usb/dev-hid-apple-trackpad.c:529-542 | the bound is reached: three units a frame never move the host pointer, however many frames |
| TrackpadMotion.OneFrame | hw/usb/dev-hid-apple-trackpad.c:529-542 | what a frame keeps back of a move: its remainder by 4, or all beyond 508 |
| TrackpadMotion.QueueIsYoungest | hw/usb/dev-hid-apple-trackpad.c:356-372 | in every run the ring holds the youngest reports in order, at most 31 |
| MagicTrackpad.Trackpad.EmitMultitouch | hw/usb/dev-hid-apple-trackpad.c:444-475 | queues the frame with header, counter, finger and trailer, and counts up modulo 2^32 |
| MagicTrackpad.Trackpad.InputSync | hw/usb/dev-hid-apple-trackpad.c:511-545 | the step of the drift and ring laws, in both modes |
| MagicTrackpad.Trackpad.HandleData | hw/usb/dev-hid-apple-trackpad.c:736-760 | STALL, NAK or the oldest report |
| MagicTrackpad.Trackpad.HandleReset | hw/usb/dev-hid-apple-trackpad.c:558-569 | clears all but the absolute position |
| DisplayMode.WritingWhatWasRead | hw/display/apple-gfx-common-linux.c:824-888 | writing back the printed mode with any text behind it restores exactly that mode iff no field is zero and the text does not begin with a digit |
| DisplayMode.FieldRange | hw/display/apple-gfx-common-linux.c:856-860 | a printed number is accepted as a field iff it lies in 1..65535 |
| DisplayMode.InDigits | hw/display/apple-gfx-common-linux.c:824-888 | in digits: decimal, `x` and `@` between the fields, space and plus allowed before a number, minus not |
| DisplayMode.AcceptedModesArePrintable | hw/display/apple-gfx-common-linux.c:839-888 | an accepted write, whatever the text, leaves all fields in 1..65535 |
| DisplayMode.RefusedWritesAreNotUndone | hw/display/apple-gfx-common-linux.c:855-888 | a refused write stores exactly the width and the height that it parsed and never the rate; it changes nothing iff the width does not parse, or is the old one and the height is not reached, not parsed or the old one |
| DisplayMode.ErrorsTellWhatWasStored | hw/display/apple-gfx-common-linux.c:855-888 | which fields parsed, told by the error |
| DisplayMode.HalfAModeIsStored | hw/display/apple-gfx-common-linux.c:855-888 | a write refused for its height that has replaced the width |
| DisplayMode.Property.Set | hw/display/apple-gfx-common-linux.c:839-888 | stores the fields one by one and reports the first error, as the laws above say |

## Left out

- SvgaDrawing.CommandsAreSound: what a guest itself draws is known only by the update command that follows it, and counts as far as it lies inside that command's rectangle; what it draws without one is owed by nobody.
- SvgaSchedules.PiecesDoNotMatter: streams with opcodes that are not debited are excluded; SvgaSchedules.FencesMakePiecesMatter shows that for them it is false.  A guest is taken to keep one word of the ring free, and not to store while the device runs.
- SvgaFifo.Fifo.RunCommands: pointers that pass the checks but lie outside the ring are only proved to keep every read inside the memory.
- TaskMemory.FailedMapRestores: a region's reference count is this device's share of it; what other holders do with it is not modelled.
- DisplayMode.WritingWhatWasRead: the C library's conversion is modelled as space, sign and digits in the default locale.
- MouseMotion.MotionIsConserved: absolute positions are taken to lie in 0..0x7fff, as the input core delivers them.
- The console, pixman, cursor drawing and the vblank timer: calls into code outside these files.
- Reading and writing GPU memory through DMA, MMIO forwarding and interrupt delivery: thin wrappers.
- SVGA register reads, scratch registers and the VGA core: flat switches or other files.
- USB descriptors, key-code tables and control requests other than the one that enables multitouch: constants and flat switches.
- The values of SMC keys, and the `$Num` key, whose constant does not follow from the table.
- Locks: create, map and the list part of destroy hold the task lock and are modelled as atomic; unmap and unrealize take no lock, and that they do not overlap another operation is assumed.
- The vendor interface of the keyboard: it always answers NAK on its endpoint, and nothing else of it is modelled.
- The four-byte C buffers are sequences where a whole report or name is copied at once.
