# LunaOS-ARM64 display, input, seat and launcher model

A Dafny model of the parts of LunaOS-ARM64 that keep state and promise something about it, with proofs of those promises.
`dafny verify dfyconfig.toml` checks everything.

* **Display buffers.** `Kernel` is the DRM kernel extension: an array of 256 buffer records under one lock, memory descriptors with their own bytes, and the row copy to the display surface (`Blit`). `DrmTable` is what clients may rely on: a finite map from handles to buffers and the id GETCRTC reports, changed by one atomic step for each ioctl. Every kernel method is proved to take exactly that step; the theorems about whole runs are about the map, and `KernelRuns` joins the two for any sequence of requests from start to stop. `Libdrm` and `Gbm` are the two user libraries on top; `GbmOwnership` follows handle ownership at the grain of single ioctls, because `gbm_bo_destroy` issues two of them; `PageFlip` follows the double-buffered surface, and `FlipRuns` joins it with the two classes for whole runs.
* **Arithmetic.** `Words` has the 32- and 64-bit operations of C on `int`, bitwise AND included; `Pitch` has the four places that compute a row pitch.
* **Input.** `Evdev` translates HID values into evdev events; `EvdevDecode` holds readers of the event stream (a type B multitouch decoder as in the "Protocol Example B" section of the Linux multi-touch protocol document, a frame splitter, motion and single-touch readers) and `EvdevKeys` a key-state tracker, with proofs of what each of them can recover; `EvdevRuns` joins the two for any sequence of values. `HidKeys` is the key table.
* **Seat.** `Seatd` is the daemon with its 16-slot client table and its open descriptors; `SeatProtocol` lets any number of sessions call `seatd_open_device` while the daemon serves them in any order; `SeatPaths` follows where accepted paths lead, on the components of `Paths`.
* **Launcher.** `Desktop` loads `.desktop` files through `fgets`; `DesktopFormat` relates that to the text of a desktop entry. `Launcher` places and paints the icon grid.

Where the surroundings decide something (whether memory could be allocated, what `open`, `accept` or the display pipeline returned, what a directory lists), it is a parameter. `fCurrentFbId` starts at 0, as IOKit zeroes new objects. A record of the C array `fBOs` is a value in a Dafny array, since the C array contains the structs themselves; a memory descriptor, which the C code points to, is an object. Constants of the HID usage tables and of `errno.h`, whose headers are not in the repository, are written with their standard values.

Where the code does not keep a promise on all inputs, the theorem says exactly on which inputs it does: the pitch (`PitchHoldsRow`), the blit (`BlitCorrectExactly`), mmap windows (`WindowDecodes`, `WindowsMeet`), the id GETCRTC reports (`CurrentDanglesExactly`, `ReportedBufferExactly`), the second close of a destroyed buffer (`CreatesBetweenCloses`), the flip (`NextLockOnScreenExactly`), contact slots (`ContactSlotInRange`), frames (`OneFramePerValueExactly`), shared key codes (`KeyStatesReconstructed`), unknown seat messages (`RepliesMatchRequests`), paths with ".." (`AllowedStaysExactly`), '%' in commands (`ParseUndoesPrint`), long lines (`SafeToInsertExactly`) and narrow outputs (`DrawnIconsFitExactly`).

Some of these go against what comments or standards suggest: a comment line of 511 bytes or more in a `.desktop` file can set keys (`LongCommentSetsName`); the Globe key and the left Cmd key release each other, and so do two fingers (`TwoFingers`); the first buffer of a surface that is created again can be the one on screen (`RecreatedSurfaceOnScreen`); and the seat daemon's prefix test does not confine a path to its directory (`DotDotLeaves`).

## Model

| member | source | states |
|---|---|---|
| Pitch.AlignUpIsLeastMultiple | graphics/include/darwin-gbm.c:21 | the mask macro yields the least multiple of any power of two not below x exactly when `x + a - 1` does not wrap, and 0 when it wraps |
| Pitch.PitchesAgree | graphics/include/darwin-gbm.c:64-66 | kernel, libdrm, GBM and wlroots compute the same pitch for every 32-bit width and bpp (wlroots: bpp not 0) |
| Pitch.ZeroBppAgrees | patches/wlroots/0001-drm-darwin-arm64-backend.patch:181-184 | for bpp 0, where wlroots has no default, it agrees with the kernel exactly when 32 * width wraps to 0 |
| Pitch.PitchHoldsRow | drm-shim/kern/IODRMShim.cpp:409-412 | the pitch holds a row of width * bpp bits exactly when width * bpp + 7 does not wrap, and is then the least multiple of 64 bytes that does |
| Words.MaskClearsLow | drm-shim/user/libdrm-darwin.c:27 | AND with the complement of a low mask, computed bit by bit, clears exactly the low k bits of an n-bit word |
| Words.ToInt32Exactly | evdev-bridge/darwin-evdev-bridge.c:181-215 | the 32-bit cast of a HID value is the one 32-bit number equal to it modulo 2^32, so the value itself when it fits |
| Words.CRemainderExactly | evdev-bridge/darwin-evdev-bridge.c:216 | the remainder is the one number of smaller magnitude than the divisor that differs by a multiple of it and never has the other sign |
| DrmTable.RunInv | drm-shim/kern/IODRMShim.cpp:405-414 | in every reachable table handles are in 1..256, pitches are the computed ones and every buffer has pitch * height bytes |
| DrmTable.CloseUndoesCreate | drm-shim/kern/IODRMShim.cpp:398-440 | a create fails without effect exactly without memory or free handle; otherwise it adds one all-zero buffer at the smallest absent handle, and closing it restores the whole table |
| DrmTable.ReuseAfterClose | drm-shim/kern/IODRMShim.cpp:571-575 | after a close the next create gets a handle no larger, and that very handle exactly when all smaller ones are live |
| DrmTable.BufferIsolated | drm-shim/kern/IODRMShim.cpp:553-570 | while nobody closes a handle, its buffer's geometry is fixed and its bytes depend only on the stores addressed to it, whatever else a run does |
| DrmTable.CurrentIsLastShown | drm-shim/kern/IODRMShim.cpp:326-338 | GETCRTC reports the id of the latest SETCRTC with a non-zero id that found a live buffer, failed blits and closes notwithstanding |
| DrmTable.CurrentIsInitial | drm-shim/kern/IODRMShim.cpp:326-338 | without such a SETCRTC the reported id never changes |
| DrmTable.CurrentDanglesExactly | drm-shim/kern/IODRMShim.cpp:553-563 | the reported id stops naming a live buffer in exactly one kind of step, the close of that buffer |
| DrmTable.ReportedBufferExactly | drm-shim/kern/IODRMShim.cpp:326-338 | over any run, the reported id names the very buffer that was last shown exactly when nobody closed its handle since; otherwise it names no buffer, or one created after it was shown |
| DrmTable.SameBufferExactly | drm-shim/kern/IODRMShim.cpp:553-575 | over any run a live handle names the same buffer, by its creation, exactly until somebody closes it |
| DrmTable.MapOffset | drm-shim/kern/IODRMShim.cpp:448-449 | the mmap offset of a live handle is handle * 4 MiB, without wrap |
| DrmTable.WindowDecodes | drm-shim/kern/IODRMShim.cpp:448-449 | every address in a buffer's mmap window decodes to its handle exactly when the buffer is at most 4 MiB |
| DrmTable.WindowsMeet | drm-shim/kern/IODRMShim.cpp:448-449 | two windows overlap exactly when the lower buffer reaches the higher one's offset and the higher one is not empty |
| Blit.SourceInBounds | drm-shim/kern/IODRMShim.cpp:384-386 | the 32-bit source offset never reads past the buffer, even when the product wraps |
| Blit.CopyRows | drm-shim/kern/IODRMShim.cpp:379-386 | the loop puts the byte at the wrapped source offset into each byte of the copied rectangle and changes no other byte of the surface |
| Blit.OutsideUntouched | drm-shim/kern/IODRMShim.cpp:379-386 | every byte of the surface outside the rectangle that both pictures share stays as it was |
| Blit.BlitCorrectExactly | drm-shim/kern/IODRMShim.cpp:384-386 | every picture's rows arrive unchanged exactly when the last copied row's offset fits 32 bits (or nothing is copied); otherwise some picture is shown wrong |
| Blit.PixelsShown | drm-shim/kern/IODRMShim.cpp:381-386 | at 32 bpp, without wrap and with a surface row that holds its pixels, every shared pixel of buffer and display is shown |
| Kernel.IODRMShimArm64.constructor | drm-shim/kern/IODRMShim.cpp:200-203 | the started extension is coherent, has no buffer, no descriptor and id 0 |
| Kernel.IODRMShimArm64.FindBO | drm-shim/kern/IODRMShim.cpp:566-570 | finds the slot of a live handle and nothing else, 0 and handles above 256 included |
| Kernel.IODRMShimArm64.AllocHandle | drm-shim/kern/IODRMShim.cpp:571-575 | the scan returns the smallest handle that is not live, 0 exactly when all are |
| Kernel.IODRMShimArm64.CreateDumb | drm-shim/kern/IODRMShim.cpp:398-440 | refines the map's create with the same reply, adds one descriptor exactly on success, keeps every slot and descriptor coherent and leaves the lock free on all paths |
| Kernel.IODRMShimArm64.MapDumb | drm-shim/kern/IODRMShim.cpp:443-452 | replies as the map does, EINVAL for dead handles, and changes nothing |
| Kernel.IODRMShimArm64.GemClose | drm-shim/kern/IODRMShim.cpp:553-563 | removes at most the one entry, completes and releases its descriptor, and replies success for dead handles too |
| Kernel.IODRMShimArm64.DestroyDumb | drm-shim/kern/IODRMShim.cpp:550-552 | is the same step as GEM_CLOSE |
| Kernel.IODRMShimArm64.BlitToDisplay | drm-shim/kern/IODRMShim.cpp:353-395 | fails exactly when a framebuffer is present but gives no surface; otherwise the surface holds the blit of the buffer, and no buffer changes |
| Kernel.IODRMShimArm64.SetCrtc | drm-shim/kern/IODRMShim.cpp:326-338 | refines the map's show step: id 0 does nothing, dead ids fail, a failed blit still becomes current; the surface changes exactly when a live buffer is shown |
| Kernel.IODRMShimArm64.GetCrtc | drm-shim/kern/IODRMShim.cpp:536-544 | reports the map's current id |
| Kernel.IODRMShimArm64.AddFb | drm-shim/kern/IODRMShim.cpp:545-549 | the framebuffer id is the handle, live or not |
| Kernel.IODRMShimArm64.ClientStore | drm-shim/kern/IODRMShim.cpp:429-432 | a store through a mapping changes one byte of one live buffer of the map |
| Kernel.IODRMShimArm64.Stop | drm-shim/kern/IODRMShim.cpp:578-590 | afterwards every descriptor ever allocated was completed once and released once |
| Kernel.IODRMShimArm64.DrmIoctl | drm-shim/kern/IODRMShim.cpp:302-323 | the dispatch takes the map's step for every request, and after stop fails with ENXIO and changes nothing |
| KernelRuns.RunThenStop | drm-shim/kern/IODRMShim.cpp:302-590 | over any run from start to stop the replies are the map's, and the descriptors, one for each successful create, are each completed and released once |
| Libdrm.CreateDumbBuffer | drm-shim/user/libdrm-darwin.c:65-87 | returns the smallest free handle with the pitch the wrapper computed itself, or -ENOMEM with the out-parameters and the kernel untouched |
| Libdrm.MapDumbBuffer | drm-shim/user/libdrm-darwin.c:89-94 | succeeds exactly for live handles, with an offset that decodes to the handle |
| Libdrm.DestroyDumbBuffer | drm-shim/user/libdrm-darwin.c:96-99 | always returns 0 and leaves every other buffer as it was |
| Libdrm.AddFB | drm-shim/user/libdrm-darwin.c:261-272 | always succeeds with the handle as framebuffer id |
| Libdrm.SetCrtc | drm-shim/user/libdrm-darwin.c:243-257 | -EINVAL exactly for dead ids, -EIO exactly for live ones that could not be shown |
| Gbm.AllocBo | graphics/include/darwin-gbm.c:52-81 | succeeds exactly when the record, the kernel's memory and a handle are to be had; its record then describes the kernel's buffer, and a failure leaves the kernel as it was |
| Gbm.CanAllocExactly | graphics/include/darwin-gbm.c:52-81 | one allocation succeeds exactly with a record, memory and a free handle among 1..256, two in a row exactly with both records, both memories and two free handles |
| Gbm.BoDestroy | graphics/include/darwin-gbm.c:110-119 | its two closes together remove exactly the one handle |
| Gbm.SurfaceCreate | graphics/include/darwin-gbm.c:156-165 | succeeds exactly when both allocations can; on failure the rollback leaves the whole kernel table, bytes included, as it was; on success two described buffers with the two smallest free handles are owned |
| Gbm.SurfaceDestroy | graphics/include/darwin-gbm.c:176-178 | exactly the surface's two handles leave the table |
| Gbm.SurfaceRoundTrip | graphics/include/darwin-gbm.c:156-178 | a created surface adds exactly two distinct new handles, and destroying it restores the table |
| Gbm.GbmSurface.LockFrontBuffer | graphics/include/darwin-gbm.c:170-173 | hands out the buffer that was not in front, and marks the surface locked |
| GbmOwnership.PartitionKept | graphics/include/darwin-gbm.c:110-119 | live handles are the disjoint union of what live buffer objects own, in every ioctl-grained run in which no create gets a handle whose second close is still to come |
| GbmOwnership.AtomicDestroysKeep | graphics/include/darwin-gbm.c:110-119 | in particular in every run without a create between the two closes of a destroy |
| GbmOwnership.OneCreateBetweenCloses | graphics/include/darwin-gbm.c:114-117 | a create between the two closes of h loses its buffer exactly when no smaller handle is free |
| GbmOwnership.CreatesBetweenCloses | graphics/include/darwin-gbm.c:114-117 | with any creates of new objects between the two closes of h, ownership survives exactly when those with memory are at most as many as the free handles below h |
| GbmOwnership.UndisturbedDestroy | graphics/include/darwin-gbm.c:114-117 | with nothing between them the two closes are one step that removes the handle and its owner and leaves nothing pending |
| PageFlip.NthLock | graphics/include/darwin-gbm.c:170-173 | the n-th lock of any run, from 0, hands out buffer n mod 2, whatever other clients close or show |
| PageFlip.NextLockOnScreenExactly | graphics/include/darwin-gbm.c:170-175 | the next lock hands out the buffer GETCRTC reports exactly when an odd number of locks went unpresented since the last presentation, or, without any presentation, when the id current at the start is its handle |
| PageFlip.DisciplinedClientTearsExactly | graphics/include/darwin-gbm.c:170-175 | a client that presents each buffer before locking the next is handed the buffer on screen only by its first lock, and there exactly when the id current at the start is the first buffer's handle |
| PageFlip.RecreatedSurfaceOnScreen | drm-shim/kern/IODRMShim.cpp:553-563 | from any table: a surface that was shown, destroyed and created again gets its old handles, and its first lock hands out the buffer GETCRTC reports |
| PageFlip.RecreatedFromEmpty | drm-shim/kern/IODRMShim.cpp:553-563 | that run, ioctl by ioctl, on the started device |
| PageFlip.AtMostOneHeld | graphics/include/darwin-gbm.c:174-175 | a client that asks has_free_buffers before each lock holds at most one buffer, none exactly when the answer is yes |
| FlipRuns.RunFlips | graphics/include/darwin-gbm.c:170-173 | a client driving a surface of two buffers on the kernel class, with any other requests between, moves both as the flip model says and is handed buffers 0, 1, 0, 1, ... |
| FlipRuns.FlipThenLock | graphics/include/darwin-gbm.c:170-175 | after such a run has_free_buffers says yes exactly when no buffer is held (if asked before each lock), and the buffer the next lock returns is the one GETCRTC replied with under exactly the condition above |
| HidKeys.MappedUsagesDistinct | evdev-bridge/darwin-evdev-bridge.c:116-150 | no two mapped usages share a Linux key code |
| HidKeys.UsageRecovered | evdev-bridge/darwin-evdev-bridge.c:118-148 | the table and a reverse table written by key numbers are inverse: a usage yields a key exactly when the reverse table yields that usage |
| Evdev.EvdevDevice.HidValueCallback | evdev-bridge/darwin-evdev-bridge.c:153-222 | appends exactly the events of the value and updates exactly the contact it belongs to |
| EvdevDecode.ContactSlotInRange | evdev-bridge/darwin-evdev-bridge.c:216 | the slot is a valid index exactly for non-negative identifiers and negative multiples of ten |
| EvdevDecode.ContactSlotExactly | evdev-bridge/darwin-evdev-bridge.c:216 | an identifier that fits 31 bits selects its last decimal digit, and every other one the C remainder by ten of its signed low word |
| EvdevDecode.TouchIsLatest | evdev-bridge/darwin-evdev-bridge.c:205-218 | after any run with in-range contacts the slot is the latest one selected, and a contact is where its latest X and Y reports put it |
| EvdevDecode.TouchReconstructed | evdev-bridge/darwin-evdev-bridge.c:200-221 | a type B decoder of the events of any run with such identifiers recovers the slot and all contact positions |
| EvdevDecode.FramesOfRun | evdev-bridge/darwin-evdev-bridge.c:153-222 | the frames between SYNs of any run: each value that is not relative motion and has events closes one, which begins with the relative motion since the one before |
| EvdevDecode.OneFramePerValueExactly | evdev-bridge/darwin-evdev-bridge.c:153-222 | every value with events is a frame of its own exactly in runs without relative motion |
| EvdevDecode.DigitizerFrames | evdev-bridge/darwin-evdev-bridge.c:199-221 | each digitizer value is one frame |
| EvdevDecode.MotionAloneUnseen | evdev-bridge/darwin-evdev-bridge.c:178-191 | a run of relative motion alone completes no frame, so a reader is not told of it until some other value comes |
| EvdevDecode.MotionConserved | evdev-bridge/darwin-evdev-bridge.c:179-191 | on each relative axis a reader's total over any run is the total the device reported |
| EvdevDecode.MovedIsReported | evdev-bridge/darwin-evdev-bridge.c:179-191 | these totals are the sums of the reports themselves modulo 2^32, and equal to them while every report fits 32 bits |
| EvdevDecode.SingleTouchFollows | evdev-bridge/darwin-evdev-bridge.c:205-214 | a reader of ABS_X and ABS_Y has the digitizer's latest coordinates after any run |
| EvdevKeys.LatestValueWins | evdev-bridge/darwin-evdev-bridge.c:163-204 | a reader sees a code pressed exactly when the latest value reporting it was a press |
| EvdevKeys.KeysFollowSources | evdev-bridge/darwin-evdev-bridge.c:144-204 | after any run on any device: left button pressed exactly when the latest usage-1 button value was a press, right button usage 2, middle button any other usage, touch the tip switch, and a key its usage in the reverse table (left Meta also Globe) |
| EvdevKeys.KeyEventsAreBits | evdev-bridge/darwin-evdev-bridge.c:163-204 | key events carry only 0 and 1 |
| EvdevKeys.FaithfulExactly | evdev-bridge/darwin-evdev-bridge.c:163-204 | in all runs the reader's view of a code is whether a control reporting it (a key, a button, or a finger by its contact slot) is held, exactly if one control reports it |
| EvdevKeys.SharedCodes | evdev-bridge/darwin-evdev-bridge.c:144-204 | the codes with several controls are left Meta on keyboards, the middle button on pointers and the touch button on touch devices, and no others |
| EvdevKeys.TwoFingers | evdev-bridge/darwin-evdev-bridge.c:200-204 | two fingers go down and one comes up: the reader sees no touch while the other finger is down |
| EvdevKeys.KeyStatesReconstructed | evdev-bridge/darwin-evdev-bridge.c:163-204 | for every device and all runs key, button and touch states survive the bridge for exactly the codes that are not shared, so there releasing one control never releases another |
| EvdevRuns.RunBridge | evdev-bridge/darwin-evdev-bridge.c:153-222 | after any run of callbacks a reader of the pipe has the bridge's own multitouch fields, and sees each key, button and touch as its own latest value left it |
| Seatd.Daemon.AcceptClient | seatd-darwin/seatd-darwin.c:160-191 | the lowest free slot takes the client; it is refused exactly when 16 are connected, and then its socket is closed and nothing changed |
| Seatd.Daemon.HandleOpenDevice | seatd-darwin/seatd-darwin.c:97-122 | one reply on every path: code 0 with the descriptor for a path below /dev/dri or /dev/input that opens, -errno for one that does not, -1 for every other path; the daemon's open descriptors as before |
| Seatd.AllowedExactly | seatd-darwin/seatd-darwin.c:101-102 | the prefix test accepts exactly the paths whose components are the root, dev, dri or input, and something after them |
| Seatd.FirstEightNoted | seatd-darwin/seatd-darwin.c:115-117 | after any grants the numbers noted for a client are the first eight, in order |
| Seatd.OpenAnswerExactly | seatd-darwin/seatd-darwin.c:100-119 | code 0 and a descriptor go together and mean the path lies below the two directories and was opened; otherwise the code is -1 or -errno |
| SeatPaths.AllowedStaysExactly | seatd-darwin/seatd-darwin.c:100-106 | a path that passes the prefix test stays in its directory exactly when no part of it has more ".." than names, and then ends there (symbolic links apart) |
| SeatPaths.DotDotLeaves | seatd-darwin/seatd-darwin.c:100-106 | a path that passes the test and ends elsewhere |
| Seatd.Daemon.HandleClientMessage | seatd-darwin/seatd-darwin.c:125-157 | a disconnect frees exactly its slot and socket; a message changes no descriptor and gets its replies |
| Seatd.DescriptorCount | seatd-darwin/seatd-darwin.c:160-191 | between handlers the open descriptors are the listening socket and one distinct socket for each occupied slot, 17 at most |
| Seatd.RepliesMatchRequests | seatd-darwin/seatd-darwin.c:138-156 | pipelined messages get one reply each, in order, exactly when all have one of the four known types |
| Seatd.AnswerExactly | seatd-darwin/seatd-darwin.c:138-156 | types 2 to 4 get code 0 without a descriptor, type 1 the reply of the open, no other type any reply |
| SeatProtocol.Unpacked | patches/wlroots/0001-drm-darwin-arm64-backend.patch:68-71 | the daemon reads back exactly the path the client was given, or its first 255 bytes if it is longer |
| SeatProtocol.TruncateKeepsPrefix | seatd-darwin/seatd-darwin.c:101-106 | cutting the path never changes whether it lies below the two directories |
| SeatProtocol.SessionsStayInStep | patches/wlroots/0001-drm-darwin-arm64-backend.patch:67-89 | under every interleaving each call consumes the one reply to its own request and returns a descriptor exactly when its path lies below /dev/dri or /dev/input and that open succeeded |
| Desktop.ReadFile | shell/src/luna-launcher-wallpaper.c:135-145 | the fgets loop leaves in its slot the parse of the file's lines and touches no other slot |
| Desktop.FillSlot | shell/src/luna-launcher-wallpaper.c:131-146 | a file that cannot be read or lacks name or command adds nothing, and nothing of it stays |
| Desktop.ContributionExactly | shell/src/luna-launcher-wallpaper.c:128-148 | an entry adds an application exactly when ".desktop" occurs in its name, its file opens, and name and command are not empty |
| Desktop.ApplicationsConcat | shell/src/luna-launcher-wallpaper.c:124-149 | a listing in two parts gives the applications of the first and then those of the second |
| Desktop.Shell.AppsLoad | shell/src/luna-launcher-wallpaper.c:124-149 | the growing array ends up as the usable entries of the listing, in order; an unreadable directory changes nothing |
| DesktopFormat.LinesOfRender | shell/src/luna-launcher-wallpaper.c:135-137 | fgets sees the printed lines, those of 511 bytes or more in pieces of 511 |
| DesktopFormat.ParseUndoesPrint | shell/src/luna-launcher-wallpaper.c:135-146 | a printed entry within the buffer sizes comes back exactly when its command has no "%" or starts with one; otherwise only the command is cut, to what stands before the byte in front of its first "%" |
| DesktopFormat.FieldCodeCut | shell/src/luna-launcher-wallpaper.c:145 | a command followed by one byte, "%" and anything comes back as that command |
| DesktopFormat.PrintedIsLoaded | shell/src/luna-launcher-wallpaper.c:128-148 | a printed entry is loaded exactly when it has a name and something is left of its command |
| DesktopFormat.LastValueWins | shell/src/luna-launcher-wallpaper.c:135-146 | in any file a key has the value of the last piece that sets it in the entry, cut to 63 or 255 bytes and the command before its field code; without such a piece it is empty; the accent is always the default |
| DesktopFormat.SafeToInsertExactly | shell/src/luna-launcher-wallpaper.c:136-143 | a line can be inserted anywhere in any file without effect exactly when none of its pieces opens a group or sets a key |
| DesktopFormat.LongCommentSetsName | shell/src/luna-launcher-wallpaper.c:135-143 | a comment for which that fails |
| Launcher.LFill | shell/src/luna-launcher-wallpaper.c:45-47 | changes exactly the pixels of its rectangle |
| Launcher.IconsDisjoint | shell/src/luna-launcher-wallpaper.c:66-74 | a pixel is in an icon square exactly when hit testing by division names that icon, so squares are pairwise disjoint |
| Launcher.CellFitsExactly | shell/src/luna-launcher-wallpaper.c:68 | a cell ends inside the buffer exactly when its index is below columns times rows that fit, so the early exit skips only cells that do not fit |
| Launcher.DrawnCellsFitExactly | shell/src/luna-launcher-wallpaper.c:62-68 | all drawn cells lie inside the buffer exactly when none is drawn or the logical width is at least 64 and one cell |
| Launcher.DrawnIconsFitExactly | shell/src/luna-launcher-wallpaper.c:62-74 | all drawn icon squares do exactly when none is drawn or the logical width is at least 64 and one icon: a cell may stick out where its icon does not |
| Launcher.DrawIcons | shell/src/luna-launcher-wallpaper.c:64-74 | for any grid whose drawn icons lie inside: draws min(total, columns * rows that fit) icons, and each pixel shows the icon that contains it or what was there |
| Launcher.GridFitsExactly | shell/src/luna-launcher-wallpaper.c:93-102 | the columns lie inside the buffer exactly when the logical width is at least 64 and one cell |
| Launcher.ColumnsExactly | shell/src/luna-launcher-wallpaper.c:97-98 | as many columns as fit beside a margin of 64 in 32-bit arithmetic, and at least one |
| Launcher.PlacesExactly | shell/src/luna-launcher-wallpaper.c:61-74 | every icon's place in literal sizes: rows from 72 down, cells 24 wider and 36 higher than the icon, the icon centred in its cell and the grid in the buffer to within one pixel |
| Launcher.NarrowColumns | shell/src/luna-launcher-wallpaper.c:97-98 | the product of columns and cell width, an `int` in the code, is past its range on every width below 64 and, from 64 on, only where the rounded width itself is (cell widths up to 2^31 - 64) |
| Launcher.LunaLauncher.Configure | shell/src/luna-launcher-wallpaper.c:89-110 | leaves the layout of the given size and a buffer of exactly its pixels |
| Launcher.LunaLauncher.Render | shell/src/luna-launcher-wallpaper.c:56-80 | whenever the drawn icons lie inside, every pixel of icon i shows its accent, or if hovered an opaque colour with each channel 30 higher modulo 256, and every other pixel the background |

## Left out

- Launcher.LunaLauncher.Configure: the products of sizes and scale are unbounded here, since C leaves an overflow of `int` undefined (`NarrowColumns` says when one of them always overflows); only the unsigned subtraction wraps.
- Launcher.LunaLauncher.Render: the text calls are not modelled, because labels may spill over neighbouring cells and the code promises nothing about them.
- Kernel.IODRMShimArm64.GetCrtc: the mode fields of the reply (display size, 60 Hz) are constants of the display and are left out.
- Kernel.IODRMShimArm64.ClientStore: how a client maps a buffer (IOKit user client) is outside the repository; a store through the mapping is one atomic step.
- Libdrm.CreateDumbBuffer: `ioctl` is the kernel method called directly; system-call failures of its own are not modelled.
- SeatPaths.AllowedStaysExactly: symbolic links and missing directories are not modelled; `..` is the parent directory.
- Seatd.Daemon.HandleClientMessage: messages arrive whole, and replies are never lost; each handler runs to its end before the next.
- GETRESOURCES, GETCONNECTOR, GETENCODER, VERSION and PRIME: constant answers, or wrappers of requests the kernel does not handle.
- Display probing, devfs registration, IOSurface locking and the swap signal: foreign calls.
- `gbm_bo_map`, user data and the trivial getters of GBM; `free` of records.
- The device table of the input bridge (`device_added`): only what it decides about a device is a parameter.
- The text fields of a seat message header (`len`), peer credentials, logging and the dispatch sources of the daemon.
- Failures of `calloc` and `realloc` outside `alloc_bo`: the code does not test for them.
- The 512-byte path buffer of `luna_apps_load`: whether a file opens is a property of the listing.
- Wallpaper gradients, panel, compositor, file manager, text editor, event loop and build scripts.
