# KBM kernel: memory, paging and screen, verified

A Dafny model of the parts of the KBM kernel that keep state: the physical frame
allocator, the heap on top of it, the page walk and the mapping of the local APIC, the
framebuffer console, the software mouse cursor and `memmove`. Each piece of running code
is proved against a value-level model, and the model carries the theorems.

How to read it:

- **Memory.** `Pmm.dfy` runs on two packed bitmaps (`Bits.dfy`) and refines the partition
  in `PmmModel.dfy`: every frame is free, owned or reserved for good. `Heap.dfy` runs on
  64-bit words of memory, so a header that was absorbed by a merge is still there and may
  be overwritten in part; `HeapMemory.dfy` says what each write does to the headers.
  It refines `HeapModel.dfy` (an address-ordered list of free chunks, the loans, the
  frames behind them), whose invariant is proved in `HeapProofs.dfy`. `MemoryModel.dfy`
  and `MemoryProofs.dfy` put heap, frame allocator and direct clients together and prove
  the invariant over every run; `KernelMemory.dfy` shows the running objects follow that
  system call by call, from start-up on.
- **Paging.** `Paging.dfy` is the 4-level walk of section 4.5 of the Intel SDM, Volume 3A,
  over physical words. `Lapic.dfy` installs the two tables for the local APIC and proves
  exactly when no other translation changes, and that then none does at any intermediate write.
- **Screen.** `Framebuffer.dfy` draws pixels. `TextScreen.dfy` defines what the console
  should show: the last lines of a document that only grows, under a painted header;
  `TextLaws.dfy` says what typing, erasing and the header come to in plain terms.
  `Console.dfy` keeps every visible pixel equal to that. `Pointer.dfy` is the mouse packet
  machine, `Mouse.dfy` the 4x4 square with the pixels saved under it, and `Desktop.dfy`
  the idle loop in which mouse interrupts and header updates share the screen.
- `panic` is modelled as a distinguished outcome, `Panicked(reason)`.

What turned out not to hold for every input, with the exact condition:

- `kmalloc` rounds requests above 2^64-16 to zero and then lends a payload that is too
  small (`MemoryProofs.WrappedRequest` is one); a loan holds the bytes asked for exactly when
  the request is at most 2^64-16 (`MemoryProofs.LoanHonoursRequest`), and such requests escape
  the overflow panic (`MemoryProofs.KmallocAnswers`).
- `pmm_init` can pass its size check and still run out of memory in the bump phase. It does so
  exactly when every usable entry ends inside the first page, or when some entry lies inside
  one page and no entry before it takes in the whole address space (`PmmCode.BumpFailsIff`);
  the map without entries and a map of one tiny range are such inputs
  (`PmmCode.BumpFailures`). An entry that ends higher but holds no whole frame fails the size
  check instead (`PmmCode.BareEntry`).
- The length `pmm_init` computes for a usable entry that does not overflow wraps to almost
  2^64 exactly when the entry is not well formed (`PmmModel.LengthWrapsIff`).
- Freeing what was just allocated restores the identical free list exactly when the block
  touched no free neighbour it can merge with (`MemoryProofs.MallocThenFree`); a state where it
  does not come back is `MemoryProofs.ListNotRestored`. The set of free bytes is restored
  always, plus one frame when the heap had to grow.
- The LAPIC mapping leaves every other address as it was exactly when only walks for its own
  gigabyte read the PDPT entry it writes (`Lapic.ShownIff`); the kernel does not check this,
  and goes ahead in a layout where another root entry shares that PDPT
  (`Lapic.SampleLayouts`).
- The first cursor square lies wholly on the screen exactly for screens of at least 7x7
  (`PointerModel.StartFits`).

## Model

| member | source | states |
|---|---|---|
| MemoryProofs.RoundUpIsExact | kernel/src/kernel/heap.c:22-24 | rounding gives the next multiple of 16 up to 2^64-16 and zero above |
| HeapModel.FirstFit | kernel/src/kernel/heap.c:49-59 | the first chunk of the list that is large enough, or the end of the list |
| HeapModel.Position | kernel/src/kernel/heap.c:146-153 | how many chunks of the list lie below an address |
| HeapProofs.GrowKeeps | kernel/src/kernel/heap.c:61-87 | adding a fresh frame keeps order, tiling, balance and spacing |
| HeapProofs.CarveKeeps | kernel/src/kernel/heap.c:89-117 | splitting or unlinking the block taken keeps the whole heap invariant |
| HeapProofs.PutBackOrdered | kernel/src/kernel/heap.c:145-174 | reinsertion with the two merges keeps the list strictly ordered; chunks touch only where a frame begins |
| HeapProofs.PutBackBytes | kernel/src/kernel/heap.c:162-174 | merging moves no byte: the free bytes are the old ones plus the returned chunk, and headers and payloads add up |
| HeapProofs.PutBackSunk | kernel/src/kernel/heap.c:162-174 | headers inside free chunks stay inside free chunks through every merge |
| HeapProofs.ReleaseKeeps | kernel/src/kernel/heap.c:141-176 | ending any loan keeps the whole heap invariant |
| HeapProofs.ReleaseMerges | kernel/src/kernel/heap.c:145-174 | the list after a free: one chunk for the returned block together with the free chunks that touch it on either side, every other chunk unchanged |
| HeapProofs.CarveShrinks | kernel/src/kernel/heap.c:89-115 | the list after an allocation: every other chunk unchanged, and the rest of the one taken when at least 48 bytes are left |
| HeapProofs.RoundTrip | kernel/src/kernel/heap.c:89-176 | ending the loan just carved restores loans, frames and the exact set of free bytes; the list itself if and only if the block touched no mergeable neighbour |
| MemoryProofs.MallocThenFree | kernel/src/kernel/heap.c:34-177 | on calls, when a block fits: the pointer returned can be freed, the free finds that loan, and frame allocator, loans, frames and free bytes are as before; the list if and only if nothing else could merge |
| MemoryProofs.MallocThenFreeIdentical | kernel/src/kernel/heap.c:34-177 | when no two free blocks touch, the heap comes back with the identical free list |
| MemoryProofs.MallocThenFreeGrown | kernel/src/kernel/heap.c:61-177 | when the heap has to grow, the two calls leave exactly one more owned frame, whose bytes are free |
| MemoryProofs.ListNotRestored | kernel/src/kernel/heap.c:89-176 | a valid state in which the two calls change the free list |
| MemoryProofs.WrappedRequest | kernel/src/kernel/heap.c:22-44 | an input of the wrap: a request of 2^64-1 is granted with at most 32 bytes |
| HeapProofs.UsedFits | kernel/src/kernel/heap.c:86-117 | the counters never wrap: frames and used bytes stay within the memory that backs them |
| HeapMemory.TakenStored | kernel/src/kernel/heap.c:89-115 | after the header writes of an allocation memory holds the carved list, the new loan, and every other payload untouched |
| HeapMemory.PlantedStored | kernel/src/kernel/heap.c:145-160 | after linking a block in, memory holds the longer list, all loans, and every stale header's marks |
| HeapMemory.AbsorbedStored | kernel/src/kernel/heap.c:162-174 | after one merge memory holds the joined list, all loans, and every stale header's marks |
| HeapMemory.StoreKeeps | kernel/src/main.c:327-329 | a client's write to its payload disturbs no header, listed, lent or stale |
| HeapCode.Heap.Init | kernel/src/kernel/heap.c:26-32 | an empty heap over a mapped direct map is valid |
| HeapCode.Heap.FindFit | kernel/src/kernel/heap.c:49-59 | the walk over headers stops at the first fit and knows its predecessor |
| HeapCode.Heap.FindPlace | kernel/src/kernel/heap.c:69-76 | the walk stops at the first block not below the address |
| HeapCode.Heap.GrowByFrame | kernel/src/kernel/heap.c:61-87 | one owned frame more, linked at its place, or the allocator's panic with the heap unchanged |
| HeapCode.Heap.Store | kernel/src/main.c:327-329 | a client's write to a payload it was lent leaves the heap valid and its model unchanged |
| HeapCode.Heap.SplitBlock | kernel/src/kernel/heap.c:89-105 | every word written by a split, and that no other word changes |
| HeapCode.Heap.MergeInto | kernel/src/kernel/heap.c:162-174 | one conditional merge of two listed blocks in memory |
| HeapCode.Heap.Kmalloc | kernel/src/kernel/heap.c:34-120 | heap, frame allocator and answer are those of the model for every request; no lent payload and no word outside the heap's frames is written |
| HeapCode.Heap.Kfree | kernel/src/kernel/heap.c:122-177 | ends the loan behind the pointer, or panics with everything unchanged; a header freed since the last allocation always panics as a double free; no word outside the heap's frames is written |
| HeapCode.Heap.GetUsedBytes | kernel/src/kernel/heap.c:180-180 | used bytes are the lent sizes and with free bytes and headers account for every heap frame |
| HeapCode.Heap.GetFrameCount | kernel/src/kernel/heap.c:181-181 | the counter is the number of heap frames |
| MemoryProofs.KmallocAnswers | kernel/src/kernel/heap.c:34-120 | exactly when each panic happens, and what a successful call lends |
| MemoryProofs.MallocTakes | kernel/src/kernel/heap.c:34-120 | with a block that fits: the lowest large enough is lent from its front, its address answered, the rest listed, nothing else changed |
| MemoryProofs.MallocGrowsBy | kernel/src/kernel/heap.c:61-120 | with no block that fits: the lowest free frame joins the heap, its front is lent and its rest is the only new free block |
| MemoryProofs.FreeMerges | kernel/src/kernel/heap.c:122-177 | a free ends the loan behind the pointer and lists its block as one with the free blocks that touch it; nothing else changes |
| MemoryProofs.LoanHonoursRequest | kernel/src/kernel/heap.c:43-119 | payloads are 16-aligned, 0, 16 or 32 bytes above the rounded request, and hold the request if and only if rounding did not wrap |
| MemoryProofs.StepKeeps | kernel/src/kernel/heap.c:34-177 | every client call keeps the joint invariant of heap and frame allocator |
| MemoryProofs.RunKeeps | kernel/src/kernel/heap.c:34-177 | over every run: the heap tiles its frames, each owned frame has one holder, free plus owned never changes |
| MemoryProofs.RunKeepsPositive | kernel/src/kernel/heap.c:34-177 | over every run without a request above 2^64-16 every payload, free or lent, stays a positive size |
| MemoryProofs.Separation | kernel/src/kernel/pmm.c:107-116 | no byte of a heap block lies in a free frame, a client's frame or a frame of the bitmaps, nor is it a byte that holds bits |
| MemoryProofs.DoubleFreeIsCaught | kernel/src/kernel/heap.c:131-174 | after a successful free, a second free of the pointer panics after any run without allocations, whatever was merged |
| KernelMemory.Memory.Malloc | kernel/src/kernel/heap.c:34-120 | the running system follows the model's step and writes inside the heap's frames only |
| KernelMemory.Memory.Free | kernel/src/kernel/heap.c:122-177 | the running system follows the model's step; any other readable pointer panics as an invalid or a double free and changes nothing |
| KernelMemory.OthersUntouched | kernel/src/kernel/heap.c:34-177 | what the heap writes stays out of client frames, free frames and every byte of both bitmaps |
| KernelMemory.Memory.GetFrame | kernel/src/kernel/pmm.c:179-203 | a direct client's frame is nobody else's |
| KernelMemory.Memory.PutFrame | kernel/src/kernel/pmm.c:205-226 | giving back a client's frame leaves the heap valid; every other address but the heap's own frames is refused and changes nothing |
| KernelMemory.CountTest | kernel/src/main.c:250-272 | the kernel's count check of allocate and free always passes and restores the allocator |
| KernelMemory.ReuseTest | kernel/src/main.c:305-309 | the kernel's reuse check always passes |
| KernelMemory.TakeBootFrames | kernel/src/main.c:250-312 | the six lowest free frames are taken and kept, or the only panic is out of memory |
| KernelMemory.Boot | kernel/src/main.c:247-320 | start-up succeeds if and only if the frame allocator starts and opens at least six frames, with each panic otherwise; it ends in a valid system over the given direct map with an empty heap, whose clients hold six of the opened frames, below every free one |
| Bits.MarkUsed | kernel/src/kernel/pmm.c:130-137 | sets one frame's bit and no other, in either bitmap |
| Bits.MarkFree | kernel/src/kernel/pmm.c:121-128 | clears one frame's bit and no other, in either bitmap |
| Bits.IsFree | kernel/src/kernel/pmm.c:167-176 | reads one frame's bit |
| Bits.TestByValue | kernel/src/kernel/pmm.c:121-176 | a frame's bit is one binary digit of one byte, counted from the least significant |
| PmmModel.WholeFrames | kernel/src/kernel/pmm.c:39-43 | rounding an entry inwards keeps exactly its whole frames; the computed length is honest, or 2^64-4096 for a range inside one page |
| PmmModel.LengthWrapsIff | kernel/src/kernel/pmm.c:43-43 | the computed length is honest if and only if the entry is well formed |
| PmmModel.AlignedIsWellFormed | kernel/src/kernel/pmm.c:38-43 | page-aligned entries are well formed and rounded to themselves |
| PmmModel.AllocateIsLowest | kernel/src/kernel/pmm.c:189-202 | allocation takes the lowest free frame and fails if and only if none is free |
| PmmModel.FreeIffOwned | kernel/src/kernel/pmm.c:205-226 | exactly the page-aligned addresses of owned frames can be freed; a panic changes nothing |
| PmmModel.FreeRefuses | kernel/src/kernel/pmm.c:205-226 | exactly when each message is given; ownership-bitmap frames are refused as not allocated |
| PmmModel.StorageIsKept | kernel/src/kernel/pmm.c:57-116 | every byte that holds bits lies in a frame that is neither free nor owned, and the bitmaps share no byte |
| PmmModel.AllocateThenFree | kernel/src/kernel/pmm.c:189-226 | allocate then free restores the state, and the next allocation returns the same frame |
| PmmModel.RunKeepsPartition | kernel/src/kernel/pmm.c:179-226 | over every run owned is exactly handed out and not returned, counts are conserved, reserved frames stay reserved |
| PmmCode.TakeSurvey | kernel/src/kernel/pmm.c:35-55 | highest usable end and the first of the longest ranges |
| PmmCode.BumpFailsIff | kernel/src/kernel/pmm.c:35-83 | exactly which memory maps pass the size check and then run out of memory |
| PmmCode.BumpFailures | kernel/src/kernel/pmm.c:35-83 | two such maps: no entries, and one range inside a page |
| PmmCode.SizeCheckIsExact | kernel/src/kernel/pmm.c:57-65 | start-up refuses a map exactly when its longest range is shorter than the two bitmaps, each of the fewest frames that hold a bit for every frame |
| PmmCode.BareEntry | kernel/src/kernel/pmm.c:57-70 | an entry without a frame that ends above the first page fails the size check |
| PmmCode.BumpCanWrap | kernel/src/kernel/pmm.c:35-83 | a range inside one of the last two pages, which is not sound: the size check passes and the bump pointer wraps past the end |
| PmmCode.Fill | kernel/src/memory.c:20-29 | every byte of the bitmap gets the value |
| PmmCode.Pmm.TakePages | kernel/src/kernel/pmm.c:72-83 | consecutive frames from the bump pointer, or out of memory when the first does not fit |
| PmmCode.Pmm.PlaceBitmaps | kernel/src/kernel/pmm.c:57-91 | both bitmaps sized and placed in the longest range, every frame blocked and unowned, or the exact panic |
| PmmCode.Pmm.MarkEntryFree | kernel/src/kernel/pmm.c:93-106 | clears exactly the whole frames of one entry |
| PmmCode.Pmm.Reserve | kernel/src/kernel/pmm.c:107-116 | sets exactly the frames of one bitmap |
| PmmCode.Pmm.Init | kernel/src/kernel/pmm.c:29-119 | a frame ends up free if and only if it is wholly usable and outside both bitmaps, which lie one after the other in the longest range, take the fewest frames that hold a bit for every frame, and share no byte with each other or with a free frame; out of memory exactly for the maps of `BumpFailsIff` |
| PmmCode.Pmm.AllocateFrame | kernel/src/kernel/pmm.c:179-203 | bump mode and bitmap mode; the bitmap scan is the model's allocation |
| PmmCode.Pmm.FreeFrame | kernel/src/kernel/pmm.c:205-226 | the model's free, with each check in order |
| PmmCode.Pmm.FreeFrameCount | kernel/src/kernel/pmm.c:237-246 | the counted value is the cardinality of the free set |
| Paging.WalksAgree | kernel/src/arch/x86_64/paging.c:11-91 | a translated address is mapped; the walks differ if and only if a present huge entry is met |
| Paging.WalksDescend | kernel/src/arch/x86_64/paging.c:11-91 | both functions equal one walk written level by level over bit fields: nine address bits a level, bit 0, bit 7 and the address field of each entry |
| Paging.WalkDependsOnPath | kernel/src/arch/x86_64/paging.c:11-91 | memory that agrees on the words a walk reads gives the same walk |
| Paging.OnePageOneFrame | kernel/src/arch/x86_64/paging.c:17-52 | addresses of one page go to one frame, each at its own offset |
| Paging.LowBitsOnly | kernel/src/arch/x86_64/paging.c:17-20 | only the low 48 address bits matter |
| Lapic.LapicPage | kernel/src/arch/x86_64/lapic.c:6-6 | the page of the virtual base is entry 511, 511, 0, 0 |
| Lapic.ArrayWord | kernel/src/arch/x86_64/lapic.c:14-15 | words of a page-aligned array translate to consecutive words of one frame |
| Lapic.QuietBefore | kernel/src/arch/x86_64/lapic.c:77-80 | while the tables are cleared nothing is translated differently |
| Lapic.ArrayStays | kernel/src/arch/x86_64/lapic.c:50-60 | the two arrays stay mapped where they were through every write |
| Lapic.AliasShows | kernel/src/arch/x86_64/lapic.c:82-87 | when another walk reads the region's PDPT entry, at any level, the finished mapping shows outside the region |
| Lapic.ShownIff | kernel/src/arch/x86_64/lapic.c:82-87 | the finished mapping is exactly the one device page, the rest of its gigabyte unmapped, and every other walk reads the same words as before, if and only if only walks for the region read its PDPT entry |
| Lapic.SampleLayouts | kernel/src/arch/x86_64/lapic.c:50-75 | two memories in which the kernel goes ahead: in one the condition holds, in the other, with a shared PDPT, it fails |
| Lapic.QuietLinked | kernel/src/arch/x86_64/lapic.c:82-84 | after each of the first two linking writes the region still shows nothing and all else is as before |
| Lapic.ShownAfter | kernel/src/arch/x86_64/lapic.c:86-87 | after the last write the page shows the local APIC, the rest of its gigabyte nothing, all else is as before |
| Lapic.ShowsDevice | kernel/src/arch/x86_64/lapic.c:82-87 | the page is shown at 0xFEE00000 plus the offset, uncached, for the kernel only, and writable if and only if the root entry is |
| Lapic.Cpu.ClearTables | kernel/src/arch/x86_64/lapic.c:77-80 | the 1024 writes in order, both tables empty at the end, translation unchanged before and after each write |
| Lapic.StoresInPlain | kernel/src/arch/x86_64/lapic.c:77-87 | the mapping is 1027 writes: 1024 zeroes, then the PDPT entry, the directory's entry and the device's entry, each with its exact value |
| Lapic.Cpu.EnableLegacyPic | kernel/src/arch/x86_64/lapic.c:50-87 | true if and only if both tables are mapped, the PDPT exists and its last entry is unused; then the memories between the 1027 writes form a chain from the old memory to the new, and the last shows the page and nothing else new if and only if one path leads to the PDPT entry, in which case all but the last show nothing new; otherwise memory is unchanged |
| Display.Framebuffer.PutPixel | kernel/src/drivers/framebuffer.c:4-16 | one visible pixel changes, nothing off the screen |
| Display.Framebuffer.GetPixel | kernel/src/drivers/framebuffer.c:113-125 | the pixel, or zero off the screen |
| Display.Framebuffer.Fill | kernel/src/drivers/framebuffer.c:18-25 | every visible pixel, no padding |
| Display.Framebuffer.DrawRect | kernel/src/drivers/framebuffer.c:27-35 | exactly the visible pixels of the rectangle, with 64-bit coordinate wrap |
| Display.Framebuffer.DrawGlyph | kernel/src/drivers/framebuffer.c:37-54 | exactly the visible pixels of set cells, for every scale |
| Display.GlyphInPlain | kernel/src/drivers/framebuffer.c:37-54 | at any scale, pixel (i, j) of a drawn glyph is binary digit 7 - i/scale of byte j/scale |
| Display.SpansPlain | kernel/src/drivers/framebuffer.c:27-35 | a rectangle's side covers the plain interval when it does not overflow |
| Display.SpansAround | kernel/src/drivers/framebuffer.c:27-35 | and goes on at coordinate zero when it does |
| Display.Framebuffer.ScrollRegionUp | kernel/src/drivers/framebuffer.c:82-111 | each row shows the old row that many lines lower, the bottom opens as background, rows above the region stay, though source and destination overlap |
| Utf8.DecodeEncode | kernel/src/drivers/console.c:126-152 | every text of non-zero codepoints below 0x800 is read back from its encoding |
| Utf8.PairByValue | kernel/src/drivers/console.c:138-143 | a two-byte sequence is a byte in C0..DF and one in 80..BF, and its value is their low bits side by side |
| Utf8.DecodeStops | kernel/src/drivers/console.c:126-152 | arbitrary bytes are cut into units of one or two bytes up to the terminator, each giving its own codepoint by value, a question mark for a byte that fits neither, and nothing behind the terminator counts |
| TextScreen.NewLineShows | kernel/src/drivers/console.c:89-98 | a new line moves the window of a full document by one row and changes nothing otherwise |
| TextScreen.PutShows | kernel/src/drivers/console.c:100-122 | a put cell appears at the cursor, which was blank, and nowhere else |
| TextScreen.EraseShows | kernel/src/drivers/console.c:188-201 | erasing blanks the last cell of the line and nothing else |
| TextScreen.EraseUndoesPut | kernel/src/drivers/console.c:100-201 | backspace takes back the last character, leaving the line it may have started |
| TextLaws.TypingLaysOut | kernel/src/drivers/console.c:100-152 | typing a text on a blank screen gives its segments between newlines, each on lines of its own cut at the screen's width, without the codepoints that have no glyph |
| TextLaws.WritingLaysOut | kernel/src/drivers/console.c:100-152 | writing the encoding of a text on a blank screen lays it out in lines of one cell for each sixteen pixels of width |
| TextLaws.TypingGoesOn | kernel/src/drivers/console.c:100-152 | on a document in use the first segment goes on behind the cursor and the others follow below |
| TextLaws.ShortSegments | kernel/src/drivers/console.c:100-122 | segments that fit are the lines, codepoint for codepoint |
| TextLaws.ErasingKeepsLines | kernel/src/drivers/console.c:188-201 | erasing at column 0 changes nothing; elsewhere only the last cell of the cursor's line goes |
| TextLaws.ColourOfLaterCells | kernel/src/drivers/console.c:21-21 | cells written before a change of colour keep theirs, the next has the new one |
| TextLaws.ClearingBlanks | kernel/src/drivers/console.c:203-208 | after clearing no cell is left and every pixel from row 40 down is background |
| TextLaws.TextInPlain | kernel/src/drivers/console.c:100-122 | which cell, and which bit of its glyph, a pixel below row 56 shows |
| TextScreen.ClockTellsTime | kernel/src/drivers/console.c:43-58 | the header's digits give the uptime back, with hours held at 99 |
| TextLaws.ClockReads | kernel/src/drivers/console.c:43-58 | the eight codepoints read hh:mm:ss with the digits of the uptime |
| TextLaws.LettersInPlain | kernel/src/drivers/console.c:27-40 | letter i of a header text shows in its own sixteen columns and every other pixel stays |
| TextLaws.HeaderInPlain | kernel/src/drivers/console.c:60-75 | the colour of every header pixel in plain coordinates: clock sixteen pixels from the right end, name, accent bar, line, ground |
| TextLaws.UpdateShowsUptime | kernel/src/drivers/console.c:43-76 | a header update shows the new uptime in the current colour and keeps text and colour |
| TextLaws.ClearingKeepsUptime | kernel/src/drivers/console.c:203-208 | clearing draws the header for the uptime shown last |
| TextScreen.HeaderIsConfined | kernel/src/drivers/console.c:60-75 | the header is drawn above row 40 only and does not depend on what was there |
| TextScreen.HeaderLayers | kernel/src/drivers/console.c:61-75 | which layer of the header shows at each pixel |
| ConsoleCode.GlyphPlain | kernel/src/drivers/framebuffer.c:37-54 | what a double-size glyph covers, in plain coordinates |
| ConsoleCode.Console.SeenInPlain | kernel/src/drivers/console.c:89-122 | what every pixel from row 40 down shows, in plain numbers, for the document the console has |
| ConsoleCode.Console.StartLine | kernel/src/drivers/console.c:89-98 | new line or scroll: every visible pixel follows the document, also when the height is no multiple of 16 |
| ConsoleCode.Console.Advance | kernel/src/drivers/console.c:89-98 | the cursor moves down one row, or every row moves up one with background below, and the header stays |
| ConsoleCode.Console.WriteCodepoint | kernel/src/drivers/console.c:100-122 | newline, unknown codepoint, wrap and glyph follow the document |
| ConsoleCode.Console.Write | kernel/src/drivers/console.c:126-152 | a text types its decoded codepoints; no byte behind the terminator is read |
| ConsoleCode.Console.Backspace | kernel/src/drivers/console.c:188-201 | erases on the current line only |
| ConsoleCode.Console.DrawHeaderText | kernel/src/drivers/console.c:27-40 | letters painted left to right over what was there |
| ConsoleCode.Console.UpdateHeader | kernel/src/drivers/console.c:43-76 | the header shows the uptime and no pixel below it changes |
| ConsoleCode.Console.Init | kernel/src/drivers/console.c:78-86 | a blank document under a fresh header |
| ConsoleCode.Console.ClearScreen | kernel/src/drivers/console.c:203-208 | back to a blank document under the same uptime |
| ConsoleCode.Console.Replay | kernel/src/drivers/console.c:21-208 | over every run of calls, whole texts and single codepoints, the screen is the rendering of the document the run leads to |
| TextScreen.AfterBoth | kernel/src/drivers/console.c:21-208 | calls take effect in the order they are made |
| PointerModel.StartFits | kernel/src/drivers/mouse.c:105-112 | the first square fits if and only if the screen is at least 7 by 7 |
| PointerModel.AlwaysFits | kernel/src/drivers/mouse.c:158-197 | over every byte stream the square stays on the screen and the packet index below 3 |
| PointerModel.PacketsAreTracked | kernel/src/drivers/mouse.c:158-206 | a stream of whole packets moves the pointer packet by packet, dropping overflowed ones |
| PointerModel.SignedByValue | kernel/src/drivers/mouse.c:174-175 | a movement byte stands for the number in -128..127 equal to it modulo 256 |
| PointerModel.MovedByValue | kernel/src/drivers/mouse.c:177-196 | the pointer goes where the movement leads, or to the nearest place on the screen |
| PointerModel.FlagsByValue | kernel/src/drivers/mouse.c:158-173 | which bytes start a packet, and which report overflow |
| PointerModel.StrayByteIgnored | kernel/src/drivers/mouse.c:158-166 | between packets, acknowledgements and bytes without bit 3 change nothing |
| PointerModel.PacketMoves | kernel/src/drivers/mouse.c:168-206 | where one whole packet leaves the pointer, by value: right is positive, up is positive, overflow moves nothing |
| MouseCode.Mouse.SaveBackground | kernel/src/drivers/mouse.c:63-70 | the sixteen pixels under the square, also where it hangs over the edge |
| MouseCode.Mouse.RestoreBackground | kernel/src/drivers/mouse.c:72-79 | the whole picture is back, padding included |
| MouseCode.Mouse.HideCursor | kernel/src/drivers/mouse.c:82-89 | hiding recovers the underlying picture exactly |
| MouseCode.Mouse.ShowCursor | kernel/src/drivers/mouse.c:92-103 | showing paints the square and loses nothing of the picture |
| MouseCode.Mouse.Init | kernel/src/drivers/mouse.c:105-114 | the square starts in the middle over the picture found |
| MouseCode.Mouse.Irq | kernel/src/drivers/mouse.c:153-210 | one byte steps the packet machine and never changes the underlying picture |
| Desktop.Screen.WhatIsSeen | kernel/src/main.c:442-459 | at every pixel: the square at the pointer, elsewhere the console's rendering |
| Desktop.EventsShow | kernel/src/main.c:442-459 | a mouse byte leaves the text alone; a second leaves pointer and text alone and shows its uptime |
| Desktop.Screen.ShowUptime | kernel/src/main.c:448-455 | a bracketed header update changes the picture under the square as the console says |
| Desktop.Screen.Replay | kernel/src/main.c:442-459 | over every interleaving of mouse bytes and header updates the screen is the console's rendering under the square |
| Desktop.AfterBoth | kernel/src/main.c:442-459 | mouse bytes and header updates take effect in the order they arrive |
| MemoryOps.MemMove | kernel/src/memory.c:31-49 | equals copying from a snapshot for every overlap, and touches nothing outside the destination |

## Left out

- Port I/O and device programming (serial, PIC, PIT, PCI, reboot, PS/2 controller set-up, the LINT0 register write): hardware effects without state in the kernel.
- Interrupt entry, GDT and IDT: assembly and fixed tables.
- `invlpg` and translation caching: translation is a walk over memory, and every walk sees every write.
- The null check of the result pointer in `paging_translate_4k`: the model returns an option instead of writing through a pointer.
- The direct map of the page tables: the walk reads physical addresses, without adding and removing the linear offset.
- Limine request structures: the memory map is a sequence of entries, the offset of the direct map a parameter.
- The placement of the bitmaps' bytes in memory: the two bitmaps are arrays with an address; `MemoryProofs.Separation` and `KernelMemory.OthersUntouched` are why the heap does not write those bytes and no client is lent them.
- The flat pixel address `y * stride + x`: pixel memory is a two-dimensional array of rows of `stride` pixels.
- Font bitmaps: the font is an arbitrary function from codepoints to optional glyphs.
- Changing the console's background colour, which no caller does: the rendering theorem is for a fixed background.
- ConsoleCode.Console.Init: screens narrower than 16 or lower than 72 pixels are left out: not one whole character cell fits below the header there.
- MouseCode.Mouse.Init: screens with a side below 4, on which the square cannot fit, or of 2^30 pixels and more, where the 32-bit position could overflow, are left out.
- Keyboard and shell drawing while the mouse square is visible: that path does not hide the square first, so the overlay theorem covers mouse interrupts and header updates only.
- Number printing, `memcpy`, `memcmp`, `screen_scroll_up` and the debug readers of `lapic.c`: they would only add easy members.
- Lapic.Cpu.EnableLegacyPic: assumes that no walk reads the two arrays as page tables yet, which are the kernel's own data until then.
- Lapic.Cpu.ClearTables: the same.
- HeapCode.Heap.Kfree: says nothing about unreadable pointers, nor about a header that a client forged inside a payload with the magic number and the lent mark, which the source frees as if it were real.
- KernelMemory.Memory.Free: the same two kinds of pointer are left out.
- PmmCode.Pmm.Init: usable entries whose end overflows 64 bits, and ranges inside one of the last two pages of the address space, are left out; `PmmCode.BumpCanWrap` shows what the second kind does to the bump pointer.
- PmmCode.Pmm.MarkEntryFree: the same two kinds of entry are left out.
- PmmCode.BumpFailsIff: the same.
- PmmModel.WholeFrames: the same.
- PmmModel.LengthWrapsIff: entries whose end overflows 64 bits are left out.
