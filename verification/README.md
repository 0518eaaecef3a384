# UniProc: a verified model of the kernel's stateful parts

UniProc is a small x86-64 kernel. This project models the parts of it that carry state, loops or
modular arithmetic, and proves what they do over all inputs and whole runs:

- the ELF relocation engine (`Elf`, `ElfPass`, `ElfLoader`, `ElfEntries`, `ElfRelocatable`): symbol resolution, the
  two loading stages, order independence of relocation, and what a different address changes in a
  whole load;
- the framebuffer terminal (`Framebuffer`, `TerminalModel`, `Terminal`): which texts stay in the buffer
  and in the pixel rows, and that the pixels then show a text grid after every character;
- memory and processes (`MemoryMap`, `PageAllocator`, `PageRuns`, `Processes`, `ProcessRuns`): exactly
  when pages and process contexts stay distinct in every run;
- the C library (`CString`, `Stdio`, `Console`): memory functions on overlapping objects, the integer
  printer, and `printf` down to the pixels;
- keyboard and interrupts (`Keyboard`, `Pic`, `Interrupts`): the scancode decoder, and the driver
  against a model of two cascaded 8259A controllers.

`Words` holds machine words and the byte-addressed address space; `Arith` holds the non-linear facts.
Code that works in place is modelled by methods on arrays and objects, each proved against a function
of the old state; the properties are lemmas about those functions and about runs of them. Functions
that look up or compute a value are functions. A panic is an outcome after which nothing follows.

Where the code differs from what its comments or the usual design suggest, the model follows the code:

- `elf_get_symval` searches section number `idx`, not `table`; an external name that is not found
  resolves to 0, weak or not; stage 2 narrows a 64-bit result to `int` before it compares it with -1, so
  an entry that has already patched its word can end the pass (`ElfPass.StopReasons`).
- A terminal line takes one character more than fits, and after a scroll the cursor goes to the row above
  the last. So a printable character right after a scroll that moved text overwrites some of it
  (`TerminalModel.OverwritesIff`, and for printable text `TerminalModel.PrintableOverwritesIff`), with a
  single text row the cursor leaves the screen (`TerminalModel.CursorBoundedIff`), and where pixel rows
  have no room for the extra column its pixels stray into the next pixel row
  (`Terminal.ExtraColumnIsOffGridIff`, `Terminal.Tty.ExtraColumnSpoilsIff`) or, with no pixel rows left over
  below the text, out of the buffer (`Terminal.Tty.EveryTextInBufferIff`).
- `free_page` adds the physical base of the kernel, so it undoes `get_free_page`, and runs of the two are
  sound, only when that base is less than a page (`PageRuns.FreeUndoesGetIff`, `PageRuns.FreesAreSoundIff`,
  `ProcessRuns.RunsAreSoundIff`). For a base from 16 MiB to below 2^64 - 16 MiB + 4096 every free of a heap
  page clears a byte outside the page table (`PageRuns.FreeStaysInTableIff`); for the others from a page up
  a free can clear the entry of another page, so that a live page is handed out twice and two processes are
  given one context (`PageRuns.LivePagesDistinctIff`, `ProcessRuns.ContextsIntactIff`).
- A heap region is refused not only when none is large enough but also when the one found would be mapped
  at address 0 (`PageRuns.NoRegionIff`).
- Interrupts of the second controller are acknowledged at the first only, because the entry stubs push 0
  for the error code. Such a line blocks itself and the lines below it for good
  (`Interrupts.SlaveLineBlocksForever`); this is avoided for sure only by keeping them masked
  (`Interrupts.AlwaysIdleIff`).
- `printf` checks the remaining space for text, `%c` and `%s`, but not for numbers
  (`Stdio.EmitExact`). Negating the smallest int, which C leaves undefined, is taken to wrap around.

## Model

| member | source | states |
|---|---|---|
| ElfPass.StopReasons | src/kernel/elf.c:92-178 | Exactly when an entry traps, is refused untouched (index out of range, unsupported type), or ends the pass after having patched its word; the section searched is number idx |
| ElfPass.EntryFollowsFormula | src/kernel/elf.c:157-173 | The patched word is S + A or S + A - P of section 4.4 of the System V AMD64 psABI, with A taken from the place |
| ElfEntries.EntryInNumbers | src/kernel/elf.c:92-178 | For r_info = idx 2^32 + t and a symbol idx that resolves to S: types 10, 2 and 24 leave S + A, S + A - P and S + A - P at the place, other types nothing, and the pass stops exactly if t is none of 0, 2, 10, 24 or the low half of S is all ones |
| ElfEntries.UnresolvedEntry | src/kernel/elf.c:92-163 | An entry whose symbol does not resolve leaves memory alone and ends the pass, by a division by zero exactly if the section it searches has records of size 0 |
| ElfEntries.ItemIs | src/kernel/elf.c:180-188 | The pass goes through the sections of type 9 in order and through every whole record of each in order, and through nothing else |
| ElfPass.PassExact | src/kernel/elf.c:180-198 | The outcome and memory of the whole pass: everything before the first stopping entry applied in full, that one applied unless it trapped, nothing after it |
| ElfPass.OutcomeIff | src/kernel/elf.c:187-197 | 0 is returned iff no entry stops the pass, -1 iff some result has its low 32 bits all ones with no division by zero before it |
| ElfPass.RelocationAdds | src/kernel/elf.c:154-198 | Each patched word ends as its old value plus the sum mod 2^64 of its entries' contributions, for any number of entries |
| ElfPass.RelocationFrame | src/kernel/elf.c:154-198 | A byte in no patched word is unchanged |
| ElfPass.SuccessfulPass | src/kernel/elf.c:180-198 | Both together, for all words and bytes after a pass that returns 0 |
| ElfPass.PassFrame | src/kernel/elf.c:154-198 | A byte that no entry of the list patches is unchanged, whatever the outcome |
| ElfPass.OrderIsIrrelevant | src/kernel/elf.c:180-198 | If patched words are equal or disjoint, any permutation of the entries of a pass that returns 0 returns 0 and leaves the same memory |
| ElfPass.OutcomeIsFixedIff | src/kernel/elf.c:180-198 | The outcome alone is the same in every order exactly unless some entry traps and another is refused |
| ElfRelocatable.ItemsAreFixed | src/kernel/elf.c:131-188 | The relocation work after stage 1 depends neither on the load address nor on where blocks were placed |
| ElfRelocatable.LoadsMove | src/kernel/elf.c:92-157 | Between two loads with the same blocks an entry's symbol moves with the base exactly if its section stays in the image, and its place exactly if the patched section does |
| ElfRelocatable.AddendDrifts | src/kernel/elf.c:154-178 | What an entry contributes then differs by its drift times the difference of the bases: the motion of its symbol, less that of its place if it is pc-relative |
| ElfRelocatable.PlaceIsSite | src/kernel/elf.c:155-158 | Every patched word is a word of the image at a fixed offset, or of a block at the entry's offset |
| ElfRelocatable.Relocatable | src/kernel/elf.c:131-198 | Two whole loads that return 0, at two bases with the same blocks: each such word that held the same between the stages, and that every patched word equals or is disjoint from, differs by its total drift times the difference of the bases |
| ElfRelocatable.WordBetween | src/kernel/elf.c:131-149 | Between the stages a word of the image that no block overlaps is as it was, and a word of a block is 0 |
| ElfRelocatable.PcRelativeWordsAreFixed | src/kernel/elf.c:131-198 | Words patched only by pc-relative entries whose symbol moves exactly if they do come out identical in both loads |
| ElfRelocatable.AbsoluteWordsMove | src/kernel/elf.c:131-198 | Words patched only by absolute entries move by the difference of the bases once per entry against symbols of the image, and not at all against symbols in blocks or absolute ones |
| ElfRelocatable.UnpatchedBytesAreFixed | src/kernel/elf.c:131-198 | Bytes of the image that no block and no entry covers are the same after two successful loads |
| ElfRelocatable.UncoveredBytes | src/kernel/elf.c:131-198 | After both stages, with whatever outcome, a byte that no entry covers is 0 if it is in a block and as before if it is not |
| ElfLoader.ZeroedBlocks | src/kernel/elf.c:134-149 | Stage 1 leaves every byte of every allocated block zero and changes no other byte |
| ElfEntries.NeedsMemoryIff | src/kernel/elf.c:138-140 | Sections are placed exactly if their type is 8, their size not 0 and bit 1 of their flags set |
| ElfEntries.HeadersAfterStage1 | src/kernel/elf.c:141-145 | Stage 1 makes the offset of a placed section lead from the image to its block and changes nothing else in any header |
| ElfEntries.BlockIs | src/kernel/elf.c:134-141 | Blocks go to the placed sections in section order |
| ElfLoader.PlacedSymbolResolves | src/kernel/elf.c:122-145 | After stage 1 a symbol in a placed section resolves to its block plus its value, whatever the base |
| ElfLoader.Loader.LoadStage1 | src/kernel/elf.c:131-152 | The section headers and the memory that the loop leaves |
| ElfLoader.Loader.DoReloc | src/kernel/elf.c:154-178 | One relocation in place has the effect and the result of the verdict on its entry |
| ElfLoader.Loader.LoadStage2 | src/kernel/elf.c:180-198 | The nested loops run the pass over the flattened work list, stopping where it stops |
| Words.LoadIsLittleEndian | src/kernel/elf.c:167-172 | A word is its eight bytes with the one at the lowest address counting least, around the end of the address space |
| Framebuffer.Screen.SetPixel | src/arch/x86_64/framebuffer.c:56-63 | Exactly one pixel of the buffer changes, also when x is beyond the end of the row |
| Framebuffer.Screen.PixelInBytes | src/arch/x86_64/framebuffer.c:61-62 | Pixel (x, y) lies 4x + pitch y bytes from the start, for a pitch of whole pixels |
| Framebuffer.Screen.Clear | src/arch/x86_64/framebuffer.c:25-36 | All visible pixels are zero, the padding is unchanged |
| Framebuffer.Screen.ScrollUpBy | src/arch/x86_64/framebuffer.c:74-86 | Every visible row that has a row p below it becomes that row; the last p rows and all padding are unchanged, for every p |
| TerminalModel.AdvanceAllInBounds | src/arch/x86_64/tty.c:85-107 | For any text the cursor stays in rows 0 to the last and columns 0 to the width |
| TerminalModel.CursorBoundedIff | src/arch/x86_64/tty.c:94-107 | That holds for every text exactly unless the screen has just one text row; with none, the last row counts as 2^64 - 1 |
| TerminalModel.CursorInPixels | src/arch/x86_64/tty.c:85-107 | In pixel sizes: a printable character that fits within the width moves the cursor one column right; the one after, and a newline, move it to the next line if that is within the height, and otherwise the screen scrolls and the cursor goes to the line above |
| TerminalModel.CursorWithoutCells | src/arch/x86_64/tty.c:85-95 | If a size is 0, characters only count columns and newlines rows, modulo 2^64 |
| TerminalModel.Schedule | src/arch/x86_64/tty.c:85-107 | After n printable characters from home, with width W and last row T: position (n div (W+1), n mod (W+1)) and no scroll on the first screen, then 1 + (n - (T+1)(W+1)) div (2(W+1)) scrolls |
| TerminalModel.FirstScreenShowsText | src/arch/x86_64/tty.c:85-101 | Printable text that does not fill the screen stands on it W+1 characters to a line with the last of each full line missing |
| TerminalModel.NoScrollIff | src/arch/x86_64/tty.c:85-107 | Any text from home, newlines included, scrolls exactly if its lines, each taking one more than its length div (W+1), take more than there are; if not, it ends where they do |
| TerminalModel.LinesShow | src/arch/x86_64/tty.c:85-101 | A text that does not scroll stands on the screen line by line: every printable character at the place its line and column give, unless that is the extra column, and nothing anywhere else |
| TerminalModel.ScrollOverwrites | src/arch/x86_64/tty.c:97-107 | After a scroll, by a newline or a full last line, the next printable character overwrites the start of the line that was last |
| TerminalModel.OverwritesIff | src/arch/x86_64/tty.c:85-107 | For every text from home: some character goes to a cell that holds one exactly if somewhere a scroll with the cursor past column 0 is directly followed by a printable character |
| TerminalModel.PrintableOverwritesIff | src/arch/x86_64/tty.c:85-107 | For printable text that is exactly when there is a column and the text is longer than rows times (W+1) |
| Terminal.ExtraColumnIsOffGridIff | src/arch/x86_64/tty.c:97-101 | Drawing in the extra column touches no pixel of the grid exactly when the stride is at least (W+1) characters |
| Terminal.Tty.ExtraColumnSpoilsIff | src/arch/x86_64/tty.c:89-101 | A character drawn in the extra column leaves the grid as it was, and the screen goes on showing the grid exactly if every pixel of it that strays into the next pixel row has the colour the grid asks for there |
| Terminal.Tty.LastCellInBufferIff | src/arch/x86_64/tty.c:89-107 | The last cell drawn in lies in the buffer exactly when the stride has room or pixel rows are left over |
| Terminal.Tty.EveryTextInBufferIff | src/arch/x86_64/tty.c:76-108 | Whatever is written from home stays in the buffer exactly when there are at least two text rows and that cell lies in it |
| Terminal.Tty.EveryTextInRowsIff | src/arch/x86_64/tty.c:76-108 | Whatever is written from home stays within the pixel rows exactly when there are at least two text rows and the stride has room for the extra column |
| Terminal.Tty.TextOnGridStaysInRows | src/arch/x86_64/tty.c:76-108 | With at least two text rows, text never printed in the extra column stays within the pixel rows of any framebuffer |
| Terminal.Tty.GlyphShows | src/arch/x86_64/tty.c:32-55 | A drawn glyph puts its character in its cell of the grid and changes no other cell |
| Terminal.Tty.GlyphInPixels | src/arch/x86_64/tty.c:32-55 | A drawn glyph has foreground where its bit is set and background elsewhere, cell by cell from the upper left corner |
| Terminal.Tty.ShownInPixels | src/arch/x86_64/tty.c:32-55 | A buffer that shows a text has in each cell the glyph of its character, and background in blank cells |
| Terminal.Tty.ScrolledShows | src/arch/x86_64/tty.c:69-74 | Scrolling the picture scrolls the grid and blanks its last row |
| Terminal.Tty.PutEntryAt | src/arch/x86_64/tty.c:32-55 | Every pixel of the glyph is stored at its index, the later one where two fall together, and nothing else changes, also in buffers narrower than the glyph |
| Terminal.Tty.DeleteLine | src/arch/x86_64/tty.c:57-67 | Exactly the visible pixels of one text row become background |
| Terminal.Tty.Scroll | src/arch/x86_64/tty.c:69-74 | The picture moves up by one text row and exactly one row is blank |
| Terminal.Tty.PutChar | src/arch/x86_64/tty.c:76-108 | Where the cell is in the buffer, cursor and text grid change as the model says; the pixels go on showing the grid if the cell is within its pixel rows |
| Terminal.Tty.Write | src/arch/x86_64/tty.c:110-112 | The same for every string of bytes, character by character |
| MemoryMap.UsableIsReported | src/kernel/vmem.c:39-47 | Every region in the map was reported usable by the bootloader |
| MemoryMap.UsableIs | src/kernel/vmem.c:39-47 | The usable regions are exactly the entries of kind 0 in order: entry i of kind 0 comes after as many as there are before it |
| MemoryMap.BuiltIs | src/kernel/vmem.c:36-49 | The map has sixteen regions: the usable ones as far as they go, then what it held before |
| MemoryMap.Build | src/kernel/vmem.c:36-49 | The map holds the first sixteen usable entries in order, and what it held before after them |
| PageAllocator.Allocator.GetFreePage | src/kernel/allocator.c:30-59 | Lazy placement in the first region of 16 MiB, first free page, and the two panics |
| PageRuns.GetsPageIff | src/kernel/allocator.c:50-55 | Page i of the heap, at base + 4096 i, is handed out exactly if there is a heap, entry i is free and none before it is; only that entry and the base change |
| PageRuns.HeapFullIff | src/kernel/allocator.c:50-56 | A request panics for want of a page exactly if there is a heap and all 4096 entries are marked |
| PageAllocator.Allocator.FreePage | src/kernel/allocator.c:61-65 | One entry of the page table is cleared, at the index the address arithmetic gives, or a write outside the table is recorded at that index |
| PageRuns.PagesAreUsableMemory | src/kernel/allocator.c:38-53 | Every page of every run lies wholly in the first entry of at least 16 MiB among the first sixteen that the bootloader reported usable |
| PageRuns.BaseNeverChanges | src/kernel/allocator.c:31-48 | The heap base never changes once set |
| PageRuns.NoRegionIff | src/kernel/allocator.c:38-47 | Exactly when the panic for want of a region occurs, however many entries follow the first sixteen |
| PageRuns.HeapRegionIs | src/kernel/allocator.c:38-43 | The heap goes into the first of the sixteen regions of at least 16 MiB, at its start plus the offset of the kernel's mapping |
| PageRuns.FreeHitsItsEntryIff | src/kernel/allocator.c:61-64 | Freeing page j clears entry j + base/4096 modulo 2^52, which is j iff the kernel's physical base is below 4096 |
| PageRuns.FreeStaysInTableIff | src/kernel/allocator.c:61-64 | That entry is in the table exactly if 4096 j plus the base, modulo 2^64, is below 16 MiB |
| PageRuns.FreeIndexIs | src/kernel/allocator.c:61-63 | Freeing any address clears the entry that is as many whole pages beyond the heap base as the address plus the kernel's base is |
| PageRuns.FreeChanges | src/kernel/allocator.c:63-64 | Freeing clears that one entry, or writes that far from the start of the table, and changes nothing else |
| PageRuns.FreeUndoesGetIff | src/kernel/allocator.c:30-65 | Free undoes get on the state, apart from the heap base that the first get sets for good, exactly if the kernel's base is below 4096 |
| PageRuns.TakeIsFresh | src/kernel/allocator.c:50-55 | The page handed out is that of the lowest free entry and is not in use |
| PageRuns.LedgerIsExact | src/kernel/allocator.c:30-65 | With the base below 4096, in every interleaving of gets and frees of live pages the table marks exactly the live pages, gets minus frees of them, and no free writes outside it |
| PageRuns.HeapFullOverRuns | src/kernel/allocator.c:30-65 | In such runs a request panics for want of a page exactly when gets minus frees is 4096 |
| PageRuns.FreesAreSoundIff | src/kernel/allocator.c:30-65 | In every run in which only live pages are freed the table marks exactly the live pages, none is handed out again and no free writes outside the table, exactly if the base is below 4096 or there is no heap |
| PageRuns.LivePagesDistinctIff | src/kernel/allocator.c:30-65 | Some run from the start hands out a live page exactly if the base is from 4096 to below 16 MiB or from 2^64 - 16 MiB + 4096 up, and there is a heap; frees that write outside the table are taken to leave the allocator's variables alone |
| Processes.LaidOutByte | src/arch/x86_64/proc_context.c:39-60 | Every byte of a context page is zero except rip, rdi, rsi and rsp, with rsp at the end of the page, and no byte outside it changes |
| Processes.ContextInNumbers | src/arch/x86_64/proc_context.c:39-60 | The words at bytes 64, 72, 136 and 160 of the page are the argument, the start address, the entry point and the end of the page, and all other bytes are 0 |
| Processes.ProcessTable.CreateNewProcContext | src/arch/x86_64/proc_context.c:35-62 | A page from the allocator, laid out as a context, or the allocator's panic |
| Processes.ProcessTable.CreateProcess | src/kernel/proc.c:23-49 | The slot found, the entry written, the counter and the panics |
| Processes.ProcessTable.NameProcess | src/kernel/proc.c:51-55 | The byte copy names an occupied slot with the sixteen bytes in memory; the rest of the table, and a free slot, stay as they are |
| ProcessRuns.NextSlotIs | src/kernel/proc.c:29-39 | Slots are found in the order 1 to 31, then 0 |
| ProcessRuns.TableOverRuns | src/kernel/proc.c:23-49 | In every run of creations, namings and other uses of the heap, for any kernel base, the counter equals the number of occupied slots; slot s from 1 on is occupied once s processes exist and slot 0 once thirty-two do |
| ProcessRuns.CreationPanicsIff | src/kernel/proc.c:24-39 | A creation panics exactly after thirty-two or when the allocator does, and then which slot it takes otherwise |
| ProcessRuns.NamesOverRuns | src/kernel/proc.c:41-55 | In every run a process is named by the last call for its slot since its creation, with the bytes memory held then, or has no name; calls before the creation are lost |
| ProcessRuns.ContextsOverRuns | src/arch/x86_64/proc_context.c:35-62 | With the base below 4096, in every run in which others take pages, and free and write to their own, contexts of distinct processes are disjoint used heap pages, each still as it was laid out, and no free writes outside the page table |
| ProcessRuns.RunsAreSoundIff | src/kernel/allocator.c:30-65 | That holds in every run exactly if the base is below 4096 or there is no heap |
| ProcessRuns.ContextsIntactIff | src/kernel/allocator.c:30-65 | Contexts stay intact in every run exactly unless a live page can be handed out again, and then a run is given in which two processes have one context; frees that write outside the table are taken to leave everything else alone |
| CString.MemCpy | src/libc/string.c:13-22 | The memory a forward copy leaves for every overlap |
| CString.ForwardSourceRepeats | src/libc/string.c:13-22 | An overlapping forward copy repeats the first dest - src bytes |
| CString.MemSet | src/libc/string.c:24-32 | Exactly n bytes become the low byte of c |
| CString.MemMove | src/libc/string.c:34-49 | The old source bytes are delivered for every overlap and nothing else changes |
| CString.MemCpyIsMemMoveIff | src/libc/string.c:13-49 | memcpy and memmove agree in every memory exactly when dest does not start strictly inside the source |
| CString.MemCmp | src/libc/string.c:51-62 | The comparison of the two byte strings |
| CString.CompareIsTotalOrder | src/libc/string.c:51-62 | memcmp is antisymmetric and transitive, and 0 exactly for equal strings |
| CString.CompareIsLexicographic | src/libc/string.c:55-59 | It is the lexicographic order |
| Stdio.DigitIs | src/libc/stdio.c:31 | The digits are 0 to 9 and A to F |
| Stdio.DigitsRoundTrip | src/libc/stdio.c:44-47 | The digits parse back to the number and have no leading zero |
| Stdio.IntRoundTrip | src/libc/stdio.c:30-57 | Decimal text parses back to the int, hexadecimal and binary text to its 32 bits |
| Stdio.BufferFits | src/libc/stdio.c:32-48 | Decimal and hexadecimal text always fits the buffer, binary text exactly below 2^16 |
| Stdio.PiecesJoinToRender | src/libc/stdio.c:65-132 | The pieces the interpreter cuts a format into are together the text that reading it character by character gives |
| Stdio.TextPrints | src/libc/stdio.c:65-132 | Text prints itself and %% a percent sign; an unknown conversion prints itself and the rest of the format |
| Stdio.ConversionsPrint | src/libc/stdio.c:83-122 | %c prints the low byte of the int, %s the string, %d decimal text with a sign, %x and %b the 32 bits after 0x and 0b |
| Stdio.DefinedIff | src/libc/stdio.c:83-122 | The calls covered are all those whose conversions find arguments of their kind, with %b limited to numbers below 2^16 |
| Stdio.RenderOfConcat | src/libc/stdio.c:65-132 | The text of f1 + f2 is that of f1 followed by that of f2, if f1 has no unknown conversion |
| Stdio.EmitExact | src/libc/stdio.c:66-135 | Exactly what is printed and returned, also when the total exceeds INT_MAX |
| Stdio.ToIntIs | src/libc/stdio.c:135 | The count returned is the int congruent to it modulo 2^32 |
| Stdio.PrintsWhatItRenders | src/libc/stdio.c:59-136 | When the text fits an int, exactly it is printed and its length returned |
| Stdio.PrintedOfConcat | src/libc/stdio.c:59-136 | One call with f1 + f2 prints and returns what two calls do |
| Console.Output.Print | src/libc/stdio.c:21-26 | All characters are printed in order |
| Console.Output.PrintInt | src/libc/stdio.c:30-57 | The buffer loop prints the digits in the right order and returns how many |
| Console.Output.PutChar | src/libc/stdio.c:11-19 | The low byte of the character, if it is drawn in the buffer, is put on the terminal, whose text stays that of all output so far |
| Console.Output.Printf | src/libc/stdio.c:59-136 | The interpreter prints and returns what the specification says for every format and argument list C defines, and the terminal has it |
| Console.Output.PrintfShowsText | src/libc/stdio.c:59-136 | From home on a cleared screen, a printf whose text, newlines included, takes no more lines than there are and stays within the pixel rows leaves the pixels showing exactly the rendered text, line by line, with the glyphs of its characters' codes |
| Keyboard.EventChanges | src/arch/x86_64/keyboard.c:21-36 | One key event changes its own modifier or lock and no other |
| Keyboard.RoundTrip | src/arch/x86_64/keyboard.c:21-36 | For any sequence of key events sent as bytes, modifiers reflect the last event of their keys and locks the parity of their presses |
| Keyboard.KeyTypes | src/arch/x86_64/keyboard.c:35-44 | After any events, a key types its character from the control, shift or plain table as those keys are held, with the case of letters swapped after an odd number of caps lock presses |
| Keyboard.PrefixPendingIff | src/arch/x86_64/keyboard.c:21-33 | For any bytes, a prefix is pending exactly when the last byte was 0xE0 |
| Keyboard.Decoder.GetScancode | src/arch/x86_64/keyboard.c:9-45 | The state and the result for every status and byte |
| Pic.ClearLowestClears | src/arch/x86_64/pic_8259.c:65-70 | A non-specific end of interrupt clears exactly the in-service bit of highest priority |
| Pic.BitIsShift | src/arch/x86_64/pic_8259.c:77-110 | The mask bit of line n is 1 shifted left by n |
| Pic.PortsAre | src/arch/x86_64/pic_8259.c:37-110 | The controllers are at ports 0x20 and 0x21, and 0xA0 and 0xA1 |
| Pic.Ports.Remap | src/arch/x86_64/pic_8259.c:37-63 | From any device state both controllers end operational with the given bases and their previous masks |
| Pic.Ports.SendEoi | src/arch/x86_64/pic_8259.c:65-70 | The master, and for lines from 8 the slave, are acknowledged |
| Pic.Ports.GetIrqReg | src/arch/x86_64/pic_8259.c:113-129 | Both controllers are told which register to show, and the two registers are read into the two bytes |
| Pic.Ports.SetMask | src/arch/x86_64/pic_8259.c:77-92 | The mask bit of one line is set |
| Pic.Ports.ClearMask | src/arch/x86_64/pic_8259.c:94-110 | The mask bit of one line is cleared |
| Pic.EnabledIsASet | src/arch/x86_64/pic_8259.c:37-110 | After any run of calls the enabled lines are a plain set changed by adding and removing |
| Interrupts.EightClear | src/arch/x86_64/interrupts.c:48-51 | Eight or more ends of interrupt empty an in-service register whatever it held |
| Interrupts.VectorIs | src/arch/x86_64/interrupts.c:45-46 | After start-up line n of a controller comes at 32 + n or 40 + n, spurious interrupts as line 7 |
| Interrupts.InitializeInterrupts | src/arch/x86_64/interrupts.c:45-54 | From any device state: operational, nothing in service, timer and keyboard enabled besides what was |
| Interrupts.GenericHandler | src/arch/x86_64/interrupts.c:105-201 | Vectors 32 to 47 are handled and all others panic; the report on an unknown line shows both registers as they stood on entry, whichever is read first |
| Interrupts.HandledMeans | src/arch/x86_64/interrupts.c:105-128 | Handling ends the service of the line of highest priority at the master, and of one at the slave only if the low byte of the error code is 8 or more; it changes no mask and no request |
| Interrupts.InServiceOverRuns | src/arch/x86_64/interrupts.c:105-128 | Between handlers nothing is in service at the master, and at the slave exactly the lines that have ever interrupted |
| Interrupts.BothIdleIff | src/arch/x86_64/interrupts.c:125-127 | Both are idle exactly as long as no slave line has interrupted |
| Interrupts.SlaveLineBlocksForever | src/arch/x86_64/interrupts.c:125-127 | Once a slave line has interrupted, neither it nor a lower one ever does again |
| Interrupts.SilencedRunsStayIdle | src/arch/x86_64/interrupts.c:105-128 | If the cascade line, or all eight lines behind it, are masked at first and never unmasked, both controllers are idle after every handler of the run |
| Interrupts.AlwaysIdleIff | src/arch/x86_64/interrupts.c:45-54 | After start-up, every run without unmasking stays idle exactly if they are |

## Left out

- Finding the tables: the section, symbol and relocation tables are typed and stand apart from the patched memory, so relocation entries that overwrite the tables are not modelled, nor is the scaling of file offsets by the size of a header structure.
- `elf_check_file`, `elf_check_supported`, `elf_load_rel`: header checks and reporting. `elf_lookup_symbol` is the stub it is: nothing is ever found.
- ElfLoader.Loader.LoadStage1: takes `malloc` as a sequence of addresses of objects that end within the address space, because the kernel's own `malloc` only panics.
- Terminal.Tty.PutChar: requires the cell to lie in the buffer; the source writes outside it otherwise. Terminal.Tty.EveryTextInBufferIff says when that can happen.
- Console.Output.PutChar: requires that the output stays in the buffer; so do the functions that print through it.
- Console.Output.PrintfShowsText: text that scrolls is not laid out in closed form; it follows the text grid of the model. Terminal.Tty.EveryTextInRowsIff and Terminal.Tty.TextOnGridStaysInRows say which text stays within the pixel rows.
- The shape of glyphs (which font bit is which pixel) and the font data; a glyph is a function of character and pixel. The serial copy of the output.
- PageAllocator.Allocator.FreePage: records where it writes outside the page table but not what that byte belongs to, which depends on how the kernel is linked; it may be the heap base or the process table.
- PageRuns.LivePagesDistinctIff: takes such a write to leave the allocator's variables alone. PageRuns.FreesAreSoundIff counts it as a failure.
- ProcessRuns.ContextsIntactIff: takes such a write to leave everything else alone. ProcessRuns.RunsAreSoundIff counts it as a failure.
- ElfRelocatable.Relocatable: requires that no table read by the symbol lookup lies in a section that stage 1 places, since the table that is read then depends on the base, and the same answers from the allocator in both loads.
- Processes.ProcessTable.CreateProcess: requires the mapped heap not to run past the end of the address space, and likewise the memory functions of `CString` take objects that do not.
- `create_proc0`, the parent and state changes of processes after creation, `_start`, the context switch and everything in assembly.
- Console.Output.Printf: requires arguments that fit their conversions and binary numbers that fit the buffer; C does not define the rest.
- The three character tables of the keyboard are parameters of the decoder; their data is not reproduced.
- Of the 8259A: specific and rotating ends of interrupt, special modes, polling and auto-EOI, which the driver does not use. The saving of registers into the current process by the interrupt handler, and the rest of its reports.
- GDT, IDT and page-table entries, CPUID, control registers, serial port, boot protocol structures.
