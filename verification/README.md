# Funsize OS kernel: allocator, formatter, console and tasks

A Dafny model of the parts of the kernel that hold state and arithmetic, with
proofs about every call, every run and every reachable state. Check all of it
with `dafny verify dfyconfig.toml`.

**Memory (`Machine`, `Pages`, `Buckets`, `BucketInvariant`, `BucketTheorems`,
`BucketRuns`, `BucketMemory`, `Malloc`).** The page layer is a byte per 4 KB page
and a count of the pages in use that doubles as the index where the search for a
free page starts. On top of it, a bucket allocator keeps nine chains of
descriptors, a list of spare descriptors, and in each page a free list threaded
through the free objects. Physical memory is one array of words: descriptors, free
lists and the clients' data are all words of it, and `Malloc.Allocator` reads and
writes them as the C code does. `BucketSpec` says what the words mean (`Heap`) and
what kmalloc and kfree_s do to that meaning; every method of `Allocator` is proved
to keep the words and the meaning together, and the theorems are about the meaning.
The invariant `Inv` and the representation `Rep` are conjunctions of named parts;
a proof asserts the parts that it uses.

**Formatter (`Number`, `Format`, `FormatMeaning`, `Vsprintf`).** `vsprintf` is proved
equal to two phases: parse the format into items, then concatenate what the items
print. A number is printed by `Layout` and read back by an independent reader,
`ReadNumber`, which is given the text and the base alone. `FormatMeaning` says
character by character what flags and conversions do, and whose argument is whose.

**Console (`Console`).** The four variables `screen`, `pos`, `x` and `y` stand for a
`Cursor` that only knows its column and the number of lines fed. `AfterAll` says
which bytes of memory a text stores, inside video memory and out of it, and
`ConsoleBytes` what each byte does, by its number.

**Tasks (`TaskSpec`, `Tasks`).** Each task is one 4096-byte object of the allocator.
The task table is a client of it, next to any others, and the tasks' fields are
words of the same memory.

Integers are unbounded, so every width is written out: memory words are below
2^32, refcnt is a 16-bit half of a word, `num = -num` wraps, `do_div` is unsigned.

## Where code, comments and expectations differ

Each of these is stated by theorems: the exact condition, and an input that shows
it.

- get_free_page never looks below the number of pages in use, so it can answer
  null although a page is free. `PageFoundIff` says exactly when it finds a page,
  `FreePageOverlooked` is an input, and `HalfFull` gives the safe half.
- free_page takes the count down in any case, also for the end address, which it
  lets through: the layer stays in order exactly if the page was in use
  (`FreePage`, `ReleaseKeepsInvIff`; inputs in `ReleasedOutOfOrder`). Its signed
  index is exact for every page of a region below two gigabytes and a page
  (`SignedIndexOfPage`, `RegionServedIff`); two gigabytes and more behind the base,
  which is behind the last page, it is negative.
- kmalloc loses the descriptor it has just taken when no page comes for it: one for
  each refused request of at most 4096 bytes that got one (`EveryRun`), as early as
  the first request on a single page (`DescriptorLost`). With neither a spare
  descriptor nor a page for descriptors it takes the null pointer for a descriptor;
  the words still stand for the same heap afterwards exactly if the word at address
  4 was zero (`Kmalloc`, `NullTaken`). 256 requests on a single page lead there
  (`NullReached`).
- With calls that are atomic, the re-check of `prev` in kfree_s never finds
  anything: `Unlink` proves that branch dead.
- create_task notices neither a refused allocation nor a full table: it makes a task
  exactly if there is a free slot and the request is served (`CreatedIff`). A
  refused one builds the task at the null pointer and enters null into the slot
  (`RefusedOnOnePage`). That leaves 4096 at address 4, so that a later request may
  no more take the null pointer for a descriptor (`RefusedCreateArms`). With a full
  table the task is stored in front of it and its page is in no slot
  (`FullTableLeaks`, `TableOverruns`).
- task_exit of the null pointer finds the first free slot and takes the current task
  away, which stays in its slot (`ExitNull`, `NullExitOnBoot`).
- In a format, `*` takes its argument but is not skipped, so its directive prints
  `%*` and ends (`StarPrintsItself`, `StarOfFive`). `+` and space put a sign in front of unsigned
  numbers too (`SignsOfUnsigned`, `PlusOnUnsigned`), a precision does not switch `0`
  off (`ZeropadIff`, `ZerosWithPrecision`), and `#` prefixes zero as well, but in
  base 8 zeros that pad the field hide the prefix (`SpecialIff`, `PrefixOfZero`,
  `PrefixHidden`).
- console_write fixes its write pointer at the start of the call. After any text the
  pointer is at the cursor exactly if the cells that line feeds, form feeds,
  carriage returns and backspaces move the cursor come to the cells that the window
  jumped over (`PointerExactIff`). A line feed in column x leaves it 160 - 2x bytes
  behind (`LineFeedLag`, `LagInColumnFive`).
- The loop that clears a new row clears twice its length, which passes the end of
  video memory by 96 bytes on one slide in 78 (`SlideFitsIff`, `SlideOverruns`); and
  the write pointer can pass it (`PointerFitsIff`, `PointerOverruns`). `InsideIff`
  says exactly which calls store nothing outside video memory.
- When the window reaches the end of video memory, the same 25 rows are copied to
  the start: that line feed does not scroll (`JumpShowsSameRows`). `JumpIff` says when; the
  line feed after 101 others is the first (`FirstJump`).
- memory_init takes the region's size from the difference of two wrapped addresses,
  which is the zone's length even where the end address wraps around.

## Model

| member | source | states |
|---|---|---|
| PageLayer.PhysicalMemory.MemoryInit | kernel/mm/memory.c:39-77 | The first usable zone at one megabyte decides the number of pages; without one, the region start is not one megabyte and no page is managed |
| PageLayer.PhysicalMemory.MemoryMapInit | kernel/mm/memory.c:79-116 | All pages of the region start out free; the layer is in order if and only if there is a region, at most 0x80000 pages long, that does not wrap around; without a region nothing changes |
| PageLayer.RegionServedIff | kernel/mm/memory.c:54-74 | A zone of a given length gives such a region if and only if it is shorter than two gigabytes and a page |
| PageLayer.PhysicalMemory.GetFreePage | kernel/mm/memory.c:118-144 | Takes the first free page at or above the count, sets its map byte and adds one to the count; otherwise null and no change |
| PageLayer.PhysicalMemory.FreePage | kernel/mm/memory.c:156-169 | Clears the map byte of the signed index, if the map has it, and takes one off the count, for any address in the region or at its end; the layer is in order afterwards if and only if the page was in use; an address outside the region changes nothing |
| PageLayer.SignedIndexOfPage | kernel/mm/memory.c:163 | For every page of a region in order the signed index is the page's number |
| PageSpec.ReleaseKeepsInvIff | kernel/mm/memory.c:163-166 | Giving back a page keeps the count equal to the number of set bytes if and only if its byte was set |
| PageSpec.ReleasedOutOfOrder | kernel/mm/memory.c:157-166 | Giving back a page that is not in use, or the end address, puts the count out of order |
| PageSpec.PageFoundIff | kernel/mm/memory.c:121-134 | A page is handed out if and only if some free index is at or above the number of pages in use |
| PageSpec.FreePageOverlooked | kernel/mm/memory.c:121-134 | A state reached by two requests and a release in which a page is free but the next request is refused |
| PageSpec.HalfFull | kernel/mm/memory.c:121-137 | While less than half of the pages are in use, every request finds one |
| PageSpec.RunKeepsInv | kernel/mm/memory.c:118-169 | After any run of valid calls the count is the number of set map bytes, all of them within the region |
| PageSpec.NoDoubleHandOut | kernel/mm/memory.c:121-143 | No page is handed out again before it is released, however many calls come between, and each index returned is at least the count |
| PageSpec.GetsAreConsecutive | kernel/mm/memory.c:118-144 | Without releases the pages come out one after the other from the base, until all are taken |
| Malloc.Allocator.constructor | kernel/mm/malloc.c:22-38 | Empty chains and no spare descriptor are the empty heap |
| BucketSpec.SizesAre | kernel/mm/malloc.c:22-33 | The nine object sizes, 16 to 4096 bytes |
| Malloc.Allocator.InitBucketDesc | kernel/mm/malloc.c:43-64 | A fresh page becomes 256 spare descriptors in front of the list; without a page nothing changes; no client's word changes |
| BucketSpec.RefillIs | kernel/mm/malloc.c:43-64 | A descriptor page comes first in the spare list as 256 descriptors of 16 bytes, one behind the other |
| Malloc.Allocator.CarvePage | kernel/mm/malloc.c:52-61 | The words of a page link its 256 descriptors in order, the last one to the given tail; nothing outside the page changes |
| Malloc.Allocator.FindClass | kernel/mm/malloc.c:75-82 | The smallest of the nine classes that holds the length, or none |
| Malloc.Allocator.FindFree | kernel/mm/malloc.c:89-91 | The first descriptor of the chain with a free object, or null if and only if there is none |
| Malloc.Allocator.NewBucket | kernel/mm/malloc.c:97-112 | Opens a page for the class, after a page of descriptors if none is spare; without a page the descriptor is lost and the answer is null; without a descriptor the null pointer is filled in |
| Malloc.Allocator.DropDescriptor | kernel/mm/malloc.c:104-112 | What is left when no page came: one spare descriptor less or, without one, the words at 0, 8 and 12 written and the word at 4 as head of the spare list |
| BucketMemory.NullTaken | kernel/mm/malloc.c:101-112 | After a null descriptor was taken, the words stand for the same heap if and only if the word at address 4 was zero; no live object changes |
| Malloc.Allocator.ThreadPage | kernel/mm/malloc.c:115-124 | The words of a page form a null-terminated list of all its slots in order; nothing outside the page changes |
| BucketSpec.SlotsAre | kernel/mm/malloc.c:115-124 | The objects of a page lie one behind the other and fill it exactly |
| Malloc.Allocator.LinkPage | kernel/mm/malloc.c:104-127 | The descriptor comes first in its chain, with a page that is wholly free |
| Malloc.Allocator.PopObject | kernel/mm/malloc.c:130-141 | Takes the first free object and counts it |
| Malloc.Allocator.Kmalloc | kernel/mm/malloc.c:66-142 | On memory words, computes the specified heap and address for every request, and changes no word of any live object; the words stand for that heap in both layers' invariant if and only if the call did not take the null pointer for a descriptor or the word at address 4 was zero |
| Malloc.Allocator.Search | kernel/mm/malloc.c:157-171 | The first class of at least the given size whose chain has the page's descriptor, with the descriptor and its predecessor |
| Malloc.Allocator.PushObject | kernel/mm/malloc.c:178-181 | The object comes first in its page's free list and is no longer counted; only words of descriptors and the first word of the object change |
| Malloc.Allocator.Unlink | kernel/mm/malloc.c:188-200 | The list or head word that led to the descriptor leads to its successor; the re-check of the predecessor never succeeds |
| Malloc.Allocator.CloseBucket | kernel/mm/malloc.c:188-204 | The chain without the descriptor, the descriptor in front of the spare list, and its page released |
| Malloc.Allocator.KfreeS | kernel/mm/malloc.c:144-210 | On memory words, keeps both layers' invariant, computes the specified heap, and changes no word of any object still live: only words of descriptors and the first word of the freed object change |
| Malloc.Allocator.StoreInBlock | kernel/mm/malloc.c:136-178 | A client may store anything in its own live object: the allocator's words still mean the same heap |
| BucketInvariant.KmallocInv | kernel/mm/malloc.c:66-142 | Every request keeps the invariant: chains without repetition, descriptors apart, pages apart, each page split into free list and live objects |
| BucketInvariant.KfreeInv | kernel/mm/malloc.c:144-210 | kfree_s keeps the invariant and leaves no linked descriptor with refcnt zero |
| BucketTheorems.FreeFindsOwnerIff | kernel/mm/malloc.c:155-173 | The search finds exactly the owner of a live object if the size is at most its bucket size, and otherwise nothing at all |
| BucketTheorems.NeedsPageIff | kernel/mm/malloc.c:89-97 | A request opens a page if and only if no linked page of its class has a free object |
| BucketTheorems.KmallocReuses | kernel/mm/malloc.c:66-137 | If a linked page of the smallest sufficient class has a free object, the answer is the first one of the first such descriptor; pages, descriptors, spare list and all chains stay, and only that descriptor changes |
| BucketTheorems.KmallocOpens | kernel/mm/malloc.c:97-137 | If there is none, the answer is null or the address of a page that was not taken, now first in its chain under the first spare descriptor and free but for its first object |
| BucketTheorems.FindsDescIff | kernel/mm/malloc.c:97-105 | The null pointer is taken for a descriptor if and only if no linked page of the class has a free object, no descriptor is spare and no page is found |
| BucketTheorems.BlocksDisjoint | kernel/mm/malloc.c:109-137 | Two live objects never share a byte |
| BucketTheorems.LastObject | kernel/mm/malloc.c:181-183 | The stored refcnt is one if and only if the object is the last live one of its page |
| BucketTheorems.KmallocAddsBlock | kernel/mm/malloc.c:66-142 | The set of live objects gains exactly one new object of the smallest sufficient class, or the answer is null and the set is unchanged: exactly when the request exceeds 4096 bytes, or no linked page of its class has a free object and there is no descriptor or no page for a new one |
| BucketTheorems.KfreeRemovesBlock | kernel/mm/malloc.c:144-205 | The set of live objects loses exactly the freed one; its page goes back if and only if it was the last one there, and no other page changes |
| BucketTheorems.KfreeTouchesOwnerOnly | kernel/mm/malloc.c:178-204 | All other descriptors keep page, free list, count and order in the chains; the owner moves to the front of the spare list exactly with its last object |
| BucketTheorems.FreeUndoesMalloc | kernel/mm/malloc.c:97-137 | A free right after a served request restores chains, spare list, free lists, counts and page map, whether or not a page was opened |
| BucketRuns.ChainTotalCounts | kernel/mm/malloc.c:22-33 | The lengths of the nine chains add up to the number of linked descriptors |
| BucketRuns.Conservation | kernel/mm/malloc.c:43-127 | Pages in use are linked descriptors plus descriptor pages; linked, spare and lost descriptors are 256 times the descriptor pages |
| BucketRuns.RunInv | kernel/mm/malloc.c:66-210 | Any run of calls keeps the invariant, requests without a descriptor included where the word at 4 is zero, and loses one descriptor for each refused request of at most 4096 bytes that got one |
| BucketRuns.EveryRun | kernel/mm/malloc.c:66-210 | From the start of the system, after any run: conservation with the refused requests counted, every linked page split exactly and without overlap into refcnt live objects and the free list, and no overlap between live objects |
| BucketRuns.HalfFullServes | kernel/mm/malloc.c:101-112 | While less than half of the pages are in use, counting one more, every request of at most 4096 bytes is served |
| BucketRuns.DescriptorLost | kernel/mm/malloc.c:101-112 | On one page the first request is refused and a descriptor is lost |
| BucketRuns.Refusals | kernel/mm/malloc.c:101-112 | Requests without any page cost a descriptor each, as long as there are spare ones |
| BucketRuns.NullReached | kernel/mm/malloc.c:101-105 | 256 requests on one page are a run, and the next one finds no descriptor |
| BucketRuns.SizesFit | kernel/mm/malloc.c:75-82 | Exactly the requests above 4096 bytes find no class |
| BucketMemory.BlockWord | kernel/mm/malloc.c:48-124 | A live object's word is in the page of a bucket and in no descriptor page |
| BucketMemory.BlockNoLink | kernel/mm/malloc.c:115-136 | A live object's word is the link word of no free object |
| BucketMemory.ClientWriteRep | kernel/mm/malloc.c:130-178 | Rewriting a live object changes nothing of what the allocator's words mean |
| BucketMemory.WordsAligned | kernel/mm/malloc.c:52-124 | Every word of a descriptor and every link word of an object is at a multiple of four |
| Vsprintf.SkipAtoi | kernel/kernel/vsprintf.c:18-30 | The value of the digits from the position on, as the 32-bit word it leaves behind, and the position of the first non-digit |
| NumberSpec.WrapStep | kernel/kernel/vsprintf.c:24-27 | Wrapping the sum at every digit leaves the same word as wrapping once at the end |
| FormatTheorems.ReadDecimal | kernel/kernel/vsprintf.c:18-30 | Reading a printed decimal gives the number back, with any number of leading zeros, and stops at the first non-digit |
| NumberPrinter.ReverseDigits | kernel/kernel/vsprintf.c:148-154 | The digits in reverse, at most 32 of them in the 36 bytes of scratch space |
| NumberPrinter.WriteField | kernel/kernel/vsprintf.c:160-192 | The loops write padding, sign, prefix, zeros, digits and trailing padding as laid out |
| NumberPrinter.NumberInBase | kernel/kernel/vsprintf.c:128-194 | For a base from 2 to 36, appends the specified field, of its exact length |
| NumberPrinter.Number | kernel/kernel/vsprintf.c:108-195 | Appends the specified field, of its exact length, to what was in the buffer; a base outside 2 to 36 gives null and writes nothing |
| NumberSpec.FewDigits | kernel/kernel/vsprintf.c:109-154 | A number below 2^k has at most k digits in every base |
| NumberSpec.FoldIsNumber | kernel/kernel/vsprintf.c:148-154 | The digits of a number, folded in its base, give the number |
| NumberSpec.FieldShape | kernel/kernel/vsprintf.c:156-192 | For every width, precision and flags the field is spaces, sign and prefix, zeros, digits, spaces |
| NumberSpec.NumberRoundTrip | kernel/kernel/vsprintf.c:108-195 | For every 32-bit value, base, width, precision and flags the field, read with its base alone, gives back the value: signed under SIGN, unsigned otherwise, the most negative integer included |
| FormatTheorems.NumberLength | kernel/kernel/vsprintf.c:137-192 | The length of a number's field in closed form: the width, or sign, prefix and the longer of precision and digits |
| Vsprintf.ParseFlags | kernel/kernel/vsprintf.c:222-245 | The flags set and the position behind them |
| Vsprintf.ParseWidth | kernel/kernel/vsprintf.c:247-261 | The width written, as the word it leaves behind, or the value of a star's argument with LEFT set for a negative one, and the position behind the digits; a star is not skipped |
| Vsprintf.ParsePrecision | kernel/kernel/vsprintf.c:263-278 | The precision written, as a word, or a star's argument, neither below zero, and the position; a star is not skipped |
| Vsprintf.ParseDirective | kernel/kernel/vsprintf.c:221-285 | All parts of a directive as its item has them, the arguments that stars took, and the position of its last character |
| Vsprintf.PutChar | kernel/kernel/vsprintf.c:288-298 | `%c` appends one character padded to the width on the side the flags say |
| Vsprintf.PutString | kernel/kernel/vsprintf.c:300-320 | `%s` appends at most precision characters padded to the width |
| Vsprintf.PutNumber | kernel/kernel/vsprintf.c:322-352 | Appends what each of the seven number conversions prints, of which ConversionsAre and ConversionReadsBack say the base |
| Vsprintf.Directive | kernel/kernel/vsprintf.c:221-372 | One directive prints what its item prints and stops at its last character, or one before the NUL if the format ends inside it |
| Vsprintf.Loop | kernel/kernel/vsprintf.c:213-374 | The loop ends on every format, prints what the two phases say and never reads behind the NUL |
| Vsprintf.Print | kernel/kernel/vsprintf.c:197-381 | vsprintf writes the rendered format and a NUL, answers the rendered length, and stores what the `%n` directives say |
| Vsprintf.PrintEscaped | kernel/kernel/vsprintf.c:213-219 | Printing a text with its percent signs doubled gives the text and its length, and stores nothing |
| FormatTheorems.EscapeRoundTrip | kernel/kernel/vsprintf.c:213-219 | A text with its percent signs doubled is a C string; formatting it gives the text back and stores nothing, whatever the arguments |
| FormatTheorems.ReadDir | kernel/kernel/vsprintf.c:221-285 | A directive written out is parsed into itself, whatever follows it |
| FormatTheorems.ReadQualified | kernel/kernel/vsprintf.c:280-285 | One length modifier, h, l or L, in front of the conversion is skipped |
| FormatTheorems.ParseShown | kernel/kernel/vsprintf.c:213-285 | Every list of expressible items, written as a format, is a C string and parses into itself |
| FormatTheorems.RenderLength | kernel/kernel/vsprintf.c:287-380 | The length of the whole output in closed form from items and arguments |
| FormatTheorems.ItemLength | kernel/kernel/vsprintf.c:287-372 | The length of what one directive prints, for every conversion |
| FormatTheorems.ConversionsAre | kernel/kernel/vsprintf.c:322-352 | Base, letter case, sign and width of each of `%d %i %u %o %x %X %p`, in numbers |
| FormatTheorems.ConversionReadsBack | kernel/kernel/vsprintf.c:322-352 | For every argument, width, precision and flags: what `%d` and `%i` print, read in base 10, is the argument; what `%u` prints in base 10, `%o` in base 8, and `%x`, `%X` and `%p` in base 16, is the argument, plus 2^32 if it is negative |
| FormatTheorems.DirectiveReadsBack | kernel/kernel/vsprintf.c:221-352 | The same, in the same bases, for any directive standing in any format |
| FormatTheorems.StarPrintsItself | kernel/kernel/vsprintf.c:253-274 | A directive with a star prints `%*`, whatever its arguments |
| FormatTheorems.StarOfFive | kernel/kernel/vsprintf.c:253-274 | `%*d` with 5 prints `%*` |
| FormatTheorems.SignsOfUnsigned | kernel/kernel/vsprintf.c:128-137 | A minus is printed if and only if `%d` or `%i` has a negative number, a plus if and only if its flag is there and no minus is printed, for unsigned conversions too; likewise a space, where there is no padding |
| FormatTheorems.PlusOnUnsigned | kernel/kernel/vsprintf.c:134-137 | `%+u` of 5 is +5 |
| FormatTheorems.ZeropadIff | kernel/kernel/vsprintf.c:156-192 | The `0` flag changes a field if and only if there is padding and not LEFT, whatever the precision |
| FormatTheorems.ZerosWithPrecision | kernel/kernel/vsprintf.c:156-186 | `%04.1d` of 5 is 0005 |
| FormatTheorems.SpecialIff | kernel/kernel/vsprintf.c:139-178 | The `#` flag changes a field if and only if the base is 16, or it is 8 and the field is not padded with zeros, for every number, width and precision |
| FormatTheorems.PrefixHidden | kernel/kernel/vsprintf.c:139-183 | `%#04o` and `%04o` of 5 are alike |
| FormatTheorems.PrefixOfZero | kernel/kernel/vsprintf.c:139-178 | `%#x` of 0 is 0x0 |
| FormatMeaning.FlagsByPresence | kernel/kernel/vsprintf.c:222-245 | A flag is set if and only if its character, one of `- + # 0` and space, stands in front of the rest of the directive |
| FormatMeaning.NoLeadingZero | kernel/kernel/vsprintf.c:146-154 | Only zero, which is one digit, starts with the digit 0: with the round trip, the digits are the shortest ones of the number |
| FormatMeaning.LetterCase | kernel/kernel/vsprintf.c:109-178 | `%x` prints no capital letter, the other number conversions no small one, prefix included |
| FormatMeaning.NumberPlaced | kernel/kernel/vsprintf.c:156-192 | With LEFT the padding is spaces behind the number, with ZEROPAD zeros between sign and prefix and the digits, and otherwise spaces in front; zeros bring the digits up to the precision |
| FormatMeaning.CharPlaced | kernel/kernel/vsprintf.c:288-298 | `%c` prints the low byte of its argument, first with LEFT and last without, and spaces up to the width |
| FormatMeaning.TextPlaced | kernel/kernel/vsprintf.c:300-320 | `%s` prints its text up to the precision, first with LEFT and last without, and spaces up to the width |
| FormatMeaning.UnknownPrints | kernel/kernel/vsprintf.c:361-371 | A character that is no conversion is printed behind a percent sign; a percent sign or the end of the format gives one percent sign |
| FormatMeaning.ArgumentsInOrder | kernel/kernel/vsprintf.c:213-372 | Each item prints what it prints of the arguments behind those that the items in front take: one for each conversion and one for each star |
| FormatMeaning.CountSoFar | kernel/kernel/vsprintf.c:354-359 | `%n` prints nothing and stores in its cell how many characters were printed before it |
| ConsoleSpec.WindowInMemory | kernel/kernel/chr_drv/console.c:69-86 | For every number of lines fed the window is inside video memory; one line more moves it by a row or back to the start |
| ConsoleSpec.ColumnInRow | kernel/kernel/chr_drv/console.c:159-173 | The column never exceeds 80 |
| ConsoleSpec.RegistersDecode | kernel/kernel/chr_drv/console.c:41-53 | The two register bytes decode to the address they were made from |
| ConsoleText.CursorIsFlat | kernel/kernel/chr_drv/console.c:69-97 | The cursor's address in closed form: rows and column counted through, less 78 rows for each jump |
| ConsoleText.PointerExactIff | kernel/kernel/chr_drv/console.c:116-175 | After any text the cached write pointer equals the cursor if and only if the shifts of its control characters come to the cells the window jumped over |
| ConsoleText.PlainExactIff | kernel/kernel/chr_drv/console.c:120-173 | In text without cursor movements the two are equal if and only if the window did not jump |
| ConsoleText.PrintableCells | kernel/kernel/chr_drv/console.c:159-173 | Printable text without a jump belongs in consecutive cells, across wraps and slides |
| ConsoleText.LineFeedLag | kernel/kernel/chr_drv/console.c:139-142 | A line feed in column x leaves the pointer 160 - 2x bytes behind the cursor, less the jump if there is one |
| ConsoleText.LagInColumnFive | kernel/kernel/chr_drv/console.c:139-142 | 150 bytes in column 5 |
| ConsoleMemory.JumpIff | kernel/kernel/chr_drv/console.c:70-83 | The window jumps exactly when there is no room for another row |
| ConsoleMemory.FirstJump | kernel/kernel/chr_drv/console.c:70-83 | The line feed after 101 line feeds jumps, and none before |
| ConsoleMemory.SlideScrolls | kernel/kernel/chr_drv/console.c:70-78 | After a slide the window shows the rows from the second on and the cleared row |
| ConsoleMemory.JumpShowsSameRows | kernel/kernel/chr_drv/console.c:79-83 | After a jump the window shows the very rows it showed before |
| ConsoleMemory.SlideFitsIff | kernel/kernel/chr_drv/console.c:71-75 | The clearing loop ends in video memory if and only if the window is not in the last position but one of its 78 |
| ConsoleMemory.SlideOverruns | kernel/kernel/chr_drv/console.c:71-75 | After 100 line feeds the next one clears 96 bytes behind video memory |
| ConsoleMemory.PointerFitsIff | kernel/kernel/chr_drv/console.c:166-169 | All bytes of a text are stored in front of the end of video memory if and only if the last one is |
| ConsoleMemory.PointerOverruns | kernel/kernel/chr_drv/console.c:166-169 | 113 letters written after 101 line feeds pass the end |
| ConsoleMemory.InsideIff | kernel/kernel/chr_drv/console.c:69-173 | A call stores nothing outside video memory if and only if the written bytes end in it and no slide on the way overruns |
| ConsoleMemory.OutsideUnchanged | kernel/kernel/chr_drv/console.c:69-173 | Under that condition no byte outside video memory changes |
| ConsoleMemory.StraightInPlace | kernel/kernel/chr_drv/console.c:159-173 | Printable text that does not make the window jump is in the cells of its rows and columns, in the usual colour |
| ConsoleBytes.QuietBytes | kernel/kernel/chr_drv/console.c:123-145 | The bytes 0, 7, 9 and 11 do nothing, to cursor, memory or write pointer |
| ConsoleBytes.DeleteByte | kernel/kernel/chr_drv/console.c:112-114 | The byte 0x7F leaves the cursor and blanks exactly its cell |
| ConsoleBytes.BackspaceByte | kernel/kernel/chr_drv/console.c:104-110 | The byte 8 goes one column back and blanks the cell it comes to, and does nothing in column 0 |
| ConsoleBytes.LineBytes | kernel/kernel/chr_drv/console.c:88-102 | The byte 13 goes to column 0, 10 to column 0 of the next line, 12 to the same column of it; memory as one line feed leaves it |
| ConsoleBytes.OtherBytes | kernel/kernel/chr_drv/console.c:159-173 | Every other byte is stored with attribute 7 at the write pointer, and the column moves by one, after the wrap from column 80 if there is one |
| ConsoleBytes.LastByte | kernel/kernel/chr_drv/console.c:120-174 | A text does what its bytes do one after the other, with the write pointer behind those that were written |
| ConsoleBytes.CursorIs | kernel/kernel/chr_drv/console.c:69-97 | The addresses of window and cursor, in numbers |
| ConsoleBytes.LineFedIs | kernel/kernel/chr_drv/console.c:69-97 | Every byte of memory after a line feed: as before above the last row; in it, the 320 bytes behind the window cleared, or the window copied to 0xB8000 |
| ConsoleDriver.Console.ConsoleClear | kernel/kernel/chr_drv/console.c:55-67 | Cursor home, registers set, every cell of video memory blank, nothing else changed |
| ConsoleDriver.Console.SetScreen | kernel/kernel/chr_drv/console.c:41-46 | Registers 0xC and 0xD of the adapter decode to the window address, and the other registers are as before |
| ConsoleDriver.Console.SetCursor | kernel/kernel/chr_drv/console.c:48-53 | Registers 0xE and 0xF of the adapter decode to the cursor address, and the other registers are as before |
| ConsoleDriver.Console.ScrollUp | kernel/kernel/chr_drv/console.c:69-86 | Window and cursor address for one more line, shown by the adapter; every byte of memory, cleared, copied or as before |
| ConsoleDriver.Console.ClearRow | kernel/kernel/chr_drv/console.c:71-75 | The 320 bytes the loop clears, word by word |
| ConsoleDriver.Console.CopyWindow | kernel/kernel/chr_drv/console.c:80 | The window's bytes at the start of video memory, all others as before |
| ConsoleDriver.Console.CommandLf | kernel/kernel/chr_drv/console.c:88-97 | One line more, same column; memory as one line feed leaves it |
| ConsoleDriver.Console.CommandCr | kernel/kernel/chr_drv/console.c:99-102 | Column zero, same line |
| ConsoleDriver.Console.CommandBs | kernel/kernel/chr_drv/console.c:104-110 | One column back, never before the line, and the cell stepped back to is blank |
| ConsoleDriver.Console.WriteByte | kernel/kernel/chr_drv/console.c:123-174 | One byte leads to the cursor and to exactly the memory that `ConsoleBytes` states for it, and moves the write pointer if it is a written one |
| ConsoleDriver.Console.ConsoleWrite | kernel/kernel/chr_drv/console.c:116-180 | After any bytes the four variables stand for the specified cursor, the adapter shows it, and memory is exactly as specified; nothing outside video memory changes under the condition of InsideIff |
| TaskSpec.ExitFreesItsPage | kernel/kernel/task.c:96-114 | task_exit of a task in slots 1 to 63 gives back exactly that task's page and no other object |
| TaskSpec.StepSound | kernel/kernel/task.c:21-114 | Creation, served, refused or with a full table, exit, of a task or of null, dispatch and calls of other clients keep every task a live page of its own with its slot's number as pid, and the current task one of the table |
| TaskSpec.CreateServed | kernel/kernel/task.c:45-57 | With a free slot and, counting one page more, less than half of the memory in use, a task can be created |
| TaskSpec.CreatedIff | kernel/kernel/task.c:45-57 | A task is made if and only if there is a free slot and the request for its page is served |
| TaskSpec.RefusedOnOnePage | kernel/kernel/task.c:45-57 | On one page the first creation is refused |
| TaskSpec.RefusedCreateArms | kernel/kernel/task.c:47-67 | After a refused creation the word at 4 is 4096, and exactly the requests that find a descriptor may follow |
| TaskSpec.FullTableLeaks | kernel/kernel/task.c:53-57 | With a full table the slots stay, and the new task's page, a live object, is in none of them |
| TaskSpec.TableFills | kernel/kernel/task.c:45-71 | Creations fill the slots from below while less than half of the memory is in use |
| TaskSpec.TableOverruns | kernel/kernel/task.c:45-57 | The 65th creation on 300 pages is one with a full table |
| TaskSpec.ExitUndoesCreate | kernel/kernel/task.c:45-114 | The exit of a task just created restores the slots and the whole heap, but for a descriptor page fetched on the way |
| TaskSpec.ExitNull | kernel/kernel/task.c:96-109 | An exit of the null pointer leaves slots and heap and takes the current task away, if there is a free slot from 1 on |
| TaskSpec.NullExitOnBoot | kernel/kernel/task.c:96-109 | After a creation and a dispatch from boot the idle task is current, and an exit of null takes it away from there but not from its slot |
| TaskSpec.SlotOwnsPage | kernel/kernel/task.c:45-71 | An occupied slot's task has the slot's number as pid; its page is in no other slot, is taken in the page layer and overlaps no other live object |
| TaskSpec.TasksOwnPages | kernel/kernel/task.c:19-114 | From boot on, after any run, every occupied slot holds a task whose pid is the slot's number and which owns a page of its own |
| TaskSpec.DispatchMeasure | kernel/kernel/sched.c:16-57 | A dispatch of a task leaves one ready task less, and idle is chosen exactly when none is ready |
| TaskSpec.IdleAfterAllReady | kernel/kernel/sched.c:41-57 | Without new tasks idle comes after exactly as many dispatches as there are ready tasks |
| TaskSpec.DispatchedOnce | kernel/kernel/sched.c:16-57 | A dispatched task is not picked again before it exits, whatever else happens |
| TaskSpec.FirstReady | kernel/kernel/sched.c:20-34 | The lowest ready slot, all lower ones not ready |
| TaskSpec.FirstEmpty | kernel/kernel/task.c:26-34 | The lowest free slot, all lower ones occupied |
| TaskSpec.CreateIs | kernel/kernel/task.c:45-71 | A creation enters the new page, or null, into the lowest free slot, ready and with the slot's number as pid, and leaves the other slots and the current task |
| TaskSpec.ExitIs | kernel/kernel/task.c:96-114 | An exit clears the lowest slot from 1 on that holds the pointer, frees its page and leaves no current task; without such a slot nothing changes |
| TaskSpec.DispatchIs | kernel/kernel/sched.c:41-57 | The task of the lowest ready slot from 1 on becomes current and running, or that of slot 0 becomes current, and nothing else changes |
| Tasks.Kernel.FindEmptyProcess | kernel/kernel/task.c:21-43 | The lowest free slot, or -1 if and only if there is none |
| Tasks.Kernel.CreateTask | kernel/kernel/task.c:45-71 | A new page in the lowest free slot, or in front of a full table, or the null page and no slot if the request is refused; all its words by their offsets: pid, parent's pid from the current task, name, entry point, page and stack top and state, zero elsewhere; no other client's word changes |
| Tasks.Kernel.FillTask | kernel/kernel/task.c:49-68 | All words of a new task's page, and nothing outside it |
| Tasks.NewTaskIs | kernel/kernel/task.c:49-68 | The words of a new task's page in numbers: entry point at 32, cr3 at 28, stack top at 4, 168 and 172, pid at 108, parent's at 112, name from 116 on, state 2 at 148, zero elsewhere |
| Tasks.Kernel.TaskExit | kernel/kernel/task.c:96-114 | The table after the exit, of any pointer, the exit code in its task's word at 152, the page given back, and no word of any remaining object changed |
| Tasks.Kernel.FindReadyTask | kernel/kernel/sched.c:16-37 | The task of the lowest ready slot from 1 on, or null if and only if there is none |
| Tasks.Kernel.Sched | kernel/kernel/sched.c:41-57 | If a slot from 1 to 63 is ready, the task of the lowest one is current, with state 1 in the table and in its own word, and nothing else changes; otherwise the task of slot 0 is current and all states and words are as before |
| Tasks.Kernel.OtherMalloc | kernel/mm/malloc.c:66-142 | kmalloc of another client, served or refused: table and tasks stand, pids included |
| Tasks.Kernel.OtherFree | kernel/mm/malloc.c:144-210 | kfree_s of another client's object: table and tasks stand |
| Tasks.Kernel.OtherStore | kernel/mm/malloc.c:136-178 | A store of another client into its own object: table and tasks stand |

## Left out

- Interrupts and preemption: each call is one atomic step; CLI, STI and printk's effect on them are not modelled.
- Log messages of the allocator, the page layer and the task functions, among them the name that task_exit prints.
- After a kmalloc that took the null pointer for a descriptor while the word at address 4 was not zero, nothing is claimed about later calls: runs (`BucketRuns`, `TaskSpec`) do not come to that. The word at 4 is part of their state.
- `PageLayer.PhysicalMemory.FreePage`: a byte in front of the map or behind it, which the end address and an address two gigabytes behind the base lead to, is not part of the model.
- The fields pages_free, pages_used and valid_mem_size of physics_memory_info_t, which nothing reads, and the prints of the memory table.
- Memory is word-addressed: a cell stands for the 32-bit word at a byte address, and only multiples of four are used. Unaligned and partial stores by clients are not modelled. The page map at 0x10000 is an array apart from the managed region.
- `Tasks.Kernel.CreateTask`: requires that the request does not take the null pointer for a descriptor while the word at 4 is not zero. A name is its words, at most eight, instead of bytes up to a NUL, so the bytes behind the NUL in the last word are part of the argument. What lies in front of the table is a word of its own.
- current_task_exit, sleeping, waking and child tasks, and the switch itself (`switch_task`, `switch_idle_task`), which need a processor model.
- `Vsprintf.Print`: requires that the size which `number` takes down stays within `int`, since C leaves an overflow undefined: width less the longer of precision and 32, less 6, is at least -2^31. The arguments are a typed sequence, a string argument is its characters before the NUL, and `%n` stores are returned as a list of cells and counts in place of writes through pointers.
- The buffer of vsprintf has room for the whole output, as the code takes for granted.
- Several C functions are split into smaller methods, one per step.
- Boot code, port I/O beyond the two register pairs, keyboard, clock, traps, GDT, IDT and paging.
