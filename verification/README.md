# Verified models of the CKB standalone debugger

The repository is a set of debugging tools for programs of the CKB virtual machine. This project
models its four most intricate parts in Dafny and proves what they promise.

**The ELF dumper.** A running machine is frozen into an ELF file that, when loaded and started,
continues where the machine stopped. `ElfScan` holds the scan that cuts the paged memory into
segments, as the nest of loops of the code and as a fold over words that the loops refine;
`ElfScanFacts` proves what the segments are. `ElfStub` builds the code that restores the registers
and jumps back, and has a small interpreter for the four instructions in it; `ElfStubFacts` proves
what the stub does. `ElfImage` writes the file and patches its header in place; `ElfLoad` is an independent
loader; `ElfFields` reads every field of the file where the ELF format has it; `ElfDump` joins them:
`DumpResumes` says that loading and running a dump ends in the dumped machine, `DumpedIff` when there
is a dump. `ElfPermissions` says which pages of a loaded dump may be written or executed.

**The GDB remote protocol.** `GdbPackets` is the loop that reads, parses and answers packets, over
a buffer that is an array; `GdbSession` says what a session is without buffers; `GdbWriter` and
`GdbResponse` frame, escape and checksum responses on a sink that takes any part of a write or
refuses it; `GdbReplies` decodes the replies; `GdbWire` has the streams that are sent either way, and
reads back what a session sends;
`GdbGrammar` parses thread ids and vCont; `GdbServer` runs a machine under breakpoints and
watchpoints; `GdbStub` is the second debugger, with a recording memory and polls. The protocol is
the one of the GDB manual, appendix "GDB Remote Serial Protocol", sections "Overview", "Packets",
"Stop Reply Packets", "General Query Packets" and "File-I/O Remote Protocol Extension".

**The profilers.** `CallTree` is the call tree of linked, mutable nodes, each method proved against
a tree of records; `CallTreeFacts` and `CallOrder` prove its shape and order; `ShadowStack` says
which calls a structured program really makes, and `ShadowStackFacts` proves that the tree is just
that. `CallStack` does the same for programs that stop anywhere, and proves that the current path is
the call stack after every instruction; `HeapWatch` is about the guard against a stack in the heap.
`Flamegraph` prints the tree, `PprofInput` reads the text, `FlamegraphText` proves the round trip, `Interning` builds the pprof
tables, and `PprofConverter` and `SignalReport` are the two programs that use them.

**Nested machines and mock transactions.** `VmSelect` is the search for the n-th exec or spawn with
its stack of suspended machines and its cycle budgets. `TxCheck` checks a mock transaction,
`TxResource` resolves its cells and headers, `TxTaken` says which ones whatever the loader answers,
and `TxAccepted` when passing the check means that nothing has to be asked for.

`Bytes`, `Options` and `GdbText` hold what the others share: little-endian numbers, an option type,
ASCII and hexadecimal text. No lemma relies on automatic induction.

Where the code does less than one might assume, the theorem says exactly when it does what it should:

- The guard on the jump offset lets offsets through that a JAL instruction cannot carry
  (`GuardTooWide`). The dump resumes at the right place if and only if the offset is in reach.
- A gap limit of a page or more lets a segment claim pages of the other kind (`PagesKeptIff`).
- A raw text response is not escaped: it is received whole if and only if it has no `#`.
- A thread id with the number 0 is read back as "any" (`ThreadIdRoundTripIff`). An empty vCont is
  accepted by the parser as an empty list of actions, and the handler panics on that list and no
  other (`VCont`).
- Removing a breakpoint or watchpoint takes away all that are like it, so it undoes an insertion if
  and only if none was set before (`BreakpointUndoneIff`, `WatchpointUndoneIff`).
- A watchpoint looks for the first time after the first step, so it misses that step
  (`FirstStepUnseen`). In the second debugger every memory access is an event, whatever
  watchpoints are set (`SilentIff`).
- A label with a separator in it, such as a Rust array type, splits in two when read back. A
  flamegraph reads back whole if and only if no label has a separator or a line feed in it and no
  file name a colon (`FlamegraphRoundTripIff`).
- Functions are interned by name alone, so files and lines of namesakes are lost (`AllReadBackIff`).
- Sample times overflow 64 bits for large counts (`NanosecondsIff`).
- A spawned program whose last spawn carried other data than its own leaves the wrong data for its
  caller (`SpawnReturns`, `NestedSpawnMisleads`), and a spawn with fewer than 500 cycles left wraps its child's limit around (`SpawnExactIff`).
- With two mock cells for one out-point an accepted transaction may still be sent to the loader
  (`DuplicateMisleads`), and header deps are only counted, so it may lack a header
  (`HeadersOnlyCounted`). It is resolved without the loader if and only if every dep, and every
  member of its group, is found in the first mock cell with its out-point, and every header it names
  is mocked (`AcceptedResolvesIff`). With a loader that has nothing, that decides whether a
  transaction is resolved at all (`FromMockTx`).

## Model

| member | source | states |
|---|---|---|
| ElfScan.Scan | ckb-vm-debug-utils/src/elf_dumper.rs:67-128 | the page loops compute the same segments as a fold that looks at one word at a time |
| ElfScan.SkipZeros | ckb-vm-debug-utils/src/elf_dumper.rs:75-81 | stops at the next non-zero word of the page, or at its end, and no segment is missed on the way |
| ElfScan.AppendRun | ckb-vm-debug-utils/src/elf_dumper.rs:109-124 | a run of non-zero words makes progress and ends as one segment of the fold |
| ElfScan.OpenSegment | ckb-vm-debug-utils/src/elf_dumper.rs:84-107 | the run continues the last segment, zeros of the gap filled in, exactly when the fold joins it |
| ElfScanFacts.ScanFaithful | ckb-vm-debug-utils/src/elf_dumper.rs:67-128 | segments are ordered, disjoint, non-empty, equal to memory at their addresses, and every non-zero byte lies in one |
| ElfScanFacts.ScanPaged | ckb-vm-debug-utils/src/elf_dumper.rs:44-107 | no two segments touch a page, each has the flag of every page it has data in (with a gap limit below a page: of every page it touches), and two neighbours are apart only where the flags or the gap limit say so |
| ElfScanFacts.ScanTrimmed | ckb-vm-debug-utils/src/elf_dumper.rs:75-124 | segments are word aligned and begin and end with a non-zero word |
| ElfScanFacts.GapIff | ckb-vm-debug-utils/src/elf_dumper.rs:84-107 | where exactly the scan cuts: two non-zero words with nothing between them end up in one segment if and only if their pages are of one kind and the gap is within the limit or within a page |
| ElfScanFacts.ImageIsMemory | ckb-vm-debug-utils/src/elf_dumper.rs:67-128 | writing all segments over zeroed memory gives the scanned memory back |
| ElfScanFacts.SegmentCount | ckb-vm-debug-utils/src/elf_dumper.rs:67-128 | there are no more segments than pages from the first one on |
| ElfScanFacts.FirstSegment | ckb-vm-debug-utils/src/elf_dumper.rs:129-133 | there is no segment only if memory is zero; otherwise the first starts at the first non-zero word |
| ElfScanFacts.PagesKeptIff | ckb-vm-debug-utils/src/elf_dumper.rs:92 | segments keep to pages of their kind, in every memory, if and only if the gap limit is below the page size |
| ElfStub.BuildStub | ckb-vm-debug-utils/src/elf_dumper.rs:135-188 | the stub is the 31 saved registers, the restore code and the jump; refused exactly when the guard on the offset fails |
| ElfStub.GuardIff | ckb-vm-debug-utils/src/elf_dumper.rs:178-181 | the guard lets an even offset through if and only if, as a signed number, it is within 2 MiB |
| ElfStubFacts.RestoreDecodes | ckb-vm-debug-utils/src/elf_dumper.rs:141-173 | each of the 33 words decodes to the auipc, the addi or the load of the register that its comment names |
| ElfStubFacts.JalFields | ckb-vm-debug-utils/src/elf_dumper.rs:182-186 | the JAL word decodes to the offset's low 21 bits, signed, for every even offset |
| ElfStubFacts.JalRoundTripIff | ckb-vm-debug-utils/src/elf_dumper.rs:178-186 | for every offset the guard lets through, the decoded jump lands on pc + offset if and only if the offset is in reach |
| ElfStubFacts.GuardTooWide | ckb-vm-debug-utils/src/elf_dumper.rs:178-181 | the guard lets an offset of 1 MiB through, whose jump goes 1 MiB back instead |
| ElfStubFacts.StubRestores | ckb-vm-debug-utils/src/elf_dumper.rs:135-187 | running the stub from the entry point sets all registers to the saved ones, and the pc to the saved pc if and only if the offset is in reach |
| ElfImage.BuildElf | ckb-vm-debug-utils/src/elf_dumper.rs:196-348 | appending and patching in place gives the file with all four patched fields final |
| ElfImage.PatchedHeader | ckb-vm-debug-utils/src/elf_dumper.rs:321-345 | the four patches together make the header with the final offsets and counts, and touch no neighbouring field |
| ElfImage.PutSegments | ckb-vm-debug-utils/src/elf_dumper.rs:262-317 | data follow each other, with one program header each, and one section header for each executable one; what is in them is `ElfFields.EveryField` |
| ElfLoad.ElfRoundTrip | ckb-vm-debug-utils/src/elf_dumper.rs:196-348 | a loader that follows e_phoff and e_phnum recovers the entry point and all segments in order, each readable, and writable if and only if it is not executable; e_shoff and e_shnum lead to the section headers |
| ElfFields.EveryField | ckb-vm-debug-utils/src/elf_dumper.rs:196-348 | read field by field at the offsets of the ELF format: the header, the string table, the data back to back, a program header for each segment (read and execute, or read and write), the section headers of the string table and of each executable segment, and zeros in between; no byte is left over |
| ElfFields.DumpFields | ckb-vm-debug-utils/src/elf_dumper.rs:63-351 | the same of every dump of every machine |
| ElfDump.Ecall | ckb-vm-debug-utils/src/elf_dumper.rs:63-351 | only its own syscall number is handled; a dump is made exactly when there is room for the stub and the guard accepts the jump |
| ElfDump.DumpedIff | ckb-vm-debug-utils/src/elf_dumper.rs:129-188 | told of memory and pc: there is a dump if and only if some byte is not zero, the first such is not among the first 4104, and the distance from the stub, in the page before it, to the pc is even and within 2 MiB |
| ElfDump.StubBelow | ckb-vm-debug-utils/src/elf_dumper.rs:129-133 | the stub lies in the page before the first segment's, below all segments |
| ElfDump.DumpFits | ckb-vm-debug-utils/src/elf_dumper.rs:326-345 | all offsets fit 64 bits and the counts 16 bits, so nothing is truncated |
| ElfDump.DumpImage | ckb-vm-debug-utils/src/elf_dumper.rs:190-194 | the loaded image is the dumped memory with the stub in a page that was zero |
| ElfDump.DumpResumes | ckb-vm-debug-utils/src/elf_dumper.rs:63-351 | loading a dump and running it from the entry point reaches the dumped registers over the dumped memory, and the dumped pc if and only if the jump offset is in reach |
| ElfPermissions.DumpPermissionsIff | ckb-vm-debug-utils/src/elf_dumper.rs:84-107 | in a loaded dump every page is readable, and writable if and only if it is not executable; the stub is executable on a page of its own, every page with data is loaded, and all loaded pages have the flags of the dumped machine if and only if the scan keeps to pages of one kind, as it does with a gap limit below a page |
| CallTree.Profile.Step | ckb-vm-pprof/src/lib.rs:202-323 | one instruction is refused if the stack pointer lies in the heap; else it charges the current node and then calls, returns or carries on, and a return out of sbrk moves the heap, on the linked nodes as on the records |
| CallTree.Profile.Charge | ckb-vm-pprof/src/lib.rs:217-219 | the current node, and no other, gets the cycles and the pc |
| CallTree.Profile.Call | ckb-vm-pprof/src/lib.rs:221-237 | a new node becomes the last child of the current one and current itself; everything else stays |
| CallTree.Profile.QuitOrSkip | ckb-vm-pprof/src/lib.rs:247-269 | the walk up finds the nearest node with the link and continues in its parent, or changes nothing; it fails only at the root |
| CallTree.Profile.SbrkOrSkip | ckb-vm-pprof/src/lib.rs:239-245 | the heap becomes the wrapped sum of argument and result of the current node if that is sbrk, and stays otherwise |
| CallTreeFacts.RunOnSpine | ckb-vm-pprof/src/lib.rs:202-323 | over any events each node is attached to the path from the root to the node before it, and the current node lies on the path to the youngest |
| CallTreeFacts.RunConservesCycles | ckb-vm-pprof/src/lib.rs:217-219 | the cycles in the tree grow by exactly the cycles of the events |
| CallTreeFacts.StepCharges | ckb-vm-pprof/src/lib.rs:217-237 | an event is charged to the node that is current before it, which gets its pc; a call makes a node that starts at the pc of the call; no other node changes |
| CallTreeFacts.NodeHistory | ckb-vm-pprof/src/lib.rs:202-323 | after any run a node holds the cycles of exactly the events before which it was current, and the pc of the last of them or of the call that made it |
| CallTreeFacts.FindAbove | ckb-vm-pprof/src/lib.rs:247-269 | the node found is on the way from the current node to the root |
| CallOrder.WalkIsCreationOrder | ckb-vm-pprof/src/lib.rs:170-177 | a preorder walk visits every node exactly once, in the order in which the calls were made |
| ShadowStackFacts.ProfileIsCallTree | ckb-vm-pprof/src/lib.rs:221-323 | for programs of calls, recursion, tail calls and other jumps whose non-return jumps avoid active links, the profiler's tree is the program's call tree and it ends at the root |
| ShadowStackFacts.RunFrame | ckb-vm-pprof/src/lib.rs:221-269 | a frame, with all its calls and tail calls, returns to the caller's node, discarding the nodes in between |
| CallStack.PathIsStack | ckb-vm-pprof/src/lib.rs:202-323 | over any events the path from the root to the current node is the stack of open frames that a stack machine keeps, which fails exactly where the profiler panics |
| CallStack.StoppedProfileIsCallTree | ckb-vm-pprof/src/lib.rs:202-323 | for a program that stops anywhere, also inside a callee, the tree is the call tree so far and the path to the current node is the program's open frames |
| CallStack.StackAtEveryStep | ckb-vm-pprof/src/lib.rs:202-323 | after every instruction of such a program the path is its call stack |
| CallStack.DisplayStacktrace | ckb-vm-pprof/src/lib.rs:183-200 | the stack trace lists where each open frame was called from, outermost first, and then the current pc |
| HeapWatch.WatchIsRun | ckb-vm-pprof/src/lib.rs:207-214 | the guard stops runs and changes none: what it lets through is a run of the call tree |
| HeapWatch.StoppedIff | ckb-vm-pprof/src/lib.rs:207-214 | a run is stopped if and only if it reaches an instruction whose stack pointer lies in the heap |
| HeapWatch.StoppedWithoutSbrkIff | ckb-vm-pprof/src/lib.rs:207-214 | a run in which nothing jumps to sbrk is stopped if and only if it reaches a stack pointer below the first end of the heap |
| HeapWatch.HeapStays | ckb-vm-pprof/src/lib.rs:239-256 | while nothing jumps to sbrk, the end of the heap stays where it is |
| HeapWatch.HeapMovesIff | ckb-vm-pprof/src/lib.rs:239-256 | one instruction moves the end of the heap exactly if it jumps, not to a function, to the link of some frame on the way to the root while sbrk is current |
| HeapWatch.SbrkMovesHeap | ckb-vm-pprof/src/lib.rs:239-256 | after a call of sbrk, with all the calls it makes until it returns, the heap ends at its argument plus its result in 64 bits: at the old break plus the signed increment, if that is what it returns and is in range; and the caller is current again |
| Flamegraph.DisplayFlamegraph | ckb-vm-pprof/src/lib.rs:170-181 | the recursive printer writes the lines of the tree's walk from the root |
| Flamegraph.FlameIsCallOrder | ckb-vm-pprof/src/lib.rs:170-181 | the output is one line for each node, in call order, with its whole path and its own cycles |
| Flamegraph.UnnamedDiffer | ckb-vm-pprof/src/lib.rs:103-109 | a function is called by its name if it has one; two without a name are told apart by their addresses |
| PprofInput.ReadFrames | ckb-vm-pprof-converter/src/main.rs:56-77 | every line becomes a frame, or the first bad line ends it |
| PprofInput.LinesComeBack | ckb-vm-pprof-converter/src/main.rs:50-56 | lines come back without a line feed or a carriage return and line feed behind them; the last one may be unended, and then keeps its carriage return |
| PprofInput.NormalizeFunctionName | ckb-vm-pprof-converter/src/main.rs:173-175 | two replacements in turn make angle brackets braces; nothing else changes, no angle bracket is left, and a name stays as it is if and only if it has none |
| PprofInput.FindChar | ckb-vm-pprof-converter/src/main.rs:62 | the first colon of a label |
| PprofInput.RFindChar | ckb-vm-pprof-converter/src/main.rs:58 | the last space of a line |
| FlamegraphText.SplitJoinIff | ckb-vm-pprof-converter/src/main.rs:60-61 | joined labels split into themselves if and only if none has the separator in it |
| FlamegraphText.ParseSymbolIff | ckb-vm-pprof-converter/src/main.rs:62-71 | a label is parted into its file and function if and only if the file has no colon |
| FlamegraphText.ParseU64Decimal | ckb-vm-pprof-converter/src/main.rs:74 | a printed count is read back exactly, or refused from 2^64 on |
| PprofInput.ParseU64Iff | ckb-vm-pprof-converter/src/main.rs:74 | a count is digits only, behind at most one plus sign, and less than 2^64 |
| FlamegraphText.FlamegraphRoundTripIff | ckb-vm-pprof-converter/src/main.rs:50-77 | printing a call tree and reading it gives one frame for each call in call order, its path leaf first and its own cycles, if and only if every label is free of separators and line feeds and every file name of colons |
| FlamegraphText.ArrayTypeSplits | ckb-vm-pprof-converter/src/main.rs:61 | a function name with an array type in it is split in two |
| Interning.CollectStrings | ckb-vm-pprof-converter/src/main.rs:79-90 | the set holds all names, all files and the four units, and nothing else |
| Interning.IndexStrings | ckb-vm-pprof-converter/src/main.rs:92-99 | every string of the table is found at an index that holds it |
| Interning.InternStack | ckb-vm-pprof-converter/src/main.rs:105-141 | each symbol of a stack gives the number of its name, and only new names enter the tables |
| Interning.BuildProfile | ckb-vm-pprof-converter/src/main.rs:79-166 | for every frame list and every order of the hash set: the tables describe the first symbol of each name, samples refer to them, string 0 is empty; it fails exactly on a refused division |
| Interning.TablesAreSound | ckb-vm-pprof-converter/src/main.rs:111-136 | ids are 1 to n in both tables alike, and no two functions have the same name |
| Interning.StacksReadBack | ckb-vm-pprof-converter/src/main.rs:105-148 | looking up location, function and string by id gives every symbol's name back, in order, with file and line of the first symbol of the name |
| Interning.AllReadBackIff | ckb-vm-pprof-converter/src/main.rs:107-110 | all symbols read back whole if and only if no two of them share a name but not file or line |
| Interning.NanosecondsIff | ckb-vm-pprof-converter/src/main.rs:141 | for every frequency, negative ones too, that is not refused, the time value is the count times 1000000000 by the frequency, rounded towards zero, if and only if the product fits in 63 bits |
| Interning.TruncDivIff | ckb-vm-pprof-converter/src/main.rs:141 | the quotient is the one number that leaves a remainder smaller than the divisor, with the sign of the dividend |
| Interning.RefusedIff | ckb-vm-pprof-converter/src/main.rs:141 | a division is refused exactly when no quotient fits in a signed number of 64 bits |
| Interning.SampleValues | ckb-vm-pprof-converter/src/main.rs:137-148 | a sample has the count of its frame, and its time as above |
| SignalReport.Report.Record | ckb-vm-signal-profiler/src/frames.rs:45-51 | every stack is counted as often as it was recorded |
| SignalReport.Report.Pprof | ckb-vm-signal-profiler/src/frames.rs:53-144 | the profile describes the counted stacks, in whatever order the map lists them; there is none exactly when a division is refused |
| SignalReport.UnitsRead | ckb-vm-signal-profiler/src/frames.rs:121-132 | the values are "samples" in "count" and "cpu" in "nanoseconds" |
| SignalReport.SamplesAddUp | ckb-vm-signal-profiler/src/frames.rs:113-120 | the sample counts add up to the number of stacks recorded |
| PprofConverter.Convert | ckb-vm-pprof-converter/src/main.rs:48-166 | the converter from text to profile; it fails exactly on a bad line or a refused division |
| PprofConverter.LabelRead | ckb-vm-pprof-converter/src/main.rs:15-23 | before the first colon is the file and behind it the name, without angle brackets; without a colon all is the name and the file is "<Unknown>" |
| PprofConverter.UnitsRead | ckb-vm-pprof-converter/src/main.rs:147-158 | the values are "cycles" in "count" and "fakecpu" in "nanoseconds" |
| PprofConverter.TreeReadsBack | ckb-vm-pprof-converter/src/main.rs:50-148 | from call tree to profile: the i-th call is the i-th sample, with its own cycles, and its locations name its function and all its callers |
| PprofConverter.SamplesAccountForRun | ckb-vm-pprof-converter/src/main.rs:50-77 | for any instruction stream: the printed profile reads back whole, one frame for each call, and the counts add up to all cycles charged |
| GdbPackets.RunParserIff | ckb-gdb-remote-protocol/src/lib.rs:47-75 | a packet is parsed if and only if the input begins with a plus sign, a minus sign, the byte 3, or a dollar sign, a body without hash sign, a hash sign and two hexadecimal digits, the first of which may be a plus sign; and which one |
| GdbPackets.PrefixStable | ckb-gdb-remote-protocol/src/lib.rs:51-75 | more input does not change a packet that is complete |
| GdbPackets.HandlePackets | ckb-gdb-remote-protocol/src/lib.rs:1860-1875 | the inner loop answers all complete packets and leaves the unparsed rest, on the buffer in place |
| GdbPackets.ProcessPacketsFrom | ckb-gdb-remote-protocol/src/lib.rs:1845-1880 | the loop ends in the state that serving the stream byte by byte leads to |
| GdbPackets.ChunksDoNotMatter | ckb-gdb-remote-protocol/src/lib.rs:1845-1880 | two readers that deliver the same bytes in different chunks lead to the same end |
| GdbPackets.DrainTwice | ckb-gdb-remote-protocol/src/lib.rs:1860-1879 | answering what has come and then what comes later is answering all at once |
| GdbPackets.Fill | ckb-gdb-remote-protocol/src/lib.rs:1855-1856 | a read goes behind the unparsed bytes |
| GdbPackets.CopyWithin | ckb-gdb-remote-protocol/src/lib.rs:1877-1878 | the unparsed bytes move to the front of the buffer, in place |
| GdbSession.SessionIsGreedyParse | ckb-gdb-remote-protocol/src/lib.rs:1845-1880 | a session answers the packets that a greedy parse of the bytes it took in finds, and keeps exactly what that leaves; it takes in everything unless an acknowledgement fails or 65536 bytes without a packet fill the buffer |
| GdbSession.AckDiscipline | ckb-gdb-remote-protocol/src/lib.rs:1862-1873 | one plus sign before each reply up to the one to StartNoAckMode and that one, none after |
| GdbSession.StoppedIff | ckb-gdb-remote-protocol/src/lib.rs:1862-1867 | for any handler and writer: a session is stopped exactly by a plus sign that cannot be written, and nothing is handled after it |
| GdbWriter.PacketWriter.Write | ckb-gdb-remote-protocol/src/lib.rs:1481-1486 | the checksum counts exactly the bytes that the sink took |
| GdbWriter.PacketWriter.Finish | ckb-gdb-remote-protocol/src/lib.rs:1469-1474 | the trailer is a hash sign and the sum of all bytes written, modulo 256, and the sink is flushed; on a failure the beginning of the trailer was taken and one write or the flush was refused |
| GdbWriter.SumIsTotal | ckb-gdb-remote-protocol/src/lib.rs:1281-1283 | the wrapping sum is the integer sum of the bytes modulo 256 |
| GdbWriter.WriteBinaryData | ckb-gdb-remote-protocol/src/lib.rs:1529-1557 | writing runs between the special bytes is escaping byte by byte; it fails only if the sink refuses a write |
| GdbWriter.EscapeIsSafe | ckb-gdb-remote-protocol/src/lib.rs:1529-1557 | escaped data have no framing byte and no run-length marker |
| GdbWriter.EscapeOne | ckb-gdb-remote-protocol/src/lib.rs:1529-1557 | the hash, dollar, star and brace are sent as a brace and the bytes 3, 4, 10 and 0x5d; every other byte as itself |
| GdbWriter.UnescapeEscape | ckb-gdb-remote-protocol/src/lib.rs:557-563 | the parser gives escaped data back, except the empty data, which it refuses |
| GdbWriter.FlipIs | ckb-gdb-remote-protocol/src/lib.rs:557-560 | an escaped byte has bit 5 turned over and no other |
| GdbResponse.WriteResponse | ckb-gdb-remote-protocol/src/lib.rs:1559-1676 | however the sink takes the writes: it succeeds if and only if none was refused, and then one whole frame was sent, with the sum of the body modulo 256 behind it; otherwise the beginning of the frame was |
| GdbResponse.WriteBody | ckb-gdb-remote-protocol/src/lib.rs:1559-1673 | the body of every kind of response, or the beginning of it if a write is refused |
| GdbResponse.WriteThreadId | ckb-gdb-remote-protocol/src/lib.rs:1492-1508 | p, the process, a dot and the thread |
| GdbResponse.FrameParsesIff | ckb-gdb-remote-protocol/src/lib.rs:47-59 | a frame is parsed as one packet with its body and the sum of its bytes modulo 256 as checksum if and only if the body has no hash sign |
| GdbResponse.BodyFree | ckb-gdb-remote-protocol/src/lib.rs:1559-1676 | no response but raw text has a hash sign in its body |
| GdbReplies.BodySays | ckb-gdb-remote-protocol/src/lib.rs:1559-1673 | a decoder for each kind of reply, written from the protocol, reads every body as the error, data, end of data, thread, stop, address, features, thread list or file result that it stands for |
| GdbResponse.ResponseRoundTripIff | ckb-gdb-remote-protocol/src/lib.rs:1559-1676 | a response is received as one packet with its body if and only if it is not raw text with a hash sign |
| GdbWire.StreamReadsIff | ckb-gdb-remote-protocol/src/lib.rs:47-75 | any sequence of frames, plus signs, minus signs and Ctrl-Cs is read as just that, with nothing left over, if and only if no body has a hash sign in it |
| GdbWire.BodiesOfStream | ckb-gdb-remote-protocol/src/lib.rs:1860-1875 | of such a stream a session answers the bodies of the frames in order, and leaves nothing |
| GdbWire.ReadBackIff | ckb-gdb-remote-protocol/src/lib.rs:1559-1676 | what a session sends, acknowledgements and framed replies, is read back by the packet parser whole and in order if and only if no reply is raw text with a hash sign |
| GdbWire.SessionReadsBackIff | ckb-gdb-remote-protocol/src/lib.rs:1845-1880 | for any bytes received and any responses that depend on the requests so far: what is sent is the conversation of requests, replies and acknowledgements, and it is read back under that condition |
| GdbGrammar.ParseHexReads | ckb-gdb-remote-protocol/src/lib.rs:525-532 | all leading digits are read as the number they denote; without a digit nothing is read, and a number of more than 64 bits panics |
| GdbGrammar.HexPlaces | ckb-gdb-remote-protocol/src/lib.rs:525-532 | the first digit of a number weighs most: 16 to the number of digits behind it |
| GdbGrammar.ThreadIdRoundTripIff | ckb-gdb-remote-protocol/src/lib.rs:594-610 | a written thread id is read whole, and as itself if and only if neither number in it is zero |
| GdbGrammar.ShortThreadIds | ckb-gdb-remote-protocol/src/lib.rs:600-610 | an id alone is a process with any of its threads, an id behind a p and without a dot one with all of them |
| GdbGrammar.WideIds | ckb-gdb-remote-protocol/src/lib.rs:594-597 | an id of more than 32 bits loses its upper half |
| GdbGrammar.VContRoundTripIff | ckb-gdb-remote-protocol/src/lib.rs:710-731 | every list of actions, the empty one too, is read back from its rendering, as itself if and only if no thread id in it holds the number zero |
| GdbGrammar.CommandsRead | ckb-gdb-remote-protocol/src/lib.rs:710-731 | vCtrlC and vCont? are read whole; only what begins with neither vCtrlC nor vCont is left to others |
| GdbGrammar.ParseActionOf | ckb-gdb-remote-protocol/src/lib.rs:714-729 | one action with its optional thread |
| GdbServer.ReadMemory | ckb-vm-debug-utils/src/gdbserver.rs:147-157 | the bytes that can be loaded one by one from the region, whose end wraps around, or nothing exactly when one of them cannot |
| GdbServer.CoveredIff | ckb-vm-debug-utils/src/gdbserver.rs:147-157 | a region reads as some bytes if and only if these are what each of its addresses holds; a region whose end wraps around is empty |
| GdbServer.WatchPointStatus.HasChange | ckb-vm-debug-utils/src/gdbserver.rs:45-67 | the snapshot becomes the bytes now in memory; a change is seen if and only if there was an earlier snapshot and memory differs from it; a failed read changes nothing |
| GdbServer.GdbHandler.AtWatchpoint | ckb-vm-debug-utils/src/gdbserver.rs:80-88 | every watchpoint is refreshed, also behind one that saw a change; a failed read ends it and leaves those behind as they were |
| GdbServer.GdbHandler.VCont | ckb-vm-debug-utils/src/gdbserver.rs:184-263 | an empty request, and no other, panics; Continue and RangeStep take the least number of steps, at least one, after which the run ends, and report why; Step takes one if the machine runs; the rest is refused |
| GdbServer.EndsAtFirstEvent | ckb-vm-debug-utils/src/gdbserver.rs:184-263 | told without snapshots, of the bytes in memory: a run ends at the first step that is refused, gets to a breakpoint, leaves the range, ends the program, or leaves a watched byte unreadable or other than it was last seen |
| GdbServer.ReportIs | ckb-vm-debug-utils/src/gdbserver.rs:184-263 | signal 5 for a refused step, the exit code with process 0 for a program that has ended, error 3 for an unreadable byte unless a breakpoint or the end of the range comes first, signal 5 for all else |
| GdbServer.FirstStepUnseen | ckb-vm-debug-utils/src/gdbserver.rs:45-67 | watchpoints that have not looked yet miss whatever the first step does |
| GdbServer.GdbHandler.InsertWriteWatchpoint | ckb-vm-debug-utils/src/gdbserver.rs:275-283 | the new watchpoint comes last and has not looked yet |
| GdbServer.GdbHandler.RemoveWriteWatchpoint | ckb-vm-debug-utils/src/gdbserver.rs:284-288 | all watchpoints of this address and length go, the others stay in order |
| GdbServer.RetainedParts | ckb-vm-debug-utils/src/gdbserver.rs:270-288 | removal keeps or drops every entry by itself and keeps the order |
| GdbServer.BreakpointUndoneIff | ckb-vm-debug-utils/src/gdbserver.rs:265-273 | removing a breakpoint undoes its insertion if and only if it was not set before |
| GdbServer.WatchpointUndoneIff | ckb-vm-debug-utils/src/gdbserver.rs:275-288 | removing a watchpoint undoes its insertion if and only if its region was not watched before |
| GdbStub.GdbStubHandler.StepInner | ckb-vm-debug-utils/src/gdbstub.rs:128-138 | after an instruction the lists hold its own stores and loads, in order |
| GdbStub.GdbStubHandler.TakeStep | ckb-vm-debug-utils/src/gdbstub.rs:140-169 | the event of a step: end, error, system call, breakpoint, write, read, in this order |
| GdbStub.SilentIff | ckb-vm-debug-utils/src/gdbstub.rs:140-169 | a step is silent if and only if it succeeds without touching memory and neither a breakpoint nor a caught call comes next |
| GdbStub.EventIff | ckb-vm-debug-utils/src/gdbstub.rs:140-159 | a machine that has stopped reports its exit code, an instruction that fails an error, a caught system call its number, and a breakpoint comes only behind these; each if and only if |
| GdbStub.WatchedByLastInstruction | ckb-vm-debug-utils/src/gdbstub.rs:160-165 | a write is reported if and only if the instruction stored and nothing else is due, and is its last store; a read if and only if it only loaded, and is its last access |
| GdbStub.GdbStubHandler.Execute | ckb-vm-debug-utils/src/gdbstub.rs:171-209 | the run ends at once if data wait, or with the first step that has an event, leaves the range, or is followed by a poll that finds data; polls come on entry and after every 1024th silent step |
| GdbStub.OutcomeIff | ckb-vm-debug-utils/src/gdbstub.rs:171-209 | a step command is done after a step without an event, a range step once the pc is out of the range, and data are found if and only if the number of steps is a multiple of 1024 and the poll finds them |
| GdbStub.PollsInTime | ckb-vm-debug-utils/src/gdbstub.rs:171-209 | no poll that a run has passed found data, so data wait for at most 1024 steps |
| GdbStub.WrappedMultiple | ckb-vm-debug-utils/src/gdbstub.rs:178-186 | the 32-bit counter may wrap around without moving the polls |
| VmSelect.MachineSget | ckb-debugger/src/main.rs:574-624 | the nested loops over a stack of machines compute the search one instruction at a time, and terminate |
| VmSelect.RunSpawn | ckb-debugger/src/main.rs:600-610 | the caller is charged 500 cycles and the child gets the rest: in 64 bits the caller's cycles and the child's limit add up to the caller's limit |
| VmSelect.SelectsNth | ckb-debugger/src/main.rs:574-624 | the search stops in the program that the n-th exec or spawn of the recursive execution order starts; it pops an empty stack exactly when everything ends before |
| VmSelect.SpawnReturns | ckb-debugger/src/main.rs:600-622 | a spawned program comes back to its caller, which goes on behind the spawn; the caller is updated from its own child's data if and only if no program was spawned meanwhile or the last one came with the same data |
| VmSelect.NestedSpawnMisleads | ckb-debugger/src/main.rs:600-622 | a search reaches the return to a machine whose child has spawned another, with the data of that one at hand |
| VmSelect.SpawnExactIff | ckb-debugger/src/main.rs:600-610 | a spawn costs the caller 500 cycles and starts the child where it says, with what is left of the limit; it divides the limit exactly if and only if 500 cycles are left, or the counter laps |
| VmSelect.RunsStraight | ckb-debugger/src/main.rs:578-598 | instructions and execs leave a machine with the counter of the last one, its limit and data and all waiting machines untouched, and only execs count |
| VmSelect.RunStaysBalanced | ckb-debugger/src/main.rs:600-622 | in 64 bits every waiting machine's cycles and its child's limit always add up to its own limit |
| VmSelect.BudgetIsConserved | ckb-debugger/src/main.rs:600-622 | if every spawn finds 500 cycles left, the cycles of all waiting machines and the limit of the running one add up to the root's limit, over the whole run |
| TxCheck.SortedEqualIff | ckb-debugger-api/src/lib.rs:149-166 | lists are equal after sorting if and only if they are equal as multisets |
| TxCheck.CollectDeps | ckb-debugger-api/src/lib.rs:114-148 | the deps and, for each mock dep group, its members; a group that cannot be parsed or is empty ends it |
| TxCheck.GroupDepsFailIff | ckb-debugger-api/src/lib.rs:114-148 | the collection fails if and only if some mock dep group has no data, data that are no list, or an empty list |
| TxCheck.Check | ckb-debugger-api/src/lib.rs:130-183 | accepts exactly the transactions whose mock deps are the deps and group members as a multiset, whose inputs agree in order, and whose headers agree in number; refuses every transaction with a bad group |
| TxResource.GetInputCell | ckb-mock-tx-types/src/lib.rs:51-66 | the cell of the first mock input with this out-point and since, or else what the loader has for the out-point, which only then is asked |
| TxResource.GetDepCell | ckb-mock-tx-types/src/lib.rs:68-83 | the cell of the first mock dep with the out-point, or else what the loader has, which only then is asked |
| TxResource.FromBoth | ckb-mock-tx-types/src/lib.rs:122-191 | the resolver's loops compute the cells, the headers and the questions asked of the loader for both, in order; it asks nothing and succeeds if and only if all that the transaction names is mocked where it is looked for |
| TxResource.FromMockTx | ckb-mock-tx-types/src/lib.rs:116-119 | with a loader that has nothing, a transaction is resolved if and only if all that it names is mocked where it is looked for |
| TxTaken.ResourceHolds | ckb-mock-tx-types/src/lib.rs:122-191 | whatever the loader says, the cells are those of exactly the inputs, the deps and the members of groups: at the out-point of a dep or member the dep cell, else that of the last input with the out-point; and the headers are exactly the header deps, the mock one or the loader's |
| TxTaken.ResolvesIff | ckb-mock-tx-types/src/lib.rs:122-191 | a transaction is resolved if and only if every input, dep and member has a cell, groups can be read, and every header is there |
| TxAccepted.AcceptedResolvesIff | ckb-debugger-api/src/lib.rs:130-183 | an accepted transaction is resolved without asking the loader for anything if and only if every dep, and every member of its group, is found in the first mock cell with its out-point, groups can be parsed there, and every header it names is mocked |
| TxAccepted.AcceptedResolves | ckb-debugger-api/src/lib.rs:130-183 | with distinct mock out-points no cell is asked for, and the cells are exactly the mock cells: each mock dep's own at its out-point, and each mock input's own unless a dep or another mock input has its out-point |
| TxAccepted.DuplicateMisleads | ckb-mock-tx-types/src/lib.rs:68-83 | for every codec, with a duplicate out-point there is an accepted transaction that asks the loader, whatever it answers |
| TxAccepted.HeadersOnlyCounted | ckb-debugger-api/src/lib.rs:179-181 | an accepted transaction may lack the header it names, and the loader is asked for it |

## Left out

- ckb-vm itself: decoding, instruction execution, memory and caller updates are not part of this model. Machines are deterministic step functions; only auipc, addi, ld and jal are interpreted, for the stub.
- GdbServer.GdbHandler.VCont: runs that never end are not modelled; the ghost parameter is a step at which the run would end. Resetting the decoder's cache is part of the machine's step.
- GdbStub.GdbStubHandler.Execute: runs that never end are not modelled, in the same way. Watchpoint removal, which takes an entry out of the breakpoints, is left out.
- CallTree.Profile.Step: an instruction that cannot be decoded ends a run before its step. Cycles are unbounded; the flamegraph theorems ask for counts of 64 bits. Which jump instruction leads to which call is taken from the instruction's event.
- ShadowStackFacts.ProfileIsCallTree: jumps that are neither calls nor returns do not go to address 0, since the root's link is 0; what the profiler does on any jumps at all is CallStack.PathIsStack.
- HeapWatch.SbrkMovesHeap: a sbrk that ends in a tail call is left out; only a return while sbrk itself is current moves the heap.
- GdbGrammar.VContRoundTripIff: the alternatives of the v packets besides vCtrlC and vCont are one "other" command.
- GdbResponse.WriteResponse: the encoding of a file status is taken as bytes. The pieces that one formatting call writes are joined to one write, and interrupted writes, which are tried again, do not appear.
- GdbPackets.ProcessPacketsFrom: interrupted and failed reads end the session like an end of file, as in the code; the received checksum is parsed but not compared, as in the code.
- GdbServer.ReadMemory: the end of a region wraps around at 64 bits, as in a release build; a debug build stops there.
- VmSelect.MachineSget: an exec or spawn that fails, and the update of the caller's memory and registers, are left out; arithmetic wraps around as in a release build.
- VmSelect.BudgetIsConserved: machine cycles may take any value after an instruction; the virtual machine's own limit check is not modelled.
- TxCheck.Check: the JSON text that deps are sorted by and the codec of out-point lists are parameters; that different deps have different texts is assumed where a transaction is concluded to pass.
- TxResource.FromBoth: header views are represented by their hashes, and block extensions and cell metadata beyond output, data and block hash are left out.
- Interning.BuildProfile: the order of hash maps and sets is a parameter; the time of recording and the protobuf encoding are left out; products wrap around as in a release build.
- ElfDump.Ecall: an error of the memory while it is read, and writing the file, are left out. Loads beyond memory cannot happen, since the memory has exactly its 1024 pages.
- ElfLoad.ElfRoundTrip: the congruence of file offset and address modulo the alignment, and the order of segments by address, are not claimed, since the code does not establish them.
- Detailed tags of the profiler, DWARF lookups, sockets, timers, file system calls, signal tables and command lines are left out; they are foreign, or one-line facts.
