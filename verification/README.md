# Verification of U-Boot's common commands

This project models nine parts of U-Boot's `common/` directory in Dafny and proves what they are
for.  `dafny verify dfyconfig.toml` checks everything.

| part | modules | what is proved of it |
|---|---|---|
| MTD partition table | `MtdTypes`, `MtdBlocks`, `MtdText`, `MtdTable`, `MtdSpelled`, `MtdExamples`, `MtdScanner`, `MtdGlobals`, `MtdRuns`, `MtdAllRuns`, `MtdNamed`, `MtdCommands` | what a user's `mtdparts` and `mtdids` texts mean, printing and parsing them, the sorted table, which partition a command names, the current partition and its index, and the cache that decides whether to parse again, over all runs of commands |
| Kermit receiver | `KermitCode`, `KermitPacket`, `KermitReceiver`, `KermitEarly`, `KermitTransfer`, `KermitSender`, `KermitRecv` | quoting, block checks, packets, what a sender announces, and the rollback that makes a file arrive exactly once under repeats and errors |
| S-records | `SRecord`, `SRecordLoad`, `SRecordFile` | the dump of a memory range, the loader that reads it back, and files of every record type |
| Flash sector selection | `Flash`, `FlashCommands` | which sectors an address range selects, and that erasing and protecting touch no others |
| RAM test | `MemTest` | exactly which faults of a memory the alternate test detects |
| Log buffer | `LogText`, `LogBuffer` | level marks at line starts across calls, and the two ring layouts |
| PowerPC assembler and stepper | `Bedbug`, `BedbugBranch` | operand fields, and that assembler, disassembler and stepper agree on branch targets |
| EEPROM | `Eeprom` | page-split writes and reads against one flat transfer |
| Floppy | `Fdc` | block reads with retries and recalibrations |
| Circular buffer | `CircBuf` | the overwriting queue |

`Words` and `CText` hold 32-bit arithmetic and number scanning.

How the parts are modelled.  What the sources compute is a function or a datatype; the loops and the
routines that change state are methods with loops, arrays and classes, proved against those functions;
the theorems are about the functions, so they hold for the loops.  `unsigned long`, `u32` and pointers
are 32 bits wide and wrap where the sources wrap.  Hardware is a parameter: a chip with a counter that
runs round in a page, a memory with an address wiring and stuck bits, a controller or bus that answers
each step from an arbitrary script, a flash driver whose answers are given.

Some promises hold only under a condition.  For these the condition is proved to be exact:

- A partition table survives printing and parsing if and only if every partition has at least 4096
  bytes, only the last one of a device has size 0xFFFFFFFF, and every run of equal offsets reads the
  same backwards, because such runs come back reversed (`MtdTable.TableRoundTrip`,
  `MtdTable.TableSurvivesIff`).  Any other table that an edit leaves
  behind stays in memory over the next `mtdparts_init`, although the variable does not describe it
  (`MtdRuns.SavedMirrorsIff`; concrete tables in `MtdExamples` and `MtdRuns.EqualOffsetsPart`).  Over
  all runs, a text it does not read is the only reason why a successful `mtdparts_init` leaves memory
  and variables apart (`MtdAllRuns.SafeRunMirrorsIff`).
- Deleting a partition keeps the current one unless the deleted one follows it at the same offset
  (`MtdRuns.DeleteKeepsCurrentIff`; concrete lists in `MtdRuns.DeletionMoves`).
- Quoting works for the quote characters outside 0x3F-0x5F (`KermitCode.QuoteWorksIff`).
- A packet that is rejected before its sequence number is read takes back the data packet in front of
  it.  The transfer still ends right if and only if that packet was empty, or was one half of a pair of
  quotes and what follows hides it (`KermitEarly.TurnsTaken`, `KermitEarly.EarlyHarmlessIff`,
  for rejects in several places `KermitEarly.WholeTurnsIff`; the smallest failing transfer in
  `KermitEarly.EarlyLosesPacket`).
- Flash selection stays inside the request unless a bank that ends at 0xFFFFFFFF is listed before one
  that starts at 0: the next address wraps to 0 and the second bank is selected (`Flash.SafeIff`).
- A log line is marked once unless a call boundary falls inside a mark (`LogText.RunStampsLinesIff`).
- A branch field returns the target if and only if the distance is word aligned and in range
  (`BedbugBranch.UnconditionalAgrees`); the stepper ignores the encodings of BO with a z bit
  set above the lowest bit (`BedbugBranch.FollowsRuleIff`).
- Chunked EEPROM writes are right for pages of at most 256 bytes: the offset used for the page size is
  cut to eight bits (`Eeprom.WritesFlatIff`).  A request that ends at or behind offset 2^32 writes
  nothing and reports success (`Eeprom.Bus.EepromWrite`).
- Loading an S-record dump always restores its bytes.  The size it reports is wrong for an empty dump
  (it is 2) and for one of several records that runs over the top of the address space
  (`SRecordLoad.DumpLoads`, `SRecordLoad.OverTheTop`).
- A floppy read gives up at the 25th read that breaks off, counted over the whole request
  (`Fdc.Drive.ReadData`).

Where a comment and the code disagree the code is modelled: the comment on `addr_spec` in
`cmd_flash.c` gives the range without its end address, the code includes it.

## Model

| member | source | states |
|---|---|---|
| CText.SimpleStrtoul | u-boot/lib_generic/vsprintf.c:25-50 | the advancing scan returns the number and the stop position of `Strtoul`: radix guessed from a leading 0 or 0x, digits accumulated modulo 2^32 |
| CText.StrtoulReadsDecimal | u-boot/lib_generic/vsprintf.c:25-50 | whatever `%u` prints for a 32-bit value, the scan with radix 0 reads back, stopping in front of any text that cannot continue the number |
| CText.StrtoulReadsHex | u-boot/lib_generic/vsprintf.c:25-50 | hexadecimal text in either case reads back with radix 16, and behind "0x" with any radix |
| CText.StrtoulReadsOctal | u-boot/lib_generic/vsprintf.c:25-50 | octal text behind a 0 reads back with radix 0 |
| MtdTypes.ValidateExact | u-boot/common/cmd_jffs2.c:471-503 | a partition is accepted only if it is non-empty, aligned and on the chip; one that is so is accepted unchanged, and for an explicit size acceptance is exactly that |
| MtdTypes.RestExact | u-boot/common/cmd_jffs2.c:455-505 | "the rest" is accepted exactly if there is any behind the offset and it is aligned, and then reaches to the end of the chip |
| MtdTypes.NorAligned | u-boot/common/cmd_jffs2.c:335-383 | the two walks over the sector table decide exactly whether start and end fall on sector boundaries or the end of the bank |
| MtdTypes.Validate | u-boot/common/cmd_jffs2.c:471-503 | the checks in the source's order give the result of `PartValidate`, which `ValidateExact` and `RestExact` describe |
| MtdBlocks.NandAlignedIff | u-boot/common/cmd_jffs2.c:394-420 | a partition of a NAND or OneNAND chip is aligned exactly if no erase block lies partly in it |
| MtdBlocks.NorAlignedIff | u-boot/common/cmd_jffs2.c:335-383 | a partition of a NOR bank is aligned exactly if no sector lies partly in it |
| MtdText.SizeRoundTrip | u-boot/common/cmd_jffs2.c:211-258 | every 32-bit size printed with its g, m or k suffix reads back as the same size |
| MtdText.SizePrinted | u-boot/common/cmd_jffs2.c:244-258 | a size is printed in the largest unit that divides it |
| MtdText.PartRoundTrip | u-boot/common/cmd_jffs2.c:668-776 | the printed text of a partition that fits (size, optional @offset, optional name, optional ro) scans back to the same definition, leaving the text behind it |
| MtdText.ScanPartAdvances | u-boot/common/cmd_jffs2.c:668-776 | every definition that is accepted takes at least one character |
| MtdScanner.MemsizeParse | u-boot/common/cmd_jffs2.c:211-231 | the fall-through shifts equal the wrapped product with the suffix factor; value and rest as `ScanSize` |
| MtdScanner.MemsizeFormat | u-boot/common/cmd_jffs2.c:244-258 | the loop that divides by 1024 prints exactly `SizeText` |
| MtdScanner.PartParse | u-boot/common/cmd_jffs2.c:668-776 | the pointer-advancing parser accepts the same definitions with the same fields and rest as the scanning functions the round trip is proved for |
| MtdScanner.DeviceFind | u-boot/common/cmd_jffs2.c:894-907 | the first device of the list with this type and number, or none |
| MtdScanner.IdFindByMtdId | u-boot/common/cmd_jffs2.c:1111-1132 | the first chip whose mtd id equals the text, or none |
| MtdTable.SortInsertKeepsOrder | u-boot/common/cmd_jffs2.c:583-637 | insertion keeps the list sorted by offset, keeps offset 0 unique and adds exactly one element |
| MtdScanner.SortedPlace | u-boot/common/cmd_jffs2.c:583-637 | the walk along the list stops at the place `SortPosition` describes, or refuses a second partition at offset 0 |
| MtdTable.SortAllReverses | u-boot/common/cmd_jffs2.c:583-637 | inserting an already sorted list one by one gives that list with each run of equal offsets reversed |
| MtdScanner.PartsParse | u-boot/common/cmd_jffs2.c:983-1019 | the loop over partition definitions collects what the scan describes: missing offsets follow the partition before, the rest-of-device size ends the list |
| MtdScanner.SortParts | u-boot/common/cmd_jffs2.c:1052-1060 | linking the parsed partitions in gives the sorted list, or fails |
| MtdScanner.DeviceParse | u-boot/common/cmd_jffs2.c:941-1066 | one device with its sorted partitions and the text behind its ";", with all error exits |
| MtdScanner.ParseMtdparts | u-boot/common/cmd_jffs2.c:1479-1526 | the table `ParseTable` defines, or an error |
| MtdTable.ParseTableGood | u-boot/common/cmd_jffs2.c:1479-1526 | every parsed table has partitions that fit their chips, sorted lists, and distinct devices named by their own ids |
| MtdSpelled.SuffixReads | u-boot/common/cmd_jffs2.c:211-231 | decimal and hexadecimal amounts with k, K, m, M, g, G or no suffix read as the number times 1024, 1024^2, 1024^3 or 1, in 32 bits |
| MtdSpelled.TableSpelled | u-boot/common/cmd_jffs2.c:1479-1526 | main result: what a user writes -- chips, and for each partitions with size or "-", with or without offset, name and ro -- becomes the table it means, and is refused exactly if a chip cannot carry what is meant for it or is named twice |
| MtdSpelled.RestReachesEnd | u-boot/common/cmd_jffs2.c:455-505 | a "-" at the end of a device becomes a partition of that device that ends at the end of its chip |
| MtdSpelled.SortAllSorts | u-boot/common/cmd_jffs2.c:583-637 | linking keeps every partition, in the order of the offsets |
| MtdSpelled.SortAllRefuses | u-boot/common/cmd_jffs2.c:583-637 | the only reason not to link is a second partition at offset 0 |
| MtdSpelled.JunkRefused | u-boot/common/cmd_jffs2.c:668-776 | anything but a comma or semicolon behind a definition with a name is refused |
| MtdSpelled.NameRefused | u-boot/common/cmd_jffs2.c:668-776 | a name that is empty or not closed is refused |
| MtdTable.ParseTableCount | u-boot/common/cmd_jffs2.c:1479-1526 | a parsed table has no more partitions in all than half the characters of its text |
| MtdScanner.GeneratePart | u-boot/common/cmd_jffs2.c:1217-1280 | the text of one partition, or failure when the space does not last |
| MtdScanner.GenerateMtdparts | u-boot/common/cmd_jffs2.c:1184-1301 | the printout of the whole table when it fits the buffer (the prefix is not charged), otherwise failure |
| MtdTable.TableRoundTrip | u-boot/common/cmd_jffs2.c:941-1301 | main result: for every table the reader can build, the printout is refused exactly when a partition is smaller than 4096 bytes or one of size 0xFFFFFFFF is followed by another; otherwise it reads back as the table with its runs of equal offsets reversed |
| MtdTable.TableSurvivesIff | u-boot/common/cmd_jffs2.c:1184-1301 | printing and reading gives the same table if and only if it is readable and, on each device, every run of partitions with equal offsets reads the same backwards |
| MtdTable.StrictTableSurvives | u-boot/common/cmd_jffs2.c:941-1301 | strictly ascending offsets are always enough, and necessary where no device lists one partition twice |
| MtdExamples.EqualOffsetsSwap | u-boot/common/cmd_jffs2.c:941-1301 | a concrete pair of partitions at one offset: the reader accepts the table, prints it, and reads the printout as the swapped table |
| MtdExamples.ShortRestLost | u-boot/common/cmd_jffs2.c:668-776 | a concrete text "4k,-" on a chip of 0x1200 bytes: the reader accepts it, and refuses the printout of the table, because the rest is smaller than a size may be |
| MtdExamples.WholeChipLost | u-boot/common/cmd_jffs2.c:668-776 | a concrete text on a chip of 0xFFFFFFFF bytes: the reader accepts it, and refuses the printout, because the size of the whole chip reads as "the rest" in front of another partition |
| MtdTable.PrintedTableReads | u-boot/common/cmd_jffs2.c:1479-1524 | such a table is read back unchanged: same devices, offsets, sizes, flags and names in the same order |
| MtdCommands.IdParse | u-boot/common/cmd_jffs2.c:1145-1173 | device type and number as `ScanDevNum`, the number cut to eight bits |
| MtdCommands.ParseMtdids | u-boot/common/cmd_jffs2.c:1536-1637 | the list of ids `ParseIds` defines, or an error with what is then left in the list |
| MtdCommands.FindDevAndPart | u-boot/common/cmd_jffs2.c:1386-1438 | a user-given name first, then `<type><num>,<partnum>`, as `FindDevAndPart` defines; what that finds is stated by `NumberFinds` and `NameFinds` |
| MtdNamed.NumberFinds | u-boot/common/cmd_jffs2.c:1386-1438 | "<type><num>,<n>" finds partition n modulo 256 of that device, and nothing if there is no such partition or text follows |
| MtdNamed.LiteralFinds | u-boot/common/cmd_jffs2.c:1386-1438 | the same for the literal texts nor, nand and onenand |
| MtdNamed.NameFinds | u-boot/common/cmd_jffs2.c:1386-1438 | a name finds the first partition of the table to which a user has given it |
| MtdNamed.PartitionIdFinds | u-boot/common/cmd_jffs2.c:303-324 | the text saved for a partition finds that partition again, unless a user has given it as a name |
| MtdNamed.ChangeSelects | u-boot/common/cmd_jffs2.c:2166-2183 | chpart makes exactly the partition found current and saves its name |
| MtdNamed.DelRemoves | u-boot/common/cmd_jffs2.c:1446-1470 | mtdparts del leaves the table without exactly the partition found, and without its device if that was its only one |
| MtdNamed.NumberCommands | u-boot/common/cmd_jffs2.c:2198-2294 | on every coherent state both commands do so for the number of any partition |
| MtdNamed.DeletedCurrent | u-boot/common/cmd_jffs2.c:512-552 | deleting the current partition makes the first one of its device current, or the first of all if the device goes with it |
| MtdNamed.IdsSpelled | u-boot/common/cmd_jffs2.c:1536-1637 | main result: an mtdids text is accepted exactly if it names every chip once and only chips that exist, and gives each the name and the size and block layout of its own chip |
| MtdNamed.InitChooses | u-boot/common/cmd_jffs2.c:1645-1773 | which partition is current behind a successful mtdparts_init: the one the variable partition names, if that is not the one remembered; else the first of a table just read, or the one before |
| MtdNamed.InitNames | u-boot/common/cmd_jffs2.c:1729-1774 | behind a successful mtdparts_init the variable partition names the current partition if the table was read, if it was not set or if it named a partition to change to, and is untouched otherwise |
| MtdNamed.InitSucceedsIff | u-boot/common/cmd_jffs2.c:1645-1773 | it succeeds exactly if there are ids, nothing is too long, the ids can be parsed, and a table that has to be read can be |
| MtdNamed.AddAdds | u-boot/common/cmd_jffs2.c:2228-2282 | main result: mtdparts add adds exactly the partition it is told to, with its size, name and flag, at its offset or behind the last partition of the device; or refuses because the chip cannot carry it or has one at offset 0, and leaves the table alone |
| MtdNamed.AddLengthIs | u-boot/common/cmd_jffs2.c:2246-2255 | the length checked against the buffer is that of the description, cut down to eight bits |
| MtdCommands.DescriptionLength | u-boot/common/cmd_jffs2.c:2246-2255 | the length kept in eight bits equals the wrapped sum `AddLength` |
| MtdCommands.Mtdparts.constructor | u-boot/common/cmd_jffs2.c:159-176 | in any environment the initial globals are a fresh, coherent state |
| MtdCommands.Mtdparts.IndexPartitions | u-boot/common/cmd_jffs2.c:265-298 | sets mtddevnum to the position of the current partition, counted in 16 bits, or unsets it |
| MtdCommands.Mtdparts.CurrentSave | u-boot/common/cmd_jffs2.c:303-324 | saves the current partition and its index, nothing else changes |
| MtdCommands.Mtdparts.DevicesInit | u-boot/common/cmd_jffs2.c:1073-1080 | clears the device list, the current partition and the remembered text |
| MtdCommands.Mtdparts.PartSortAdd | u-boot/common/cmd_jffs2.c:583-637 | the whole new state is that of the function `PartSortAdd`, failure leaves it alone; a sorted list stays sorted and the current partition stays the same one |
| MtdCommands.Mtdparts.PartDel | u-boot/common/cmd_jffs2.c:512-552 | the whole new state is that of `PartDel`, for deletions that keep a current partition; on a list with distinct offsets every other partition that is current stays so, and the index is exact |
| MtdCommands.Mtdparts.DeviceDel | u-boot/common/cmd_jffs2.c:862-884 | the whole new state is that of `DeviceDel`; deleting another device keeps the current partition, and the index is exact |
| MtdCommands.Mtdparts.DeviceAdd | u-boot/common/cmd_jffs2.c:914-930 | the whole new state is that of `DeviceAdd`; the first device becomes current, later ones keep the current partition, and the index is exact |
| MtdCommands.Mtdparts.GenerateSave | u-boot/common/cmd_jffs2.c:1311-1323 | variable and remembered text after saving, as `GenerateSave`; behind an edit the caches are coherent again exactly if the table is printable |
| MtdCommands.Mtdparts.Init | u-boot/common/cmd_jffs2.c:1645-1773 | the whole new state and return code of `Init`, keeping the invariant; success with mtdparts set leaves a fresh parse of the variables and a current partition, whose position mtddevnum is |
| MtdCommands.Mtdparts.RefreshIds | u-boot/common/cmd_jffs2.c:1708-1721 | an mtdids text that differs from the remembered one is parsed, an unchanged one is not |
| MtdCommands.Mtdparts.SyncTable | u-boot/common/cmd_jffs2.c:1723-1752 | an mtdparts text that differs from the remembered one is parsed, an unchanged one is not; either way success leaves the parse of the variable in memory |
| MtdCommands.Mtdparts.Add | u-boot/common/cmd_jffs2.c:2228-2282 | `mtdparts add`: state and code of `AddCommand` |
| MtdCommands.Mtdparts.Del | u-boot/common/cmd_jffs2.c:2285-2290 | `mtdparts del`: state and code of `DelCommand` |
| MtdRuns.InitMirrors | u-boot/common/cmd_jffs2.c:1645-1773 | whenever it returns 0 with mtdparts set, the table in memory is a fresh parse of the variables, also when the remembered texts let it skip parsing |
| MtdRuns.SortAddKeepsCurrent | u-boot/common/cmd_jffs2.c:583-637 | adding keeps the list sorted, the index right, and the current partition the same one |
| MtdRuns.AddKeepsCurrent | u-boot/common/cmd_jffs2.c:583-637 | on a coherent state the 8-bit current number cannot wrap, so adding never changes which partition is current |
| MtdRuns.DeleteKeepsCurrentIff | u-boot/common/cmd_jffs2.c:512-552 | the adjusted number still names the current partition if and only if the deleted one does not follow it at the same offset |
| MtdRuns.DeletionMoves | u-boot/common/cmd_jffs2.c:526-535 | concrete lists for both failures: the number runs below 0 and names no partition, or it names another partition |
| MtdRuns.PartDelKeepsCurrent | u-boot/common/cmd_jffs2.c:512-552 | with distinct offsets deleting any other partition keeps the current one and the index |
| MtdRuns.DeviceDelKeepsCurrent | u-boot/common/cmd_jffs2.c:862-884 | deleting another device keeps the current partition and makes the index exact |
| MtdRuns.AllPartsAt | u-boot/common/cmd_jffs2.c:265-298 | the count of partitions in front plus the own number is the position in the concatenation of all devices' partitions |
| MtdRuns.IndexNamesCurrent | u-boot/common/cmd_jffs2.c:265-298 | on every coherent state mtddevnum is in range and names the current partition in that concatenation: the text the table was read from is too short for the 16 bits to wrap |
| MtdRuns.SavedCoherent | u-boot/common/cmd_jffs2.c:1311-1323 | saving a printable table succeeds and leaves a remembered text whose parse is the table in memory |
| MtdRuns.SavedCoherentIff | u-boot/common/cmd_jffs2.c:1311-1323 | that holds exactly for the printable tables |
| MtdRuns.SavedMirrorsIff | u-boot/common/cmd_jffs2.c:1645-1773 | the next mtdparts_init after a save, for every edited table: it keeps the table in memory without reading anything; the variable, both return codes; the table is the one the variables describe exactly if it fits the buffer, is readable and its runs of equal offsets read the same backwards |
| MtdRuns.EqualOffsetsPart | u-boot/common/cmd_jffs2.c:1645-1773 | a concrete table with two partitions at one offset for which memory and variables then disagree |
| MtdRuns.StepCoherent | u-boot/common/cmd_jffs2.c:2198-2294 | every command and every outside change of the variables keeps the cache invariant |
| MtdRuns.RunCoherent | u-boot/common/cmd_jffs2.c:2198-2294 | the invariant holds at every state of every run |
| MtdRuns.RunMirrors | u-boot/common/cmd_jffs2.c:1645-1773 | main result: at every point of every run, and again behind a further mtdparts_init, the partition at position mtddevnum of the whole table is the current one; a successful mtdparts_init with mtdparts set leaves exactly the table the variables describe and a current partition |
| MtdRuns.RunFollows | u-boot/common/cmd_jffs2.c:2198-2294 | over all runs, from any environment and whatever edits leave behind: until the index is set for the first time no table is in memory and the saved value stands; from then on the index is always what index_partitions computes |
| MtdAllRuns.SafeRunRemembers | u-boot/common/cmd_jffs2.c:2198-2294 | over all runs, whatever tables edits leave behind: the remembered text is one whose parse is in memory, or the printout of what is in memory |
| MtdAllRuns.SafeRunMirrorsIff | u-boot/common/cmd_jffs2.c:1645-1773 | main result for all such runs: a successful mtdparts_init with mtdparts set leaves the table the variables describe if and only if it is not one that it skips reading because the variable is the printout of the table in memory while that table cannot be read back |
| KermitCode.KtransIsBits | u-boot/common/cmd_load.c:575-583 | the arithmetic form used in the proofs equals the bit operations for all 256 characters |
| KermitCode.DecodeCut | u-boot/common/cmd_load.c:692-707 | decoding does not depend on where the text is cut into packets, even between a quote and its character |
| KermitCode.QuoteWorksIff | u-boot/common/cmd_load.c:575-583 | for quotes below 0x80 unquoting inverts quoting for every byte string exactly when the quote is outside 0x3F-0x5F |
| KermitCode.DecodeInvertsEncode | u-boot/common/cmd_load.c:692-707 | round trip of every byte string for every quote that does not clash |
| KermitCode.EncodedGraphic | u-boot/common/cmd_load.c:926-943 | quoted text never contains a character the receiver takes for a line error |
| KermitCode.Chk1 | u-boot/common/cmd_load.c:585-593 | the loop returns the folded six-bit sum of the characters in front of the NUL |
| KermitCode.CheckSeesFlip | u-boot/common/cmd_load.c:585-593 | inverting any single bit of any one summed character changes the block check, for every length |
| KermitPacket.ShortAccepted | u-boot/common/cmd_load.c:802-976 | every well-formed short packet is accepted with its fields and exactly its characters are consumed |
| KermitPacket.LongAccepted | u-boot/common/cmd_load.c:902-925 | the same for extended packets with their two length digits and header check |
| KermitPacket.WrongCheckRefused | u-boot/common/cmd_load.c:944-952 | a packet with a wrong block check is read to its end but not accepted |
| KermitPacket.FlipRefused | u-boot/common/cmd_load.c:862-952 | a short packet with one bit inverted in sequence number, type or data is not accepted |
| KermitReceiver.FeedDecodes | u-boot/common/cmd_load.c:655-707 | feeding data characters decodes them to memory at the pointer and changes nothing below it |
| KermitReceiver.ApplyKeepsBelow | u-boot/common/cmd_load.c:802-976 | no attempt, whatever its kind, changes memory below both the pointer and the checkpoint |
| KermitReceiver.BlockTakenOnce | u-boot/common/cmd_load.c:862-973 | a block of copies of one packet, the last one good, takes the packet exactly once |
| KermitReceiver.BlocksTakenOnce | u-boot/common/cmd_load.c:802-976 | main result: over any run of such blocks memory from the start to the pointer is the decoding of each data packet exactly once, and memory below is unchanged |
| KermitEarly.TurnsTaken | u-boot/common/cmd_load.c:862-893 | over any run of blocks with any number of header rejects behind each: the receiver ends as on a perfect line that never carried the data packets with such a reject behind them |
| KermitEarly.EarlyHarmlessIff | u-boot/common/cmd_load.c:862-893 | with header rejects between two runs of blocks the transfer ends right if and only if the packet in front of them is not a data packet, or is empty, or is one half of a pair of quotes that the following text hides |
| KermitEarly.WholeTurnsIff | u-boot/common/cmd_load.c:862-893 | for a sender that keeps a quote and its character in one packet, with header rejects anywhere in the run: the transfer ends right if and only if the data packets in front of them are empty |
| KermitEarly.HarmlessIff | u-boot/common/cmd_load.c:692-707 | what the receiver decodes with and without one packet is the same exactly for such packets, for every following text and changing quotes |
| KermitEarly.EarlyLosesPacket | u-boot/common/cmd_load.c:862-893 | a concrete transfer of two one-character packets with a header reject between them that arrives as the second character only |
| KermitReceiver.FileArrives | u-boot/common/cmd_load.c:802-976 | a quoted file, cut and repeated in any such way, arrives byte for byte and its length is the size returned |
| KermitTransfer.FileTransferred | u-boot/common/cmd_load.c:802-976 | main result, from the line to memory: when packets with any noise between them and any rejected and repeated copies carry a send-init, the quoted file and a break, k_recv ends by itself, the file is in memory at the start address, its length is the size returned, and memory below is unchanged |
| KermitSender.AnnouncementTaken | u-boot/common/cmd_load.c:715-799 | the receiver takes exactly the padding, end of line and quote a sender announces in its send-init packet, with defaults for the fields it leaves out |
| KermitSender.FileSent | u-boot/common/cmd_load.c:802-976 | main result: a file that is quoted with the quote announced arrives in memory with its size, over any noise, rejects and copies |
| KermitSender.AnsweredAsAnnounced | u-boot/common/cmd_load.c:802-976 | from a good send-init packet on every answer comes behind the padding and ends with the end of line announced there |
| KermitSender.ReplyOffers | u-boot/common/cmd_load.c:715-799 | the reply to a send-init packet, read by its own rules, asks for the line k_recv starts with, and offers packets of every length it can read |
| KermitTransfer.WireReads | u-boot/common/cmd_load.c:802-976 | the characters on the line up to a good break packet are read as the attempts of its packets, in order |
| KermitTransfer.DamagedDelivers | u-boot/common/cmd_load.c:944-952 | a short packet with a wrong block check is one rejected attempt whatever follows |
| KermitTransfer.DataLost | u-boot/common/cmd_load.c:926-943 | a packet broken off by a control character in its data is one rejected attempt that has taken the data in front |
| KermitTransfer.LongHeadRefused | u-boot/common/cmd_load.c:902-925 | an extended packet with a wrong header check is rejected before its data |
| KermitReceiver.BreakEnds | u-boot/common/cmd_load.c:950-975 | rejected copies of the last packet and one good one end the transfer without touching data |
| KermitReceiver.AnswerReads | u-boot/common/cmd_load.c:604-628 | every ACK, NACK and send-init reply, read behind its start character, satisfies the receiver's own length and checksum rules; it is accepted exactly if the sender asked for this receiver's end of line, or for none and the next character is one |
| KermitReceiver.StreamAnswered | u-boot/common/cmd_load.c:802-976 | for every stream of characters each packet is answered once and in order, positively exactly if it was good, with its sequence number, printable parameters, and the end of line and padding of the last good send-init packet |
| KermitReceiver.ReplyFieldsGraphic | u-boot/common/cmd_load.c:715-799 | the parameters of a send-init reply are printable |
| KermitReceiver.StreamReadsShort | u-boot/common/cmd_load.c:850-862 | a well-formed packet behind any noise on the line is one good attempt |
| KermitRecv.Receiver.Save | u-boot/common/cmd_load.c:680-684 | copies escape state and pointer into the checkpoint |
| KermitRecv.Receiver.Restore | u-boot/common/cmd_load.c:686-690 | puts escape state and pointer back |
| KermitRecv.Receiver.DataChar | u-boot/common/cmd_load.c:692-707 | one character of `Feed` |
| KermitRecv.Receiver.SendAnswer | u-boot/common/cmd_load.c:604-628 | sends exactly the packet `Answer` describes |
| KermitRecv.Receiver.HandleSendPacket | u-boot/common/cmd_load.c:715-799 | the line and the reply of `Negotiate`, which `AnnouncementTaken` describes, whatever parameters are missing |
| KermitRecv.Receiver.ReceivePacket | u-boot/common/cmd_load.c:862-952 | one packet as `ReadPacket` reads it, with the state `Receive` gives |
| KermitRecv.Receiver.HandlePacket | u-boot/common/cmd_load.c:862-973 | one round of the main loop is one `Apply` |
| KermitRecv.Receiver.KRecv | u-boot/common/cmd_load.c:802-976 | the whole receiver equals applying the attempts of the stream in order; every attempt is answered; size is the distance to the start; memory below the start never changes |
| SRecord.RecordDecodes | u-boot/common/s_record.c:30-170 | an S3 record of any address and up to 16 bytes decodes to that address and data with a matching checksum |
| SRecord.ReadsHex | u-boot/common/s_record.c:183-195 | hexadecimal pairs read back as the bytes they were printed from |
| SRecord.AddressReads | u-boot/common/s_record.c:102-148 | the shifted-in address bytes give the address back |
| SRecord.BareDecodes | u-boot/common/s_record.c:30-170 | a record without data decodes for every type with an address field |
| SRecordFile.TypedDecodes | u-boot/common/s_record.c:30-170 | records of every type with two, three or four bytes of address decode to their type, address and data |
| SRecordFile.WrongCheck | u-boot/common/s_record.c:140-165 | a record with any other check byte is a checksum error |
| SRecordLoad.ReadRecord | u-boot/common/cmd_load.c:219-254 | a line up to CR or LF, cut at 516 characters, or the end on NUL or ^C |
| SRecordLoad.LoadSerial | u-boot/common/cmd_load.c:144-216 | the loop gives the result of `Load`: bytes stored, first and last address, entry, abort on a bad record |
| SRecordLoad.PrintRecord | u-boot/common/cmd_load.c:356-375 | one record equals the S3 layout of address, data, length and complemented sum |
| SRecordLoad.SaveSerial | u-boot/common/cmd_load.c:332-385 | what is sent for a range, also one that wraps the address space, is exactly `Dump` of its bytes: contiguous records of at most 16 bytes between header and end record |
| SRecordLoad.StoreNext | u-boot/common/cmd_load.c:181-188 | storing the next chunk of a range that does not wrap extends start and last address |
| SRecordLoad.PokeReads | u-boot/common/cmd_load.c:181-183 | stored bytes are at their addresses and all other memory is unchanged |
| SRecordLoad.LoadsRecords | u-boot/common/cmd_load.c:158-188 | loading the data records of any range stores its bytes record by record at the shifted address |
| SRecordLoad.StoreAllPokes | u-boot/common/cmd_load.c:158-188 | record by record or at once, the same bytes reach the same wrapped addresses |
| SRecordLoad.OverTheTop | u-boot/common/cmd_load.c:158-188 | a range over the top of the address space is reported with the right start and size exactly if it is one record |
| SRecordLoad.DumpLoads | u-boot/common/cmd_load.c:144-216 | main result: loading a dump of any range reproduces its bytes at the shifted address; start and size are reported right if and only if the range is not empty and does not run over the top of the address space or is a single record; an empty one reports a size of 2 |
| SRecordFile.FileLoads | u-boot/common/cmd_load.c:144-216 | main result: a file of S0, S1, S2, S3 and S5 records in any order with any line ends puts its bytes to their shifted addresses, reports the lowest address and the span up to the highest, and returns the entry address of its S9, S8 or S7 record |
| SRecordFile.StopAborts | u-boot/common/cmd_load.c:219-254 | a NUL or ^C aborts the transfer |
| Flash.StepBankExact | u-boot/common/cmd_flash.c:231-285 | a bank is taken exactly when the range starts on one of its sectors and ends on one or goes beyond it; otherwise it is passed over or refused, as stated per case |
| Flash.FirstSectFinds | u-boot/common/cmd_flash.c:239-255 | the recorded first sector is one that starts at the range start, and none means there is no such sector |
| Flash.LastSectFinds | u-boot/common/cmd_flash.c:239-255 | the recorded last sector is one that ends at the range end, and none means there is no such sector |
| Flash.SafeIff | u-boot/common/cmd_flash.c:209-289 | main result: for disjoint banks every request picks only sectors inside it if and only if no bank ending at 0xFFFFFFFF is listed before one starting at 0 |
| Flash.FillWraps | u-boot/common/cmd_flash.c:274 | for such a pair of banks, the request from the first bank to the top picks the bank at 0 as well |
| Flash.ChainExact | u-boot/common/cmd_flash.c:209-289 | for adjacent ascending banks a boundary-aligned request succeeds and picks exactly the sectors it covers |
| FlashCommands.FlashSectRoundb | u-boot/common/cmd_flash.c:112-148 | the end of the first sector that holds the address, or failure with the address unchanged |
| FlashCommands.ParseAddrSpec | u-boot/common/cmd_flash.c:168-206 | both argument forms as `AddrSpec` reads them; what that means for typed numbers is stated by `PairRead` and `LengthTyped` |
| FlashCommands.PairRead | u-boot/common/cmd_flash.c:168-206 | two hexadecimal numbers are taken as they are, and text behind a number is refused |
| FlashCommands.LengthTyped | u-boot/common/cmd_flash.c:168-206 | main result: "start +length" typed for a sector start picks exactly the sectors that meet the bytes start to start + length - 1, if it passes the callers' check |
| FlashCommands.RoundbRefuses | u-boot/common/cmd_flash.c:112-148 | rounding fails exactly if no sector holds the address |
| FlashCommands.PlusLengthPicks | u-boot/common/cmd_flash.c:187-203 | "start +length" from a sector start picks exactly the sectors that meet the requested bytes; a range that wraps cannot pass the callers' check, and a length of 0 passes it only at address 0, where it picks everything |
| FlashCommands.ScanSectors | u-boot/common/cmd_flash.c:239-255 | the inner loop records what `FirstSect` and `LastSect` define |
| FlashCommands.FillBank | u-boot/common/cmd_flash.c:231-285 | one round of the outer loop is one `StepBank` |
| FlashCommands.FillSectRanges | u-boot/common/cmd_flash.c:209-289 | the nested loops return 0 exactly when `Fill` succeeds, with its picks in the two arrays and their number in the count |
| FlashCommands.CountsPicks | u-boot/common/cmd_flash.c:275 | the count is that of the sectors picked, and 0 exactly if none is |
| FlashCommands.JobsCover | u-boot/common/cmd_flash.c:440-455 | only picked sectors are handed to the driver, and all of them when no call fails |
| FlashCommands.ErasesRange | u-boot/common/cmd_flash.c:424-463 | for adjacent banks nothing outside the range is erased, and everything inside it when no call fails |
| FlashCommands.LengthErases | u-boot/common/cmd_flash.c:424-463 | "erase start +length" erases exactly those sectors if no driver call fails, and none but them in any case |
| FlashCommands.JobsStop | u-boot/common/cmd_flash.c:440-455 | the driver calls go through the banks in order, stop at the first that fails, and report its code |
| FlashCommands.ProtectsRange | u-boot/common/cmd_flash.c:647-698 | for adjacent banks exactly the sectors inside the range get the protection p, all others keep theirs |
| FlashCommands.FlashBanks.SectErase | u-boot/common/cmd_flash.c:424-463 | the driver calls made and the code returned; nothing is erased when the range is refused or empty |
| FlashCommands.FlashBanks.SectProtect | u-boot/common/cmd_flash.c:647-698 | the protection of exactly the picked sectors is set to p, all others keep theirs |
| MemTest.SenseWord | u-boot/common/cmd_mem.c:859-868 | what reading a pattern back tells about the stuck bits of a cell; agreeing with a word and its complement means no stuck bit |
| MemTest.Ram.FillPatterns | u-boot/common/cmd_mem.c:849-852 | after the fill a faultless region holds its patterns, and a word that shares its cell with a later one has lost its own |
| MemTest.Ram.CheckAndInvert | u-boot/common/cmd_mem.c:857-870 | passing means every stuck bit agrees with the pattern and every shared cell has a stuck bit; a faultless region passes |
| MemTest.Ram.CheckAndClear | u-boot/common/cmd_mem.c:875-885 | passing means every stuck bit also agrees with the inverted pattern; the region is left zero |
| MemTest.Ram.IncrementInvertTest | u-boot/common/cmd_mem.c:844-885 | main result: the test succeeds if and only if no tested bit is stuck and no two tested words share a cell, and success leaves the region zero |
| MemTest.NoPowerBetween | u-boot/common/cmd_mem.c:792-794 | doubling visits every power of two below the limit |
| MemTest.Ram.WritePowers | u-boot/common/cmd_mem.c:792-794 | every power-of-two offset holds the pattern |
| MemTest.Ram.ReadPowers | u-boot/common/cmd_mem.c:802-810 | succeeds exactly when all power-of-two offsets but one read back the pattern |
| MemTest.Ram.Disturb | u-boot/common/cmd_mem.c:799-830 | one anti-pattern is noticed exactly by the words it disturbs |
| MemTest.Ram.AddressTest | u-boot/common/cmd_mem.c:792-830 | main result: succeeds if and only if offset 0 and the power-of-two offsets do not disturb one another, for every wiring, every set of stuck bits and every length |
| MemTest.AliasingAlone | u-boot/common/cmd_mem.c:792-830 | on working cells that is exactly: offset 0 and all power-of-two offsets reach pairwise different cells |
| MemTest.Ram.TestPass | u-boot/common/cmd_mem.c:785-885 | both tests together succeed if and only if the region is faultless |
| LogText.AnnotateStampsLines | u-boot/common/cmd_log.c:262-319 | from a line start, the annotated text is every line with the default mark put in front where it has none of its own |
| LogText.AnnotateSplit | u-boot/common/cmd_log.c:262-319 | two calls log what one call with the joined text logs, except that a boundary inside a mark adds exactly one mark |
| LogText.RunStampsLinesIff | u-boot/common/cmd_log.c:262-319 | main result: over any sequence of calls every line gets its mark exactly once if and only if no call boundary cuts a mark |
| LogBuffer.RingShowsTail | u-boot/common/cmd_log.c:290-311 | main result: in both layouts the ring shows the last min(16384, n) characters logged since the reset, in order, for every n |
| LogBuffer.LayoutsAgree | u-boot/common/cmd_log.c:290-311 | both layouts run in lockstep: same start, end = start + size modulo 2^32, same bytes and count |
| LogBuffer.CallsLeaveStampedTail | u-boot/common/cmd_log.c:262-319 | after a reset, calls that cut no mark leave the end of the stamped text in the ring |
| LogBuffer.LogBuff.Reset | u-boot/common/cmd_log.c:119-141 | start, size, end and count are cleared, the bytes and the line state stay |
| LogBuffer.LogBuff.PutChar | u-boot/common/cmd_log.c:290-311 | one character enters the ring as `Put` says for the layout in use |
| LogBuffer.LogBuff.MarkLine | u-boot/common/cmd_log.c:276-288 | the mark is written in place over bytes already logged: no byte still to be logged changes |
| LogBuffer.LogBuff.Printk | u-boot/common/cmd_log.c:262-319 | the ring receives exactly the annotated line and the line state is kept for the next call |
| LogBuffer.LogBuff.Append | u-boot/common/cmd_log.c:201-208 | `log append` logs the words, separated by spaces and ended by a line feed, as a run of calls |
| LogBuffer.AppendReads | u-boot/common/cmd_log.c:201-208 | the calls of log append enter the words separated by spaces and ended by one line feed |
| CircBuf.CircBuf.constructor | u-boot/common/circbuf.c:27-41 | an empty buffer of the given size |
| CircBuf.CircBuf.Push | u-boot/common/circbuf.c:81-110 | contents become the newest bytes of old contents and source; tail = top + size modulo the capacity |
| CircBuf.CircBuf.Pop | u-boot/common/circbuf.c:54-79 | delivers the oldest bytes, at most as many as there are, and keeps the rest in order |
| CircBuf.NewestInPieces | u-boot/common/circbuf.c:81-110 | pushing in pieces keeps the same bytes as pushing everything at once |
| CircBuf.RunAccounted | u-boot/common/circbuf.c:54-110 | for any mix of pushes and pops: contents are the newest bytes pushed, every byte is held, popped or overwritten, and while nothing was overwritten bytes come out as they went in |
| Bedbug.AsmPpc | u-boot/common/bedbug.c:753-841 | the loop over the operands gives the word or error code of `Assemble`, which `AssembledFields` and `AssembleJudges` describe |
| Bedbug.AssembledMatches | u-boot/common/bedbug.c:753-841 | for disjoint fields the opcode bits of an assembled instruction still match its table entry |
| Bedbug.AssembledExtracts | u-boot/common/bedbug.c:753-841 | for disjoint fields every operand read from the text is extracted from the instruction again; which number that is states `AssembledFields` |
| BedbugBranch.AssembledFields | u-boot/common/bedbug.c:854-918 | every field holds the number given for its operand, in full if it fits and else its low bits; an address field expresses the distance exactly if it reaches |
| Bedbug.AssembleJudges | u-boot/common/bedbug.c:854-918 | refused are exactly too few operands, registers above 31, and SPR or TBR number 0, with the code of the first |
| BedbugBranch.BranchesDisjoint | u-boot/include/bedbug/tables.h:85-102 | the entries of b and bc and their variants have disjoint fields |
| BedbugBranch.OperandValue | u-boot/common/bedbug.c:373-400 | the value of the first operand with this field, or none |
| BedbugBranch.Condition | u-boot/common/bedbug.c:1160-1214 | the switch over BO takes the branch exactly when CTR and the condition bit meet the rule |
| BedbugBranch.FollowsRuleIff | u-boot/common/bedbug.c:1160-1214 | the code follows the rule of the encodings for all register values exactly for those without a z bit above the lowest bit; the lowest bit, y or the last z of 1z1zz, is shifted out |
| BedbugBranch.BoTable | u-boot/common/bedbug.c:1160-1214 | what the encodings of BO mean, one by one |
| BedbugBranch.FindNextAddress | u-boot/common/bedbug.c:1053-1236 | the address `NextAddress` defines for step and next, for every branch form |
| BedbugBranch.PackedReturnsIff | u-boot/common/bedbug.c:854-878 | a distance packed into an n-bit field comes back by sign extension exactly if it is word aligned and in range |
| BedbugBranch.UnconditionalAgrees | u-boot/common/bedbug.c:261-274 | main result for b, bl, ba, bla: the printed address and the stepper's target are always the same, and are the number assembled if and only if the field can express it; stepping over a call stops behind it |
| BedbugBranch.ConditionalAgrees | u-boot/common/bedbug.c:1098-1228 | main result for bc and its variants: the same where the condition is met, pc + 4 where it is not |
| BedbugBranch.RegisterBranchSteps | u-boot/common/bedbug.c:1128-1152 | bcctr and bclr, with and without link, step to the address in CTR or LR where the condition is met, else to the next instruction |
| Eeprom.WriteRunFlat | u-boot/common/cmd_eeprom.c:223-370 | on a chip whose counter runs round inside a page of at most 256 bytes the chunked writes equal one flat write |
| Eeprom.WritesFlatIff | u-boot/common/cmd_eeprom.c:201-375 | main result: chunked writing is flat writing for every request exactly when pages have at most 256 bytes or the chip is one page |
| Eeprom.ChunkInPage | u-boot/common/cmd_eeprom.c:257-273 | no write chunk is empty or crosses a page |
| Eeprom.ScriptReports | u-boot/common/cmd_eeprom.c:360-361 | the code is 1 exactly if some transfer failed, and without a failure memory is that of the flat write |
| Eeprom.ScriptPartial | u-boot/common/cmd_eeprom.c:201-375 | whatever fails, nothing outside the request changes and each byte inside is the new or the old one |
| Eeprom.Bus.EepromWrite | u-boot/common/cmd_eeprom.c:201-375 | memory, code and number of transfers of the chunk loop; a request whose end wraps 32 bits is dropped with code 0 |
| Eeprom.ChunkInBlock | u-boot/common/cmd_eeprom.c:164-177 | no read chunk crosses a 256-byte piece, so none runs round in the chip |
| Eeprom.Bus.EepromRead | u-boot/common/cmd_eeprom.c:127-190 | the buffer receives the bytes in order when no transfer fails; the code is 1 exactly if one did |
| Eeprom.Bus.WriteThenRead | u-boot/common/cmd_eeprom.c:127-370 | what was written without an error is read back, and nothing else on the chip changed |
| Fdc.SplitOnDisk | u-boot/common/cmd_fdc.c:304-309 | every block of the disk is split to a track, head and sector on the disk that give its number back |
| Fdc.JoinOnDisk | u-boot/common/cmd_fdc.c:304-309 | every place on the disk holds a block that is split to that place |
| Fdc.SplitFollows | u-boot/common/cmd_fdc.c:304-309 | the blocks lie one behind the other: next sector, next side, next track |
| Fdc.Drive.IssueCmd | u-boot/common/cmd_fdc.c:301-392 | the track, head and sector registers are set from the current block number |
| Fdc.Drive.TransferBytes | u-boot/common/cmd_fdc.c:523-562 | a read that does not break off fills its part of the buffer with the bytes at the registers' place and nothing else |
| Fdc.Drive.ReadBlocks | u-boot/common/cmd_fdc.c:516-568 | one read command stays on one side of one track and delivers the blocks at the current number |
| Fdc.Drive.ReadData | u-boot/common/cmd_fdc.c:478-594 | main result: the requested blocks arrive in order under any mix of retries and recalibrations, every read stays on one side, the loop ends, and the request succeeds exactly if no command or seek failed and fewer than 25 reads broke off |

## Left out

- MtdCommands.Mtdparts.Init: device and partition pointers are positions in the lists; memory allocation failure and list corruption are not modelled.
- MtdCommands.Mtdparts.IndexPartitions: the variable mtddevname, which is set to the current partition's name beside mtddevnum, is not modelled; a value of mtddevnum in a saved environment is taken to be a number.
- MtdCommands.FindDevAndPart: only names a user has given are compared; the source also finds a partition by its automatic name.
- MtdCommands.Mtdparts.PartDel: deletions that leave no current partition to index (the source follows a null pointer there) are excluded by its precondition; `DelCommand` has no result for them.
- MtdCommands.Mtdparts.Del: the same deletions are excluded.
- MtdScanner.GenerateMtdparts: the text is kept whole where the source would write up to nine characters behind its buffer, because the prefix is not charged to the length; the next initialisation then refuses it.
- MtdScanner.PartParse: the text of an automatic name is not kept, only that the name is automatic; sector sizes are not part of the model.
- MtdRuns.RunMirrors: runs are those whose edits leave a table that can be printed and read back; `MtdAllRuns.SafeRunMirrorsIff` and `MtdRuns.RunFollows` say what holds of the others.
- MtdAllRuns.SafeRunMirrorsIff: steps in which `mtdparts_init` replaces the ids under a table that could not be saved are excluded, because the devices then point to ids that have been freed.
- KermitEarly.WholeTurnsIff: for a sender that cuts a quote from its character the exact condition is given for one gap (`KermitEarly.EarlyHarmlessIff`); for several `KermitEarly.TurnsTaken` says what arrives.
- MtdCommands.Mtdparts.Add: the description buffer whose length is computed in eight bits is modelled by that length only.
- KermitRecv.Receiver.KRecv: a receiver that waits for a character is a separate outcome instead of a blocked call; addresses do not wrap.
- SRecordLoad.LoadSerial: writing to flash addresses and the copy of a negative length for records shorter than their address field are not modelled; the transfer size variable is the returned size.
- SRecordLoad.SaveSerial: the interruption of a dump by the user is not modelled.
- FlashCommands.PlusLengthPicks: banks without a chip are taken to have no sectors, as the drivers leave them.
- FlashCommands.FlashBanks.SectErase: the driver's own work on a sector is its answer and the list of calls.
- MemTest.Ram.TestPass: the data line test in front of it only prints its failures and does not decide the result; it is not modelled, nor is the original quick test.
- LogBuffer.LogBuff.Printk: lines longer than the 1024-byte buffer allows are excluded (the source does not check), and the copy on the console is not modelled; nor is `log show`.
- LogBuffer.LogBuff.Append: words longer than that buffer allows are excluded for the same reason.
- BedbugBranch.FindNextAddress: the search of the opcode table is a parameter; byte order conversion is the identity on this big-endian processor; mnemonics, register names and number texts are already read.
- Eeprom.Bus.EepromWrite: offsets are taken as addresses of one memory instead of device selector and address byte; the SPI, FRAM and X40430 variants, delays and write protection are not modelled.
- Fdc.Drive.ReadData: the wait for the next byte has no time limit in the source, so the controller is assumed to answer each byte with data or an error; motor, interrupts and register access are not modelled.
- CircBuf.CircBuf.Push: bytes for a buffer of size 0, which the source would write out of bounds, are excluded.
- Environment storage, console output, delays and hardware registers.
- `cmd_doc.c` (disabled in the source), `cmd_fdt.c` (built on a library that is not part of this model), `api_storage.c`, and the remaining commands, which mostly drive devices.
