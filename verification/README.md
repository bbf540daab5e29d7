# Verified models of U-Boot commands and preloader macros

This project models eleven pieces of the Bismarck preloader and its U-Boot 2020.01 tree whose correctness is not
visible from one function body, and proves what they are for. Loops and updates in place are methods on arrays and
objects; pure computations are functions. Each method is proved against a specification function or a property, and
the lemmas beside it say what that specification means, in terms that the code does not share with it: numerals and
the numbers they denote, the lines of a whole tree, the values in the headers of an image, the words of a help text,
the characters a terminal sends.

| piece | files |
|---|---|
| device enumeration of the U-Boot API | `DeviceEnumeration.dfy` |
| flattened device tree: property values and their text | `FdtValues.dfy`, `FdtRoundTrip.dfy`, `FdtStrings.dfy`, `FdtListLike.dfy` |
| flattened device tree: printing a tree from its tokens | `FdtPrint.dfy`, `FdtPrintLines.dfy` |
| EFI memory map, with the shell sort it uses | `EfiMemoryMap.dfy` |
| floppy disk reads | `FloppySchedule.dfy`, `FloppyRead.dfy` |
| ELF loaders, and the layout of an image | `ElfLoader.dfy`, `ElfLayout.dfy` |
| the `ethsw` command language | `EthswTables.dfy`, `EthswParser.dfy`, `EthswWords.dfy`, `EthswLanguage.dfy` |
| EEPROM access in chunks | `EepromAccess.dfy` |
| boot menu | `BootMenuKeys.dfy`, `BootMenuList.dfy`, `BootMenuRun.dfy` |
| ARM flash footer checksum | `FlashChecksum.dfy` |
| copy macros | `CopyMacros.dfy` |
| shared bytes, numbers in strings and arithmetic | `Bytes.dfy`, `Strto.dfy`, `Numerals.dfy`, `Arithmetic.dfy` |

Hardware, allocation and input are parameters: a floppy controller answers commands, seeks and bytes from three
streams and moves its heads as it is told, an EEPROM acknowledges transfers by number, `malloc` succeeds by call
number, and the keyboard is a sequence of polls. Every statement holds for all of them. Integers are unbounded; a width is written out where the code depends on it (the 32-bit end of an
EEPROM range, loop counters and checksum words, the 64-bit differences and end addresses of memory descriptors, the
8-bit fields of a floppy command).

## Where the code does less than it seems to

Each of these is a lemma or a contract that says exactly when the expected behaviour is there.

- `h_cmp_entry` orders two addresses as numbers exactly if their difference fits 64 signed bits.
- The text of a string value tells its strings if none contains a quote; with quotes, every list of strings prints
  like a single one.
- `is_printable_string` takes a value that ends in a newline for a string exactly if the byte behind it is NUL.
- The program-header loader flushes the whole segment exactly if its start is on a cache line, or if the parts of
  start and size that exceed a line fit into one and the size is no multiple of the line.
- `fdc_read_data` leaves the interrupts disabled exactly if a seek ends with a bad status behind its first READ: on a
  later track, or on the first one after five failed transfers and a recalibration.
- The strings of a device tree value come back from the parser, whatever its scratch buffer holds, exactly if the first
  does not start like a list.
- EEPROM chunks stay inside pages exactly for pages of at most 256 bytes, and the result of a read or write is that
  of its last chunk alone.
- `inline_mass_copy` equals the bytewise copy exactly if the target is not less than 32 bytes above the source.

## Model

| member | source | states |
|---|---|---|
| DeviceEnumeration.Storage.DevStorGet | uboot_v2020.01/api/api_storage.c:98-154 | the next present device of a group behind the caller's cookie, whether there is one, and that an inactive one is not a hit; an unconfigured group changes nothing |
| DeviceEnumeration.Storage.DevStorType | uboot_v2020.01/api/api_storage.c:159-169 | the first group that holds the cookie, or none |
| DeviceEnumeration.Storage.DevEnumStor | uboot_v2020.01/api/api_storage.c:180-268 | one group's turn: exactly when it is scanned, and flags and cookie afterwards |
| DeviceEnumeration.Storage.DevEnumReset | uboot_v2020.01/api/api_storage.c:270-278 | all flags are cleared |
| DeviceEnumeration.Storage.DevEnumStorage | uboot_v2020.01/api/api_storage.c:280-291 | in any state a hit is an active storage device of the reported type; in a run it is exactly the next one |
| DeviceEnumeration.Storage.DevStorIsValid | uboot_v2020.01/api/api_storage.c:293-303 | true exactly for an active device of the group |
| DeviceEnumeration.Storage.DevOpenStor | uboot_v2020.01/api/api_storage.c:306-317 | succeeds exactly for active devices of some group |
| DeviceEnumeration.Storage.DevEnumNet | uboot_v2020.01/api/api_net.c:56-71 | reports the current interface if there is one |
| DeviceEnumeration.Storage.DevOpenNet | uboot_v2020.01/api/api_net.c:32-41 | 0 if and only if the cookie is the current interface and it can be initialised, an I/O error if and only if it is that interface and cannot, and otherwise no device |
| DeviceEnumeration.Storage.ApiDevEnum | uboot_v2020.01/api/api.c:198-228 | in any state it hands out the network device, an openable storage device or null; in a run, the next device of that run, and null behind the last |
| DeviceEnumeration.Storage.ApiDevOpen | uboot_v2020.01/api/api.c:231-260 | every device the enumeration hands out from storage can be opened; one consumer at a time; every error code |
| DeviceEnumeration.Storage.ApiDevClose | uboot_v2020.01/api/api.c:263-295 | when closing succeeds, and the state afterwards |
| DeviceEnumeration.Storage.UbDevEnum | uboot_v2020.01/examples/api/glue.c:179-206 | a client that calls until null collects exactly the expected devices, or as many as it has room for |
| DeviceEnumeration.KindOfGroup | uboot_v2020.01/api/api_storage.c:49-86 | the reported type of each group has the storage bit and, of the kind bits, exactly that of ide, usb, scsi, mmc or sata |
| DeviceEnumeration.TurnAdvances | uboot_v2020.01/api/api_storage.c:180-268 | from any point of a run, one group's turn moves the run on by that group or hits the head of what is left |
| DeviceEnumeration.RunReturnsExactly | uboot_v2020.01/api/api.c:198-228 | a run returns the network device first, and of each group exactly the present devices before its first inactive one |
| DeviceEnumeration.RunIsOrdered | uboot_v2020.01/api/api_storage.c:109-153 | no device comes twice, and storage devices come in order of group and index |
| DeviceEnumeration.AllActiveRunIsComplete | uboot_v2020.01/api/api_storage.c:180-291 | if every present device is active, the run returns exactly the present ones |
| DeviceEnumeration.RunLength | uboot_v2020.01/api/api_storage.c:49-86 | a run ends within two calls more than there are device slots |
| FdtValues.FdtParseProp | uboot_v2020.01/cmd/fdt.c:797-882 | status, length and buffer are those of `ParseProp`, for every argument list; what that stores is said by `FdtRoundTrip.TypedCells` and the round trips |
| FdtValues.ParseCells | uboot_v2020.01/cmd/fdt.c:808-844 | the loop over cells, across argument boundaries, is `CellsFrom`, which `FdtRoundTrip.TypedCells` tells from the typed numerals |
| FdtValues.ParseBytes | uboot_v2020.01/cmd/fdt.c:845-866 | the loop over a byte stream |
| FdtValues.ParseStrings | uboot_v2020.01/cmd/fdt.c:868-879 | the buffer holds every string with its terminator, in order |
| FdtValues.IsPrintableString | uboot_v2020.01/cmd/fdt.c:890-925 | true exactly if all bytes are NUL, printable or space, no two NULs are adjacent, and the value ends in NUL, or in a newline with a NUL behind the value |
| FdtValues.PrintStrings | uboot_v2020.01/cmd/fdt.c:944-956 | the strings joined by separators, and where the loop index ends |
| FdtValues.PrintCells | uboot_v2020.01/cmd/fdt.c:958-970 | every cell in hexadecimal, with separators between and a bracket behind |
| FdtValues.PrintData | uboot_v2020.01/cmd/fdt.c:933-982 | which of the forms is printed for a value, and its text |
| FdtValues.TailIsJoined | uboot_v2020.01/cmd/fdt.c:944-956 | a separator before every string but the first is the same as one between any two |
| Numerals.CNumeralRead | uboot_v2020.01/lib/strto.c:17-51 | decimal, octal and hexadecimal numerals of C, digits of either case, are read as the number they denote, up to their end |
| Numerals.OctalRead | uboot_v2020.01/lib/strto.c:17-31 | digits behind a `0` are octal, unless an `x` and a digit follow a lone `0` |
| Numerals.NothingRead | uboot_v2020.01/lib/strto.c:33-51 | nothing is read if and only if no decimal digit stands there |
| Numerals.DigitsDenote | uboot_v2020.01/lib/strto.c:41-45 | what was read is a numeral of the result |
| Numerals.OneValue | uboot_v2020.01/lib/strto.c:41-45 | a numeral denotes one number |
| FdtRoundTrip.TypedCells | uboot_v2020.01/cmd/fdt.c:808-844 | cells typed as any numerals of C, in one argument or several, are stored byte by byte, most significant first; a `?` and everything behind the cells keeps its bytes |
| FdtRoundTrip.WordsAccepted | uboot_v2020.01/cmd/fdt.c:808-844 | such a list is accepted whole, with its length |
| FdtRoundTrip.HexDenotes | uboot_v2020.01/cmd/fdt.c:958-981 | what is printed for a number is a numeral of it |
| FdtRoundTrip.CellsAccepted | uboot_v2020.01/cmd/fdt.c:808-844 | any printed list of cells, however it is broken into arguments, is accepted whole |
| FdtRoundTrip.StoredCells | uboot_v2020.01/cmd/fdt.c:816-841 | each numbered cell holds its number and each kept one its old bytes |
| FdtRoundTrip.CellsRoundTrip | uboot_v2020.01/cmd/fdt.c:808-844 | printed cells, with any set of them replaced by `?` and split at spaces or not, parse back to the same bytes, the replaced ones unchanged |
| FdtRoundTrip.PrintedCells | uboot_v2020.01/cmd/fdt.c:958-970 | the text of the round trip is what is printed for a value of whole cells |
| FdtRoundTrip.ByteStreamRoundTrip | uboot_v2020.01/cmd/fdt.c:971-981 | a printed byte stream, split or not, parses back to the same bytes and length |
| FdtRoundTrip.StringsRoundTrip | uboot_v2020.01/cmd/fdt.c:868-956 | for any scratch buffer, the strings a value prints as, given back as arguments, make up the value again if the first does not start like a list |
| FdtStrings.TextTellsValue | uboot_v2020.01/cmd/fdt.c:944-956 | two terminated string values without the byte of a quote that print alike are the same |
| FdtStrings.TextTellsStrings | uboot_v2020.01/cmd/fdt.c:944-956 | strings without quotes are told by their text |
| FdtStrings.TextHidesStrings | uboot_v2020.01/cmd/fdt.c:944-956 | with quotes they are not: two strings print like one that contains the separator |
| FdtStrings.VisibleText | uboot_v2020.01/cmd/fdt.c:890-956 | a text of visible characters is printed between quotes |
| FdtStrings.ControlBytes | uboot_v2020.01/cmd/fdt.c:903-915 | a value with a byte that is neither text, space nor NUL is not printed as strings |
| FdtStrings.DumpForms | uboot_v2020.01/cmd/fdt.c:958-982 | other values print as cells if whole words, as bytes if not, and as an address above 64 bytes |
| FdtListLike.StringsComeBackIff | uboot_v2020.01/cmd/fdt.c:807-879 | the strings of a terminated value come back whatever the scratch buffer holds if and only if the first does not start with `<` or `[` |
| FdtListLike.StreamLikeFails | uboot_v2020.01/cmd/fdt.c:845-866 | a value that starts with `[` never comes back: every byte of a stream takes a character |
| FdtListLike.CellLikeFails | uboot_v2020.01/cmd/fdt.c:807-844 | a printable value that starts with `<` does not come back from a cleared buffer: its cells hold two zeros in a row or take five characters for four bytes |
| FdtPrint.PrintToken | uboot_v2020.01/cmd/fdt.c:1038-1104 | one turn of the switch over tags is the step of `Walk`, with every index into the tabs in range; the texts of whole trees are in `FdtPrintLines.PrintsShownLines` |
| FdtPrint.FdtPrint | uboot_v2020.01/cmd/fdt.c:990-1105 | output and result are those of `Walk` from the node on, for any token stream in which a node begins before one ends; what a tree prints is in `FdtPrintLines.PrintsShownLines`, what a broken stream does in `FdtPrintLines.BrokenOff` |
| FdtPrint.WalkItems | uboot_v2020.01/cmd/fdt.c:1038-1104 | wherever the contents of a node stand in a stream, the walk prints them as the recursion does and goes on behind them |
| FdtPrint.TokensEncode | uboot_v2020.01/cmd/fdt.c:1038-1104 | the flattened tokens of a tree, anywhere in a stream, encode that tree |
| FdtPrint.WalkPrintsTree | uboot_v2020.01/cmd/fdt.c:1038-1104 | behind any number of NOPs, a tree of at most 31 nested nodes is printed as by a recursive printer, with result 0; a deeper one prints a prefix of that and a complaint, with result 1 |
| FdtPrint.NodeCut | uboot_v2020.01/cmd/fdt.c:1052-1055 | the text is cut exactly if the nesting exceeds the limit, and then it is a prefix |
| FdtPrintLines.PrintsShownLines | uboot_v2020.01/cmd/fdt.c:1038-1104 | at every depth, a tree of at most 31 nested nodes prints exactly those of its lines that are not deeper than the depth, and its NOPs; a deeper tree a prefix of that and a complaint |
| FdtPrintLines.DeepEnoughShowsAll | uboot_v2020.01/cmd/fdt.c:1043-1083 | a depth of at least the number of nested nodes shows every line |
| FdtPrintLines.PrintShowsAll | uboot_v2020.01/cmd/fdt.c:454-481 | the depth of `fdt print` shows every line of every tree that is printed at all |
| FdtPrintLines.BrokenOff | uboot_v2020.01/cmd/fdt.c:1063-1103 | an unclosed node prints its lines and, at an end tag, an unknown tag or a negative length, stops with result 1 and the complaint of that case |
| FdtPrintLines.LinesLookLike | uboot_v2020.01/cmd/fdt.c:1043-1093 | the text of every kind of line |
| EfiMemoryMap.CmpIsAddressOrder | uboot_v2020.01/cmd/efi.c:59-70 | the comparison is that of the addresses if and only if their difference fits a signed 64-bit number |
| EfiMemoryMap.Qsort | uboot_v2020.01/lib/qsort.c:23-67 | the shell sort leaves a permutation, and a sorted one if the comparator orders all pairs |
| EfiMemoryMap.GapPass | uboot_v2020.01/lib/qsort.c:41-65 | one gap permutes, and gap 1 sorts what the comparator orders |
| EfiMemoryMap.TableIsOk | uboot_v2020.01/cmd/efi.c:85-117 | whatever the order, the table ends where the map ends; with boot services skipped it has no two contiguous conventional neighbours, without it is the map; and it is sorted if the map is |
| EfiMemoryMap.TableKeepsTypes | uboot_v2020.01/cmd/efi.c:52-57 | an address has a type in the table if and only if it has it in the map, boot services counting as conventional when skipped |
| EfiMemoryMap.TypesOfTable | uboot_v2020.01/cmd/efi.c:52-57 | with the types written out: skipping, no entry has type 1 to 4, an address has type 7 if and only if a descriptor of type 1, 2, 3, 4 or 7 covers it, and every other type is kept; not skipping, all types are kept |
| EfiMemoryMap.TableHeads | uboot_v2020.01/cmd/efi.c:89-117 | every entry starts with a descriptor of the map, address and attributes included, and is that descriptor unless it is conventional memory |
| EfiMemoryMap.TableKeepsPages | uboot_v2020.01/cmd/efi.c:89-117 | merging conserves the number of pages |
| EfiMemoryMap.TableDescribes | uboot_v2020.01/cmd/efi.c:85-117 | all of this for the table of a permutation, stated of the original map |
| EfiMemoryMap.Compact | uboot_v2020.01/cmd/efi.c:89-117 | the in-place loop builds that table below the entries it still has to read |
| EfiMemoryMap.EfiBuildMemTable | uboot_v2020.01/cmd/efi.c:72-123 | the types of all addresses as in `TypesOfTable`, the head of every entry, pages, maximal merging, permutation when nothing is skipped, order if all addresses are less than 2^63 apart, and an end marker that is the first one |
| EfiMemoryMap.MarkerFits | uboot_v2020.01/cmd/efi.c:78-120 | the marker lies inside the allocation for every descriptor size |
| FloppyRead.ChsOfBlock | uboot_v2020.01/cmd/fdc.c:253-274 | a track, head and sector on the disk are those of its block number |
| FloppyRead.BlockOfChs | uboot_v2020.01/cmd/fdc.c:253-274 | and every block number is that of a place on the disk |
| FloppyRead.SectSizes | uboot_v2020.01/cmd/fdc.c:417-417 | 128 bytes, doubled for every step of the code; 512 for code 2 |
| FloppyRead.FieldsFit | uboot_v2020.01/cmd/fdc.c:253-274 | for blocks of the disk the 8-bit command fields lose nothing |
| FloppyRead.FifoIsWanted | uboot_v2020.01/cmd/fdc.c:453-494 | the bytes the controller streams from one track are the next wanted ones |
| FloppyRead.Controller.FdcIssueCmd | uboot_v2020.01/cmd/fdc.c:249-340 | accepted exactly if the schedule accepts the command; code and fields of the command for the current block; where an accepted command leaves the heads, and that a READ delivers from there |
| FloppyRead.Controller.FdcRecalibrate | uboot_v2020.01/cmd/fdc.c:367-376 | counts one recalibration, succeeds exactly if the schedule accepts the command and the sense command, and then leaves the heads on track 0 |
| FloppyRead.Controller.SeekTrack | uboot_v2020.01/cmd/fdc.c:380-389 | a seek that ends well leaves the heads on the track of the current block; whether it is accepted and ends well is what the schedule says |
| FloppyRead.Controller.StartRead | uboot_v2020.01/cmd/fdc.c:442-449 | with the heads on the track of the block, an accepted READ starts at the block's track, head and sector |
| FloppyRead.Controller.Transfer | uboot_v2020.01/cmd/fdc.c:453-494 | fills its part of the buffer with the stream if and only if the schedule delivers all its bytes; breaks off at the first that is not delivered, and touches nothing outside |
| FloppyRead.Controller.Retry | uboot_v2020.01/cmd/fdc.c:468-490 | what follows a transfer error as a function of the schedule and the number of errors: every fifth recalibrates, the 25th gives up |
| FloppyRead.Controller.Turn | uboot_v2020.01/cmd/fdc.c:437-522 | at every loop head offset, block number and blocks left agree, the read is still the one the schedule calls for, and remaining blocks and retries decrease |
| FloppyRead.Controller.FdcReadData | uboot_v2020.01/cmd/fdc.c:406-527 | result, READs, recalibrations, answers used and interrupts are those of `Reading`; success if and only if no command was refused, no seek went wrong and fewer than 25 bytes were missed among the answers used; then the buffer holds the requested sectors, delivered from the tracks the heads were moved to; every READ on one track and up to its end or that of the request; a recalibration for every fifth error; interrupts lost exactly by a bad seek behind the first READ |
| FloppySchedule.ReadingTold | uboot_v2020.01/cmd/fdc.c:419-527 | for every schedule, each exit of a read if and only if the answers it met say so: a refused command, a bad seek before or behind the first READ, the 25th missed byte, or none |
| FloppySchedule.GoodAnswersSucceed | uboot_v2020.01/cmd/fdc.c:406-527 | a controller that only gives positive answers lets every read succeed: READs that follow each other over the request, three commands and one seek for each, every byte once |
| FloppySchedule.ReadsOnOneTrack | uboot_v2020.01/cmd/fdc.c:437-441 | every READ of a read ends with its track or with the request |
| FloppySchedule.BadSeekOnSecondTrack | uboot_v2020.01/cmd/fdc.c:510-521 | a family of reads that leave the interrupts disabled: the seek to the second track goes wrong |
| FloppySchedule.BadSeekOnFirstTrack | uboot_v2020.01/cmd/fdc.c:468-521 | another one, on the first track: five transfers fail, the recalibration goes well and the seek behind it goes wrong |
| ElfLoader.LoadPiece | uboot_v2020.01/cmd/elf.c:161-175 | file bytes then zeros over the target, and nothing else |
| ElfLoader.LoadElfImagePhdr | uboot_v2020.01/cmd/elf.c:148-178 | memory after the segments of all program headers, whatever their type, in order, the entry point and the flushed ranges, for any way to read the headers |
| ElfLoader.LoadElfImageShdr | uboot_v2020.01/cmd/elf.c:180-232 | the same for all allocated sections |
| ElfLoader.RoundUpIsLeast | uboot_v2020.01/include/linux/kernel.h:78-90 | rounding up gives the least multiple |
| ElfLoader.SectionFlushIsLeast | uboot_v2020.01/cmd/elf.c:225-228 | the flushed range is the smallest aligned one that covers the section |
| ElfLoader.SegmentFlushCovers | uboot_v2020.01/cmd/elf.c:172-173 | exactly when the flushed range covers the segment |
| ElfLoader.TilingLoadsTheSame | uboot_v2020.01/cmd/elf.c:161-229 | pieces that tile others load the same byte at every address |
| ElfLoader.LoadersAgree | uboot_v2020.01/cmd/elf.c:148-232 | if the sections tile the segments, both loaders leave the same memory and entry |
| ElfLoader.DoBootelf | uboot_v2020.01/cmd/elf.c:254-305 | for 32-bit and 64-bit images in either byte order: an image that is no executable leaves memory alone, otherwise what the flag chooses is loaded, and if the sections tile the segments the segments are in memory for either flag |
| ElfLayout.HeaderRead | uboot_v2020.01/include/elf.h:91-125 | from an image whose header was written field by field, 32-bit or 64-bit, in either byte order, the values of the fields are read back; it is an executable if and only if magic and type say so |
| ElfLayout.PhdrRead | uboot_v2020.01/include/elf.h:431-451 | the same for every entry of the program header table |
| ElfLayout.ShdrRead | uboot_v2020.01/include/elf.h:230-256 | the same for every entry of the section header table |
| ElfLayout.ImageLoads | uboot_v2020.01/cmd/elf.c:36-232 | what is loaded in terms of the written values: every program header; the sections with flag 2, an address and a size, zeros for type 8; the entry address, or for machine 21 with flag 1 the doubleword there |
| EthswTables.Row | uboot_v2020.01/cmd/ethsw.c:132-580 | every row is well formed and no two rows are the same |
| EthswTables.Name | uboot_v2020.01/cmd/ethsw.c:631-715 | every keyword is told by its spelling |
| EthswParser.CommandDef.MatchGen | uboot_v2020.01/cmd/ethsw.c:750-760 | writes the keyword of the word and nothing else |
| EthswParser.CommandDef.MatchPort | uboot_v2020.01/cmd/ethsw.c:763-783 | takes `port` and the number that must stand behind it |
| EthswParser.CommandDef.MatchVlan | uboot_v2020.01/cmd/ethsw.c:786-826 | takes `vlan` with a number, or with `add` or `del` and a number |
| EthswParser.CommandDef.MatchOptionalNumber | uboot_v2020.01/cmd/ethsw.c:829-848 | takes `pvid` or `aggr` and a number that may be missing |
| EthswParser.CommandDef.MatchAddress | uboot_v2020.01/cmd/ethsw.c:851-877 | takes `add` or `del`, and notes the first valid address behind one that is not broadcast |
| EthswParser.CommandDef.MatchWord | uboot_v2020.01/cmd/ethsw.c:1002-1048 | the keyword loop takes exactly the token at a word |
| EthswParser.CommandDef.Tokenise | uboot_v2020.01/cmd/ethsw.c:1002-1048 | the keys and values of all words |
| EthswParser.CommandDef.OptCheck | uboot_v2020.01/cmd/ethsw.c:902-950 | skips the longest optional part |
| EthswParser.CommandDef.Check | uboot_v2020.01/cmd/ethsw.c:956-999 | finds the row that is exactly what is left |
| EthswParser.TokensSound | uboot_v2020.01/cmd/ethsw.c:750-899 | no key is written at or behind the number of words, and each fits its word |
| EthswParser.TokensSpell | uboot_v2020.01/cmd/ethsw.c:750-1048 | words that spell a key sequence are tokenised to it |
| EthswParser.TokensValues | uboot_v2020.01/cmd/ethsw.c:763-899 | a stored value is that of the last word taken for it |
| EthswParser.TokensAddress | uboot_v2020.01/cmd/ethsw.c:851-877 | an address is kept if and only if a word is keyed as one, and it is the address of that word |
| EthswParser.CommandArguments | uboot_v2020.01/cmd/ethsw.c:1002-1083 | the values kept for a command are those its words spell |
| EthswParser.PrefixIsRight | uboot_v2020.01/cmd/ethsw.c:902-950 | the greedy optional part takes no word of any row |
| EthswParser.KeysTellRows | uboot_v2020.01/cmd/ethsw.c:956-999 | the keys determine the row |
| EthswParser.ResolveIff | uboot_v2020.01/cmd/ethsw.c:582-606 | keys resolve to a row if and only if they are an optional part and that row |
| EthswParser.LanguageIff | uboot_v2020.01/cmd/ethsw.c:750-1048 | the words resolve to a row if and only if they spell an optional part and that row |
| EthswParser.DoEthsw | uboot_v2020.01/cmd/ethsw.c:1067-1083 | a command runs if and only if it is one and the driver has it or it prints help, with the port, VLAN, group and address its words spell; usage if and only if it is none |
| EthswWords.AddressIsNoNumber | uboot_v2020.01/env/flags.c:193-214 | no word is both an Ethernet address and a number |
| EthswWords.StandardIsGood | uboot_v2020.01/lib/strto.c:53-74 | the words as U-Boot reads them meet what the parser needs |
| EthswLanguage.NumberIff | uboot_v2020.01/lib/strto.c:53-74 | a word is the number n if and only if it is a decimal numeral of n, with a newline behind it or not |
| EthswLanguage.DecimalIsNumber | uboot_v2020.01/lib/strto.c:53-74 | a number printed in decimal is read back |
| EthswLanguage.AddressIsRead | uboot_v2020.01/lib/net_utils.c:45-58 | six bytes of one or two hexadecimal digits with colons between them are read back in order |
| EthswLanguage.RowIsUsage | uboot_v2020.01/cmd/ethsw.c:16-131 | the help text and the command table name the same words, row by row |
| EthswLanguage.CommandIff | uboot_v2020.01/cmd/ethsw.c:1067-1101 | in words: a command line is that of a row if and only if it is a front part and the words of the help text |
| EthswLanguage.HelpRows | uboot_v2020.01/cmd/ethsw.c:132-580 | which commands print help |
| EthswLanguage.ArgumentsAre | uboot_v2020.01/cmd/ethsw.c:763-899 | which word of a command is its port, its VLAN, its group and its address |
| EepromAccess.LayoutIsDistinct | uboot_v2020.01/cmd/eeprom.c:84-104 | offsets whose block numbers fit beside the device address lie in different cells |
| EepromAccess.CellIs | uboot_v2020.01/cmd/eeprom.c:84-104 | chip and word address of an offset: blocks of 256 or 65536 offsets behind each other from the device address on |
| EepromAccess.ChunkStaysInside | uboot_v2020.01/cmd/eeprom.c:106-127 | with pages of at most 256 bytes a chunk is not empty, at most 128 bytes, and inside one page and one block |
| EepromAccess.ChunkIsLongest | uboot_v2020.01/cmd/eeprom.c:106-127 | a longer chunk would leave its page or the range or exceed 128 bytes |
| EepromAccess.NeverCrossesIff | uboot_v2020.01/cmd/eeprom.c:116-117 | no chunk crosses a page if and only if pages have at most 256 bytes |
| EepromAccess.CrossesLargePage | uboot_v2020.01/cmd/eeprom.c:116-117 | an offset at which every larger page is crossed |
| EepromAccess.CounterFollows | uboot_v2020.01/cmd/eeprom.c:209-214 | inside a chunk the device's wrapping address counter visits the offsets in order |
| EepromAccess.ChunksTile | uboot_v2020.01/cmd/eeprom.c:175-187 | the chunks tile the range, each starting where the one before ended |
| EepromAccess.AckedByItsChunk | uboot_v2020.01/cmd/eeprom.c:180-183 | a byte is transferred if and only if the one chunk that carries it is acknowledged |
| EepromAccess.WrittenIsRead | uboot_v2020.01/cmd/eeprom.c:202-218 | a flat write leaves each byte let through and keeps the others |
| EepromAccess.OthersKept | uboot_v2020.01/cmd/eeprom.c:202-218 | a write changes no offset outside its range |
| EepromAccess.Bus.EepromRwBlock | uboot_v2020.01/cmd/eeprom.c:129-161 | one transfer as the device carries it out, or a refusal that changes nothing |
| EepromAccess.Bus.EepromRw | uboot_v2020.01/cmd/eeprom.c:163-190 | the chunked transfer is the flat one of the acknowledged bytes; the result is that of the last chunk; a range that wraps 32 bits transfers nothing and succeeds |
| EepromAccess.Bus.WriteThenRead | uboot_v2020.01/cmd/eeprom.c:192-218 | a write and a read of the same range: a byte comes back if both its chunks were acknowledged, otherwise the old byte of device or buffer stays; both results |
| EepromAccess.Bus.RoundTrip | uboot_v2020.01/cmd/eeprom.c:192-218 | on a bus that acknowledges everything a later read returns what was written |
| BootMenuKeys.InputIsTokens | uboot_v2020.01/cmd/bootmenu.c:144-183 | every input is a sequence of keys and at most one unfinished escape sequence |
| BootMenuKeys.TokensAreInput | uboot_v2020.01/cmd/bootmenu.c:144-183 | the automaton recognises exactly the keys that were pressed |
| BootMenuKeys.Cursor | uboot_v2020.01/cmd/bootmenu.c:208-217 | the cursor stays inside the menu over any keys |
| BootMenuKeys.ArrowsMove | uboot_v2020.01/cmd/bootmenu.c:144-217 | behind any finished input, `ESC [ A` and `ESC [ 1 A` move the cursor to the entry before, `ESC [ B` and `ESC [ 1 B` to the one behind, and neither leaves the menu |
| BootMenuKeys.PlainStays | uboot_v2020.01/cmd/bootmenu.c:144-160 | a character that is no ESC, and ESC with anything but `[`, leave it where it is |
| BootMenuKeys.OthersStay | uboot_v2020.01/cmd/bootmenu.c:161-183 | so does every escape sequence that ends in neither `A` nor `B` |
| BootMenuKeys.UnfinishedStays | uboot_v2020.01/cmd/bootmenu.c:144-170 | and every unfinished one |
| BootMenuKeys.ReturnChooses | uboot_v2020.01/cmd/bootmenu.c:186-222 | the first carriage return chooses the entry under the cursor, and nothing else does |
| BootMenuKeys.Countdown | uboot_v2020.01/cmd/bootmenu.c:90-129 | 100 quiet polls a second choose the default entry; a key among them leaves it to the keys |
| BootMenuKeys.EnterDecides | uboot_v2020.01/cmd/bootmenu.c:186-187 | the first ENTER chooses the entry the keys before it lead to, even inside an escape sequence |
| BootMenuList.Taken | uboot_v2020.01/cmd/bootmenu.c:272-315 | the options taken are numbered without a gap, all have a separator, and there are at most 98 |
| Numerals.DecimalDenotes | uboot_v2020.01/cmd/bootmenu.c:302-302 | a key is the number of its entry in decimal, without leading zeros |
| BootMenuList.Heap.NewEntry | uboot_v2020.01/cmd/bootmenu.c:279-306 | an entry with title and command, or nothing left allocated |
| BootMenuList.Heap.Destroy | uboot_v2020.01/cmd/bootmenu.c:233-246 | every block of the list is freed |
| BootMenuList.Menu.Append | uboot_v2020.01/cmd/bootmenu.c:304-314 | the list stays linked and numbered |
| BootMenuList.AddOptions | uboot_v2020.01/cmd/bootmenu.c:272-318 | all options are added, or everything is freed, exactly by the allocations |
| BootMenuList.Create | uboot_v2020.01/cmd/bootmenu.c:248-366 | 1 to 99 entries numbered from 0 with their options' titles and commands and the console at the end, cursor inside; null if and only if an allocation fails, and then nothing is leaked |
| BootMenuRun.Switch | uboot_v2020.01/cmd/bootmenu.c:144-187 | one character in each state of the automaton, as `EscNext` and `Action` say; `BootMenuKeys.ArrowsMove` and its neighbours say it of the characters |
| BootMenuRun.BootmenuLoop | uboot_v2020.01/cmd/bootmenu.c:132-188 | waits for the next key and feeds it to the automaton |
| BootMenuRun.AutobootLoop | uboot_v2020.01/cmd/bootmenu.c:81-130 | times out exactly if the countdown's polls are all silent; otherwise the first key ends it and counts as a key |
| BootMenuRun.ActiveKey | uboot_v2020.01/cmd/bootmenu.c:219-222 | the walk reaches the entry under the cursor without leaving the list |
| BootMenuRun.ChoiceEntry | uboot_v2020.01/cmd/bootmenu.c:190-231 | after every key event the menu is valid and the cursor is where the characters so far lead (`BootMenuKeys.ArrowsMove`); a choice is the key of the entry under it |
| BootMenuRun.KeysAreDistinct | uboot_v2020.01/cmd/bootmenu.c:302-302 | no two entries have the same key |
| BootMenuRun.MenuItemByKey | uboot_v2020.01/common/menu.c:157-161 | the first item with the key, or none has it |
| BootMenuRun.InteractiveChoice | uboot_v2020.01/common/menu.c:186-225 | over a whole run the choice is the entry that the polls decide |
| BootMenuRun.GetChoice | uboot_v2020.01/common/menu.c:271-280 | a menu of one entry is not asked about |
| BootMenuRun.Show | uboot_v2020.01/cmd/bootmenu.c:368-446 | the command that is run is that of the entry the polls decide, or of the first option for delay 0, and all blocks of the menu are freed |
| FlashChecksum.ComputeCrc | uboot_v2020.01/cmd/armflash.c:37-56 | the complement of the one's complement sum of the words; 0 for a length that is no multiple of 4 |
| FlashChecksum.OnlyTheseWords | uboot_v2020.01/cmd/armflash.c:47-54 | only the words at the start and every fourth address behind it count |
| FlashChecksum.EachWordCounts | uboot_v2020.01/cmd/armflash.c:47-54 | and each of them does: another value is another checksum, unless 0 and 2^32 - 1 are exchanged |
| FlashChecksum.AddWordFolds | uboot_v2020.01/cmd/armflash.c:47-54 | adding with the carry brought back is addition modulo 2^32 - 1 with 0 kept apart |
| FlashChecksum.OrderDoesNotMatter | uboot_v2020.01/cmd/armflash.c:37-56 | words in any order have the same checksum |
| FlashChecksum.ZeroIff | uboot_v2020.01/cmd/armflash.c:136-144 | the checksum is 0 if and only if the sum is a positive multiple of 2^32 - 1 |
| FlashChecksum.StoredChecksumCancels | uboot_v2020.01/cmd/armflash.c:136-144 | the checksum of a zeroed slot, stored into it at any position, makes the checksum 0 |
| FlashChecksum.ChangeIsNoticed | uboot_v2020.01/cmd/armflash.c:136-144 | exactly which changes of one word of a good footer go unnoticed |
| CopyMacros.Memcpy | src/include/inline_util.h:18-18 | where every byte comes from in an upward copy, overlap included |
| CopyMacros.BackwardMemcpy | src/include/inline_util.h:20-20 | where every byte comes from in a downward copy |
| CopyMacros.MassCopy | src/include/inline_util.h:23-37 | where every byte comes from in a copy by blocks of eight words |
| CopyMacros.Wmemset | src/include/inline_util.h:17-17 | the range holds the word over and over, and nothing else changes |
| CopyMacros.UpwardRepeats | src/include/inline_util.h:18-18 | an overlapping upward copy repeats the bytes between source and target |
| CopyMacros.MemcpyMovesIff | src/include/inline_util.h:18-18 | the forward copy is a memmove on every memory if and only if the target is not above the source or they are disjoint |
| CopyMacros.BackwardMovesIff | src/include/inline_util.h:20-20 | the backward copy is one if and only if the target is not below the source or they are disjoint |
| CopyMacros.MassCopyMovesIff | src/include/inline_util.h:23-37 | the block copy is one if and only if the target is not above the source, they are disjoint, or there is one block |
| CopyMacros.MassCopyIsMemcpyIff | src/include/inline_util.h:23-37 | block and bytewise copy agree on every memory if and only if the target is not less than 32 bytes above the source, or nothing is copied |
| CopyMacros.EndsIff | src/include/inline_util.h:17-37 | the word fill ends if and only if the length is a multiple of 4, the block copy if and only if it is one of 32 |

## Left out

- Commands that only wrap other code (boot, file system, EFI debugging, AVB and similar): they have no logic of their own to prove.
- Registers, delays, time-outs, the watchdog and cache instructions: they are schedules or logged ranges here, and a floppy FIFO that never answers is not modelled.
- Block counts, hardware addresses, reads and writes of the API's storage and network devices.
- `fdt print` of a single property, and the texts of libfdt's error messages; the text of a pointer is a parameter.
- `fdt_parse_prop` on text without its closing bracket: the model reports it as undefined, as it does a full scratch buffer.
- FdtRoundTrip.StringsRoundTrip: leaves out values whose first string starts with `<` or `[`; `FdtListLike.StringsComeBackIff` shows that these do not come back.
- EfiMemoryMap.EfiBuildMemTable: asks for regions that end below 2^64, because the end address of the code wraps there and two far ends of memory could be merged.
- FloppyRead.Controller.FdcReadData: asks for a range on the disk and drives of at most two heads, because larger numbers do not fit the command.
- ElfLoader.LoadElfImagePhdr: asks for targets inside memory and apart from the image and file sizes within memory sizes, because the loader does not check them.
- ElfLoader.LoadElfImageShdr: asks for targets inside memory and apart from the image, because the loader does not check them.
- FdtPrint.FdtPrint: asks that no node ends before one begins, because the code would index its tabs out of range.
- The arguments of `bootelf`, starting the program, and the VxWorks boot line.
- EthswLanguage.NumberIff: does not model the wrap of numbers beyond an unsigned long, because no port, VLAN or group has such a number.
- The handlers behind the `ethsw` rows, which are the switch driver's.
- EepromAccess.Bus.EepromRw: does not say which bytes a transfer that crosses a page moves, because larger pages are crossed only in configurations the code does not support.
- FRAM devices, which have no pages, and the write-enable hook, which does nothing by default.
- BootMenuRun.Show: allocations of the menu library and of the copies of title and command do not fail, and the number in `bootmenu_default` is given already converted.
- What the boot menu draws.
- FlashChecksum.ComputeCrc: asks for a length below 2^31, because the counter is a signed int.
- The image tables of `armflash`, which have no bounds to prove.
- Address wrap-around and alignment in the copy macros, and the string macros.
