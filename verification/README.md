# chericat, modelled and proved in Dafny

chericat takes a snapshot of a CHERI process: it reads the tag bitmaps of the mapped blocks, attributes
every block to a library and a compartment, stores rows in four SQLite tables, and counts or graphs them.
This project models that logic, step by step as the C code and the Python scripts do it, and proves what
the steps keep, what whole runs keep, and what the reader of the output is shown.

| file | models |
|---|---|
| TagScan.dfy | src/cap_capture.c: tag bytes to rows |
| MemScan.dfy | src/mem_scan.c: the block loop, the seen table, attribution, the UPDATE pass |
| ElfSymbols.dfy, SymbolBatches.dfy, SymbolRows.dfy | src/elf_utils.c: the section walk and the symbol batches |
| Comparts.dfy | src/rtld_linkmap_scan.c: the comparts table and the owner of a block |
| RemoteRead.dfy | src/ptrace_utils.c: get_string and read_data |
| Fetch.dfy, Views.dfy | src/db_process.c, src/vm_caps_view.c, src/comp_caps_view.c |
| Edges.dfy, SuffixFilter.dfy, FullGraph.dfy, Labels.dfy, HitCounts.dfy, GraphEnds.dfy, CompartGraphs.dfy, CompartCounts.dfy | python/full_graph.py, python/comparts_graph.py |
| Text.dfy, Hex.dfy, RowText.dfy, Tables.dfy, Arith.dfy | strings, addresses as text, statement text, the tables, division |
| StoredRows.dfy, StoredCaps.dfy, StoredSyms.dfy | what every stored row holds, said on the process |
| EndToEnd.dfy, CompartTotals.dfy, ScanGraphs.dfy, Rescan.dfy | results across the files: scan then view, scan then graph, runs of scans |

How the outside world appears:

- The traced process is a value: tags and readability of pages as predicates on addresses, the content of
  a tagged granule, ELF files by path, the link map, the compartment names, the memory map.
- The database is an object with the four tables. The row text of an INSERT really is accumulated and
  read back: a table receives what a reader of VALUES lists finds in the text. Text fields are quote-free
  by type (`SqlText`), because the code pastes them between double quotes.
- Addresses are stored as text. The views parse them, the scripts compare them as text.
- penwidth is kept as W = 10^penwidth, so that log10(10^penwidth + 1) is W + 1 and a new edge has W = 10.
- LIKE '%x%' is substring containment.
- comparts is read by ascending compart_id, its INTEGER PRIMARY KEY (src/db_process.c:193-203).
- The IndexError of a look-up that finds no row ends a graph script; here the method returns None.
- A byte of tags is unsigned, as char is on the arm64 target. User-space addresses are plain naturals.
- What the code reads where nothing was written is an input: the record at ssect[-1] (src/mem_scan.c:209)
  and the content of ssect_captured (src/elf_utils.c:192). insert_syms_query_values (src/elf_utils.c:179) and
  insert_vm_query_values (src/mem_scan.c:117) start as NULL.

Where the code differs from what it says, the model follows the code, and a lemma says exactly when:

- The guard at src/cap_capture.c:135 compares a tag byte with the character '0'. A group of eight granules
  of which exactly the fifth and sixth are tagged is not recorded (`TagScan.AlignedBlockCaps`,
  `TagScan.ZeroCharLosesCapabilities`).
- The overview's TOTAL is documented as the capabilities found in the block, but the range test includes
  the end address (`EndToEnd.TotalExact`, `EndToEnd.TotalIsRecordedIff`).
- Text comparison of addresses is numeric comparison only for some pairs, and the scripts' range test is the
  views' only for some addresses (`Hex.TextOrderIff`, `Hex.RangeTestsAgreeIff`, `Hex.BlockTestsAgreeIff`, `Hex.OneWidthTestsAgreeIff`).
- The suffix filter lets doubly suffixed blocks through and rejects distinct libraries
  (`SuffixFilter.RejectedIff`, `SuffixFilter.OneLibrary`).
- A fetched comparts row shows a NULL parent_id as 0 (`Fetch.CompInfoForgets`).
- An edge's source need not carry its node's name (`GraphEnds.SourceIsNodeIff`, `GraphEnds.SourceInNodesIff`).
- The graph of which compartment holds capabilities into which misses connections that the weighted graph has
  (`CompartGraphs.HitRepeatedIff`, `CompartGraphs.SecondGraphMissesFirst`).
- A batch of symbols is meant to hold 200, but the flush is passed over with an unnamed symbol
  (`SymbolBatches.BatchesSmallIff`, `SymbolBatches.LongBatch`).

## Model

| member | source | states |
|---|---|---|
| Hex.ParsePrint | src/vm_caps_view.c:100-110 | strtol with base 0 reads a printed address back, and gives LONG_MAX for anything above it |
| Hex.PrintHexExact | src/mem_scan.c:247-249 | a printed address is 0x and lower-case hex digits of the value without a leading zero |
| Hex.RoundTripIff | src/mem_scan.c:247-249 | print and parse cancel if and only if the address is below 2^63 |
| Hex.StringOrderExact | python/full_graph.py:86-87 | comparing two printed addresses as text compares the numbers after cutting the longer one to the width of the shorter |
| Hex.TextOrderIff | python/full_graph.py:86-87 | exactly which pairs of addresses the text comparison orders as the numbers |
| Hex.TextRangeIff | python/full_graph.py:86-87 | for every three addresses, exactly when the two text comparisons together tell whether the address is in the range |
| Hex.RangeTestsAgreeIff | src/vm_caps_view.c:109-112 | for any address and range, exactly when the scripts' text test and the views' numeric test agree: the one cuts the longer address to the shorter width, the other cuts every address at LONG_MAX |
| Hex.BlockTestsAgreeIff | python/full_graph.py:86-87 | the same for any address and a block whose ends have one width, as a test on widths, cut addresses and LONG_MAX |
| Hex.OneWidthTestsAgreeIff | src/vm_caps_view.c:109-112 | on addresses of one width they agree if and only if the address is in the range, or it is outside and not both it and the end it passes are LONG_MAX or more |
| Hex.RangeTestsAgree | src/vm_caps_view.c:109-112 | so on addresses of one width up to LONG_MAX they agree |
| Hex.RangeTestsCanDisagree | python/full_graph.py:86-87 | of two widths: a concrete address in a range for the scripts and outside it for the views |
| Hex.CutTestsDisagree | src/vm_caps_view.c:109-112 | of one width: a concrete address outside a range for the scripts and in it for the views |
| RowText.AccumulateRow | src/cap_capture.c:155-165 | the step from NULL or "text" to "text,row" turns the comma join of the rows so far into that of one more row |
| RowText.ReadRowsBack | src/cap_capture.c:93-94 | reading the text of any non-empty list of quote-free rows gives the same list, integers and texts alike |
| RowText.JoinRowsInjective | src/mem_scan.c:246-268 | two row lists have the same statement text if and only if they are equal |
| Tables.CapRowText | src/cap_capture.c:93-94 | the text of a cap_info row, column by column |
| Tables.VmRowText | src/mem_scan.c:247-254 | the text of a vm row, column by column |
| Tables.SymRowText | src/elf_utils.c:239-247 | the text of an elf_sym row, column by column |
| Tables.CapTextInserts | src/cap_capture.c:173-181 | the accumulated cap_info text inserts exactly the rows it was made of |
| Tables.VmTextInserts | src/mem_scan.c:285-294 | the same for vm, with its four integer columns |
| Tables.SymTextInserts | src/elf_utils.c:262-273 | the same for elf_sym |
| Tables.Database.InsertCaps | src/db_process.c:250-269 | one INSERT appends the rows its text stands for and touches no other table |
| Tables.Database.InsertVm | src/db_process.c:250-269 | the same for vm |
| Tables.Database.InsertSyms | src/db_process.c:250-269 | the same for elf_sym |
| TagScan.TagByteIsZeroChar | src/cap_capture.c:130-135 | a tag byte equals the character '0' exactly when of its eight granules only the fifth and sixth are tagged |
| TagScan.ShiftOut | src/cap_capture.c:138-147 | the low bit before each shift is the tag of the next granule |
| TagScan.DecodeByte | src/cap_capture.c:136-170 | the bit loop appends a row for each tagged granule of one byte, in address order, and counts them |
| TagScan.DecodePage | src/cap_capture.c:129-172 | the byte loop does so for the 32 bytes of a page, passing over bytes equal to '0' |
| TagScan.GetTags | src/cap_capture.c:107-188 | a page's capabilities are inserted in order; the returned count is the number of rows added and at most 256; an unreadable page adds nothing |
| TagScan.BytesCapsMember | src/cap_capture.c:129-171 | which addresses of a page are recorded, for every address |
| TagScan.BlockCapsMember | src/mem_scan.c:275-279 | which addresses the page loop records from any block, page-aligned or not: tagged granules on readable pages outside the '0' groups |
| TagScan.BlockCapsAscending | src/mem_scan.c:275-279 | the recorded list is strictly ascending, so without duplicates, and stays within the pages scanned |
| TagScan.AlignedBlockCaps | src/mem_scan.c:271-279 | for a page-aligned block: recorded if and only if in the block, 16-byte aligned, tagged, readable and not in a '0' group |
| TagScan.ZeroCharLosesCapabilities | src/cap_capture.c:135 | a readable page on which two tagged granules are not recorded |
| RemoteRead.GetString | src/ptrace_utils.c:200-248 | NULL only when the first allocation or a read failed; else terminated in the buffer and equal to the remote string cut to fit; with max 0 in a buffer of at most 4096 bytes, no read across a page boundary, no page after the terminator's |
| RemoteRead.ReadChunk | src/ptrace_utils.c:221-230 | one read extends the bytes already copied and finds a NUL if there is one |
| RemoteRead.Grow | src/ptrace_utils.c:232-242 | growing keeps the copied bytes and the next chunk stays in one page |
| RemoteRead.Cut | src/ptrace_utils.c:244-245 | overwriting the last byte leaves the first totalsize-1 remote bytes as the string |
| RemoteRead.ReadBeforeTerminator | src/ptrace_utils.c:220-230 | a read after bytes without NUL touches no page beyond that of any later NUL |
| RemoteRead.ReadData | src/ptrace_utils.c:123-134 | the words of the range, rounded up to whole words, are written and nothing behind them |
| RemoteRead.ReadDataExtent | src/ptrace_utils.c:129-133 | exactly len bytes are written if and only if len is a multiple of four |
| ElfSymbols.SymbolAddressExact | src/elf_utils.c:233-247 | the stored address is base plus value with only a function's low bit taken out |
| SymbolRows.ElfRowAt | src/elf_utils.c:212-259 | the row of every named symbol of a visited symbol table stands behind those of earlier tables and symbols and holds source, name, printed value, shndx, type, bind and the printed base plus value less a function's low bit |
| SymbolRows.ElfRowsSize | src/elf_utils.c:212-259 | and there are no other rows |
| ElfSymbols.VisitedExact | src/elf_utils.c:184-282 | the walk stops right after the first section with which both kinds of table were seen, or at the end |
| ElfSymbols.Batcher.Append | src/elf_utils.c:248-259 | the text and its counter hold one more pending row; the batches executed stay |
| ElfSymbols.Batcher.Flush | src/elf_utils.c:261-274 | the pending rows become one batch in the table; no row is lost or repeated |
| ElfSymbols.StoredTableRows | src/elf_utils.c:224-277 | the symbol loop, flushes included, adds the named symbols of a table once and in order |
| ElfSymbols.BatchesExact | src/elf_utils.c:150-297 | the executed batches put together are the named symbols of the visited tables: none lost, repeated or moved |
| SymbolBatches.BatchesSmallIff | src/elf_utils.c:224-294 | no statement holds more than 200 rows if and only if no stretch of symbols between two flushes has more than 200 names, said on the symbols' indices and on which have names, over all visited tables |
| SymbolBatches.SpacedSnoc | src/elf_utils.c:261-273 | one more symbol keeps that condition exactly when the names since the last flush, its own included, are at most 200 |
| SymbolBatches.BatchesBounded | src/elf_utils.c:261-273 | so none does, rows carried over from an earlier table included, when every symbol at an index divisible by 200 has a name |
| SymbolBatches.NeverFlushed | src/elf_utils.c:225-274 | when none of them has, a table is not flushed at all, however long it is |
| SymbolBatches.LongBatch | src/elf_utils.c:225-274 | a table of 203 symbols that goes into one batch of 201 rows |
| ElfSymbols.Batcher.StoreTable | src/elf_utils.c:224-277 | the loop leaves exactly the batches and the pending rows of StoredTable, from any pending rows |
| ElfSymbols.WalkSections | src/elf_utils.c:184-282 | the tables of exactly the visited sections are stored, and the last visited section's record is in ssect |
| ElfSymbols.GetElfInfo | src/elf_utils.c:150-297 | elf_sym grows by every named symbol of the visited tables, once and in order, in exactly these batches; by nothing when the header is unreadable |
| Comparts.InsertOrReplace | src/rtld_linkmap_scan.c:270-274 | an upsert replaces the whole row under its key and nothing else |
| Comparts.InsertSubs | src/rtld_linkmap_scan.c:278-298 | the sub-compartments of an entry are upserted in order under its id |
| Comparts.ScanRtldLinkmap | src/rtld_linkmap_scan.c:237-307 | all upserts in link-map order; the returned list is the link map reversed |
| Comparts.DataAt | src/rtld_linkmap_scan.c:257-269 | the list holds every entry's id, whole path and range |
| Comparts.ScanRComparts | src/rtld_linkmap_scan.c:313-356 | name i goes to key i when both exist |
| Comparts.ApplyAt | src/rtld_linkmap_scan.c:271-292 | after any run of upserts a key holds the last row upserted under it, else its old row |
| Comparts.NameAllAt | src/rtld_linkmap_scan.c:342-347 | the name update changes no key and no column but the name |
| Comparts.RescanConverges | src/rtld_linkmap_scan.c:244-301 | scan and name update twice give the table of once, for every starting table, link map and name list |
| Comparts.EveryUpsertKeepsParents | src/rtld_linkmap_scan.c:257-297 | after each single upsert every parent_id is a key, and no key has gone |
| Comparts.ScanTableIntegrity | src/rtld_linkmap_scan.c:244-347 | a whole scan keeps parents and keys and makes every link-map id a key |
| Comparts.CompartOf | src/mem_scan.c:224-235 | the list search finds the owner by the link map |
| Comparts.OwnerExact | src/mem_scan.c:228-235 | the owner is the last link-map entry whose path is a prefix |
| Comparts.NoOwner | src/mem_scan.c:226 | -1 when no path is a prefix |
| Comparts.SuffixKeepsOwner | src/mem_scan.c:209-222 | text appended from a '(' on never changes the owner when no link-map path contains '(' |
| MemScan.SeenExact | src/mem_scan.c:149-178 | the seen table is the list of first blocks of the non-empty paths, each path once |
| MemScan.SeenTable.constructor | src/mem_scan.c:131-144 | an empty table of capacity 100 |
| MemScan.SeenTable.Holds | src/mem_scan.c:150-157 | true exactly when a seen binary has the path |
| MemScan.SeenTable.PathAt | src/mem_scan.c:182-191 | the path of the first seen binary at the reservation |
| MemScan.SeenTable.Add | src/mem_scan.c:159-177 | appends below capacity, doubling a full array and keeping its entries |
| MemScan.ReservationExact | src/mem_scan.c:184-191 | an anonymous block takes the path of the first seen binary that starts at its reservation, and only then |
| MemScan.SuffixKeepsCompartment | src/mem_scan.c:209-235 | a block's suffixes never change its compartment when no link-map path contains '(' |
| MemScan.FindPath | src/mem_scan.c:180-207 | own path, seen binary's path, Guard, Stack or Heap(others) |
| MemScan.SuffixReadsBack | src/mem_scan.c:209-222 | from the appended text alone one reads which of the two sections of the binary parsed last the block contains, and there is nothing else in it |
| MemScan.AttributePath | src/mem_scan.c:180-222 | the stored path, by the record of the binary parsed last |
| MemScan.ParseOnce | src/mem_scan.c:149-179 | a new path is parsed and recorded in both tables, a seen one is not; indices stay equal and in bounds |
| MemScan.ScanPages | src/mem_scan.c:276-278 | the page loop stores the block's capabilities in order |
| MemScan.RecordBlock | src/mem_scan.c:180-280 | one row is collected, and the capabilities are stored if the block can hold any |
| MemScan.ScanBlock | src/mem_scan.c:146-281 | one turn of the block loop keeps all tables in step |
| MemScan.ScanBlocks | src/mem_scan.c:127-294 | the block loop and the INSERT add the rows of all blocks; ssect holds one record per binary seen |
| MemScan.StampAllKeeps | src/mem_scan.c:297-314 | the UPDATE pass keeps the number of rows and every column but the four of the sections, protection, flags and vnode type included |
| MemScan.UpdatePass | src/mem_scan.c:297-314 | the records are applied in order to the whole table |
| MemScan.ScanMem | src/mem_scan.c:89-320 | all four tables after a scan, from whatever they held before |
| StoredRows.BasePathExact | src/mem_scan.c:180-207 | a block's path before the suffix: its own, that of the first block parsed before it that starts at its reservation, or Guard, Stack or Heap(others) |
| StoredRows.ReadExact | src/mem_scan.c:209-222 | the record read for the suffix is the one captured from the binary parsed last |
| StoredRows.RecordExact | src/elf_utils.c:192-210 | a record holds what was captured at the last visited section, under the binary's path, or zeroes when the header is unreadable |
| StoredRows.VmRowsExact | src/mem_scan.c:240-314 | after a scan from any contents, the row of each block: printed start and end, path with exactly the suffixes of the sections it contains, owner by the link map, protection, flags and type, and as section columns the four printed fields of the last record with its path; older rows change in the section columns alone, by the same rule |
| StoredCaps.CapRowsExact | src/cap_capture.c:93-94 | after a scan from any contents, the row of each recorded address: printed address, path of the row of its block, printed target, permissions, printed base and top |
| StoredSyms.SymRowsExact | src/elf_utils.c:224-259 | after a scan from any contents, the elf_sym row of each named symbol of a visited table stands at its place with its columns, the base being the start of the binary's first block |
| StoredSyms.SymTableSize | src/elf_utils.c:224-259 | and nothing else is added |
| Fetch.CompInfoForgets | src/db_process.c:284-410 | two comparts rows are fetched alike exactly when they differ at most in a NULL parent against parent 0 |
| Fetch.CompInfoExact | src/db_process.c:398-416 | which column of comparts becomes which field |
| Fetch.CompRowsExact | src/db_process.c:398-416 | a list is what a fetch of comparts delivers if and only if it is ascending by id, holds converted rows of the table only, and misses none |
| Fetch.CapsForLibExact | src/db_process.c:595-605 | the library filter keeps every matching row with its multiplicity and no other |
| Fetch.CapsForLibAt | src/db_process.c:595-605 | and in the order of the table |
| Fetch.FetchRows | src/db_process.c:515-533 | entered and left with index 0; every callback writes inside the allocation; success returns exactly the rows |
| Fetch.DbProcess.GetAllVmInfo | src/db_process.c:515-533 | the rows of vm, all indices 0 again |
| Fetch.DbProcess.GetAllCapInfo | src/db_process.c:535-553 | the rows of cap_info, all indices 0 again |
| Fetch.DbProcess.GetCapInfoForLib | src/db_process.c:595-616 | the rows of the library filter, through the index shared with the previous one |
| Fetch.DbProcess.GetAllSymInfo | src/db_process.c:555-573 | the rows of elf_sym, all indices 0 again |
| Fetch.DbProcess.GetAllCompInfo | src/db_process.c:575-593 | the converted rows of comparts by ascending id, all indices 0 again |
| Fetch.Perform | src/db_process.c:515-616 | one insert or one fetch, failed or not, answers like the plain tables |
| Fetch.Run | src/db_process.c:515-616 | any interleaving of inserts and complete fetches does |
| Views.Tally | src/vm_caps_view.c:103-135 | the five counters of one range and the density |
| Views.RowExact | src/vm_caps_view.c:109-142 | the five counts are the numbers of capabilities in the range with the letters of each column and without the others, and the density is 100 times total over all capabilities, absent when there are none |
| Views.VmCapsView | src/vm_caps_view.c:60-135 | one row per vm row over all capabilities fetched |
| Views.CompCapsView | src/comp_caps_view.c:59-134 | one row for each compartment of the table, by ascending id, over all capabilities fetched |
| Views.ClassesPartition | src/vm_caps_view.c:114-133 | ro+rw+rx+rwx is the number of counted capabilities with 'r' |
| Views.CompNeverExceedsVm | src/comp_caps_view.c:108-112 | the compartment view never counts more than the vm view for the same range |
| Views.TimesCountedExact | src/vm_caps_view.c:112 | over sorted disjoint blocks an address is counted once for the block it is in and once for the block it ends |
| Views.TotalsConserve | src/vm_caps_view.c:84-140 | over non-empty disjoint blocks in address order, and any stored capabilities, the TOTALs sum to the capabilities in some block plus those at some block's end |
| Views.CoveredTotalsConserve | src/vm_caps_view.c:84-140 | when such blocks cover all locations: all capabilities plus those at some block's end |
| Views.DensityUnderReplay | src/vm_caps_view.c:142 | k copies of the capabilities multiply TOTAL by k and leave the density |
| EndToEnd.CountOfBlock | src/vm_caps_view.c:109-113 | how many addresses recorded from block j are counted for block i |
| EndToEnd.StoredRange | src/vm_caps_view.c:100-101 | the view's range for a stored block is the block's own |
| CompartTotals.CompartRanges | src/comp_caps_view.c:89-96 | after a scan into empty tables the compartments are the ids of the link map, and each is shown with the range the linker gave last for its id, cut at LONG_MAX |
| CompartTotals.CompartRowExact | src/rtld_linkmap_scan.c:257-347 | after a scan from any contents, every column of every comparts row: under an id of the link map those of the entry or sub-compartment given last, its parent the entry it belongs to; under other ids what was there; the names on top |
| CompartTotals.RecordedRows | src/cap_capture.c:149-170 | the stored capabilities are, row by row, those at the recorded addresses |
| CompartTotals.CompartTotalExact | src/comp_caps_view.c:104-112 | after a scan of any process, a compartment's TOTAL is the number of recorded addresses that lie in that range and whose capability points into it |
| CompartTotals.ScanThenCompView | src/chericat.c:185-216 | scan_mem and then the compartment view on an empty database show a row for every id of the link map, with these TOTALs |
| EndToEnd.SpillOverIsRecorded | src/mem_scan.c:275-279 | the end of a block is recorded from the next one exactly when that one starts there, can hold capabilities, and has its first granule tagged, on a readable page and not in a '0' group |
| EndToEnd.TotalExact | src/vm_caps_view.c:103-140 | after a scan of a page-aligned memory map below 2^63 into empty tables, TOTAL of a block is the number of capabilities recorded from it, plus one exactly when the next block spills over in this sense |
| EndToEnd.TotalIsRecordedIff | src/vm_caps_view.c:112 | TOTAL is the documented number if and only if nothing spills over, a condition on the tags at the block's end |
| EndToEnd.SpillOverHappens | src/vm_caps_view.c:112 | two adjacent pages and one tag for which both blocks report a capability |
| EndToEnd.ScannedTotalsConserve | src/vm_caps_view.c:84-140 | after a scan of such a memory map into empty tables the TOTAL column sums to all stored capabilities plus those at some block's end |
| EndToEnd.ScanThenView | src/chericat.c:185-216 | scan_mem and then the overview on an empty database show these TOTALs |
| ScanGraphs.BlocksOfOneLibrary | src/mem_scan.c:209-222 | two blocks given to one library pass the filter that is to keep them apart exactly when one contains both the .plt and the .got of the binary parsed last and the other does not contain the .plt |
| ScanGraphs.GraphRangeIsNumeric | python/full_graph.py:86-87 | on addresses of one width below 2^63 a target is in a stored block for the script if and only if it is in the block, ends included |
| ScanGraphs.ScannedWeight | python/full_graph.py:51-109 | after a scan with addresses of one width below 2^63 an edge weighs 9 plus the number of (path, recorded capability, block) of which the capability points into the block, the block is found for the path and the names are accepted |
| ScanGraphs.ScanAll | src/chericat.c:185-195 | any number of scans into one database |
| ScanGraphs.ScansThenGraph | python/full_graph.py:41-110 | after any scans no look-up of the graph fails, its nodes are the labels of the stored paths, its edges count the hits, every edge ends at a node, and it starts at one exactly as the rows of its source decide |
| ScanGraphs.ScansThenCompartGraphs | python/comparts_graph.py:40-188 | after any scans no look-up of either compartment graph fails; each edge of the first comes from some stored capability, and if that one is rooted its pair is in the second, whatever the other capabilities are |
| Rescan.ScanKeepsIntegrity | src/mem_scan.c:224-254 | a scan of any process keeps vm.compart_id and parent_id within comparts and removes no key |
| Rescan.IntegrityOverRuns | src/mem_scan.c:224-254 | so does every run of scans from empty tables |
| Rescan.CapPathsOverRuns | src/mem_scan.c:246-278 | after every run each stored capability's path is the path of some vm row |
| Rescan.StampAllRow | src/mem_scan.c:297-314 | a row ends with the columns of the last record that has its path |
| Rescan.StampAllTwice | src/mem_scan.c:297-314 | repeating the UPDATE pass changes nothing |
| Rescan.RepeatExact | src/mem_scan.c:89-320 | k scans of one process store its vm, cap_info and elf_sym rows k times over and comparts as once |
| Rescan.RescanKeepsDensities | src/vm_caps_view.c:109-142 | after k scans of a process with a recorded capability every row shows the density of the first scan and k times its TOTAL |
| SuffixFilter.RejectedIff | python/full_graph.py:88-91 | exactly which pairs of paths the four comparisons reject, over all strings |
| SuffixFilter.OneLibrary | python/full_graph.py:88-91 | exactly which pairs of suffixes of one library pass |
| SuffixFilter.SingleSuffixRejected | python/full_graph.py:85-91 | one base path with at most one suffix on each side is always rejected |
| SuffixFilter.DoublySuffixedAccepted | src/mem_scan.c:209-222 | a block with both suffixes is connected to its own library |
| SuffixFilter.DistinctLibrariesRejected | python/full_graph.py:88-91 | two different libraries that are never connected |
| SuffixFilter.StackAndGuardRejected | python/full_graph.py:57-59 | the stack and the guard blocks are never connected |
| Edges.TakeOut | python/full_graph.py:104-108 | the edge with the key is removed and its weight raised, or nothing changes |
| Edges.BumpCounts | python/full_graph.py:104-109 | remove and append counts one more hit: keys stay unique, weights stay 9 plus hits |
| Edges.WeightCounts | python/full_graph.py:106-109 | an edge exists exactly for the keys hit and weighs 9 plus the hits |
| Edges.GatherPermuted | python/full_graph.py:71-81 | the hits of a loop do not depend on the order of its list |
| FullGraph.HitSpans | python/full_graph.py:79-109 | the innermost loop counts the hits of one capability on one library |
| FullGraph.HitLibrary | python/full_graph.py:79-109 | with its look-up: it stops, as with an IndexError, exactly when a hit comes from a special name that no row has |
| FullGraph.HitCaps | python/full_graph.py:71-109 | the loop over the capabilities counts theirs, or stops |
| FullGraph.GenFullGraph | python/full_graph.py:41-110 | for any tables: a graph comes out exactly when no hit's look-up fails; then a node per distinct path under its label, and edges that count the hits over all libraries, capabilities and blocks |
| FullGraph.StoredSourcesDrawable | python/full_graph.py:93-100 | no look-up fails when every special source is the path of some row |
| Labels.SourceExact | python/full_graph.py:93-102 | the source label, said on the rows: the path, and for unknown, Stack and Guard the start of the first row that has it |
| Labels.NodeExact | python/full_graph.py:57-67 | the node's label, said on the rows: the same with the first row that contains it |
| HitCounts.DrawableIff | python/full_graph.py:86-100 | the graph comes out unless a capability under a special name that no row has hits a block of a stored path |
| HitCounts.WeightIsNumberOfHits | python/full_graph.py:51-109 | an edge, told by the two labels and the permissions, weighs 9 plus the number of (path, capability, block) with the block found for the path, the target in it as text and the names accepted; there is none when there are none |
| FullGraph.LookupsSucceed | python/full_graph.py:52-61 | both start-address look-ups of a stored path find a row |
| GraphEnds.SourceIsNodeIff | python/full_graph.py:97-100 | the label of an edge's source is that of its path's node exactly when the name is not special or the first row that contains it starts where the first row that has it starts |
| GraphEnds.SameStartIff | python/full_graph.py:52-61 | where no two rows start alike: exactly when no row that contains the name stands before the first that has it |
| GraphEnds.SourceInNodesIff | python/full_graph.py:69-109 | a source is among the nodes exactly then, or when the whole path of some row reads like its label |
| GraphEnds.EdgeEnds | python/full_graph.py:69-109 | every edge of the finished graph ends at a node and comes from a capability whose source obeys that condition |
| GraphEnds.NodesExact | python/full_graph.py:51-69 | as many nodes as stored paths, and for each path its label |
| GraphEnds.SourceCanMissItsNode | python/full_graph.py:61-100 | two rows for which it is not |
| FullGraph.HitsIgnoreOrder | python/full_graph.py:51-109 | named by any function of library path and capability, the hits do not depend on the order of libraries, capabilities or blocks |
| FullGraph.PathWeightsIgnoreOrder | python/full_graph.py:51-109 | so edge lists keyed by the two paths have the same weights in any order, without a condition |
| FullGraph.WeightsIgnoreOrder | python/full_graph.py:51-109 | those keyed by the labels have when the reordering of blocks keeps, for each of unknown, Stack and Guard, the start of the first row that has the name and of the first that contains it (SameFirstRows) |
| CompartGraphs.SrcFound | python/comparts_graph.py:104-107 | the compartment look-up of a stored path finds a row |
| CompartGraphs.DrawSpans | python/comparts_graph.py:91-116 | the innermost loop counts hits from other compartments and never draws a self-edge |
| CompartGraphs.DrawTarget | python/comparts_graph.py:93-116 | with its look-up: it stops, as with an IndexError, exactly when a hit comes from a path that no row contains |
| CompartGraphs.DrawCaps | python/comparts_graph.py:83-116 | the loop over the capabilities counts theirs, or stops |
| CompartGraphs.ShowComparts | python/comparts_graph.py:40-118 | for any tables: edges come out exactly when no hit's look-up fails; they count the hits between different compartments, with unique keys, no self-edge and weight 9 plus hits |
| CompartGraphs.RecordSpans | python/comparts_graph.py:161-187 | the innermost loop keeps each ordered pair at most once |
| CompartGraphs.RecordTarget | python/comparts_graph.py:161-187 | with its look-up: it stops exactly when a hit comes from a path that no row contains |
| CompartGraphs.RecordCaps | python/comparts_graph.py:153-187 | the loop over the capabilities does, or stops |
| CompartGraphs.ShowCompartsHasCaps | python/comparts_graph.py:120-188 | for any tables: edges come out exactly when no hit's look-up fails; each ordered pair of different compartments hit, once, and no other |
| CompartGraphs.StoredCapsDrawable | python/comparts_graph.py:104-107 | no look-up fails when every capability's path is the path of some row |
| CompartGraphs.DrawnMember | python/comparts_graph.py:93-116 | an edge is drawn if and only if some target, capability and block draw it |
| CompartCounts.TargetsExact | python/comparts_graph.py:50-76 | every path of every compartment is looked at, once however many rows have it, and nothing else is |
| CompartCounts.SourceCompartExact | python/comparts_graph.py:104-107 | the source is the compartment of the first row that contains the capability's path |
| CompartCounts.WeightIsNumberOfDraws | python/comparts_graph.py:50-116 | an edge of show_comparts, told by two different compartments and the permissions, weighs 9 plus the number of (compartment, path of it, capability, block) for which it is drawn; there is none when there are none |
| CompartCounts.RecordedIff | python/comparts_graph.py:129-187 | a pair is in the second graph if and only if a capability from the one compartment hits a block found for the file name of a path of the other |
| CompartCounts.DrawableIff | python/comparts_graph.py:98-107 | show_comparts comes out unless a capability whose path no row contains hits a block of a stored path |
| CompartCounts.BaseDrawableIff | python/comparts_graph.py:166-176 | the same for show_comparts_has_caps and file names |
| CompartGraphs.HitRepeatedIff | python/comparts_graph.py:166-171 | a hit that draws in the first graph draws in the second against the file name if and only if not both names have at most six characters and they are not extensions of one string by nothing or six characters |
| CompartGraphs.RepeatedIsRecorded | python/comparts_graph.py:161-187 | and then its pair of compartments is in the second, whatever other capabilities there are |
| CompartGraphs.FirstWithinSecond | python/comparts_graph.py:98-116 | a pair that a rooted capability connects in the first graph is connected in the second, whatever other capabilities there are |
| CompartGraphs.GraphWithinGraph | python/comparts_graph.py:129-187 | on the finished graphs: every edge of the first comes from some capability, and if from a rooted one its pair is in the second |
| CompartGraphs.ShortNamesUnseen | python/comparts_graph.py:168-171 | when no capability's path and no file name has more than six characters, the second graph has no edge |
| CompartGraphs.SecondMissesFirst | python/comparts_graph.py:166-171 | a capability on the stack into /bin/sh, hit in the first graph and in no way in the second |
| CompartGraphs.SecondGraphMissesFirst | python/comparts_graph.py:40-188 | on the finished graphs: the first has the edge, the second is empty, and no look-up failed |

## Left out

- The system and library calls themselves (ptrace, procstat, libelf, SQLite, libxo, Graphviz): they appear as inputs, tables and outputs.
- get_r_debug and the search through the auxiliary vector and program headers: layout of structures the repository does not show.
- Option parsing, usage text, signals and debug printing in src/chericat.c and src/common.c: user interface.
- st_bind, st_type and st_shndx of src/elf_utils.c: their texts are opaque inputs of a symbol, padding included.
- src/caps_syms_view.c: a first-match look-up and printing.
- python/cap_graph.py: its call of gen_node (python/cap_graph.py:96-97) does not fit gen_node, so its loops are not reached.
- Fields with double quotes, and SQL errors such texts cause.
- LIKE's case folding and its wildcards inside a path; the order in which SELECT DISTINCT delivers rows (first appearance here; path weights do not depend on it, label weights as `FullGraph.WeightsIgnoreOrder` says).
- A compartment name that is also a column name: SQLite reads the double-quoted text of the UPDATE at src/rtld_linkmap_scan.c:342-347 as that column and stores the column's value.
- Address arithmetic that wraps at 2^64, and counters beyond the C int range.
- A negative max for get_string: every caller passes 0. A remote read that reports success but delivers fewer bytes.
- Rounding of penwidth and of the printed density: weights are naturals, densities exact.
- Memory that is not released, and allocation failures outside get_string.
- Node colours, ranks and texts of the compartment graphs.
- A binary that cannot be opened or parsed as ELF at all: read_elf ends the program (src/elf_utils.c:128-148).
- Link-map entries whose path cannot be read: the C code does not get past them.
