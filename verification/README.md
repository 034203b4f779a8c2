# A verified model of the algorithmic core

The repository is a set of eBPF tracing tools together with the libraries they rely on. This project models
the parts of it that decide something rather than move data around, and proves what they promise. Loops,
objects and arrays of the source are methods, classes and arrays here; each is proved against a function or a
predicate that says what it computes, and the theorems are about these.

- **Control-flow graphs** (`Bpf`, `CfgSpec`, `Cfg`). `bpftool` splits an instruction array into functions,
  blocks and edges by sorted insertion into lists. `CfgSpec` says what the lists should be, without lists, and
  proves that every execution of a well-formed function is a path of the graph, and which paths are
  executions; `Cfg` is the builder over nodes that are updated in place. The builder asks that jumps stay in
  their function and that each function ends in an exit or a goto. For the theorems about execution a function
  is well-formed when also what follows a goto or an exit is a jump target, and 32-bit jumps are conditional.
  The builder treats a call at the end of a block like a conditional jump. For a call of another function it
  then draws an edge without destination, which a program shows; when all edges have one is proved.
- **BTF minimisation** (`Btf`, `BtfDepth`, `BtfgenMark`, `BtfgenAsks`, `BtfgenOutput`, `BtfgenTheorems`,
  `BtfgenRun`). Recursive marking of a type graph, compaction and renumbering. A mark is a type identifier
  with the mode in which it was visited; the set of nodes visited is closed, and all recorded relocations see
  the same types, names, offsets and sizes before and after. The methods ask only that the recursion returns
  for the relocation in hand. It does exactly when nothing it goes on to before it fails leads back to itself,
  and then nesting four times the number of types is enough; for matching there is a type for which it does
  not. `BtfgenAsks` says without the recursion what each kind of relocation asks for, and `BtfgenRun` proves
  that this and nothing else is kept.
- **Message-queue latency** (`Mq`, `MqRuns`, `MqRecords`, `MqAttribution`). Seven probe handlers share three
  maps. A handler is one step; runs are arbitrary interleavings of probes, including failing insertions and
  reservations, under a clock that does not go back. Results are about every run: times are in order, delays
  do not wrap, events are conserved and explained by calls. What an event says is compared with what happened,
  which is defined without the maps: an event can name the wrong sender, and carry the exit time of another
  thread. When it does not is proved, and runs in which it does are given. `MqRecords` says what the maps hold
  by the history of probes. The source also reads a control entry at the start of its handlers but does not
  use the result.
- **JSON output** (`JsonText`, `JsonWriter`, `JsonLayout`). A streaming writer with a one-character state
  against a recursive printer, and a parser after RFC 8259 that reads the text back. The writer leaves control
  characters other than tab, newline, form feed, carriage return and backspace as they are, so the round trip
  holds exactly for strings without them; a reader that lets them through gets every string back. A parser
  skips white space, so `JsonLayout` says where there is any.
- **Bit fields** (`Bits`, `BtfDumper`). Extraction of fields from 128 bits by shifts of two words. For a field
  that ends at bit 128 the source shifts a 64-bit word by 64, which C leaves undefined; the model yields no
  value there, and all other fields are extracted.
- **Sorting, searching, symbols** (`Reorder`, `Search`, `Hex`, `Ksym`). An in-place permutation along cycles,
  binary searches that know about duplicates, and the resolver for kernel symbols with its index that is built
  on first use. The search picks the first of equal elements, except that without an exact match it picks the
  last one when the run begins the slice; the comment in the source promises the first, a test relies on the
  last, and the model follows the code.
- **Variable-length numbers** (`Leb128`, `ReadRaw`), section 7.6 of DWARF 5. The readers overflow on the
  eleventh byte of an unsigned and on the tenth byte of a signed number; for all other inputs what they return
  is characterised, and the signed round trip holds exactly for numbers of up to 63 bits.
- **ZIP archives** (`Pod`, `ZipRecords`, `Mmap`, `Zip`, `ZipBytes`, `ZipRoundTrip`), sections 4.3.7, 4.3.12
  and 4.3.16 of the PKWARE APPNOTE. Finding the directory, iterating over entries, views on a mapping, and a
  writer whose archives are read back unless the last end record that begins after their own says something
  else.
- **Generated C** (`PrintHex`, `Datasec`). String literals as a C11 compiler reads them, and struct
  definitions as a C compiler lays them out.
- **Process maps** (`Maps`), proc(5). Lines as the kernel prints them are read back, and the filter keeps
  exactly executable mappings of files.

`Common.dfy` holds what all of them share. `dafny verify dfyconfig.toml` checks everything.

## Model

| member | source | states |
|---|---|---|
| `CfgSpec.InsertAt` | CPU_Subsystem/bpftool/src/cfg.c:63-112 | sorted insertion puts a new instruction exactly between its smaller and its larger neighbours and moves nothing else |
| `CfgSpec.InsertPresent` | CPU_Subsystem/bpftool/src/cfg.c:69-75 | inserting an instruction that is already listed changes nothing |
| `CfgSpec.SortedUnique` | CPU_Subsystem/bpftool/src/cfg.c:88-112 | a sorted list is determined by its elements, so the order in which block heads are discovered leaves no trace |
| `Bpf.Opcodes` | CPU_Subsystem/bpftool/src/cfg.c:160-187 | gotos, calls, exits, jumps and pseudo calls are exactly the instructions with these opcodes, in both classes |
| `CfgSpec.RangesTile` | CPU_Subsystem/bpftool/src/cfg.c:149-155 | ranges that end one before the next head cover everything from the first head on, each instruction once |
| `CfgSpec.StartsExact` | CPU_Subsystem/bpftool/src/cfg.c:131-147 | functions start at instruction 0 and at the targets of pseudo calls, and nowhere else |
| `CfgSpec.StartsByCalls` | CPU_Subsystem/bpftool/src/cfg.c:131-147 | by opcodes and displacements: function starts are instruction 0 and what instructions 0x85 with source register 1 lead to |
| `CfgSpec.FunctionsTile` | CPU_Subsystem/bpftool/src/cfg.c:131-158 | for every program whose pseudo calls stay inside it, the function ranges are inside, ordered, disjoint and cover the program |
| `CfgSpec.LeadersExact` | CPU_Subsystem/bpftool/src/cfg.c:165-197 | block heads are exactly the function start, the targets of jumps and the fall-throughs of conditional jumps |
| `CfgSpec.LeadersAreHeads` | CPU_Subsystem/bpftool/src/cfg.c:165-197 | the heads that one scan of a function finds are its set of heads, in order, all inside the function |
| `CfgSpec.HeadsByJumps` | CPU_Subsystem/bpftool/src/cfg.c:165-197 | by opcodes and displacements: block heads are the function start, where jumps other than calls and exits lead, and what follows those that are not gotos; no others |
| `CfgSpec.BlocksTile` | CPU_Subsystem/bpftool/src/cfg.c:199-214 | every instruction of a function lies in exactly one block |
| `CfgSpec.LastIff` | CPU_Subsystem/bpftool/src/cfg.c:199-214 | an instruction ends its block if and only if it ends the function or a head follows it |
| `CfgSpec.TargetKnown` | CPU_Subsystem/bpftool/src/cfg.c:277-331 | the target of a jump that ends a block is the head of a block |
| `CfgSpec.EdgesExact` | CPU_Subsystem/bpftool/src/cfg.c:304-327 | a block has one edge with flag 1, to the next node, unless it ends in a goto, and one with flag 2 exactly if it ends in a jump or a call but no exit, to the block whose head is at the displacement, or nowhere if there is none; the first comes first |
| `CfgSpec.NextNode` | CPU_Subsystem/bpftool/src/cfg.c:199-214 | the next node is the block that begins behind this one, or the exit node behind the last instruction |
| `CfgSpec.NoneDanglesIff` | CPU_Subsystem/bpftool/src/cfg.c:304-327 | all edges of a function have a destination if and only if each call in front of a block head has a displacement that leads to a block head |
| `CfgSpec.CallEdgeDangles` | CPU_Subsystem/bpftool/src/cfg.c:318-327 | a proper program, with a call of another function in front of a jump target, for which the builder draws an edge to nowhere |
| `CfgSpec.InsideBlock` | CPU_Subsystem/bpftool/src/cfg.c:165-214 | inside a block the only possible step is to the next instruction |
| `CfgSpec.StepFollowsGraph` | CPU_Subsystem/bpftool/src/cfg.c:165-331 | simulation, calls at the ends of blocks included: each step of execution stays in its block or follows an edge from the end of its block to the head of another |
| `CfgSpec.EdgeIsStepIff` | CPU_Subsystem/bpftool/src/cfg.c:277-331 | an edge is a step that execution can take if and only if it is not behind an exit and, behind a call, leads to the next block |
| `CfgSpec.ExitOverApproximates` | CPU_Subsystem/bpftool/src/cfg.c:304-309 | an exit has no step, yet its block has exactly one edge, to the next node: the graph is sound there but not exact |
| `CfgSpec.ExecutionsArePaths` | CPU_Subsystem/bpftool/src/cfg.c:165-352 | every execution of a well-formed function, of any length, is a prefix of the instructions along a path of its graph |
| `CfgSpec.PathsAreExecutions` | CPU_Subsystem/bpftool/src/cfg.c:277-331 | a path of the graph is an execution if and only if none of its edges is behind an exit or along the displacement of a call |
| `Cfg.FuncNode.FindBb` | CPU_Subsystem/bpftool/src/cfg.c:90-100 | the scan of the block list finds the block with a head, or the only place where it can be inserted |
| `Cfg.FuncNode.AppendBb` | CPU_Subsystem/bpftool/src/cfg.c:88-112 | the list in memory becomes the sorted insertion of the head, and the block returned has that head |
| `Cfg.FuncNode.ScanInsn` | CPU_Subsystem/bpftool/src/cfg.c:172-194 | one instruction adds exactly the heads it is responsible for |
| `Cfg.FuncNode.PartitionBbHead` | CPU_Subsystem/bpftool/src/cfg.c:165-197 | after the loop the block list has exactly the heads of the function |
| `Cfg.FuncNode.PartitionBbTail` | CPU_Subsystem/bpftool/src/cfg.c:199-214 | every block ends before the next head, the last one with the function; the blocks are numbered 2, 3, ... without gap and counted |
| `Cfg.FuncNode.AddSpecialBb` | CPU_Subsystem/bpftool/src/cfg.c:216-231 | entry and exit nodes with indices 0 and 1 surround the unchanged blocks |
| `Cfg.FuncNode.PartitionBb` | CPU_Subsystem/bpftool/src/cfg.c:233-241 | the blocks of the function with heads, ends, numbers and their count |
| `Cfg.FuncNode.SearchBbWithHead` | CPU_Subsystem/bpftool/src/cfg.c:243-254 | the search returns the one block with that head, or null exactly when there is none |
| `Cfg.FuncNode.AddEdgesOf` | CPU_Subsystem/bpftool/src/cfg.c:304-327 | a block receives the edges of its last instruction with source, destination node or null, and flag; `EdgesExact` says which these are |
| `Cfg.FuncNode.AddEntryExitEdges` | CPU_Subsystem/bpftool/src/cfg.c:283-300 | the entry is linked to the first block and the last block to the exit |
| `Cfg.FuncNode.LinkBlock` | CPU_Subsystem/bpftool/src/cfg.c:304-327 | one round of the loop adds the edges of one block and leaves all other blocks as they are |
| `Cfg.FuncNode.AddBbEdges` | CPU_Subsystem/bpftool/src/cfg.c:277-331 | after the loop the successor lists are the graph |
| `Cfg.FuncNode.NoNullDstIff` | CPU_Subsystem/bpftool/src/cfg.c:318-327 | what was built has a null destination if and only if a call at the end of a block leads to no block head |
| `Cfg.FuncNode.BuiltLists` | CPU_Subsystem/bpftool/src/cfg.c:199-331 | seen in the lists of a built function: node numbers and count, consecutive blocks from start to end, the edges of entry and exit, and for each block the edges of `EdgesExact` as objects |
| `Cfg.FuncNode.Build` | CPU_Subsystem/bpftool/src/cfg.c:340-350 | for every function whose jumps stay inside it the node lists represent its graph: heads, tails, numbers and edges, with null destinations exactly for calls that lead to no block head |
| `Cfg.ControlFlowGraph.FindFunc` | CPU_Subsystem/bpftool/src/cfg.c:68-75 | the scan of the function list finds a start, or the only place where it can be inserted |
| `Cfg.ControlFlowGraph.AppendFunc` | CPU_Subsystem/bpftool/src/cfg.c:63-86 | the function list becomes the sorted insertion of the start |
| `Cfg.ControlFlowGraph.PartitionFuncs` | CPU_Subsystem/bpftool/src/cfg.c:131-158 | the function list has exactly the starts of the program and each function ends before the next one |
| `Cfg.ControlFlowGraph.SetEnds` | CPU_Subsystem/bpftool/src/cfg.c:149-155 | each function ends one before the next start, the last one with the program |
| `Cfg.ControlFlowGraph.BuildFuncs` | CPU_Subsystem/bpftool/src/cfg.c:340-350 | every function of the list gets its graph, without disturbing the others |
| `Cfg.ControlFlowGraph.Build` | CPU_Subsystem/bpftool/src/cfg.c:333-352 | for every program whose calls and jumps stay inside all functions are there, in order, with ends and graphs, and their lists are as `BuiltLists` says |
| `Btf.ReachClosed` | CPU_Subsystem/bpftool/src/gen.c:1730-1803 | the nodes a marking visits contain everything each of them refers to in its mode |
| `Btf.ReachLeast` | CPU_Subsystem/bpftool/src/gen.c:1730-1803 | and no more: every closed set with the root contains them |
| `Btf.VisitTrue` | CPU_Subsystem/bpftool/src/gen.c:1730-1803 | the recursion succeeds if and only if no call nests deeper than allowed and every type reached is of a supported kind |
| `BtfgenMark.BtfgenInfo.MarkMember` | CPU_Subsystem/bpftool/src/gen.c:1722-1728 | exactly one member mark is added |
| `BtfgenMark.BtfgenInfo.MarkType` | CPU_Subsystem/bpftool/src/gen.c:1730-1803 | marking returns what the recursion over the graph returns, failure at the first type of a kind that is not supported included, and on success adds exactly the types reached |
| `BtfgenMark.BtfgenInfo.MarkTypeMatch` | CPU_Subsystem/bpftool/src/gen.c:1867-1954 | the same for type matching, wherever the recursion returns, cyclic types that are refused in time included; with the members of the structures that are not behind a pointer |
| `BtfgenMark.BtfgenInfo.RecordTypeRelo` | CPU_Subsystem/bpftool/src/gen.c:1965-1973 | a type or enumerator relocation adds the nodes reached and keeps the marked set closed |
| `BtfgenMark.BtfgenInfo.RecordTypeMatchRelo` | CPU_Subsystem/bpftool/src/gen.c:1960-1963 | a matching relocation adds the nodes reached with their members and keeps the marked set closed |
| `BtfgenMark.BtfgenInfo.SkipModsAndTypedefs` | CPU_Subsystem/bpftool/src/gen.c:1822-1826 | skipping typedefs and modifiers ends at a marked type that is neither |
| `BtfgenMark.BtfgenInfo.RecordHop` | CPU_Subsystem/bpftool/src/gen.c:1822-1853 | one step of an access path is the first hop of the path, marks the member and its type and stays in the closed set; it fails only if the path cannot be recorded |
| `BtfgenMark.BtfgenInfo.RecordHops` | CPU_Subsystem/bpftool/src/gen.c:1820-1855 | the loop walks the access path to its end, or fails exactly when the path cannot be recorded |
| `BtfgenMark.BtfgenInfo.RecordFieldRelo` | CPU_Subsystem/bpftool/src/gen.c:1805-1857 | a field relocation is recorded if and only if it is acceptable, with exactly the types and members on its path |
| `BtfgenMark.BtfgenInfo.RecordReloc` | CPU_Subsystem/bpftool/src/gen.c:1975-1999 | every relocation kind: success if and only if acceptable, and exactly the marks it asks for, which `MarksAsked` describes kind by kind |
| `BtfgenMark.BtfgenInfo.RecordObj` | CPU_Subsystem/bpftool/src/gen.c:2044-2128 | the relocations of an object are recorded if and only if all of them are acceptable, those behind the first refused one not being looked at; the marked set stays closed |
| `BtfgenMark.InForAll` | CPU_Subsystem/bpftool/src/gen.c:2044-2128 | what one relocation asks for is contained in what a list of relocations asks for |
| `BtfgenAsks.ReachIffNeeded` | CPU_Subsystem/bpftool/src/gen.c:1730-1954 | what a successful marking visits is exactly what chains of references lead to: through modifiers, typedefs, arrays and prototypes, through pointers only if they are followed, and through structures only when matching in front of a pointer |
| `BtfgenAsks.SucceedsIff` | CPU_Subsystem/bpftool/src/gen.c:1730-1954 | a marking that returns succeeds if and only if everything needed is of a kind that can be marked |
| `BtfgenAsks.WalkIsAccess` | CPU_Subsystem/bpftool/src/gen.c:1818-1855 | the hops recorded are those that the entries behind the first select, each from the type behind modifiers and typedefs |
| `BtfgenAsks.MarksAsked` | CPU_Subsystem/bpftool/src/gen.c:1805-1999 | for each kind of relocation the types marked are exactly those asked for: pointers are followed for types, not for enumerators and fields; matching looks at members |
| `BtfgenAsks.MarksAskedMembers` | CPU_Subsystem/bpftool/src/gen.c:1805-1999 | the members marked are exactly those on the access path of a field, or those of all structures that are matched |
| `BtfgenAsks.FieldAcceptedIff` | CPU_Subsystem/bpftool/src/gen.c:1805-1857 | a field relocation whose recording returns is accepted if and only if its entries select an access path, and what the root and the members on it are made of can be marked |
| `BtfgenAsks.AcceptedIff` | CPU_Subsystem/bpftool/src/gen.c:1960-1999 | any other relocation whose recording returns is accepted if and only if it needs nothing, or all that it needs in the mode of its kind can be marked |
| `BtfgenOutput.NewIdIncreasing` | CPU_Subsystem/bpftool/src/gen.c:2160-2206 | the identifier map is strictly increasing on marked types and never 0 on them |
| `BtfgenOutput.FieldOkIff` | CPU_Subsystem/bpftool/libbpf/src/btf.c:2187-2212 | a member can be added if and only if its offset can be recorded: whole bytes, or a size and an offset that share a 32-bit word; at 0 in unions |
| `BtfgenOutput.AddMembers` | CPU_Subsystem/bpftool/src/gen.c:2185-2200 | the copy of a structure has exactly its marked members, in order; it fails exactly when one of them cannot be added |
| `BtfgenOutput.CopyMarked` | CPU_Subsystem/bpftool/src/gen.c:2159-2210 | the first pass leaves one copy for each marked type, in order, and the identifier map in the array |
| `BtfgenOutput.VisitTypeIds` | CPU_Subsystem/bpftool/libbpf/src/btf.c:4977-5048 | every identifier of a record is renumbered and nothing else changes; only a record of unknown kind is refused |
| `BtfgenOutput.FixIds` | CPU_Subsystem/bpftool/src/gen.c:2212-2219 | the second pass renumbers every copy and cannot fail |
| `BtfgenOutput.GetBtf` | CPU_Subsystem/bpftool/src/gen.c:2139-2232 | the result exists if and only if all marked members can be added, and then consists of exactly the renumbered copies |
| `BtfgenOutput.RefsKept` | CPU_Subsystem/bpftool/src/gen.c:2130-2137 | every remapped reference is the target's own copy; it becomes void only for void, and for a pointer all of whose visits leave pointers unfollowed |
| `BtfgenOutput.OutputValid` | CPU_Subsystem/bpftool/src/gen.c:2139-2232 | the minimised BTF has no dangling reference |
| `BtfgenTheorems.UnfoldPreserved` | CPU_Subsystem/bpftool/src/gen.c:1730-1954 | the type graph seen from a marked type is, to every depth, the same before and after minimisation |
| `BtfgenTheorems.SkipModsPreserved` | CPU_Subsystem/bpftool/src/gen.c:1822-1826 | skipping typedefs and modifiers leads to corresponding types in both |
| `BtfgenTheorems.HopPreserved` | CPU_Subsystem/bpftool/src/gen.c:1722-1857 | one step of an access path reads the same member name, offset and size in the copy and leads to the corresponding type |
| `BtfgenTheorems.WalkPreserved` | CPU_Subsystem/bpftool/src/gen.c:1805-1857 | a recorded access path, with member positions renumbered among the kept ones, leads through corresponding types and reads the same |
| `BtfgenTheorems.RelocationPreserved` | CPU_Subsystem/bpftool/src/gen.c:1975-2232 | every recorded relocation, of any kind, sees in the minimised BTF what it saw in the source: the graph of its root, with sizes, encodings and element counts, and for a field the graph of each type on the access path and the members in between |
| `BtfgenOutput.MinimisedUnique` | CPU_Subsystem/bpftool/src/gen.c:2139-2232 | source and marks determine the minimised BTF |
| `BtfgenRun.MinimizeBtf` | CPU_Subsystem/bpftool/src/gen.c:2257-2296 | for every list of objects there is a result if and only if every relocation and every marked member is acceptable; it is valid, made of exactly what the relocations ask for, every relocation reads in it what it read in the source, and no pointer that a type relocation leads to loses its target |
| `BtfgenRun.KeptIffAsked` | CPU_Subsystem/bpftool/src/gen.c:2257-2296 | a type is kept if and only if some relocation of some object asks for it |
| `BtfgenRun.MembersAsked` | CPU_Subsystem/bpftool/src/gen.c:2257-2296 | a member is kept if and only if some relocation asks for it |
| `BtfgenRun.TypesServed` | CPU_Subsystem/bpftool/src/gen.c:1960-1999 | in the output of the run the root of a type relocation is there, the pointers that it leads to keep their targets, and a structure that is matched has all its members, with their types |
| `BtfDepth.ReturnsIff` | CPU_Subsystem/bpftool/src/gen.c:1730-1954 | a marking of any mode returns if and only if it does so when calls nest four times the number of types deep, and if and only if nothing it goes on to before it fails leads back to itself; deeper nesting does not change what it returns |
| `BtfDepth.GroundedIff` | CPU_Subsystem/bpftool/src/gen.c:1730-1803 | marking without pointers returns for all types if and only if typedefs, modifiers, arrays and prototypes can be ranked above the types that marking them goes on to |
| `BtfDepth.MatchingMayNotEnd` | CPU_Subsystem/bpftool/src/gen.c:1925-1944 | for a structure with a pointer to a prototype that takes the structure by value matching never ends, because the flag for pointers is reset there, while other marking does |
| `BtfDepth.RefusedInTime` | CPU_Subsystem/bpftool/src/gen.c:1919-1951 | the same structure behind a member with a type tag: matching returns, with failure, before it gets to the cycle |
| `Mq.MqDelay.MqTimedsend` | CPU_Subsystem/cpu_watcher/bpf/mq_delay.bpf.c:72-93 | the handler performs the step of its probe on the three maps and the output |
| `Mq.MqDelay.LoadMsgEnter` | CPU_Subsystem/cpu_watcher/bpf/mq_delay.bpf.c:95-108 | the same for entering load_msg |
| `Mq.MqDelay.LoadMsgLeave` | CPU_Subsystem/cpu_watcher/bpf/mq_delay.bpf.c:110-133 | the same for leaving load_msg, with an insertion that may fail |
| `Mq.MqDelay.DoMqTimedsendExit` | CPU_Subsystem/cpu_watcher/bpf/mq_delay.bpf.c:135-158 | the same for leaving the send call |
| `Mq.MqDelay.MqTimedreceiveEntry` | CPU_Subsystem/cpu_watcher/bpf/mq_delay.bpf.c:161-179 | the same for entering the receive call |
| `Mq.MqDelay.StoreMsgEnter` | CPU_Subsystem/cpu_watcher/bpf/mq_delay.bpf.c:181-208 | the same for store_msg |
| `Mq.MqDelay.DoMqTimedreceiveExit` | CPU_Subsystem/cpu_watcher/bpf/mq_delay.bpf.c:210-248 | the same for leaving the receive call, with a reservation that may fail |
| `MqRuns.StepConsistent` | CPU_Subsystem/cpu_watcher/bpf/mq_delay.bpf.c:72-248 | every step of every handler keeps keys, process identifiers and times in the maps consistent |
| `MqRuns.RunConsistent` | CPU_Subsystem/cpu_watcher/bpf/mq_delay.bpf.c:72-248 | the maps are consistent after every interleaving of the probes under a clock that does not go back |
| `MqRuns.EventsOrdered` | CPU_Subsystem/cpu_watcher/bpf/mq_delay.bpf.c:210-248 | every event of every run has its times in order; the send exit may be missing |
| `MqRuns.DelaysDoNotWrap` | CPU_Subsystem/cpu_watcher/cpu_watcher.c:664-688 | behind the filter for missing times no unsigned subtraction of the consumer wraps: the delays are the true differences, and the overall delay is exactly the true one plus, if the send did not begin before the receive, both calls' delays |
| `MqRuns.Conservation` | CPU_Subsystem/cpu_watcher/bpf/mq_delay.bpf.c:72-248 | insertions are events, waiting messages and overwritten ones; receive calls are events, open calls and abandoned ones |
| `MqRuns.RunTracked` | CPU_Subsystem/cpu_watcher/bpf/mq_delay.bpf.c:72-248 | on every run each map entry and each event has the provenance that is tracked for it |
| `MqRuns.EventsExplained` | CPU_Subsystem/cpu_watcher/bpf/mq_delay.bpf.c:110-248 | each event is explained by one send call, the load that inserted its key, and one receive call that stored this key |
| `MqRecords.SendRecorded` | CPU_Subsystem/cpu_watcher/bpf/mq_delay.bpf.c:72-133 | on every run the record of an open send call holds the arguments of the call, the source of the last load since, and the block of the last load from the buffer of the call |
| `MqRecords.InsertsIff` | CPU_Subsystem/cpu_watcher/bpf/mq_delay.bpf.c:110-133 | a message is put under a key if and only if a thread in a recorded send call leaves a load that read from the buffer of this call, and the map has room |
| `MqRecords.SentFromBuffer` | CPU_Subsystem/cpu_watcher/bpf/mq_delay.bpf.c:110-133 | the last load before a message was put under its key read from the buffer of its send call |
| `MqRecords.EventFromBuffer` | CPU_Subsystem/cpu_watcher/bpf/mq_delay.bpf.c:110-248 | the same for the message of every event of every run |
| `MqRecords.SendOpenIff` | CPU_Subsystem/cpu_watcher/bpf/mq_delay.bpf.c:72-158 | a thread has a send record if and only if it entered a recorded send call and did not leave it since while its message waited |
| `MqRecords.MessageWaitsIff` | CPU_Subsystem/cpu_watcher/bpf/mq_delay.bpf.c:110-248 | a key is in the map if and only if a message was put under it and no event was about it since |
| `MqRecords.ReceiveOpenIff` | CPU_Subsystem/cpu_watcher/bpf/mq_delay.bpf.c:161-248 | a thread has a receive record if and only if it entered a recorded receive call that did not end with an event since |
| `MqRecords.StoresIff` | CPU_Subsystem/cpu_watcher/bpf/mq_delay.bpf.c:181-208 | a key is stored for a receive call if and only if a waiting message is copied to the buffer that the call was given |
| `MqRecords.EventIff` | CPU_Subsystem/cpu_watcher/bpf/mq_delay.bpf.c:210-248 | a probe adds an event if and only if a recorded receive call is left with room in the ring buffer, a key was stored for it, and its message still waits |
| `MqRecords.WaitingRecord` | CPU_Subsystem/cpu_watcher/bpf/mq_delay.bpf.c:110-133 | the record under a key carries this key, and its source is the buffer of the send call |
| `MqRecords.ReceiveRecord` | CPU_Subsystem/cpu_watcher/bpf/mq_delay.bpf.c:161-208 | the record of an open receive call holds the arguments of the call and the destination, priority and length of the last copy stored for it |
| `MqAttribution.DeliveredOnce` | CPU_Subsystem/cpu_watcher/bpf/mq_delay.bpf.c:181-248 | a receive call is delivered at most one message, by what happened alone |
| `MqAttribution.AttributedIff` | CPU_Subsystem/cpu_watcher/bpf/mq_delay.bpf.c:72-248 | the event is about the message delivered if and only if one was delivered, its send entry, load, receive entry and store were all recorded, and its block was not inserted again before the exit |
| `MqAttribution.KeyStays` | CPU_Subsystem/cpu_watcher/bpf/mq_delay.bpf.c:110-248 | the record of a message stays in the map until the message is received |
| `MqAttribution.ReportedIff` | CPU_Subsystem/cpu_watcher/cpu_watcher.c:664-688 | an event is reported if and only if some thread's exit wrote a time into its message's record between the load and the receive exit |
| `MqAttribution.OwnExitIff` | CPU_Subsystem/cpu_watcher/bpf/mq_delay.bpf.c:135-158 | the time written last is that of the event's own send call if and only if the sender left this call in between, still had the key, and no thread wrote afterwards |
| `MqAttribution.MisattributionPossible` | CPU_Subsystem/cpu_watcher/bpf/mq_delay.bpf.c:210-248 | a run in which the event names a sender whose call began after the receiver had its message |
| `MqAttribution.StaleKeyMisleads` | CPU_Subsystem/cpu_watcher/bpf/mq_delay.bpf.c:110-248 | a run without a second insertion of the key in which the event names the sender of an earlier message in the same block |
| `MqAttribution.ForeignExitTime` | CPU_Subsystem/cpu_watcher/bpf/mq_delay.bpf.c:135-158 | a run in which an event is reported with another thread's exit time although its own sender never leaves its call |
| `JsonText.EscapedReads` | CPU_Subsystem/bpftool/src/json_writer.c:57-88 | a quoted NUL-free string reads back as itself; under RFC 8259 it does so if and only if it holds no control character that is written raw |
| `JsonText.QuoteReads` | CPU_Subsystem/bpftool/src/json_writer.c:57-88 | what is written for any buffer determines the string up to its NUL, whatever characters it holds |
| `JsonText.EscapeCodes` | CPU_Subsystem/bpftool/src/json_writer.c:61-84 | by code points: which characters are escaped, and as what |
| `JsonText.CStrEnds` | CPU_Subsystem/bpftool/src/json_writer.c:60-60 | a string ends in front of its first NUL |
| `JsonText.ValueParses` | CPU_Subsystem/bpftool/src/json_writer.c:126-202 | the printed form of a value, pretty or compact, at any depth and with any continuation, parses to the value and the continuation |
| `JsonText.RoundTrip` | CPU_Subsystem/bpftool/src/json_writer.c:29-202 | printing and strict parsing (RFC 8259) of the text is the identity if and only if no string holds such a control character |
| `JsonWriter.Writer.Indent` | CPU_Subsystem/bpftool/src/json_writer.c:29-34 | four spaces for each level are written |
| `JsonWriter.Writer.WriteEol` | CPU_Subsystem/bpftool/src/json_writer.c:37-44 | a newline and the indentation, only when pretty |
| `JsonWriter.Writer.WriteEor` | CPU_Subsystem/bpftool/src/json_writer.c:47-52 | the pending separator is written and a comma becomes due |
| `JsonWriter.Writer.PutChar` | CPU_Subsystem/bpftool/src/json_writer.c:60-85 | each character is written as its escape or as itself |
| `JsonWriter.Writer.Puts` | CPU_Subsystem/bpftool/src/json_writer.c:57-88 | the string is written in quotes with all its escapes, up to a NUL |
| `JsonWriter.Writer.WriteBegin` | CPU_Subsystem/bpftool/src/json_writer.c:126-132 | opening a container |
| `JsonWriter.Writer.WriteEnd` | CPU_Subsystem/bpftool/src/json_writer.c:134-143 | closing a container |
| `JsonWriter.Writer.WriteName` | CPU_Subsystem/bpftool/src/json_writer.c:147-156 | writing a member name |
| `JsonWriter.Writer.Do` | CPU_Subsystem/bpftool/src/json_writer.c:114-202 | every public call acts on output, depth and separator like the step function of the writer |
| `JsonWriter.ValueWritten` | CPU_Subsystem/bpftool/src/json_writer.c:126-202 | the calls for a value can be made from every state and lead to the state with its text written |
| `JsonWriter.DocumentWritten` | CPU_Subsystem/bpftool/src/json_writer.c:114-202 | from every state the well-nested calls for a tree write exactly its printed form, restore the depth and leave a comma due |
| `JsonWriter.CommaDue` | CPU_Subsystem/bpftool/src/json_writer.c:47-143 | after any calls, well-nested or cut short, the separator is a comma if and only if the innermost container is not empty and no name is pending |
| `JsonWriter.NewWriterRoundTrip` | CPU_Subsystem/bpftool/src/json_writer.c:90-202 | a document written by a new writer is the printed form of its tree, and parses back to it when clean |
| `JsonLayout.PrintGoes` | CPU_Subsystem/bpftool/src/json_writer.c:29-156 | the text of a value closes what it opens, has white space only where the layout puts it, and breaks lines, when pretty, once in front of each name and of each closing bracket of a container that is not empty |
| `JsonLayout.CompactText` | CPU_Subsystem/bpftool/src/json_writer.c:37-44 | compact text has no line break and no blank outside strings, and does not depend on the depth |
| `JsonLayout.PrettyText` | CPU_Subsystem/bpftool/src/json_writer.c:29-44 | in pretty text every line break is followed by four blanks for each open container and then a name or a closing bracket; other blanks outside strings are behind colons |
| `JsonLayout.AnyCompactCalls` | CPU_Subsystem/bpftool/src/json_writer.c:37-156 | from any compact state, after any calls, well-nested or cut short, the output keeps to this layout |
| `JsonLayout.NewCompactWriter` | CPU_Subsystem/bpftool/src/json_writer.c:90-156 | whatever calls a new compact writer gets, its output has no line break, and blanks only inside strings |
| `BtfDumper.LeftShiftMeaning` | CPU_Subsystem/bpftool/src/btf_dumper.c:324-332 | the two-word left shift multiplies the 128-bit number by a power of two, modulo 2^128 |
| `BtfDumper.RightShiftMeaning` | CPU_Subsystem/bpftool/src/btf_dumper.c:334-341 | the two-word right shift divides it |
| `BtfDumper.ShiftsExtract` | CPU_Subsystem/bpftool/src/btf_dumper.c:361-375 | shifting left and right by the computed amounts isolates the bits of the field |
| `BtfDumper.IntParts` | CPU_Subsystem/bpftool/src/btf_dumper.c:382-388 | offset and number of bits are the third and the first byte of an integer's word |
| `BtfDumper.DefinedIff` | CPU_Subsystem/bpftool/src/btf_dumper.c:324-372 | no word is shifted by its width or more if and only if the field is not empty and ends before bit 128 |
| `BtfDumper.Int128Shift` | CPU_Subsystem/bpftool/src/btf_dumper.c:310-349 | the in-place shift of the two words is multiplication modulo 2^128 followed by division, whenever all shifts are defined in C |
| `BtfDumper.Bitfield` | CPU_Subsystem/bpftool/src/btf_dumper.c:351-375 | for every buffer and every field that is not empty and ends before bit 128 the value printed is bits [offset, offset + bits) of the little-endian number in the buffer; a field that ends at bit 128 or is empty needs an undefined shift |
| `BtfDumper.FieldBelow` | CPU_Subsystem/bpftool/src/btf_dumper.c:361-364 | bytes above those that are copied do not matter |
| `BtfDumper.FieldAbove` | CPU_Subsystem/bpftool/src/btf_dumper.c:389-390 | skipping whole bytes and keeping the remainder addresses the same bits |
| `BtfDumper.IntBitsOf` | CPU_Subsystem/bpftool/src/btf_dumper.c:378-393 | with the integer's own offset added and renormalised, the value is exactly the field of the original buffer, again unless a shift is undefined |
| `Reorder.SwapPermutes` | CPU_Subsystem/blazesym/src/util.rs:20-26 | a swap keeps the target positions a permutation |
| `Reorder.SwapShrinks` | CPU_Subsystem/blazesym/src/util.rs:20-26 | every swap lowers the number of misplaced elements, which is why the inner loop ends |
| `Reorder.SwapKeeps` | CPU_Subsystem/blazesym/src/util.rs:20-26 | swapping both arrays keeps every element together with its target position |
| `Reorder.SwapToPlace` | CPU_Subsystem/blazesym/src/util.rs:20-26 | the swap in both arrays, with fewer elements out of place |
| `Reorder.FillPlace` | CPU_Subsystem/blazesym/src/util.rs:19-27 | after the inner loop the right element is at its place, and so are all before it |
| `Reorder.Reorder` | CPU_Subsystem/blazesym/src/util.rs:15-28 | for every permutation each element ends at its target position and the index array is sorted |
| `Reorder.SortPairsOf` | CPU_Subsystem/blazesym/src/util.rs:45-50 | sorting the numbered elements keeps every element with its position, duplicates included |
| `Reorder.WithOrderedElems` | CPU_Subsystem/blazesym/src/util.rs:35-55 | an element-wise handler that sees sorted input returns its results in the order of the original input |
| `Search.PartitionPoint` | CPU_Subsystem/blazesym/src/util.rs:100 | the number of elements below the item |
| `Search.FindLowestMatchByKey` | CPU_Subsystem/blazesym/src/util.rs:96-116 | the first element with the key, or none exactly when no element has it |
| `Search.FindMatchOrLowerBoundByKey` | CPU_Subsystem/blazesym/src/util.rs:128-163 | none if and only if all keys are above the item; otherwise a greatest key not above it, the first of its run unless there is no exact match and the run begins the slice: then the last |
| `Search.LastOfFirstRun` | CPU_Subsystem/blazesym/src/util.rs:152-163 | at a slice that begins with two elements below the item the last of them is found |
| `Search.FirstIff` | CPU_Subsystem/blazesym/src/util.rs:128-163 | the answer is the first of its run if and only if there is an exact match, or a key other than the smallest is not above the item, or the smallest key occurs once |
| `Search.AnswerUnique` | CPU_Subsystem/blazesym/src/util.rs:128-163 | this description determines the index |
| `Ksym.Load` | CPU_Subsystem/blazesym/src/ksym.rs:65-86 | the loop keeps exactly the lines with a number other than 0 up to the first short line |
| `Ksym.LoadedStops` | CPU_Subsystem/blazesym/src/ksym.rs:72-74 | everything from the first short line on is ignored |
| `Ksym.ShownLoaded` | CPU_Subsystem/blazesym/src/ksym.rs:65-86 | a file in the format of /proc/kallsyms is loaded as the symbols it shows, in order, with address and name, except those with address 0 |
| `Ksym.InsertSymAt` | CPU_Subsystem/blazesym/src/ksym.rs:88-88 | insertion keeps symbols with equal addresses in their order |
| `Ksym.SortSymsStable` | CPU_Subsystem/blazesym/src/ksym.rs:88-88 | the sorted list has the same symbols and keeps the order of those with equal addresses |
| `Ksym.IndexGreatest` | CPU_Subsystem/blazesym/src/ksym.rs:97-107 | the name index knows exactly the names, each with the greatest address under it |
| `Ksym.KSymResolver.constructor` | CPU_Subsystem/blazesym/src/ksym.rs:59-95 | the resolver holds the loaded symbols in sorted order and no index yet |
| `Ksym.KSymResolver.EnsureSymToAddr` | CPU_Subsystem/blazesym/src/ksym.rs:97-107 | the index is complete afterwards, whether or not it was built before |
| `Ksym.KSymResolver.FindKsym` | CPU_Subsystem/blazesym/src/ksym.rs:109-112 | the symbol is the one the duplicate-aware search answers |
| `Ksym.KSymResolver.FindAddr` | CPU_Subsystem/blazesym/src/ksym.rs:126-145 | the greatest address under the name, nothing exactly for variables and unknown names |
| `Ksym.FoundExactly` | CPU_Subsystem/blazesym/src/ksym.rs:121-124 | looking up the address of a symbol finds the first symbol at that address |
| `Ksym.NameLeadsToSymbol` | CPU_Subsystem/blazesym/src/ksym.rs:59-145 | for every file: the address found for a name is the greatest listed under it, and leads back to the symbol the file lists first at that address |
| `Hex.RoundTrip` | CPU_Subsystem/blazesym/src/maps.rs:126-137 | a number below 2^64 printed in hexadecimal, padded or not, parses back |
| `Hex.ParseExact` | CPU_Subsystem/blazesym/src/maps.rs:126-137 | a text is parsed if and only if it consists of hexadecimal digits, perhaps behind a plus sign, and stands for a number below 2^64; the result is that number |
| `Hex.DigitIff` | CPU_Subsystem/blazesym/src/maps.rs:126-137 | the digits are 0 to 9 and a to f in both cases |
| `Hex.PrintShort` | CPU_Subsystem/blazesym/src/maps.rs:165-168 | a number is printed in lower case without leading zeros, and parses back |
| `ReadRaw.Cursor.ReadSlice` | CPU_Subsystem/blazesym/src/util.rs:356-361 | a read returns and removes exactly the bytes asked for, or leaves the pointer where it was |
| `ReadRaw.Cursor.ReadU64Leb128` | CPU_Subsystem/blazesym/src/util.rs:309-325 | the loop computes the decoding function and consumes exactly the bytes of the number |
| `ReadRaw.Cursor.ReadI64Leb128` | CPU_Subsystem/blazesym/src/util.rs:331-336 | the same for signed numbers, with sign extension by two shifts |
| `Leb128.OrGroup` | CPU_Subsystem/blazesym/src/util.rs:314-316 | or-ing the next seven bits into place adds them, modulo 2^64 |
| `Leb128.SignedIsExtended` | CPU_Subsystem/blazesym/src/util.rs:331-336 | the two's complement value is the sign extension from the last group's bit 6 |
| `Leb128.ExtendSignMeaning` | CPU_Subsystem/blazesym/src/util.rs:333-334 | shifting up and arithmetically down is that sign extension |
| `Leb128.RoundTripU` | CPU_Subsystem/blazesym/src/util.rs:309-325 | decoding the encoding of any 64-bit number, followed by anything, returns the number and the byte count |
| `Leb128.RoundTripI` | CPU_Subsystem/blazesym/src/util.rs:331-336 | a signed number is read back if and only if 63 bits are enough for it; the ten bytes of all others overflow the reader |
| `Leb128.ExactIff` | CPU_Subsystem/blazesym/src/util.rs:309-325 | what is decoded is the number the bytes stand for, unless a tenth byte holds more than the 64th bit |
| `Pod.PutAt` | CPU_Subsystem/blazesym/src/zip.rs:33-112 | every field of a packed record is found at its place |
| `ZipRecords.EndWritable` | CPU_Subsystem/blazesym/src/zip.rs:35-59 | for every end record that fits there are 22 bytes that are read as it; `EndWritten` says where the fields are |
| `ZipRecords.CdWritable` | CPU_Subsystem/blazesym/src/zip.rs:67-90 | for every directory record that fits there are 46 bytes that are read as it; `CdWritten` says where the fields are |
| `ZipRecords.LocalWritable` | CPU_Subsystem/blazesym/src/zip.rs:98-112 | for every local header that fits there are 30 bytes that are read as it; `LocalWritten` says where the fields are |
| `ZipBytes.EndBytes` | CPU_Subsystem/blazesym/src/zip.rs:35-59 | each field of an end record is at its offset, the lowest byte first |
| `ZipBytes.CdBytes` | CPU_Subsystem/blazesym/src/zip.rs:67-90 | each field of a directory record is at its offset |
| `ZipBytes.LocalBytes` | CPU_Subsystem/blazesym/src/zip.rs:98-112 | each field of a local header is at its offset |
| `ZipBytes.EndWritten` | CPU_Subsystem/blazesym/src/zip.rs:35-59 | the bytes of a written end record, field by field |
| `ZipBytes.CdWritten` | CPU_Subsystem/blazesym/src/zip.rs:67-90 | the bytes of a written directory record, field by field |
| `ZipBytes.LocalWritten` | CPU_Subsystem/blazesym/src/zip.rs:98-112 | the bytes of a written local header, field by field |
| `Zip.TryParseEndOfCd` | CPU_Subsystem/blazesym/src/zip.rs:286-304 | the attempt agrees with its description by positions |
| `ZipBytes.EndInBytes` | CPU_Subsystem/blazesym/src/zip.rs:286-304 | on raw bytes: signature, complete comment, a single disk, equal counts; then directory offset from bytes 16 to 19 and count from bytes 8 and 9 |
| `Zip.FindCd` | CPU_Subsystem/blazesym/src/zip.rs:308-342 | the highest offset in the window at which an end record parses decides; there is no directory if and only if none parses |
| `ZipBytes.WindowExact` | CPU_Subsystem/blazesym/src/zip.rs:308-322 | the search covers exactly the offsets with 22 to 22 + 65536 bytes to the end |
| `Zip.DirectoryUnique` | CPU_Subsystem/blazesym/src/zip.rs:308-342 | the outcome of the search is determined by the archive |
| `Zip.DirectoryInside` | CPU_Subsystem/blazesym/src/zip.rs:325-335 | the directory found lies inside the archive, so taking its bytes cannot fail |
| `Zip.ParseEntryAtOffset` | CPU_Subsystem/blazesym/src/zip.rs:163-202 | reading a local entry with a cursor agrees with its description by positions, errors included; `EntryInBytes` gives it by bytes |
| `ZipBytes.EntryInBytes` | CPU_Subsystem/blazesym/src/zip.rs:163-202 | on raw bytes: signature, bits 0 and 3 of the flags refused, the path from byte 30 on with the length in bytes 26 and 27, the data behind the extra field with the length in bytes 18 to 21 |
| `Zip.EntryData` | CPU_Subsystem/blazesym/src/zip.rs:187-197 | the data of an entry is the archive from its offset on |
| `Zip.EntryIter.ParseNextEntry` | CPU_Subsystem/blazesym/src/zip.rs:204-236 | one directory record is consumed, as far as it is complete, and its entry is read |
| `ZipBytes.NextRecordBytes` | CPU_Subsystem/blazesym/src/zip.rs:204-236 | on raw bytes: signature, three lengths, the offset of the entry from bytes 42 to 45, and where the next record is read, errors included |
| `Zip.EntryIter.SkipStrings` | CPU_Subsystem/blazesym/src/zip.rs:215-223 | three strings are skipped, or as many as are complete |
| `Zip.EntryIter.Next` | CPU_Subsystem/blazesym/src/zip.rs:238-245 | the items come one by one, errors included, and the iterator ends exactly when all are yielded |
| `Zip.WithMmap` | CPU_Subsystem/blazesym/src/zip.rs:274-284 | an archive is opened only with a directory inside it |
| `Zip.Listing` | CPU_Subsystem/blazesym/src/zip.rs:345-357 | there are exactly as many items as the end record promises |
| `Zip.Entries` | CPU_Subsystem/blazesym/src/zip.rs:345-357 | the iterator of an open archive is going to yield exactly its listing; creating it cannot fail |
| `Zip.EntryIsView` | CPU_Subsystem/blazesym/src/zip.rs:163-245 | the data of every entry of every archive equals the part of the archive at its offset and what constraining the mapping to it shows |
| `ZipRoundTrip.MemberRead` | CPU_Subsystem/blazesym/src/zip.rs:163-202 | a written member reads back with name, compression and data; encrypted and streamed ones are refused |
| `ZipRoundTrip.RecordRead` | CPU_Subsystem/blazesym/src/zip.rs:204-236 | a written directory record leads to its entry and to the next record |
| `ZipRoundTrip.ItemsRead` | CPU_Subsystem/blazesym/src/zip.rs:204-245 | a written directory yields all members in order |
| `ZipRoundTrip.WindowReaches` | CPU_Subsystem/blazesym/src/zip.rs:308-322 | the window reaches every end record whose comment ends the archive, for all comment lengths |
| `ZipRoundTrip.NoCommentNoneAbove` | CPU_Subsystem/blazesym/src/zip.rs:308-342 | without archive comment no later end record is possible |
| `ZipRoundTrip.RoundTrip` | CPU_Subsystem/blazesym/src/zip.rs:308-357 | every archive that fits its fields, with any bytes in front and no end record that begins after its own does, reads back its members in order |
| `ZipRoundTrip.RoundTripIff` | CPU_Subsystem/blazesym/src/zip.rs:308-342 | the directory of an archive is found if and only if no end record begins after its own begins, in the comment or across the fields of the own record, or the last one that does says the same |
| `ZipRoundTrip.CommentTakesPrecedence` | CPU_Subsystem/blazesym/src/zip.rs:308-342 | the last end record that begins after the archive's own decides, refused or not |
| `ZipRoundTrip.CommentDecides` | CPU_Subsystem/blazesym/src/zip.rs:308-342 | a comment that is an end record without comment decides what every archive contains |
| `ZipRoundTrip.CommentsMislead` | CPU_Subsystem/blazesym/src/zip.rs:308-342 | with a certain comment every archive opens as an empty one, with another none opens |
| `ZipRoundTrip.MemberLost` | CPU_Subsystem/blazesym/src/zip.rs:308-357 | the member of such an archive is lost without an error |
| `ZipRoundTrip.PlainLost` | CPU_Subsystem/blazesym/src/zip.rs:308-357 | there is such an archive: one empty member and a comment of 22 bytes |
| `Mmap.ConstrainIsSlice` | CPU_Subsystem/blazesym/src/mmap.rs:126-147 | a constrained view can be dereferenced if and only if slicing is possible, and shows the slice |
| `Mmap.InvertedAccepted` | CPU_Subsystem/blazesym/src/mmap.rs:126-136 | an inverted range inside the view is accepted unless its start is beyond 64 bits, although the resulting view cannot be dereferenced |
| `Mmap.ConstrainTwice` | CPU_Subsystem/blazesym/src/mmap.rs:126-136 | constraining twice is constraining once |
| `PrintHex.Print` | CPU_Subsystem/bpftool/src/gen.c:437-454 | the loop writes the text with its line breaks |
| `PrintHex.FirstEscape` | CPU_Subsystem/bpftool/src/gen.c:449-452 | no escape runs into the one that follows, although hexadecimal escapes have any number of digits and octal ones up to three |
| `PrintHex.HexFromLines` | CPU_Subsystem/bpftool/src/gen.c:441-448 | no line gets longer than 78 characters, and removing the continuations leaves the escapes |
| `PrintHex.LinesFull` | CPU_Subsystem/bpftool/src/gen.c:441-448 | a line is broken only when the next escape would not fit: all lines but the last have at least 75 characters |
| `PrintHex.RoundTrip` | CPU_Subsystem/bpftool/src/gen.c:437-454 | a C compiler reads every byte string back, and no line has more than 78 characters before its continuation |
| `Datasec.CodegenDatasecDef` | CPU_Subsystem/bpftool/src/gen.c:124-210 | the loop emits the pads and declarations of the section, or the first error |
| `Datasec.FieldsIff` | CPU_Subsystem/bpftool/src/gen.c:144-205 | a struct is emitted if and only if every variable that is not static begins behind the previous one and has an alignment and a declaration |
| `Datasec.FieldsFail` | CPU_Subsystem/bpftool/src/gen.c:156-204 | otherwise the first such variable decides about the error: overlap, then alignment, then declaration |
| `Datasec.DeclaredAt` | CPU_Subsystem/bpftool/src/gen.c:150-205 | every variable that is not static is declared, behind a pad up to its offset if and only if the next multiple of its 32-bit alignment is not its offset |
| `Datasec.PadsNumbered` | CPU_Subsystem/bpftool/src/gen.c:184-189 | pads are numbered 0, 1, 2, ..., so their names differ |
| `Datasec.PlacedIff` | CPU_Subsystem/bpftool/src/gen.c:181-189 | with the emitted padding a compiler puts a variable at its offset if and only if the offset is a multiple of its alignment |
| `Datasec.LaidOutIff` | CPU_Subsystem/bpftool/src/gen.c:124-210 | a C compiler lays out all variables that are not static at their recorded offsets if and only if these are multiples of the target's alignments |
| `Datasec.RightOnEveryTarget` | CPU_Subsystem/bpftool/src/gen.c:167-189 | with naturally aligned offsets the struct is right for every alignment between the 32-bit and the recorded one |
| `Datasec.MisalignedMoves` | CPU_Subsystem/bpftool/src/gen.c:181-189 | a section with a misaligned offset: a pad of length 0 is emitted and the compiler moves the variable |
| `Maps.SplitFirst` | CPU_Subsystem/blazesym/src/maps.rs:106-111 | splitting finds the first separator |
| `Maps.SplitNone` | CPU_Subsystem/blazesym/src/maps.rs:106-111 | splitting fails if and only if there is no separator |
| `Maps.TrimAround` | CPU_Subsystem/blazesym/src/maps.rs:155-157 | blanks around a text are trimmed and nothing else |
| `Maps.FieldsParse` | CPU_Subsystem/blazesym/src/maps.rs:103-188 | the fields of a line are parsed in order, whatever follows them |
| `Maps.FieldsMissing` | CPU_Subsystem/blazesym/src/maps.rs:106-153 | a line that ends early is refused for the first field that no white space follows |
| `Maps.RangeErrors` | CPU_Subsystem/blazesym/src/maps.rs:119-137 | an address range is split at its first dash, and refused without a dash or for the first side that is no number |
| `Maps.WhiteSpace` | CPU_Subsystem/blazesym/src/maps.rs:106-111 | the characters at which fields are split and those that are trimmed, by code points |
| `Maps.PathParses` | CPU_Subsystem/blazesym/src/maps.rs:155-157 | the path is what stands between the blanks behind the inode, or empty |
| `Maps.PathKinds` | CPU_Subsystem/blazesym/src/maps.rs:159-181 | an absolute path is that of a file, with the name under map_files that has its process and its range in hexadecimal; any other is a component, and without a path there is none |
| `Maps.MapsEntryIter.Next` | CPU_Subsystem/blazesym/src/maps.rs:191-222 | each call yields the entry or error of the next line that is not blank, and nothing exactly at the end |
| `Maps.ItemsOfRead` | CPU_Subsystem/blazesym/src/maps.rs:199-220 | a failed read is one error, a blank line is nothing, any other line is one item |
| `Maps.LineRoundTrip` | CPU_Subsystem/blazesym/src/maps.rs:103-222 | every mapping printed as in proc(5) reads back with range, permissions, offset and trimmed path |
| `Maps.FileRoundTrip` | CPU_Subsystem/blazesym/src/maps.rs:191-222 | a file with a line for each mapping reads back as the entries of all mappings, in order, none lost and none added |
| `Maps.ModeBits` | CPU_Subsystem/blazesym/src/maps.rs:139-142 | the four permissions are the four bits |
| `Maps.KeptIff` | CPU_Subsystem/blazesym/src/maps.rs:252-274 | a printed mapping is kept if and only if it is executable and its path begins with a slash, with range, offset and path |
| `Maps.PathRecoveredIff` | CPU_Subsystem/blazesym/src/maps.rs:161-172 | a file path is recovered, without the suffix for deleted files, if and only if it does not end in white space |
| `Maps.DeletedAmbiguous` | CPU_Subsystem/blazesym/src/maps.rs:162-163 | the path of a deleted file cannot be told from that of a file with the suffix in its name |

## Left out

- Allocation failures, printing of error messages, files, system calls and memory mapping itself.
- Big-endian hosts; signed overflow and 32-bit wrap-around of lengths and offsets in C where no contract says otherwise.
- DOT drawing and freeing of the control-flow graph; the lists are sequences of nodes, with sorted insertion as on the linked lists.
- Execution across functions: an execution is one of a single function that runs callees to completion, and the second slot of a 64-bit load counts as an instruction.
- The search for CO-RE candidates and the relocation sections of objects: target specifications are inputs, with member positions in range.
- The encoding of BTF as bytes and strings: types are records with names, marks are sets instead of reserved name offsets, and string deduplication is not modelled.
- Declaration tags, the type field of forward declarations and 64-bit enumerators beyond their values.
- Concurrency inside a probe handler: every handler is atomic, and the thread identifiers that the maps are keyed by are those of the probes.
- MqRuns.DelaysDoNotWrap: delays are real numbers, because rounding to single precision is not the point.
- Formatting of numbers by the JSON writer: the text of a literal is given, and quoted text that is written through a format is not counted as a literal; resetting a writer, and the wrap-around of its depth counter.
- The recursive dispatch of the BTF dumper over types, and its printing of the extracted words.
- The sorting routine and the partition point of the standard library are modelled by a stable insertion sort and a bisection.
- Reorder.WithOrderedElems: elements are integers and the handler maps each element on its own, without errors of its own.
- Ksym.Load: lines are given as their tokens; splitting at white space is not repeated there.
- ReadRaw.Cursor.ReadU64Leb128: an arithmetic overflow is an outcome of its own, as in builds with overflow checks; the masked shift of other builds is not modelled.
- Reading of aligned records, of C strings and of single integers from a byte slice.
- Mmap.ConstrainIsSlice: an end or start beyond 64 bits is an outcome of its own, as in builds with overflow checks.
- Decompression of ZIP members, and paths as anything but bytes.
- Datasec.CodegenDatasecDef: names and the text of declarations; sizes on the target are taken to be the recorded ones.
- C escapes other than octal and hexadecimal ones in PrintHex.First, since the printer writes no others.
- Maps.LineRoundTrip: paths are without newlines; how the kernel escapes them is not modelled.
- The other tools (CPU usage, scheduling, system call, lock and process probes), the bpftool commands around these cores, the ELF and DWARF readers: mostly plumbing, or simple counters.
