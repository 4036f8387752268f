# Four verified components of a C-- compiler repository

This project models four parts of the repository and proves what they promise.

1. **The C-- code generator** (`Assig4/parser.y`, `Assig4/codegen.c`): a one-pass generator of labelled
   MIPS code with a first-fit allocator over eight temporaries, loads deferred until an operator is reduced,
   a label counter with a label stack, and a fixed frame with a calling sequence.
2. **uthash** (`Assig1/uthash.h`): elements on two intrusive lists, doubling expansion, a Bloom filter, an
   in-place merge sort, and a checker for the invariant.
3. **libghthash** (`lib/libghthash-0.6.2/src/hash_table.c`, `hash_functions.c`): bucket chains and an age list
   through the same entries, self-organising chains, per-bucket eviction, rehash by rebuilding, iterators
   that tolerate removal, and a table-driven CRC.
4. **The redundant-store pass** (`Assig5/StoresRemoval/StoresRemoval.cpp`): two scans over a basic block.

Code that changes state is modelled by classes and methods that change state: `CodeGen.Generator`,
`Uthash.Hash`, `GhtTable.HashTable`, `StorePass.BasicBlock`. Each method is proved to do what a function on
values says (`GeneratorSpec`, `UthashSpec`, `GhtSpec`, `StorePass.Scan`), and the promises are proved about
those functions, for all inputs and all runs. `dafny verify dfyconfig.toml` checks everything.

| Files | Content |
|---|---|
| `wrappers`, `bits`, `sequences` | a missing result; masks, shifts and 32-bit words; sequences without repetitions |
| `cminus`, `mips` | the source language with budgeted runs; the target machine |
| `generator_spec`, `codegen` | the emitted code as a function of the tree; the generator that emits it |
| `register_need`, `labels`, `expr_meaning`, `meaning`, `programs` | register need, label discipline, meaning of the emitted code, and what it is in numbers |
| `calling` | prolog, epilog, call site and frame layout over runs of any depth |
| `crc` | the CRC table and the checksum |
| `ght_spec`, `ght_props`, `ght_chains` | libghthash on values, its promises over runs, and what moves and goes inside the chains |
| `ght_links`, `ght_nodes`, `ght_table` | its linked lists, the entries that stand for keys, the table itself |
| `merge_sort`, `uthash_spec`, `uthash_props`, `uthash_growth` | the sort, expansion, add, delete and find on values, their promises, and when a table grows |
| `bloom`, `uthash_links`, `uthash_sort`, `uthash` | bit vector, linked lists, the sort in place, the table itself |
| `store_pass`, `store_sound` | the pass, and what it preserves |

## Findings

Where the code does not meet what it is for, the project keeps the code as it is, proves a failing input,
and proves exactly when the code does meet it.

| What fails | Where | Failing input | Exact condition |
|---|---|---|---|
| logical and, logical or become bitwise instructions | `Assig4/parser.y:605-609` | `Meaning.BitwiseAndDiffers`: `1 && 2` stores 0 | `ExprMeaning.OperatorExactly`, `Meaning.LogicalOperands` |
| and they do not short-circuit | `Assig4/parser.y:550-646` | `Meaning.NoShortCircuit`: `x != 0 && 8 / x > 0` never ends for x = 0 | `Meaning.LogicalOperands`: the right operand does not trap and the two values agree bitwise |
| condition registers are never released | `Assig4/parser.y:286`, `Assig4/parser.y:310` | `RegisterNeed.NineConditionsFail` | `RegisterNeed.StatementNeed` |
| the tenth local shares the callee's return address word | `Assig4/codegen.c:71-115` | `Calling.TenthLocalLost`, `Calling.EleventhLocalLost`, `Calling.LaterLocalLost` | `Calling.SurvivesExactly` |
| the guard of a push lets a full label stack through, and the write goes past the array, to the word that holds the index | `Assig4/codegen.c:44-51` | `CodeGen.PushesExactly`: the push after 1000 others | `CodeGen.LabelStack.Push`: the stack holds 1000 labels |
| a rehash stops at the first entry whose data is NULL | `lib/libghthash-0.6.2/src/hash_table.c:728-740` | `GhtProps.NullDataIsLost` | `GhtSpec.RehashRetainsExactly` |
| adding a key that is present makes a search disagree with the list | `Assig1/uthash.h:185-208` | `UthashProps.DuplicateKey` | `UthashProps.SearchAfterAdd` |
| a stored name that is an operand of stores a second time | `Assig5/StoresRemoval/StoresRemoval.cpp:98-121` | `StorePass.NamedValueCorrupts`, `StorePass.StoredPointerLosesItsStore` | `StorePass.PassKeepsLast`, `StoreSound.SoundExactly` |
| two pointers stored through have one name, as a global and a local may | `Assig5/StoresRemoval/StoresRemoval.cpp:98-121` | `StorePass.ShadowedGlobalLosesItsStore` | `StorePass.PassKeepsLast`, `StoreSound.SoundExactly` |
| a load between two stores to its pointer is not looked for | `Assig5/StoresRemoval/StoresRemoval.cpp:98-121` | `StoreSound.LoadBetweenIsWrong` | `StoreSound.SoundExactly` |

## Model

| member | source | states |
|---|---|---|
| Meaning.CodeMeaning | Assig4/parser.y:267-399 | for every statement and memory, the emitted labelled code halts with memory m' if and only if the statement terminates with m' when its expressions are read as the code computes them; runs that diverge or trap never reach the end |
| Meaning.MeaningPreserved | Assig4/parser.y:267-316 | if the code of every expression agrees with C where C defines it, and the C run is never undefined, the emitted code halts with memory m' exactly when the C statement terminates with m' |
| Meaning.FaithfulAgreesStmt | Assig4/parser.y:550-646 | a condition on the tree that is enough for that: operands of the logical operators are 0/1-valued, and the right one has no arithmetic |
| Meaning.StmtRuns | Assig4/parser.y:267-316 | the same for a fragment anywhere in a program with unique labels and for every budget of loop iterations |
| Meaning.AssignmentExactly | Assig4/parser.y:375-399 | an assignment whose value C defines is carried out by the emitted code if and only if that code computes this value |
| Meaning.LogicalOperands | Assig4/parser.y:568-633 | for any operands whose own code is right, the logical and (or) of them is stored as C has it if and only if the right operand does not trap, evaluated by C or not, and the two values agree bitwise: for `and` one is 0 or their bitwise and is 1, for `or` both are 0 or 1 |
| Meaning.LogicalExactly | Assig4/parser.y:605-609 | on variables, which never trap, the second half is the exact condition |
| Meaning.BitwiseAndDiffers | Assig4/parser.y:605-607 | the emitted code of `v = 1 && 2` halts with v = 0, and not with the 1 that C stores |
| Meaning.NoShortCircuit | Assig4/parser.y:568-633 | for x = 0, `x = x != 0 && 8 / x > 0` terminates in C, and its emitted code halts with no memory at all |
| Programs.OperationStores | Assig4/parser.y:592-631 | the code of `v = l op r` halts with the result, given in numbers, and with nothing else: for `/` the quotient whose remainder is smaller than the divisor and has the sign of the dividend |
| Programs.OperationTraps | Assig4/parser.y:592-631 | it never halts if and only if a sum or a difference is no 32-bit word or a divisor is 0 |
| Programs.ProductStores | Assig4/parser.y:599-601 | a product is stored modulo 2 to the 32nd |
| Programs.LogicalStores | Assig4/parser.y:605-609 | the logical operators are stored bit by bit |
| Bits.TruncDivExactly | Assig4/parser.y:602-604 | the quotient is the only number whose remainder is smaller than the divisor and has the sign of the dividend |
| Programs.SequenceExactly | Assig4/parser.y:181-183 | the code of a statement list takes m to m' if and only if the code of its parts does so one after the other |
| Programs.BranchExactly | Assig4/parser.y:275-300 | the code of an `if` does what the code of its first part does if the condition is not 0, else what that of the second does |
| Programs.LoopExactly | Assig4/parser.y:302-316 | the code of a `while` does nothing if the condition is 0, else the code of its body and then itself |
| Programs.CompiledEuclid | Assig4/parser.y:267-399 | the emitted code of Euclid's algorithm by subtraction ends, for all positive numbers, with the greatest common divisor in both variables and everything else unchanged |
| ExprMeaning.ExprRuns | Assig4/parser.y:548-655 | the code of any expression whose instructions do not trap ends with its value in its place, with memory and all occupied registers unchanged |
| ExprMeaning.ExprTraps | Assig4/parser.y:548-655 | the code of any other expression stops inside itself |
| ExprMeaning.OperatorExactly | Assig4/parser.y:592-631 | where C defines the result of an operator, the instruction chosen computes it if and only if, for the logical operators, the operands meet an explicit condition; always for the others |
| ExprMeaning.FaithfulAgrees | Assig4/parser.y:550-646 | for expressions that meet the condition on the tree the code computes the C value |
| RegisterNeed.ExprNeed | Assig4/parser.y:548-655 | compiling an expression never runs out of registers if and only if Need(e) of them are free, and then the only flag that changes is that of the register holding the value |
| RegisterNeed.StatementNeed | Assig4/parser.y:275-316 | a statement compiles if and only if no condition is a bare variable and StmtNeed(s) registers are free; each condition costs one register for good |
| RegisterNeed.NineConditionsFail | Assig4/parser.y:286-310 | nine `if` or `while` conditions in a program cannot be compiled |
| RegisterNeed.LabelCount | Assig4/parser.y:275-316 | a statement takes exactly one label number for each condition |
| Labels.StatementLabels | Assig4/parser.y:275-316 | every label is defined at most once, every jump has a defined target, and all numbers lie between the counter before and the counter after |
| CodeGen.LabelStack.Push | Assig4/codegen.c:44-51 | a push goes past the array if and only if the stack holds 1000 labels, and appends otherwise |
| CodeGen.PushesExactly | Assig4/codegen.c:44-51 | any number of pushes is stored if and only if they fit; the guard never refuses before the array has been overrun |
| CodeGen.Generator.DeclareFunction | Assig4/parser.y:693-711 | the locals of one function, whatever declarations they come from, get pairwise distinct slots 1, 2, 3, .., and the next function starts at 1 again (the reset of line 173) |
| CodeGen.Generator.GetFreeTempReg | Assig4/codegen.c:117-127 | the first free register is taken, or -1 returned when there is none |
| CodeGen.Generator.GenExpr | Assig4/parser.y:548-655 | the actions emit exactly CompileExpr and leave its flags, or fail exactly when it does |
| CodeGen.Generator.GenAssign | Assig4/parser.y:375-399 | the same for assignments |
| CodeGen.Generator.GenStmt | Assig4/parser.y:254-316 | for nesting within the stack's capacity the actions emit exactly CompileStmt, move the label counter as it says, and leave the label stack as they found it |
| CodeGen.Generator.GenIf | Assig4/parser.y:275-300 | the else and exit labels read from the stack are those of the branch |
| CodeGen.Generator.GenWhile | Assig4/parser.y:302-316 | the exit label read from the counter in the test is the one later read from the stack |
| Calling.FunctionReturns | Assig4/codegen.c:71-115 | every call that returns, to any depth, comes back with stack pointer, frame pointer and return address as at entry and everything above the stack pointer unchanged; $(8+j) holds the last value of the callee's local j+1 if there is one, and is unchanged otherwise |
| Calling.CalleePreserves | Assig4/codegen.c:80-100 | a callee with n locals preserves $(8+n)..$15 |
| Calling.NineLocalsSurvive | Assig4/codegen.c:71-115 | the first nine locals survive any call |
| Calling.TenthLocalLost | Assig4/codegen.c:74-100 | every call overwrites the tenth local with its return address |
| Calling.LaterLocalLost | Assig4/codegen.c:71-115 | a callee that assigns its local k - 11 overwrites local k of the caller |
| Calling.SurvivesExactly | Assig4/codegen.c:71-115 | a local survives every call if and only if its number is at most nine, and in main if and only if it is at most ten |
| Calling.SurvivesInFrame | Assig4/codegen.c:71-115 | the same for a frame of any number of words |
| Calling.MainKeepsTenLocals | Assig4/codegen.c:104-113 | through the whole body of main, calls of any depth included, each of its first ten locals holds the last value stored in it |
| Uthash.Hash.HashAdd | Assig1/uthash.h:185-208 | the linked table after an add is that of UthashSpec.Add, expansion and Bloom bit included, and the invariant holds |
| Uthash.Hash.HashDelete | Assig1/uthash.h:227-260 | the same for a delete of any present element, the head, the tail and the last one included |
| Uthash.Hash.HashFind | Assig1/uthash.h:106-117 | the search gives what FindIn says, with the Bloom filter and without |
| Uthash.Hash.HashReplace | Assig1/uthash.h:175-183 | the element with the same key, if any, the given one itself included, is returned and goes; the new one comes last; keys stay unique |
| Uthash.Hash.HashSort | Assig1/uthash.h:736-821 | the application list is replaced by its stable merge sort with head, tail, next and prev consistent, and nothing else changes |
| Uthash.Hash.ExpandBuckets | Assig1/uthash.h:683-729 | expansion relinks the handles into exactly the chains, counts, multipliers and bookkeeping of UthashSpec.Expand |
| Uthash.Hash.Fsck | Assig1/uthash.h:290-340 | on lists that can be followed to their ends, the check is silent if and only if every back link, every bucket count and the item count are right |
| Uthash.Hash.FsckIsSilent | Assig1/uthash.h:290-340 | on a valid table it is silent |
| Uthash.Hash.PerformAll | Assig1/uthash.h:185-260 | for every legal run of adds, deletes and sorts on the linked table the result is that of the run on values, and the check is silent after each step |
| UthashProps.RunKeeps | Assig1/uthash.h:106-260 | after every run of adds of absent keys, deletes of present elements and sorts: the invariant, unique keys, the order of a plain list, and searches that agree with a linear search of it, with the Bloom filter and without |
| UthashProps.FromNewTable | Assig1/uthash.h:106-260 | so does every such run from an empty table, whose order is that of a plain list |
| UthashProps.FindAgrees | Assig1/uthash.h:106-151 | keys being unique, a search equals a linear search of the application order; the Bloom filter hides no element |
| UthashProps.SearchAfterAdd | Assig1/uthash.h:185-208 | after an add to a table of unique keys a search for that key agrees with a linear search if and only if the key was absent or the add sets off an expansion |
| UthashProps.DuplicateKey | Assig1/uthash.h:614-639 | otherwise the search finds the new element, and after an expansion, which reverses the chain, the old one |
| UthashSpec.SpreadBucket | Assig1/uthash.h:698-717 | every handle of bucket b of n goes to b or b + n of 2n by its hash, these two get nothing else, and their lengths add up |
| UthashSpec.ExpandConsistent | Assig1/uthash.h:683-729 | expansion keeps the elements, the order, the total and the Bloom bits, and doubles the buckets |
| UthashProps.IdealIsCeiling | Assig1/uthash.h:665-696 | the shift and the masked test compute the ceiling of items by new bucket count; it is zero only without items |
| UthashProps.MultsBounded | Assig1/uthash.h:705-709 | after an expansion the multipliers add up to at most the number of buckets |
| UthashProps.NoExcess | Assig1/uthash.h:697-709 | nonideal_items is zero exactly when no chain is longer than the ideal |
| UthashGrowth.AddExpandsExactly | Assig1/uthash.h:627-640 | an add doubles the buckets if and only if its bucket then holds at least ten items for each unit of its multiplier and one, and expansion has not been stopped; otherwise no bookkeeping changes |
| UthashGrowth.ChainsStayShort | Assig1/uthash.h:627-730 | in every state that legal adds, deletes and sorts reach from a new table, unless two ineffective expansions in a row have stopped expansion, every chain is below its threshold or at most the ideal length for each unit of its multiplier and one; a table without items has 32 buckets, an empty filter and expansion on |
| UthashGrowth.ExpansionBookkeeping | Assig1/uthash.h:692-710 | after an expansion the ideal length is the least that holds all items, the multiplier of a chain beyond it is how many times it is that long, any other is 0, and nonideal_items counts the items beyond it |
| UthashGrowth.ExpansionVerdict | Assig1/uthash.h:723-728 | an expansion counts as ineffective if and only if more than half of the items lie beyond the ideal length; the second in a row stops expansion, an effective one resets the count |
| UthashLinks.MoveHandle | Assig1/uthash.h:703-714 | moving one handle keeps the new chains linked, and counts, multipliers and nonideal_items equal to their closed forms |
| UthashSort.SortList | Assig1/uthash.h:736-821 | the loops relink the list into MergeSort.Sort of it, for every comparison function, and end |
| UthashSort.PassList | Assig1/uthash.h:745-811 | one pass relinks the list into Pass of it, and counts at most one merge exactly when two runs cover the list |
| UthashSort.MergeRuns | Assig1/uthash.h:750-807 | one round merges two adjacent runs behind the output, left one first on a tie |
| MergeSort.SortIsStable | Assig1/uthash.h:736-821 | for every total preorder the result is the stable sorted permutation of the list |
| MergeSort.StableSortIsUnique | Assig1/uthash.h:736-821 | there is only one such permutation |
| MergeSort.SortPermutes | Assig1/uthash.h:736-821 | for every comparison function the result is a permutation |
| Bloom.SetBit | Assig1/uthash.h:136-140 | the byte vector gains exactly that bit |
| Bloom.TestBit | Assig1/uthash.h:137-143 | the test tells whether that bit is in the set |
| GhtTable.HashTable.constructor | lib/libghthash-0.6.2/src/hash_table.c:300-357 | a new table is valid and empty, with no heuristic, no limit and automatic rehash off; its size is a power of two, at least the requested one, and no smaller power of two is |
| GhtProps.RoundUpIsLeast | lib/libghthash-0.6.2/src/hash_table.c:311-319 | the same of the size that creation and rehash both compute |
| GhtTable.HashTable.GhtInsert | lib/libghthash-0.6.2/src/hash_table.c:409-493 | the linked table after an insert, automatic rehash and eviction included, is that of GhtSpec.Insert, and so is the return value; insert and rehash terminate |
| GhtTable.HashTable.GhtGet | lib/libghthash-0.6.2/src/hash_table.c:495-517 | the same for a get, with its heuristic |
| GhtTable.HashTable.GhtReplace | lib/libghthash-0.6.2/src/hash_table.c:519-549 | the same for a replace |
| GhtChains.SearchMoves | lib/libghthash-0.6.2/src/hash_table.c:57-184 | a get or replace of a present key moves its entry by the heuristic of the table: not at all, one place forward, or to the front, with the others keeping their order; no other chain and no setting changes |
| GhtChains.TransposeRises | lib/libghthash-0.6.2/src/hash_table.c:57-94 | under transpose n gets bring a key n places nearer to the front, or to the front |
| GhtChains.GetAfter | lib/libghthash-0.6.2/src/hash_table.c:409-593 | whatever heuristic, limit and rehash: an inserted entry is found, a replaced one has its new data, a removed one is gone |
| GhtChains.SettingsExactly | lib/libghthash-0.6.2/src/hash_table.c:371-393 | a setting changes itself only, and no other operation changes a setting |
| GhtTable.HashTable.GhtRemove | lib/libghthash-0.6.2/src/hash_table.c:553-593 | the same for a remove |
| GhtTable.HashTable.GhtRehash | lib/libghthash-0.6.2/src/hash_table.c:707-770 | the same for a rehash to any size |
| GhtTable.HashTable.PerformAll | lib/libghthash-0.6.2/src/hash_table.c:409-593 | for every run of operations on the linked table, results and final table are those of the run on values |
| GhtTable.HashTable.VisitAll | lib/libghthash-0.6.2/src/hash_table.c:595-660 | iteration visits every entry before the first NULL once, in insertion order, although each step removes any entries visited so far, and exactly the planned keys are gone at the end |
| GhtTable.HashTable.RemoveAll | lib/libghthash-0.6.2/src/hash_table.c:553-660 | removing each current entry during an iteration leaves an empty, valid table if no data is NULL |
| GhtLinks.TransposeEntry | lib/libghthash-0.6.2/src/hash_table.c:57-94 | the chain has the entry and its predecessor exchanged and stays doubly linked |
| GhtLinks.MoveEntryToFront | lib/libghthash-0.6.2/src/hash_table.c:97-124 | the chain has the entry in front and stays doubly linked |
| GhtLinks.UnlinkEntry | lib/libghthash-0.6.2/src/hash_table.c:126-157 | chain and age list lose the entry and stay doubly linked |
| GhtProps.RunRefines | lib/libghthash-0.6.2/src/hash_table.c:409-770 | every run of insert, get, replace, remove, rehash and settings on an unbounded table with non-NULL data gives the results and contents of an insertion-ordered map, and a well-formed table |
| GhtProps.NewTableRefines | lib/libghthash-0.6.2/src/hash_table.c:300-770 | from a new table of any size the results are those of the map that starts empty |
| GhtProps.StepRefines | lib/libghthash-0.6.2/src/hash_table.c:409-770 | the same for one operation, whatever the heuristic, chains and sizes |
| GhtSpec.RehashKeeps | lib/libghthash-0.6.2/src/hash_table.c:707-770 | a rehash keeps the entries before the first NULL in order, in a table of the rounded size |
| GhtSpec.RehashRetainsExactly | lib/libghthash-0.6.2/src/hash_table.c:727-740 | it keeps all entries if and only if no data is NULL |
| GhtProps.NullDataIsLost | lib/libghthash-0.6.2/src/hash_table.c:728-740 | an entry stored after one with NULL data is gone after a rehash |
| GhtProps.CacheRun | lib/libghthash-0.6.2/src/hash_table.c:449-477 | in every reachable state of a bounded table without rehash and without transpose, each chain is within the limit and ordered by last use |
| GhtProps.TracedRunIsRun | lib/libghthash-0.6.2/src/hash_table.c:409-593 | the table of such a state is the one that the run of operations leaves, so this holds of the linked table by GhtTable.HashTable.PerformAll |
| GhtProps.EmptyCache | lib/libghthash-0.6.2/src/hash_table.c:384-393 | an empty table with a limit starts so |
| GhtProps.EvictsLeastRecent | lib/libghthash-0.6.2/src/hash_table.c:449-469 | an insert into a full chain evicts exactly the entry of that chain used longest ago, all others keeping data and age order; any other insert evicts nothing |
| GhtChains.NewTableEvictsFirstInserted | lib/libghthash-0.6.2/src/hash_table.c:449-469 | in every state reached from a new table while no heuristic is chosen, limits set at any time and rehashes included, an insert into a full chain evicts the entry of that chain inserted first, and any other insert evicts nothing |
| GhtChains.RehashNewestFirst | lib/libghthash-0.6.2/src/hash_table.c:727-760 | a rehash leaves every chain in order of insertion, newest first, whatever it was before, and all settings as they were |
| GhtProps.LoadBound | lib/libghthash-0.6.2/src/hash_table.c:432-438 | with automatic rehash on and no shrinking rehash every reachable state has at most 2 * size + 1 items and a power of two as size, and masking is the remainder |
| GhtProps.NewTableLoaded | lib/libghthash-0.6.2/src/hash_table.c:311-319 | a new table with automatic rehash on starts so |
| GhtProps.InsertLoaded | lib/libghthash-0.6.2/src/hash_table.c:432-438 | an insert keeps that bound, and doubles the size exactly when it rehashes |
| Crc.CrcHash | lib/libghthash-0.6.2/src/hash_functions.c:96-109 | for every byte string the loop computes the complemented remainder of long division by the generator polynomial of section 3.2.9 of IEEE 802.3, in the non-reflected bit order |
| Crc.CheckValue | lib/libghthash-0.6.2/src/hash_functions.c:96-109 | the key `123456789` has the check value fc891918 of this checksum |
| Crc.TableIsSerial | lib/libghthash-0.6.2/src/hash_functions.c:30-64 | every entry of the table is eight steps of the bit-serial register on its index |
| Crc.RegisterIsSerial | lib/libghthash-0.6.2/src/hash_functions.c:103-107 | the table-driven register equals the bit-serial one for every start and every key |
| Crc.DivisionIsRegister | lib/libghthash-0.6.2/src/hash_functions.c:103-108 | the bit-serial register is the remainder of long division |
| StorePass.BasicBlock.RunOnBasicBlock | Assig5/StoresRemoval/StoresRemoval.cpp:59-123 | the two scans leave the block that Scan gives, report a change exactly when a store went, and are undefined exactly when a store is erased at its first operand |
| StorePass.PassKeepsLast | Assig5/StoresRemoval/StoresRemoval.cpp:71-121 | the pass keeps the last store through each named pointer and everything else if and only if every name stored as a value occurs once among all operands of stores, and no two pointers stored through have one name |
| StorePass.StoredPointerLosesItsStore | Assig5/StoresRemoval/StoresRemoval.cpp:98-121 | a pointer that is stored to and then stored itself silently loses its only store |
| StorePass.NamedValueCorrupts | Assig5/StoresRemoval/StoresRemoval.cpp:98-121 | two stores of one named value make the scan read operands of an erased store |
| StorePass.ShadowedGlobalLosesItsStore | Assig5/StoresRemoval/StoresRemoval.cpp:98-121 | a store to a global followed by one to a local of the same name: the pass deletes the only store to the global, though no value has a name |
| StorePass.PassIsIdempotent | Assig5/StoresRemoval/StoresRemoval.cpp:71-121 | on every block on which a first run is defined, a second run finds nothing to remove |
| StoreSound.PassIsSound | Assig5/StoresRemoval/StoresRemoval.cpp:71-121 | under these conditions, and if no word is read between two stores through its pointer, final memory and everything loads and calls see are unchanged, whichever pointers alias |
| StoreSound.SoundExactly | Assig5/StoresRemoval/StoresRemoval.cpp:71-121 | for every block whose pointers do not alias: the pass is defined, loads and calls see the same words from the same stores, and the final state is the same, if and only if no name stored as a value is an operand of stores a second time, no two pointers stored through have one name, and no word is read between two stores through its pointer |
| StoreSound.LoadBetweenIsWrong | Assig5/StoresRemoval/StoresRemoval.cpp:98-121 | two stores through p with a load of p between them: the first goes, and the load gives what was there before |

## Left out

- Code after a failed allocation: the source goes on with register number -1; the model stops there and calls the statement not compiled.
- Unary operators, `for`, `return`, float constants, arrays, structs, `read()` and calls inside expressions: the source emits no or different code for them; calls are modelled separately, in `calling.dfy`.
- Operator precedence, names, scopes and types: trees and resolved variables are the input, and a second declaration of a name in a scope, which the source rejects, does not occur.
- Register names as strings: wherever the source prints one of `$10` to `$15`, as every binary operation on such a register does, `sprintf` writes four bytes into a `char[3]` (`Assig4/parser.y:332`, `360`, `387`, `569`, `651`); the theorems assume that this does no harm. Comments in the emitted text are not modelled either.
- Conditions that are bare variables: the source emits a branch on a memory operand, which is no instruction; they count as not compiled.
- CodeGen.Generator.GenStmt: states its result for label nesting below 1000 only, because a deeper push writes past the array of the label stack.
- The exit of main by a system call, and `$v0` as a place.
- Alignment and 32-bit wrap-around of addresses in `calling.dfy`.
- Wrap-around of sizes and counters in both hash tables beyond 2^31 entries; failed allocation; freeing of memory.
- uthash handles are one object with their element, so the offset `hho` and a second handle per element are not modelled; keys do not change while an element is in a table.
- `HASH_SELECT`, `HASH_CLEAR`, key emission and the mixing hash functions of uthash.
- GhtTable.HashTable.GhtInsert: the bucket-free callback is not called in the model, so an insert from inside it is not covered.
- `ght_finalize`, allocation functions and the other hash functions of libghthash; the hash function of a table is fixed.
- StoreSound.SoundExactly: assumes that different pointer operands, global, local or unnamed, stand for different addresses; aliasing is not analysed by the pass.
- StoreSound.PassIsSound: an operand stands for one address throughout the block; that the address of a pointer loaded in the block is the loaded value is not modelled.
- What the store pass does after it has read operands of an erased store, which is undefined.
- The course hash table and symbol table (`Assig4/hashtable.c`, `Assig4/symboltable.c`), lexers, file input and output, and the example programs.
