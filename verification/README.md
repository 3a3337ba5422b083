# Verified models of the profile-guided LLVM passes and the benchmark programs

The repository is LLVM 3.3 with profile-guided passes added, and a set of C benchmark programs. This project models the parts of it that are hard to get right, and proves what they are for. Each part keeps
its source's form: objects and arrays that the source updates in place are updated in place here, by methods that are
proved against specifications, and lemmas say what the specifications mean.

**BrainF** (`BrainF*.dfy`). The example compiler reads its text with one symbol of lookahead, folds runs of `+-` and
`<>`, and emits LLVM blocks with phis for the head. `BrainFSource` gives the language its meaning one character at a
time, `BrainFMachine` is a machine for the fragment of LLVM IR that is emitted. `Compile` accepts a text exactly when its
brackets balance, and text and compiled function then do the same, in both directions, divergence included. With
bounds checks the compiler checks once a run instead of once a move: `BrainFBounds` proves exactly for which runs
that cannot be seen, and gives a text where it can.

**Partial redundancy elimination** (`Availability`, `ValueNumbers`, `ValueTable`, `LeaderTable`, `Redundancy`,
`DiamondPre`, `Forwarding`). The optimistic search for available values with its repair walk; value numbering, with
meaning given by valuations that satisfy the instructions' definitions; the linked lists of leaders, whose heads lie in
the table; the replacement of redundant instructions; the insertion at joins; and the forwarding of stored bytes
to loads. A valuation gives every name one value and every operation one meaning, so that it speaks of one pass through
acyclic code: the theorems about replaced instructions and about phis at a join hold between two entries to the same
blocks, not across the rounds of a loop. `UsualIsLawful` and `EveryRunSatisfies` show that ordinary arithmetic is among
the meanings, and that every choice of inputs has its valuation.
The value table means to give the first part of an intrinsic with overflow the number of the plain operation. It sorts
the operands of the one and not of the other, so a commutative operation has two numbers when its operands are not in
order: `OverflowNumbered` states exactly when the numbers are equal, and `OverflowApartOnce` shows a pair that is missed.
The repair of a failed search gives up whatever follows the block and was taken to be available, blocks known to provide
the value included, as the source does; `Repair` and `Query` state exactly that.
`AnalyzeLoadFromClobberingWrite` adds signed offsets to unsigned sizes and compares the sums as unsigned numbers. So
its answer is wrong when the write ends below the common base pointer and the load does not. The code is modelled as
it is: `AnalyzeIsRight` states exactly when the answer is right, `AnalyzeIsWrongOnce` gives a wrong one, and
`AnalyzeFinds` states exactly which loads are given up for the same reason.

**Loop unrolling** (`LoopProgram`, `LoopUnrolling`, `LoopUnroller`, `LoopUnrollPass`). A meaning for loops in SSA form,
a closed form of the unrolled loop, the simulation of one by the other, and the pass itself, which reaches the closed
form by cloning, renaming through a running map, and rewiring.

**Basic block placement** (`ArcCollection`, `ChainMerging`, `ChainLayout`). The walk, the chains and the layout. The
source's comments speak of appending a whole chain and of the chain with the most connections; the code moves the
front half of a chain, since its loop tests a size that shrinks, and takes the last connected chain, since it never
updates the maximum. The model follows the code.

**Huffman codes** (`Huffman*.dfy`), **permutations** (`HeapEnumeration`, `Permutations`, `LexPermutations`), **in-place
transposition** (`Transpose`), **the fast Fourier transform** (`Complex`, `Fft`) and **prime factors** (`Primes`, `Wheel`,
`PrimeTable`, `Factoring`), each with the theorem it is known for. `Arithmetic` holds a few shared facts.

Parameters stand for what comes from outside: the input and the address malloc gives out, the graph of blocks, which
blocks dominate which, the meaning of operations, the number of symbols, the length of the prime table. By
`ProgramSizes` the two conditions of `PrimeTable.Init` hold for the program's sizes.

## Model

| member | source | states |
|---|---|---|
| BrainFCorrect.TextToFunction | llvm/examples/BrainF/BrainF.cpp:40-467 | Without bounds checks, whatever the text does one character at a time (ends, leaves the tape, runs long) the compiled blocks do: same output, final tape, unread input and head; if the text takes long, so does the function |
| BrainFCorrect.FunctionToText | llvm/examples/BrainF/BrainF.cpp:40-467 | The converse: when the compiled blocks stop or fault within n steps, the text does within fuel n, with the same result; so one diverges exactly when the other does |
| BrainFCorrect.RunsFolded | llvm/examples/BrainF/BrainF.cpp:40-467 | With or without bounds checks, the blocks show the outcome of the folded program, including the report of a head that has left the tape, and take at least as long |
| BrainFCorrect.HeaderRuns | llvm/examples/BrainF/BrainF.cpp:78-115 | The function header leaves a zeroed tape of the requested size with the head in its middle, whatever malloc's memory held |
| BrainFCorrect.Returns | llvm/examples/BrainF/BrainF.cpp:119-128 | From the end of the program's code the function frees the tape and returns with the program's state |
| BrainFCompiler.Compile | llvm/examples/BrainF/BrainF.cpp:40-50 | For every text: the result is how the text's brackets nest (balanced, extra, missing), and if they balance, the blocks implement the one program that prints as the text without comments |
| BrainFCompiler.BrainF.ReadLoop | llvm/examples/BrainF/BrainF.cpp:184-467 | Reads up to the end, or up to the closing bracket of its loop; reports an extra bracket exactly when no loop is open and a missing one exactly when one is; on success the code before it has been extended by the whole loop |
| BrainFCompiler.BrainF.ReadCommands | llvm/examples/BrainF/BrainF.cpp:194-415 | The main loop consumes exactly the text of the program it emits code for, and stops at the end or at a closing bracket |
| BrainFCompiler.BrainF.NextSymbol | llvm/examples/BrainF/BrainF.cpp:196-414 | Writing out the current symbol and reading the next one keeps the account of what is written, pending and unread, and always makes progress |
| BrainFCompiler.BrainF.EmitSymbol | llvm/examples/BrainF/BrainF.cpp:196-309 | One round of the switch adds exactly the current symbol to the folded program that the code implements |
| BrainFCompiler.BrainF.EmitRead | llvm/examples/BrainF/BrainF.cpp:201-215 | A read becomes three instructions; all blocks made before stay implemented |
| BrainFCompiler.BrainF.EmitWrite | llvm/examples/BrainF/BrainF.cpp:217-235 | A write becomes three instructions; all blocks made before stay implemented |
| BrainFCompiler.BrainF.EmitMove | llvm/examples/BrainF/BrainF.cpp:237-267 | A run of moves becomes one address computation and, with bounds checks, a test of both ends that leads to the error block or to a new block |
| BrainFCompiler.BrainF.EmitChange | llvm/examples/BrainF/BrainF.cpp:269-281 | A run of changes becomes one addition modulo 256 |
| BrainFCompiler.BrainF.EmitLoop | llvm/examples/BrainF/BrainF.cpp:283-302 | A bracketed loop becomes a test block with a phi of the head, a body block, and a block behind it that implement the loop |
| BrainFCompiler.BrainF.OpenLoop | llvm/examples/BrainF/BrainF.cpp:283-300 | Branches to a new test block whose phi is still to be finished, and goes on in a new body block with the phi as head |
| BrainFCompiler.BrainF.CloseLoop | llvm/examples/BrainF/BrainF.cpp:417-458 | Finishes the phi with the head at the end of the body, tests the cell under it and goes on in a new block with a phi of its own; no other block changes |
| BrainFCompiler.BrainF.ReadSymbol | llvm/examples/BrainF/BrainF.cpp:315-414 | Reads until a symbol is complete, with the symbol behind a run kept as lookahead; no character is lost, and the symbols are those of the folded program |
| BrainFCompiler.BrainF.Header | llvm/examples/BrainF/BrainF.cpp:52-182 | Emits the entry block, the end block and, with bounds checks, the error block |
| BrainFCompiler.FeedReads | llvm/examples/BrainF/BrainF.cpp:329-412 | One character more: the lexer's two symbols are still what the folded program has beyond what is written out |
| BrainFCompiler.LoopBuilt | llvm/examples/BrainF/BrainF.cpp:283-302 | The blocks of a finished loop, put together by opening, body and closing, implement the loop behind the code before it |
| BrainFCompiler.MoveBuilt | llvm/examples/BrainF/BrainF.cpp:237-267 | A move's instructions implement the move behind the code before it |
| BrainFCompiler.ScanEnd | llvm/examples/BrainF/BrainF.cpp:417-466 | Where a program's text ends at a closing bracket or at the end tells how the brackets nest |
| BrainFSource.ScanPrint | llvm/examples/BrainF/BrainF.cpp:417-466 | Printed programs are balanced wherever they stand |
| BrainFSource.PrintInjective | llvm/examples/BrainF/BrainF.cpp:329-412 | A text without comments belongs to at most one program, so the program Compile answers is the text's only one |
| BrainFSymbols.FoldKeepsMeaning | llvm/examples/BrainF/BrainF.cpp:335-371 | Folding runs of changes and of moves is invisible to programs without bounds checks, for every state and fuel |
| BrainFCode.ImplementsGrows | llvm/examples/BrainF/BrainF.cpp:184-467 | Code stays code while instructions, blocks and phi edges are added |
| BrainFSimulation.SimulateCode | llvm/examples/BrainF/BrainF.cpp:194-309 | Code that implements a folded program drives the machine to the program's outcome, or for at least as many steps as the program has fuel |
| BrainFSimulation.SimulateLoop | llvm/examples/BrainF/BrainF.cpp:283-302 | The same for one loop from its test block, through phi, test, body and back edge |
| BrainFSimulation.Test | llvm/examples/BrainF/BrainF.cpp:423-445 | The test block loads the cell under the phi's head, leaves the loop when it is zero and enters the body otherwise |
| BrainFSimulation.BackEdge | llvm/examples/BrainF/BrainF.cpp:425-432 | From the end of the body the phi takes over the head the body ended with |
| BrainFSimulation.Moves | llvm/examples/BrainF/BrainF.cpp:237-267 | A move goes on where the head is still on the tape, and to the error block where it is not |
| BrainFSimulation.ErrorExit | llvm/examples/BrainF/BrainF.cpp:132-181 | The error block reports once and then ends the program normally |
| BrainFSimulation.ReadCell | llvm/examples/BrainF/BrainF.cpp:201-215 | getchar, trunc and store put the next byte under the head, and 255 at the end of the input |
| BrainFSimulation.WriteCell | llvm/examples/BrainF/BrainF.cpp:217-235 | load, sext and putchar write the byte under the head |
| BrainFSimulation.ChangeCell | llvm/examples/BrainF/BrainF.cpp:269-281 | load, add and store change the byte under the head modulo 256 |
| BrainFBounds.RunExact | llvm/examples/BrainF/BrainF.cpp:352-371 | One check at the end of a run of moves is the same as a check after every move, on every tape and from every place on it, if and only if the run never goes beyond its two ends |
| BrainFBounds.BoundsAgree | llvm/examples/BrainF/BrainF.cpp:237-267 | For texts all of whose runs are of that kind, and for executions in which no single move leaves the tape, the compiled checks show the same as checks after every character |
| BrainFBounds.BoundsDiffer | llvm/examples/BrainF/BrainF.cpp:237-267 | A text where they differ: `<>` on one cell leaves the tape, which the compiled program does not see |
| BrainFBounds.StepsMeaning | llvm/examples/BrainF/BrainF.cpp:237-267 | Checking every move of a run fails exactly when some prefix of the run leaves the tape |
| Availability.Search.Query | code-submission/code/pre/PRE.cpp:1725-1731 | For every query of a sequence that shares one map, in whatever state earlier answers left it: a known block is answered by its entry, and any other one negatively exactly when a path past no known block leads to it from a block without the value (if the depth limit is at least the number of blocks). What the map then holds is stated entry by entry: an entry stays, turns out to be relied upon, or is given up, on the path of failure or in a repair of a block on it that lies on a cycle of searched blocks. A positive answer means that every path from a block without predecessors meets a block that provides the value, with no block behind it that loses it; the first negative one has a path that no providing block interrupts |
| Availability.Search.IsValueFullyAvailable | code-submission/code/pre/PRE.cpp:945-1014 | The recursive search ends and keeps the map consistent through speculation, success, failure and the depth cut-off. It fails exactly when an unexplored path leads to the block from one that lacks the value or when the path gets too long, and gives the path. A search that succeeds changes no entry but from speculated to relied upon, and one that fails gives up the blocks on the path and no others but in a repair of a block on it that lies on a cycle of searched blocks; too deep or with an entry for the block, its effect is stated exactly |
| Availability.Search.Repair | code-submission/code/pre/PRE.cpp:996-1011 | The walk over transitive successors ends, keeps the map consistent, and gives up exactly the block and those blocks that successors lead to from it through blocks taken to be available; every other known block keeps its entry, and an unknown block is entered exactly if it follows one that is given up |
| Availability.Search.RepairReaches | code-submission/code/pre/PRE.cpp:999-1010 | When the worklist is empty, every block that successors lead to through blocks taken to be available has been given up |
| Availability.Search.EffectOn | code-submission/code/pre/PRE.cpp:976-977 | The effect of searching some predecessors and then one more is one effect of the search for the block: no entry changes but in one of the ways that are allowed |
| Availability.Search.EffectRepaired | code-submission/code/pre/PRE.cpp:981-1011 | Giving up what a repair gives up is allowed to a search that came to rely on the block itself |
| Availability.Search.NoneMissing | code-submission/code/pre/PRE.cpp:972-979 | After a positive answer no unexplored path leads to the block from one that lacks the value |
| Availability.Search.NotCut | code-submission/code/pre/PRE.cpp:948-949 | With a depth limit of at least the number of blocks no search is cut off |
| Availability.Search.constructor | code-submission/code/pre/PRE.cpp:1717-1722 | The map starts with the providing blocks, overridden by the losing ones |
| Availability.Search.AvailableOnPath | code-submission/code/pre/PRE.cpp:945-1014 | In a consistent map, no path from a block without predecessors slips past the providing blocks to a block taken to be available |
| Availability.Search.Entered | code-submission/code/pre/PRE.cpp:953-954 | Speculating on a block keeps the map consistent while the block is being searched |
| Availability.Search.Relying | code-submission/code/pre/PRE.cpp:960-962 | Noting that a speculation has been relied upon keeps the map consistent |
| Availability.Search.Dropped | code-submission/code/pre/PRE.cpp:988-991 | A block that is only speculated to be available can be given up without a repair |
| Availability.Search.Repaired | code-submission/code/pre/PRE.cpp:999-1010 | Giving up one more block endangers only its successors, which are put on the worklist |
| Availability.Search.Completed | code-submission/code/pre/PRE.cpp:972-979 | A block whose predecessors are all relied upon needs the search no longer |
| Availability.Search.CauseOn | code-submission/code/pre/PRE.cpp:976-977 | The reason for a failed predecessor is one for the block, whatever the searches of earlier predecessors found |
| ValueNumbers.ExpressionMeans | code-submission/code/pre/PRE.cpp:332-435 | In every valuation that satisfies all definitions, the expression made for an instruction (sorted commutative operands, swapped comparisons, intrinsics with overflow as plain arithmetic, indices of aggregates) evaluates to what the instruction computes |
| ValueNumbers.ComparesAlike | code-submission/code/pre/PRE.cpp:366-383 | Of two comparisons with exchanged operands, those with the mirrored predicate and no others have one expression if the operands have different numbers; otherwise only the same predicate has |
| ValueNumbers.SwappedMirrors | llvm/lib/IR/Instructions.cpp:3057-3085 | For all 26 predicates, floating-point, signed and unsigned: the swapped predicate is the one and only one that compares in the same way and accepts exactly the mirrored ones of the outcomes less, equal, greater and unordered |
| ValueNumbers.SwappedHolds | llvm/lib/IR/Instructions.cpp:3057-3085 | The swapped predicate holds of two operands exactly when the predicate holds of them exchanged, for every width of integers and whatever values are no numbers |
| ValueNumbers.CommutativeExactly | llvm/lib/IR/Instruction.cpp:502-515 | Of the 18 binary operations, the commutative opcodes are exactly those whose usual meaning does not depend on the order of the operands |
| ValueNumbers.UsualIsLawful | code-submission/code/pre/PRE.cpp:332-383 | The laws asked of valuations hold of the usual meaning, which gives every binary operation its arithmetic on words or numbers, and makes every predicate, signed, unsigned or floating-point, true for exactly the outcomes it accepts |
| ValueNumbers.EveryRunSatisfies | code-submission/code/pre/PRE.cpp:332-383 | For every lawful meaning of the operations and all values of the names that have no definition, the valuation they determine satisfies the definitions if and only if the first parts of intrinsics with overflow are the plain arithmetic |
| ValueNumbers.PackedApart | code-submission/code/pre/PRE.cpp:349-356 | Opcode and predicate packed in one number tell all comparisons from each other and from other opcodes |
| ValueNumbers.SwappedTwice | llvm/lib/IR/Instructions.cpp:3057-3085 | Swapping a predicate twice gives it back |
| ValueNumbers.DenotedKept | code-submission/code/pre/PRE.cpp:620-623 | New numbers leave the meaning of old ones alone |
| ValueTable.EqualNumbersEqualValues | code-submission/code/pre/PRE.cpp:557-624 | In every table the operations can reach, two values with one number are equal in every valuation that satisfies the definitions |
| ValueTable.EqualNumbersEqualExpressions | code-submission/code/pre/PRE.cpp:557-624 | Two instructions numbered by expressions have one number exactly when their expressions are equal |
| ValueTable.EqualNumbersAlike | code-submission/code/pre/PRE.cpp:332-435 | Two numbered instructions have one number if and only if they are alike, which is said without expressions: the same operation, call or overflow result on operands with the same numbers, or with exchanged ones if it commutes; the same comparison, or the mirrored one with exchanged operands; the same part of the same aggregate |
| ValueTable.OpaqueApart | code-submission/code/pre/PRE.cpp:615-617 | A value that is told only by identity shares its number with no other value that was numbered by itself or by its expression |
| ValueTable.OperationsNumbered | code-submission/code/pre/PRE.cpp:332-348 | Two operations of one opcode and type have one number exactly if their operands have, in order, or exchanged when the opcode is commutative |
| ValueTable.OverflowNumbered | code-submission/code/pre/PRE.cpp:385-421 | The first part of the result of an intrinsic with overflow has the number of the plain operation if and only if that is not commutative or the operands' numbers are in order, since only the plain operation sorts them |
| ValueTable.OverflowApartOnce | code-submission/code/pre/PRE.cpp:385-421 | An overflow sum and a plain sum of the same operands that have different numbers |
| ValueTable.ValueTable.LookupOrAdd | code-submission/code/pre/PRE.cpp:557-624 | Gives a value its number, numbering its operands first; keeps all numbers, the hash-consing and the soundness of the table; numbers nothing but the value and what it depends on, and each of these by its expression or by itself, so that `EqualNumbersAlike` says which of them have one number |
| ValueTable.ValueTable.CreateExpression | code-submission/code/pre/PRE.cpp:332-435 | Numbers all operands and builds the expression of their numbers, which is equal to that of exactly the alike instructions (`EqualNumbersAlike`) |
| ValueTable.ValueTable.NumberExpression | code-submission/code/pre/PRE.cpp:620-621 | One number for each expression, made at its first use |
| ValueTable.ValueTable.LookupOrAddCmp | code-submission/code/pre/PRE.cpp:638-645 | The number of a comparison without an instruction: it means the comparison, and is the number of every instruction for it that is numbered by its expression |
| ValueTable.ValueTable.Add | code-submission/code/pre/PRE.cpp:442-444 | Gives a value a number that means the same, unless it has one already |
| ValueTable.ValueTable.Erase | code-submission/code/pre/PRE.cpp:655-657 | Forgets a value but keeps its expression's number, and the table sound |
| ValueTable.ValueTable.Clear | code-submission/code/pre/PRE.cpp:648-652 | An empty table whose numbers start at 1 |
| ValueTable.ValueTable.constructor | code-submission/code/pre/PRE.cpp:648-652 | A new table is sound, and empty |
| ValueTable.NewValue | code-submission/code/pre/PRE.cpp:615-617 | A value with a number of its own keeps the table sound and hash-consed |
| ValueTable.NewExpression | code-submission/code/pre/PRE.cpp:620-621 | An expression with a number of its own keeps the table sound and hash-consed |
| ValueTable.KnownExpression | code-submission/code/pre/PRE.cpp:620-623 | A value that gets the number of its expression keeps the table sound |
| LeaderTable.LeaderList.Add | code-submission/code/pre/PRE.cpp:823-836 | A leader becomes first in an empty list and second in any other one; the linked entries stay different and in order |
| LeaderTable.LeaderList.Remove | code-submission/code/pre/PRE.cpp:840-862 | Takes out the first entry for a value and a block, which must be there, and nothing else, wherever it is: behind the head, in the head with a successor, alone in the head |
| LeaderTable.LeaderList.UnlinkHead | code-submission/code/pre/PRE.cpp:851-861 | The head takes over the next entry's contents, or becomes empty |
| LeaderTable.LeaderList.UnlinkInner | code-submission/code/pre/PRE.cpp:849-850 | An entry behind the head is unlinked |
| LeaderTable.LeaderList.Find | code-submission/code/pre/PRE.cpp:2168-2189 | Walking the links finds the specified leader |
| LeaderTable.LeaderList.constructor | code-submission/code/pre/PRE.cpp:823-829 | A new list is empty |
| LeaderTable.Leading | code-submission/code/pre/PRE.cpp:2168-2189 | None if and only if no entry's block dominates; otherwise the value of the first dominating constant, or of the first dominating entry if no dominating one is a constant |
| LeaderTable.LeadingExactly | code-submission/code/pre/PRE.cpp:2168-2189 | There is exactly one such leader, and one exists exactly when some entry's block dominates |
| LeaderTable.LeaderReaches | code-submission/code/pre/PRE.cpp:2168-2189 | A leader is the value of an entry of the list whose block dominates |
| LeaderTable.LeadingConstant | code-submission/code/pre/PRE.cpp:2175-2181 | A constant found ends the search: nothing behind it matters |
| LeaderTable.With | code-submission/code/pre/PRE.cpp:823-836 | The added leader is alone in an empty list and second in any other one, behind the old first and before all others; as a bag, the list has exactly it more |
| LeaderTable.Without | code-submission/code/pre/PRE.cpp:840-862 | The first occurrence of the leader is gone, and everything else is in order |
| Redundancy.Pass.ProcessInstruction | code-submission/code/pre/PRE.cpp:2444-2476 | An instruction is replaced by the leader of its number that dominates it, which equals it in every valuation, and is forgotten by the table; the number is the one it had, or that of its expression. Otherwise it becomes a leader of its number, because no leader dominates it or it is always numbered afresh, and that is never replaced |
| Redundancy.Pass.AddToLeaderTable | code-submission/code/pre/PRE.cpp:823-836 | The bag of one number's leaders has exactly the new one more, all other lists are as before, and every leader still has the number it is listed under if the new one has |
| Redundancy.NewNumberNoLeader | code-submission/code/pre/PRE.cpp:2454-2460 | The fast path is right: for a number that is new, a full search for a leader would find none |
| Redundancy.LeaderEquals | code-submission/code/pre/PRE.cpp:2462-2472 | A leader of a value's number equals the value in every valuation |
| Redundancy.RegisteredMore | code-submission/code/pre/PRE.cpp:823-836 | Every leader has the number it is listed under |
| DiamondPre.ScanPredecessors | code-submission/code/pre/PRE.cpp:2935-2973 | Accepts exactly the joins where no predecessor is the join itself, unreachable or dominated by the instruction, where one predecessor lacks the value and another one has it; finds that predecessor and each other one's leader |
| DiamondPre.InsertAtJoin | code-submission/code/pre/PRE.cpp:2935-3038 | Inserts exactly where the join is worth it, the one predecessor that no leader's block dominates leads nowhere else, every operand of the copy stays or has a leader there and the last test does not refuse; then each operand of the copy is the original one or the value of a leader of its number whose block dominates that of the copy |
| DiamondPre.AcceptedMeans | code-submission/code/pre/PRE.cpp:2935-3052 | An accepted join, told by the list of leaders alone: every predecessor is reachable and another block; exactly the one that gets the copy is dominated by no leader's block, and into the phi comes, from each other one, the value of a leader whose block dominates it and which is not the instruction itself |
| DiamondPre.ReplacedByAvailable | code-submission/code/pre/PRE.cpp:2995-3009 | An operand of the copy is the original one, or the value of a leader of its number whose block dominates the block of the copy |
| DiamondPre.InsertionIsSound | code-submission/code/pre/PRE.cpp:2935-3079 | An accepted insertion keeps the meaning and adds no work: in every valuation the phi takes the value of the removed instruction along every edge, the copy's included, and no path from outside the join that has left the copy's block evaluates the expression more often than before |
| DiamondPre.OnlyLacking | code-submission/code/pre/PRE.cpp:2935-2973 | An accepted join has only one predecessor that lacks the value |
| DiamondPre.CopyOperands | code-submission/code/pre/PRE.cpp:2995-3009 | Succeeds exactly when each operand that is not an argument, constant or global has a leader whose block dominates; each such operand gives way to the leader of its number, and the others stay |
| DiamondPre.CopyComputes | code-submission/code/pre/PRE.cpp:2995-3009 | In every valuation the copy computes what the original does |
| DiamondPre.IncomingEquals | code-submission/code/pre/PRE.cpp:3043-3052 | What the phi takes along each edge, the copy included, equals the removed instruction in every valuation |
| DiamondPre.WorkSaved | code-submission/code/pre/PRE.cpp:2969-3041 | On every path from the entry, evaluations of the copy and visits of the join from other predecessors add up to the evaluations of the original, but for a copy that is still on its way to the join |
| DiamondPre.NoMoreWork | code-submission/code/pre/PRE.cpp:2969-3041 | No path that has left the copy's block evaluates the expression more often than before, and it saves nothing exactly when it never came from another predecessor |
| DiamondPre.OneSuccessor | code-submission/code/pre/PRE.cpp:2980-2988 | On an edge that is not critical, the block that gets the copy leads to the join and nowhere else |
| Forwarding.LoadAfterStore | code-submission/code/pre/PRE.cpp:1130-1329 | When a store is found to feed a load and their ends do not lie across the base, the shifted and truncated stored integer is what the load reads from memory after the store, for all sizes and offsets and in both byte orders |
| Forwarding.StoreForwards | code-submission/code/pre/PRE.cpp:1298-1329 | Shifting and truncating a stored integer gives the integer in the load's bytes, in both byte orders |
| Forwarding.AnalyzeIsRight | code-submission/code/pre/PRE.cpp:1130-1200 | An answer is the distance of the two offsets, and the load lies within the write if and only if it is not the case that the write ends below the base and the load does not: the ends are compared as unsigned numbers |
| Forwarding.AnalyzeIsWrongOnce | code-submission/code/pre/PRE.cpp:1193-1199 | Such an answer: four bytes stored at -8 and eight loaded at -6 answer 2, though the load is not within the store |
| Forwarding.AnalyzeFinds | code-submission/code/pre/PRE.cpp:1130-1200 | A load within the write is given up if and only if the write ends at or behind the base and the load before it |
| Forwarding.LittleSlice | code-submission/code/pre/PRE.cpp:1316-1327 | A slice of an integer's bytes is the integer shifted and cut |
| Forwarding.LittleDecodes | code-submission/code/pre/PRE.cpp:1316-1327 | Writing and reading an integer keeps its lowest bytes and no others |
| Forwarding.Splat | code-submission/code/pre/PRE.cpp:1414-1430 | Doubling and then adding single bytes ends with exactly the load's size of copies of the byte |
| Forwarding.LoadAfterMemset | code-submission/code/pre/PRE.cpp:1407-1432 | A load from inside a memset reads the byte repeated as often as the load is long |
| LoopUnrolling.UnrollingKeepsMeaning | code-submission/code/loop-unroll/PgoLoopUnrollRuntime.cpp:200-332 | If the latch only ever leaves after a multiple of Count iterations, the unrolled loop runs abreast with the original one from the preheader on and leaves by the same exit with the same values in the exit's phis and the same memory; header phis may feed each other, and inner blocks may leave anywhere |
| LoopUnrolling.RunsAgree | code-submission/code/loop-unroll/PgoLoopUnrollRuntime.cpp:200-332 | The same from any point of any iteration, over any number of steps |
| LoopUnrolling.NoExitBefore | code-submission/code/loop-unroll/PgoLoopUnrollRuntime.cpp:282-332 | The condition is needed: where the latch leaves in a copy that is not the last one, the unrolled loop does not |
| LoopUnrolling.StepAgrees | code-submission/code/loop-unroll/PgoLoopUnrollRuntime.cpp:253-257 | One block and its copy make the same step |
| LoopUnrolling.EnterNext | code-submission/code/loop-unroll/PgoLoopUnrollRuntime.cpp:208-219 | Leaving a copy for the next one sets no phis, yet every phi has the value there that the original loop sets it to |
| LoopUnrolling.EnterRound | code-submission/code/loop-unroll/PgoLoopUnrollRuntime.cpp:260-278 | From the last copy, the header's phis get the values they have after Count iterations |
| LoopUnrolling.EnterExit | code-submission/code/loop-unroll/PgoLoopUnrollRuntime.cpp:229-242 | Every exit's phis get the same values from a copy as from the original block |
| LoopUnrolling.EnterLoop | code-submission/code/loop-unroll/PgoLoopUnrollRuntime.cpp:260-278 | Both loops are entered from the preheader with the same phis |
| LoopUnrolling.BodyAgrees | code-submission/code/loop-unroll/PgoLoopUnrollRuntime.cpp:253-257 | A renamed body computes, from agreeing registers, agreeing registers and the same memory |
| LoopUnroller.RemapInstruction | code-submission/code/loop-unroll/PgoLoopUnrollRuntime.cpp:44-59 | Replacing operands by their newest clones gives the closed form of the copy's operands |
| LoopUnroller.RemapBlock | code-submission/code/loop-unroll/PgoLoopUnrollRuntime.cpp:253-257 | A clone with all operands, phi edges and targets replaced is the renamed block |
| LoopUnroller.NewestGrows | code-submission/code/loop-unroll/PgoLoopUnrollRuntime.cpp:221-225 | Cloning one more block keeps the running map at the newest clones, a header's phi standing for what the previous copy hands on |
| LoopUnroller.ExitsGrow | code-submission/code/loop-unroll/PgoLoopUnrollRuntime.cpp:229-242 | Each clone adds its edge to the phis of the exits it leads to, with the newest clone of the value |
| LoopUnroller.MappedIsRenamed | code-submission/code/loop-unroll/PgoLoopUnrollRuntime.cpp:44-59 | Once all blocks of a copy are cloned, the running map is the renaming of that copy |
| LoopUnroller.IncomingRenamed | code-submission/code/loop-unroll/PgoLoopUnrollRuntime.cpp:210-217 | The value a cloned header phi stands for is the latch's value in the previous copy |
| LoopUnrollPass.Unroller.Unroll | code-submission/code/loop-unroll/PgoLoopUnrollRuntime.cpp:200-332 | Cloning, renaming and rewiring in place end with exactly the closed form of the unrolled loop, blocks and exit phis |
| LoopUnrollPass.Unroller.AddCopy | code-submission/code/loop-unroll/PgoLoopUnrollRuntime.cpp:200-258 | One more finished copy |
| LoopUnrollPass.Unroller.CloneBlock | code-submission/code/loop-unroll/PgoLoopUnrollRuntime.cpp:203-251 | One more cloned block, entered in the running map, in the exits' phis and among headers and latches |
| LoopUnrollPass.Unroller.RenameCopy | code-submission/code/loop-unroll/PgoLoopUnrollRuntime.cpp:253-257 | All clones of a copy are renamed by the map of newest clones |
| LoopUnrollPass.Unroller.RewirePhis | code-submission/code/loop-unroll/PgoLoopUnrollRuntime.cpp:260-278 | The header's phis take the latch's edge from the last copy |
| LoopUnrollPass.Unroller.RewireLatches | code-submission/code/loop-unroll/PgoLoopUnrollRuntime.cpp:280-332 | Each latch leads unconditionally to the next copy's header, only the last one still tests; exits lose the edges from latches that leave no more |
| LoopUnrollPass.Unroller.constructor | code-submission/code/loop-unroll/PgoLoopUnrollRuntime.cpp:172-198 | Before the first copy, the state is the loop itself |
| LoopUnrollPass.WiredIsUnrolled | code-submission/code/loop-unroll/PgoLoopUnrollRuntime.cpp:280-332 | Fully rewired blocks are those of the unrolled loop |
| LoopUnrollPass.ExitsAreUnrolled | code-submission/code/loop-unroll/PgoLoopUnrollRuntime.cpp:315-327 | The exits' phis without the removed edges are those of the unrolled loop |
| ArcCollection.CollectArcs | code-submission/code/basicblock-placement/BasicBlockPlacement.cpp:129-190 | Ends although the queue holds blocks more than once; visits exactly the blocks reachable from the entry and lists every arc that leaves them and no other, the heaviest first, and of equally heavy ones the one found last first, where the blocks are taken in the order in which they came into the queue |
| ArcCollection.InsertArc | code-submission/code/basicblock-placement/BasicBlockPlacement.cpp:150-178 | Puts the one arc behind all heavier ones and before all others, and keeps weights non-increasing |
| ArcCollection.VisitSuccessors | code-submission/code/basicblock-placement/BasicBlockPlacement.cpp:144-189 | All arcs of one block are listed, the later ones before equally heavy earlier ones, and the successors that were not visited are queued in order |
| ArcCollection.RankedMore | code-submission/code/basicblock-placement/BasicBlockPlacement.cpp:150-178 | An arc put behind exactly the heavier ones keeps the order of the list: by weight, and the last found first |
| ArcCollection.WalkShrinks | code-submission/code/basicblock-placement/BasicBlockPlacement.cpp:137-141 | Each pop finds a new block, or shortens the stretch of visited blocks at the front of the queue |
| ChainMerging.Merge | code-submission/code/basicblock-placement/BasicBlockPlacement.cpp:195-233 | The chains are those that the arcs make of the single blocks, one arc after the other; every block is in them as often as it was, every neighbouring pair of a chain is an arc of the function, and the entry is nowhere but at the head of a chain |
| ChainMerging.MergeAlong | code-submission/code/basicblock-placement/BasicBlockPlacement.cpp:202-232 | If the arc leads from the end of one chain to the head of another, the front half of the other one moves, once, and otherwise nothing changes: the search over all pairs never finds a second fit, and after it the arc leads from the end of no chain to the head of another |
| ChainMerging.FitsOnce | code-submission/code/basicblock-placement/BasicBlockPlacement.cpp:203-232 | After a move the arc's head ends no chain any more, so that the arc fits no other pair |
| ChainMerging.AppendFront | code-submission/code/basicblock-placement/BasicBlockPlacement.cpp:215-219 | The loop against the shrinking size moves blocks from the front of one chain to the end of the other, as many as it leaves or one more |
| ChainMerging.Moved | code-submission/code/basicblock-placement/BasicBlockPlacement.cpp:212-228 | Moving any nonempty front of a chain behind the source of an arc into it keeps the invariant |
| ChainMerging.InOneChain | code-submission/code/basicblock-placement/BasicBlockPlacement.cpp:120-233 | Every block is in exactly one chain, at one place of it, and the entry is at the head of its chain |
| ChainLayout.RunOnFunction | code-submission/code/basicblock-placement/BasicBlockPlacement.cpp:120-328 | The final layout is a permutation of the function's blocks with the entry first, and every nonempty chain but the entry's is one contiguous stretch of it in the chain's order; the chains are those merged along all arcs, the heaviest first and of equally heavy ones the last found first, and they are placed in the order that the rounds choose |
| ChainLayout.Place | code-submission/code/basicblock-placement/BasicBlockPlacement.cpp:243-323 | Every nonempty chain but the entry's is appended exactly once, in the order that the rounds choose, each behind the one before, behind the last block of the entry's chain |
| ChainLayout.PlaceNext | code-submission/code/basicblock-placement/BasicBlockPlacement.cpp:265-322 | One round appends the chosen chain if there is a candidate, and leaves enough rounds for all others |
| ChainLayout.AppendChain | code-submission/code/basicblock-placement/BasicBlockPlacement.cpp:313-318 | Moving the blocks of a chain one behind the other puts them in order behind the block placed last |
| ChainLayout.Choose | code-submission/code/basicblock-placement/BasicBlockPlacement.cpp:269-307 | The last candidate that shares a successor with the current chain, or else the first candidate: the best number of connections is never recorded |
| ChainLayout.CountConnections | code-submission/code/basicblock-placement/BasicBlockPlacement.cpp:282-299 | Counts above zero exactly when two blocks of the chains have a successor in common |
| ChainLayout.FindEntry | code-submission/code/basicblock-placement/BasicBlockPlacement.cpp:243-257 | Finds the chain that begins with the entry |
| ChainLayout.OneStretch | code-submission/code/basicblock-placement/BasicBlockPlacement.cpp:313-318 | Blocks that are not moved keep their order, and all moved ones are one stretch |
| ChainLayout.SameBlocks | code-submission/code/basicblock-placement/BasicBlockPlacement.cpp:313-318 | Moving blocks loses and doubles none |
| HuffmanCodes.CreateHuffmanCodes | applications/huffman.c:78-126 | For all frequencies, not all zero: exactly the symbols that occur have codes, the codes are a prefix code, each fits its number of bits, and the sum of frequency times bits is least among all prefix codes |
| HuffmanCodes.Merge | applications/huffman.c:95-106 | Merging ends with a single tree over all symbols in use, whose costs add up to the cost of greedy merging |
| HuffmanCodes.MergeTwo | applications/huffman.c:97-103 | One merge of the two lightest nodes keeps the forest described by the signed parent array, and the account of costs |
| HuffmanCodes.ReadCodes | applications/huffman.c:111-124 | A code for each symbol with a nonzero frequency, none for the others, each read along the parents |
| HuffmanCodes.ReadCode | applications/huffman.c:113-123 | Climbing to the root ends, and the bits are those of the path, the last merge's bit first |
| HuffmanCodes.Collect | applications/huffman.c:93-93 | The heap holds exactly the symbols with nonzero frequencies, the rarest last |
| HuffmanCodes.ReadOffPrefixCode | applications/huffman.c:112-124 | The words read off a finished parent array are prefix-free |
| HuffmanCodes.ReadOffCost | applications/huffman.c:112-124 | Frequencies times lengths of the words add up to the cost of merging |
| HuffmanCodes.ReadOffShortest | applications/huffman.c:112-124 | The words are a prefix code that no other one beats |
| HuffmanCodes.LowerBound | applications/huffman.c:95-104 | The merged weights are a lower bound for the cost of every prefix code |
| HuffmanCodes.BitsMore | applications/huffman.c:116-120 | A bit above the bits read so far is a bit in front of the word |
| HuffmanCodes.DoneEnds | applications/huffman.c:116-120 | From every symbol in use the parents lead to the root |
| HuffmanForest.MergeKeepsForest | applications/huffman.c:97-103 | A merge keeps it true that every node in use is in the heap or hangs below a later node, by its signed parent |
| HuffmanForest.MergeStep | applications/huffman.c:97-103 | A merge keeps forest and costs together |
| HuffmanForest.MergeIsGreedy | applications/huffman.c:97-103 | The heap's merge is the greedy step on weights |
| HuffmanForest.CollectedDot | applications/huffman.c:93-93 | Leaving out symbols that do not occur leaves costs alone |
| HuffmanHeap.Heap.Sort | applications/huffman.c:40-54 | The gnome sort leaves exactly what stable insertion sort leaves, and ends |
| HuffmanHeap.Heap.Add | applications/huffman.c:57-66 | Adding to a sorted heap inserts behind the last element that is at least as frequent |
| HuffmanHeap.InsertPlace | applications/huffman.c:40-54 | An element comes to stand in front of exactly the less frequent ones at the end, behind all that are at least as frequent |
| HuffmanHeap.Heap.Remove | applications/huffman.c:68-75 | Takes the last element, which in a sorted heap is no more frequent than any other one, or answers -1 |
| HuffmanHeap.Heap.constructor | applications/huffman.c:21-30 | A new heap is empty |
| HuffmanHeap.SortingNext | applications/huffman.c:45-53 | Each step of the walk, forward or back, keeps the account of a sorted prefix with one element under way |
| HuffmanHeap.SortOneMore | applications/huffman.c:57-66 | Sorting a sorted heap with one element behind it is one insertion |
| HuffmanOptimal.GreedyIsLeast | applications/huffman.c:95-104 | Merging the two smallest weights costs no more than any choice of lengths that satisfies Kraft's inequality |
| HuffmanOptimal.PrefixFreeKraft | applications/huffman.c:112-124 | The words of every prefix code satisfy Kraft's inequality |
| HuffmanOptimal.LongestLast | applications/huffman.c:97-98 | No code gets worse when its two longest words go to the two rarest symbols, the longest to the rarest |
| HuffmanOptimal.ShortenLast | applications/huffman.c:97-100 | A word longer than all others can lose a bit, so that the two longest words become equally long |
| HuffmanOptimal.ExchangeGains | applications/huffman.c:97-98 | Giving the longer word to the rarer symbol costs no more |
| HuffmanOptimal.MergeShare | applications/huffman.c:97-100 | Two equally long words make room for one that is a bit shorter |
| HeapEnumeration.EveryPermutationOnce | applications/permutations.c:47-66 | On n distinct elements the recursion visits n! arrangements, all different, and exactly the permutations |
| HeapEnumeration.NetClosed | applications/permutations.c:47-59 | The net rearrangement in closed form: for odd n the first and last element change places, for even n the elements rotate in a fixed order |
| HeapEnumeration.StageLast | applications/permutations.c:50-58 | Each element comes last in exactly one round, whose number is known |
| HeapEnumeration.VisitsCount | applications/permutations.c:47-66 | There are n! visits |
| HeapEnumeration.VisitsSound | applications/permutations.c:47-66 | Only permutations are visited |
| HeapEnumeration.VisitsComplete | applications/permutations.c:47-66 | Every permutation is visited, with repeated elements too |
| HeapEnumeration.VisitsDistinct | applications/permutations.c:47-66 | No arrangement of distinct elements is visited twice |
| Permutations.Boothroyd | applications/permutations.c:47-59 | Calls back, in order, with all visits but the first, leaves the net rearrangement of the first n elements, and touches nothing behind them |
| Permutations.Perm2 | applications/permutations.c:62-66 | Calls back with all visits, the initial arrangement first |
| Permutations.Perm3 | applications/permutations.c:69-87 | On the first n elements of an array, the counters drive exactly the same callbacks in the same order as the recursion, end with the last visit in the array, and touch nothing behind |
| Permutations.Restart | applications/permutations.c:78-85 | Counters at zero below a level stand for a new start of the recursion below that level |
| Permutations.RanOut | applications/permutations.c:80-81 | A level whose counter has run out has no visits left |
| Permutations.NextSwap | applications/permutations.c:83-84 | One swap is the next visit, and the rest is a new start below with one more round counted |
| Permutations.LowestLevel | applications/permutations.c:80-81 | Finds the lowest level with rounds left, or that nothing remains |
| Permutations.SwapAndVisit | applications/permutations.c:54-57 | Swaps the last element with the round's partner and calls back |
| LexPermutations.NextLexPerm | applications/permutations.c:16-37 | Answers 0 with the array unchanged if and only if it is non-increasing; otherwise leaves the least rearrangement above the old one |
| LexPermutations.Perm1 | applications/permutations.c:39-44 | Calls back with the array and all its rearrangements above it, in order and each once, ends with the last of them in the array, and touches nothing behind the first n elements |
| LexPermutations.FromTheFirst | applications/permutations.c:39-44 | From a sorted array it visits all distinct rearrangements |
| LexPermutations.LastAscent | applications/permutations.c:22-23 | Finds the longest non-increasing suffix |
| LexPermutations.ReverseSuffix | applications/permutations.c:32-34 | Reverses the suffix and nothing else |
| LexPermutations.SuccessorIs | applications/permutations.c:22-34 | Pivot, swap and reversed suffix make the least larger rearrangement |
| LexPermutations.LaterShrinks | applications/permutations.c:42-43 | Each step leaves fewer rearrangements above: the enumeration ends |
| LexPermutations.DecreasingGreatest | applications/permutations.c:22-23 | No rearrangement lies above a non-increasing one |
| Transpose.TransposeInPlace | applications/transpose.c:3-23 | For all w and h the array ends up transposed, and what lies behind the matrix is unchanged |
| Transpose.FollowCycle | applications/transpose.c:9-14 | Follows a cycle until it is back at its start or below it; the loop ends, and the indices passed are different |
| Transpose.RotateCycle | applications/transpose.c:16-21 | Moves every element of the start's cycle to its place and no other element |
| Transpose.Least | applications/transpose.c:14-21 | A cycle rotated at its start is rotated there only: it has no index below, and all its indices become done |
| Transpose.NotLeast | applications/transpose.c:14-14 | A cycle that reaches below its start has been rotated already |
| Transpose.FromInjective | applications/transpose.c:12-12 | The index map takes no two indices to one place |
| Transpose.PathGrows | applications/transpose.c:11-13 | The next index is new unless the cycle closes |
| Transpose.CycleMoved | applications/transpose.c:16-21 | A rotated cycle is in its final place, and all other cycles are as before |
| Fft.Fft | applications/fft.c:24-30 | For n a power of two the buffer ends up as the quadratic discrete Fourier transform of what it held |
| Fft.Recurse | applications/fft.c:10-22 | With equal contents in both buffers on one stride class, leaves the transform of the class in the first one, and touches no other class of either |
| Fft.Combine | applications/fft.c:16-21 | The loop of butterflies makes the transform from those of the even and the odd elements |
| Fft.Butterfly | applications/fft.c:17-19 | One butterfly gives the transform at k and at half a period later |
| Fft.DftSplits | applications/fft.c:13-20 | The quadratic transform splits into those of even and odd elements |
| Fft.ButterflyAt | applications/fft.c:17-19 | The butterfly reads the two halves where they lie in the other buffer |
| Fft.HoldsHalves | applications/fft.c:13-14 | The even and odd elements of a stride class are classes of twice the stride |
| Factoring.Decompose | applications/prime_decomposition.c:130-150 | For all n from 1 on: the factors are primes in non-decreasing order whose product is n |
| Factoring.IsPrime | applications/prime_decomposition.c:63-76 | True exactly for primes, by the table below its limit and by trial division above |
| Factoring.NextPrime | applications/prime_decomposition.c:100-128 | The least larger prime, or 0 when the table ends before it |
| Factoring.DivideOut | applications/prime_decomposition.c:143-146 | Divides by one prime as often as it goes, each time with one factor more |
| Factoring.SplitAll | applications/prime_decomposition.c:141-147 | What remains has no prime factor up to the last prime tried, whose square is above it |
| Factoring.SplitOff | applications/prime_decomposition.c:143-146 | Splitting off one factor keeps product and order |
| PrimeTable.Init | applications/prime_decomposition.c:50-57 | After sieving by all primes that next_prime reaches up to the bound, a bit is set exactly for the primes |
| PrimeTable.ProgramSizes | applications/prime_decomposition.c:16-18 | The program's sizes meet what Init asks for: 65537 is a prime in the table above the last number sieved by, and the squares of it and all later primes lie outside of the table |
| PrimeTable.SievedOnce | applications/prime_decomposition.c:50-57 | Sieving by one more prime strikes exactly its multiples |
| PrimeTable.NextIsPrime | applications/prime_decomposition.c:51-51 | In a table sieved so far, the next bit is the next prime, which keeps the loop on primes |
| PrimeTable.SievedIsExact | applications/prime_decomposition.c:50-57 | Sieving up to the root of the table's size is enough |
| Wheel.Sieve | applications/prime_decomposition.c:78-98 | Clears exactly the bits of the multiples of p by coprime numbers from 7 on |
| Wheel.SieveRows | applications/prime_decomposition.c:96-97 | Stepping by the offsets in turn strikes each multiple in its byte with its mask |
| Wheel.Residues | applications/prime_decomposition.c:84-88 | Mask and byte of the first eight multiples |
| Wheel.Differences | applications/prime_decomposition.c:90-94 | The bytes turned in place into distances that add up to p |
| Wheel.StrikeStep | applications/prime_decomposition.c:96-97 | One masked byte strikes one multiple and no other number |
| Wheel.NextBit | applications/prime_decomposition.c:105-120 | The least number above p whose bit is set, or 0 if there is none |
| Wheel.SkipBytes | applications/prime_decomposition.c:109-114 | Skips exactly the bytes with no bit left, the byte with the topmost bit included |
| Wheel.LowestBit | applications/prime_decomposition.c:115-118 | The lowest set bit from a place on; the loop ends |
| Wheel.BitAbove | applications/prime_decomposition.c:106-108 | The bit above that of p and its place, or no bit behind the topmost one |
| Wheel.NoneFrom | applications/prime_decomposition.c:109-109 | A byte is below a bit exactly when it has no bit from there on |
| Wheel.CoprimePlace | applications/prime_decomposition.c:24-32 | Exactly the numbers coprime to 30 have a bit |
| Primes.PrimeByTrial | applications/prime_decomposition.c:141-148 | A number with no prime divisor up to its root is prime |

## Left out

BrainF:
- The flags of IR instructions, names of values, verification of the module and its execution by the JIT.
- The width of the tape's address space: addresses are unbounded integers, and accesses outside of the tape are undefined.
- The amount of a run is an unbounded integer, where the source has a machine integer.

Partial redundancy elimination:
- Alias analysis and memory dependence. Calls that read or write memory have fresh numbers, like all instructions that the table tells only by identity.
- ValueTable.ValueTable.LookupOrAdd: does not model calls that only read memory, because their numbers depend on memory dependence.
- `propagateEquality` and the simplification of instructions before they are numbered.
- Redundancy.Pass.AddToLeaderTable: works on the contents of the lists of all numbers; that each linked list has these contents is `LeaderTable.LeaderList`, so that lists sharing one allocator are not modelled.
- Redundancy.Pass.ProcessInstruction: does not model loads, branches and switches, which have code of their own before the part that is modelled.
- LeaderTable.LeaderList.Remove: requires the entry, because the source walks off the list without it.
- DiamondPre.InsertAtJoin: models the refusals by indirect branches and by `EnableSpec` as one test that can only refuse; entering the copy and the phi into the tables and splitting critical edges are not modelled.
- DiamondPre.InsertionIsSound: is about one valuation of all names, so the join is taken as acyclic.
- `GraphPath`, costs and benefits.
- Forwarding.LoadAfterStore: is about integers in memory; the conversion of pointers, floating-point values and vectors, wider loads and loads from constant memory are not modelled.
- Forwarding.Splat: models the bitwise or of bits that do not overlap as a sum.

Loop unrolling:
- LoopUnrolling.UnrollingKeepsMeaning: takes from the prologue, whose code is not modelled, that the latch leaves only after a multiple of Count iterations, because that is what the prologue is for.
- Folding blocks into their predecessors afterwards, and the bookkeeping of loop information and scalar evolution.
- Registers of an earlier iteration are not visible in the next one except through phis, as SSA form has it.

Basic block placement:
- ChainLayout.RunOnFunction: requires all blocks to be reachable, which the source asserts, and no arc to the entry, which LLVM's IR forbids.
- Weights are exact reals. The recursive `PlaceBlocks` is not called.

Programs:
- HuffmanHeap.Heap.Add: does not model the growth of the heap, because no caller reaches it.
- HuffmanCodes.CreateHuffmanCodes: does not model negative frequencies, failed allocations, or sums and codes beyond the width of a machine word.
- Permutations.Perm3: has its counters in a local sequence, not in allocated memory.
- Fft.Fft: computes with exact complex numbers and takes the root of -1 as a parameter, so rounding is not modelled.
- Factoring.Decompose: has unbounded integers; the condition on n says that trial division stays within the table, which holds for all 64-bit n, and the array for the factors must have room.
- PrimeTable.Init: does not model the file in which the table is kept.
- The other programs: easier, or numerical with rounding as the point.
