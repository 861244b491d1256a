# A verified model of the CPOG generator and checker core

CPOG is a proof format for certifying knowledge compilation.

- The generator (`cpog-generate`) takes a CNF formula and the decision-DNNF graph that the D4 compiler produces from it.
- It rebuilds that graph as a partitioned-operation graph (POG) and writes a proof that the POG and the formula have the same models.
- The checker (`cpog-check`) reads the formula and the proof and accepts or rejects it.
- A Python driver runs D4, the generator, the C checker and a CakeML checker in a chain.

This project models the sequential, integer-level core of those programs as pure Dafny functions, methods over sequences, and lemmas.
Each module follows one component of the source.

**Checker** (`cpog-check.c`)
- `IntList`: sorted integer lists as sets (union, disjointness, duplicate search and deduplication).
- `LiteralSet`: the generation-stamped literal set.
- `Rup`: the reverse-unit-propagation step and its hint-type table.
- `ClauseBlocks`: the block-structured clause store, searched by binary search.
- `EventQueue`: the min-heap node event queue with saturating counters.
- `DeletionQueue`: the partition of the input clauses into deletion ranges.
- `Tokenizer`: the tokenizer.
- `ProductDeps`: the dependency-disjointness rule for product nodes.

**Generator clause layer** (`clausal.cpp`, `clausal.hh`)
- `Literals`: literal conventions.
- `Clauses`: clause canonization, simplification and satisfaction.
- `ClauseLiteralSet`: the generator's Literal_set.
- `InputCnf`: the input formula, its DIMACS header checks, and the reduced formula's proof replay.
- `Reasoner`: proof-clause numbering and the dispatch between unit propagation and a SAT solver.
- `Watching`: watch lists with checkpoint and restore.
- `ContextStack`: the context stack.
- `Bcp`: the per-clause BCP step.

**POG layer** (`pog.cpp`, `pog.hh`)
- `PogNodes`: node naming, Skolem argument checks, and the splitting-literal search.
- `PogTopo`: the topological walk.
- `PogCompress`: optimizing and plain compression.
- `PogDelete`: the node labelling that justifies deleting an input clause.
- `D4Reader`: the D4 NNF line grammar.

**CNF optimizer** (`cnf_opt.cpp`, `cnf_opt.hh`)
- `CnfOpt`: the duplicate-free clause database and resolution.
- `CnfPropagate`: unit propagation.
- `CnfEliminate`: bounded variable elimination.

**Utilities**
- `Counters`: the statistic counters.
- `Namer`: the temporary-file namer from `report.c`.
- `HashMix` and `HashBytes`: the 64-bit MurmurHashUnaligned2 of the D4 compiler.
- `Toolchain`: the pure parts of the driver `toolchain.py`.

**How the model treats the machine**
- C ints and longs are unbounded integers, except where the source's width shows. Those places are modelled explicitly:
  - the int truncation in `get_count`;
  - the int accumulation of an integer token's magnitude and value in `token_next`, which wraps to 32 bits (signed overflow is undefined in C; the model takes the two's-complement wrap of the usual targets);
  - the `INT_MIN` conflict marker;
  - the generation counter's wrap-around guard;
  - the 64-bit wrap-around of the hash.
- Mutable arrays become sequences, and each operation returns the new state.
- Calls to solvers, writers, the file system and processes are replaced by their outcomes, which the caller supplies as parameters.
- Where the source reports a fatal error (`err`, `err_printf`), the model returns a `Failure`.

## Model

| member | source | states |
|---|---|---|
| IntList.FindDuplicate | cpog/checker/cpog-check.c:443-455 | reports nothing exactly when no two neighbouring entries are equal; a reported value is that of an equal neighbouring pair |
| IntList.NoAdjacentRepeatIsStrict | cpog/checker/cpog-check.c:443-455 | on an ascending list, having no equal neighbours is the same as being strictly ascending, so find_duplicate is false exactly on strictly ascending lists |
| IntList.Deduplicate | cpog/checker/cpog-check.c:459-472 | the compaction keeps the first entry and each entry differing from the one before; the values are unchanged, no neighbours are equal, and an ascending input gives a strictly ascending result |
| IntList.IsDisjoint | cpog/checker/cpog-check.c:516-534 | a reported shared value lies in both lists; on ascending lists nothing is reported exactly when the value sets are disjoint |
| IntList.Union | cpog/checker/cpog-check.c:550-579 | the result holds exactly the values of either list, and is strictly ascending when both inputs are |
| IntList.StrictlyAscendingUnique | cpog/checker/cpog-check.c:550-579 | two strictly ascending lists with the same values are equal, so the union of strict lists is the one sorted list of the combined values, shared values once |
| IntList.Sort | cpog/checker/cpog-check.c:383-398 | the sorted list is an ascending permutation of the input |
| IntList.StrictIffDistinct | cpog/checker/cpog-check.c:443-472 | an ascending list is strictly ascending exactly when no value occurs twice |
| LiteralSet.Init | cpog/checker/cpog-check.c:597-605 | a zeroed array of at least MIN_SIZE and at least var entries, generation 1 |
| LiteralSet.Clear | cpog/checker/cpog-check.c:607-615 | after a clear no literal is in the set, whether the generation advances or wraps to 1 with a zeroed array; the size is kept |
| LiteralSet.CheckSize | cpog/checker/cpog-check.c:617-635 | the array grows to hold var and every variable keeps the literal it held |
| LiteralSet.AddLit | cpog/checker/cpog-check.c:649-658 | fails and changes nothing exactly when the opposite literal is present; otherwise lit is in the set, its negation is not, and every other variable is unchanged |
| ClauseLiteralSet.New | cpog/generator/clausal.cpp:476-480 | a fresh set over nvar variables holds no literal |
| ClauseLiteralSet.LoadClause | cpog/generator/clausal.cpp:482-498 | after loading a consistent in-range clause, contains is true exactly for its literals; earlier loads are forgotten since the generation advances |
| Rup.UnitPropFromSpec | cpog/checker/cpog-check.c:1151-1172 | the scan, given the unassigned literal found so far, stalls exactly when a literal is true or two distinct literals are unassigned, conflicts exactly when none is, and otherwise returns the only one |
| Rup.UnitPropSpec | cpog/checker/cpog-check.c:1151-1172 | rup_unit_prop stalls iff some literal is true or two distinct literals are unassigned, conflicts iff every literal is false, and otherwise returns the lone unassigned literal of the clause, repeats of it allowed |
| Rup.RupSetup | cpog/checker/cpog-check.c:1136-1145 | fails exactly when the clause holds a literal and its negation; on success the set holds exactly the negated clause literals |
| Rup.HintTableByTarget | cpog/checker/cpog-check.c:1231-1251 | the hint table read by hint type agrees with the table read by target type (which hint types each target accepts) |
| Rup.HintStepAsWritten | cpog/checker/cpog-check.c:947-957 | a hint naming a null entry of a block crashes the step, since clause_locate returns NULL and rup_unit_prop reads through it |
| Rup.HintStep | cpog/checker/cpog-check.c:1224-1254 | the corrected step never crashes, steps exactly for a located clause, keeps the types-allowed flag iff the table accepts the hint type, and equals the step as written wherever that one does not crash |
| Rup.GapHintCrashes | cpog/checker/cpog-check.c:905-957 | a valid store whose block holds null entries for skipped ids 3 and 4: find_clause succeeds on id 3 and the step as written crashes where the corrected one fails cleanly |
| Rup.RupRun | cpog/checker/cpog-check.c:1179-1277 | success means some c < m certify the run: hints before the 0 at m are nonzero integers, hints 0..c are clauses whose type suits the target, each hint before c gives a unit that is added to the set (or, with skipping_rup, stalls and changes nothing) starting from s, and hint c then has every literal false; the result is that final set; an empty or non-integer start fails |
| Rup.FinishRun | cpog/checker/cpog-check.c:1189-1221 | at the closing 0 after a conflict, or at a conflict followed by skipped hints under early_rup, success returns the current set and certifies the run replayed so far; a 0 without a conflict fails |
| Rup.UseHint | cpog/checker/cpog-check.c:1224-1273 | a used hint names a clause; the types-allowed flag stays only when the table accepts it; a conflict leaves the set unchanged with every hint literal false; otherwise the set gains exactly the unit literal, or stays the same on a stall that skipping_rup allows |
| Rup.AddUnit | cpog/checker/cpog-check.c:1272-1273 | the unit a hint yields can always be added: afterwards the set holds exactly its old literals and the unit |
| Rup.RupSound | cpog/checker/cpog-check.c:1179-1277 | soundness of a certified run: an assignment that makes every literal of the starting set true (so falsifies the clause whose negation the set holds) and satisfies hints 0..c-1 falsifies hint c, so the used hint clauses imply the clause being added |
| Rup.ReplayKeepsTrue | cpog/checker/cpog-check.c:1224-1273 | each unit propagation step keeps every literal of the set true under an assignment that satisfies the starting set and the hints used so far |
| Rup.SkipToZero | cpog/checker/cpog-check.c:1206-1215 | the early_rup skip succeeds only when integer hints run up to a 0 and the types-allowed flag is set, leaving the set unchanged |
| ClauseBlocks.InitialValid | cpog/checker/cpog-check.c:879-896 | the empty store is well formed and locates no clause |
| ClauseBlocks.EntryOfCovering | cpog/checker/cpog-check.c:905-925 | in blocks sorted by start id with disjoint ranges, an id has an entry exactly when some block covers it, and then it is that block's entry at id minus the start |
| ClauseBlocks.FindClause | cpog/checker/cpog-check.c:905-925 | the binary search finds a location exactly when some block covers cid; the location is in range, start id plus position is cid, and it names the covering entry |
| ClauseBlocks.AddClause | cpog/checker/cpog-check.c:1013-1077 | fails exactly for an id at or below the last one; otherwise the new clause is stored under cid, older ids keep their entries, the skipped ids become null entries of the last block or belong to no block, and a new block starts exactly after a gap above MAX_GAP or for the first non-input clause |
| ClauseBlocks.AppendBlock | cpog/checker/cpog-check.c:1017-1032 | starting a new block keeps the store well formed, adds the clause under cid and leaves the skipped ids in no block |
| ClauseBlocks.ExtendLast | cpog/checker/cpog-check.c:1033-1041 | extending the last block keeps the store well formed, fills the skipped ids with null entries and adds the clause under cid |
| ClauseBlocks.DeleteClause | cpog/checker/cpog-check.c:988-1011 | deleting a null entry is an error; otherwise only the located clause changes, its type becoming unknown with its literals kept |
| ClauseBlocks.ReplaceBlock | cpog/checker/cpog-check.c:988-1011 | rewriting one block in place, with the same start and length, changes the entry of exactly the ids that block covers |
| EventQueue.HeapRootIsMin | cpog/checker/cpog-check.c:1727-1762 | in a min-heap the first entry is no larger than any other |
| EventQueue.PlusPlusMax2 | cpog/checker/cpog-check.c:1664-1669 | returns the old counter and increments it, saturating at 2 |
| EventQueue.SiftUp | cpog/checker/cpog-check.c:1750-1762 | restores the min-heap property after the last entry was added, permuting the entries |
| EventQueue.SiftDown | cpog/checker/cpog-check.c:1727-1747 | restores the min-heap property after the root was replaced, permuting the entries |
| EventQueue.PriorityAdd | cpog/checker/cpog-check.c:1764-1774 | bumps the node's saturating counter, other counters unchanged; the node joins the queue exactly when its counter was 0 |
| EventQueue.PriorityNext | cpog/checker/cpog-check.c:1776-1789 | -1 and no change on an empty queue; otherwise the minimum is removed and returned, the queue shrinks by one and the event count rises by one |
| DeletionQueue.CDiv | cpog/checker/cpog-check.c:2122 | C's int division agrees with Euclidean division on a nonnegative dividend and positive divisor |
| DeletionQueue.BlocksTile | cpog/checker/cpog-check.c:2128-2134 | the range loop produces consecutive nonempty ranges of at most block-size ids from lo to n, ceil((n - lo + 1) / size) of them |
| DeletionQueue.TilesPartition | cpog/checker/cpog-check.c:2128-2134 | consecutive ranges from 1 to n hold an id exactly when it is in 1..n, and they are pairwise disjoint |
| DeletionQueue.SetupAsWritten | cpog/checker/cpog-check.c:2121-2137 | with thread_limit 0 the block-size division traps; with thread_limit at least 1 the ranges tile 1..n with some block size in 1..CLAUSE_DELETION_BLOCK |
| DeletionQueue.DefaultThreadLimitTraps | cpog/checker/cpog-check.c:109 | without "-n" the thread limit stays 0 and the queue setup divides by zero for every clause count; the corrected setup then acts as the one-thread setup |
| DeletionQueue.BlockSize | cpog/checker/cpog-check.c:2122-2124 | the block size is at most CLAUSE_DELETION_BLOCK and is the least size covering the clauses in one block per thread, unless capped |
| DeletionQueue.Setup | cpog/checker/cpog-check.c:2121-2137 | the queue tiles 1..n in ranges of the block size, and has ceil(n / block size) entries, the count the source allocates |
| DeletionQueue.SetupPartitions | cpog/checker/cpog-check.c:2121-2137 | every input clause id lies in exactly one queued range and no other id does |
| DeletionQueue.SetupFitsThreads | cpog/checker/cpog-check.c:2121-2137 | when the clauses fit in one capped block per thread, there are no more ranges than threads |
| DeletionQueue.NextDeletion | cpog/checker/cpog-check.c:2140-2160 | hands out the next range in order and advances the count, or nothing once all were handed out |
| DeletionQueue.Drain | cpog/checker/cpog-check.c:2140-2160 | taking ranges until none is left yields the rest of the queue in order |
| Tokenizer.TokenNext | cpog/checker/cpog-check.c:732-810 | the position only advances; a token is always classified; end of file is reported exactly when only non-newline blanks remain; the line count rises exactly for an end-of-line token |
| Tokenizer.Body | cpog/checker/cpog-check.c:756-807 | the token body only moves forward, keeps its type or turns it into integer, string, star or unknown, and stops without a type only at end of input; magnitude and value wrap to 32 bits after each digit |
| Tokenizer.DigitRun | cpog/checker/cpog-check.c:770-780 | a run of digits leaves the magnitude holding their decimal value wrapped to 32 bits and the value holding the signed number wrapped to 32 bits, and appends the digits to the token text |
| Tokenizer.WrapAffine | cpog/checker/cpog-check.c:778-781 | wrapping after every digit step gives what wrapping the exact number once gives |
| Tokenizer.ReadsIntegerAt | cpog/checker/cpog-check.c:732-810 | blanks, an optional '-', digits and a blank or end of input read as one integer token whose value is the signed decimal number wrapped to 32 bits, with that text, consuming the closing blank unless it is a newline |
| Tokenizer.ReadsInteger | cpog/checker/cpog-check.c:732-810 | the same for an input assembled from blanks, sign, digits and the rest |
| Tokenizer.ReadsPrintedInt | cpog/checker/cpog-check.c:732-810 | token_next reads back every 32-bit int printed in decimal with exactly its value (the round trip of printing a hint) |
| Tokenizer.ReadsNat | cpog/checker/cpog-check.c:732-810 | the decimal text of any number that fits token_last reads as that number wrapped to 32 bits |
| Tokenizer.ReadsWrapped | cpog/checker/cpog-check.c:778-781 | 4294967297, one more than 2^32, reads as the integer 1 |
| Tokenizer.LoneMinusIsZero | cpog/checker/cpog-check.c:760-769 | a '-' followed by a blank is an integer token of value 0 |
| Tokenizer.LongTokenUnknown | cpog/checker/cpog-check.c:757-760 | a token reaching TOKEN_MAX - 1 characters is unknown |
| Tokenizer.TokenEnd | cpog/checker/cpog-check.c:781-785 | a blank or end of input ends the token, a newline being left for the next call |
| Decimal.ValueOfNatToString | cpog/generator/report.c:47-53 | the decimal text of a number reads back as that number |
| Decimal.NatToStringInjective | cpog/generator/report.c:47-53 | different numbers print as different decimal texts |
| ProductDeps.NodeDepsMembers | cpog/checker/cpog-check.c:1905-1909 | a variable is in the merged dependency set of the node children exactly when some node child's dependency list holds it |
| ProductDeps.DisjointNodesSnoc | cpog/checker/cpog-check.c:1905-1909 | adding one node child keeps the children pairwise disjoint exactly when its dependency list misses the dependencies merged so far, which is what the per-child is_disjoint test checks |
| ProductDeps.CollectChildren | cpog/checker/cpog-check.c:1886-1912 | the child loop succeeds exactly when every child is an allowed input literal or a positive literal naming a defined node and the node children have pairwise disjoint dependencies; it returns the sorted union of their dependencies and the input variables in order |
| ProductDeps.LocalDependencies | cpog/checker/cpog-check.c:1913-1924 | the input variables are accepted exactly when repeats are allowed or none repeats, and the result is strictly ascending with the same set of variables |
| ProductDeps.ProductDependencies | cpog/checker/cpog-check.c:1886-1930 | a product is accepted exactly when it is decomposable (allowed children, disjoint node dependencies, no repeated input variable unless allowed, no input variable shared with a node child), and its dependency list is the strictly ascending union of all of them |
| ProductDeps.ProductClauses | cpog/checker/cpog-check.c:1937-1953 | the product adds one clause more than it has children, at consecutive ids from cid; only the long clause of a childless declared root is a root clause |
| ProductDeps.ProductClausesDefineAnd | cpog/checker/cpog-check.c:1937-1953 | an assignment satisfies all the added clauses exactly when the node variable is true iff every child literal is true |
| ProductDeps.DefineAnd | cpog/checker/cpog-check.c:1937-1953 | any clause list of the Tseitin shape (node or negated children; not-node or child) is satisfied exactly when the node equals the conjunction of its children |
| ProductDeps.LongClauseTrue | cpog/checker/cpog-check.c:1938-1946 | the long clause holds exactly when the node is true or some child is false |
| D4Reader.KindOfTag | cpog/generator/pog.cpp:836-840 | exactly the letters t, f, a and o name a node kind, and none of them names a Skolem node |
| D4Reader.ReadLine | cpog/generator/pog.cpp:831-897 | a line is rejected exactly when it is not well formed given the ids declared so far; a number-less line at end of file stops; a node line appends its node and maps its id; an edge line adds the child, or a new AND node over the literals followed by the child, to the parent's arguments |
| D4Reader.ReadFromAccepts | cpog/generator/pog.cpp:828-898 | the reading loop from any line succeeds exactly when every line up to the first stopping one is well formed |
| D4Reader.ReadAccepts | cpog/generator/pog.cpp:828-898 | reading a whole file succeeds exactly when the file is accepted by the line grammar |
| D4Reader.LeastLeft | cpog/generator/pog.cpp:908 | picks the least declared NNF id not yet visited, or none when all are visited, giving the ascending order of the std::map iteration |
| D4Reader.Visit | cpog/generator/pog.cpp:909-927 | visiting one id fails exactly when it is an OR node of degree 0 or more than 2 |
| D4Reader.VisitStep | cpog/generator/pog.cpp:908-928 | visiting the least unvisited id keeps the search state: no bad OR node seen, and the root is the value of the least candidate seen so far |
| D4Reader.FindRoot | cpog/generator/pog.cpp:908-930 | the root search fails exactly when some OR node has a bad degree or no id is a root candidate; otherwise the root is the one the least candidate supplies (the node itself for a parentless unary OR, plus or minus TRUE_ID for a constant) |
| D4Reader.ReadD4 | cpog/generator/pog.cpp:814-930 | a successful read means the file is accepted by the grammar, the nodes are exactly the read kinds and argument lists, and the root is the least candidate's; a file the grammar rejects is an error |
| Literals.MatchPhaseOfVariable | cpog/generator/clausal.hh:62-65 | putting a literal's variable in the phase of that literal gives back the literal |
| Literals.ConflictLitIsNoLiteral | cpog/generator/clausal.hh:88 | the conflict marker differs from every literal, from every literal's negation and from 0 |
| Literals.AbsOfLiteral | cpog/generator/clausal.hh:62 | the variable of a literal is a positive int, and a literal and its negation share it |
| Clauses.Length | cpog/generator/clausal.cpp:217-221 | a tautology has length 0 and any other clause the number of literals it stores |
| Clauses.MaxVariable | cpog/generator/clausal.cpp:228-237 | the result bounds every variable of the clause and is one of them, or 0 for a tautology or an empty clause |
| Clauses.SortByAbs | cpog/generator/clausal.cpp:39-41 | the sort with abs_less orders the literals by variable and is a permutation of them |
| Clauses.ScanSpec | cpog/generator/clausal.cpp:285-301 | the read/write loop finds a complementary pair exactly when the sorted literals hold one, and stops at the least such variable; otherwise it writes each literal once in strictly increasing order of variable |
| Clauses.CanonizeSpec | cpog/generator/clausal.cpp:280-309 | canonizing gives [v, -v] for the least variable v present in both phases, and otherwise the clause's set of literals in strictly increasing order of variable |
| Clauses.CanonizeBySet | cpog/generator/clausal.cpp:280-309 | two clauses with the same set of literals canonize to the same clause, whatever order the sort leaves literals of one variable in |
| Clauses.CanonizedUnique | cpog/generator/clausal.cpp:280-309 | the canonical form of a set of literals is unique |
| Clauses.AbsStrictUnique | cpog/generator/clausal.cpp:298 | literals listed in strictly increasing order of variable are determined by their set |
| Clauses.MakeTautology | cpog/generator/clausal.cpp:311-316 | the result is the canonized tautology made of the first literal and its negation, of length 0 |
| Clauses.Simplify | cpog/generator/clausal.cpp:407-421 | no result exactly when some literal of the clause is a unit; otherwise the literals whose negation is not a unit, in order |
| Clauses.Residue | cpog/generator/clausal.cpp:415-416 | the kept literals are literals of the clause whose negation is not a unit, and every such literal is kept |
| Clauses.SimplifyFrom | cpog/generator/clausal.cpp:410-420 | the loop stops with no result exactly when it meets a unit literal, and otherwise returns the residue |
| Clauses.Satisfied | cpog/generator/clausal.cpp:256-263 | a clause is satisfied exactly when it is a tautology or one of its literals agrees with the assignment |
| Reasoner.AddProofClause | cpog/generator/clausal.cpp:1278-1293 | fails exactly at the clause limit; otherwise the clause gets the next id after all input and proof clauses, an empty clause makes the formula unsatisfiable, and a unit clause's literal becomes a unit justified by the new id |
| Reasoner.GetClause | cpog/generator/clausal.cpp:1239-1255 | ids up to the input count give input clauses; above that an auxiliary clause wins, then proof clauses; any other id is fatal |
| Reasoner.AddThenGet | cpog/generator/clausal.cpp:1239-1293 | a clause just added is found under its new id unless an auxiliary clause holds that id, and every earlier id keeps its clause |
| Reasoner.Choose | cpog/generator/clausal.cpp:2545-2551 | unit propagation runs unless the mode is SAT-only or the propagation budget is zero, bounded exactly in the bounded mode; the SAT solver runs only in the full and SAT modes and only when propagation found nothing |
| Reasoner.ValidateLiteral | cpog/generator/clausal.cpp:2539-2556 | a justified literal returns its clause id unchanged, another unit returns 0 unchanged; otherwise the chosen solvers' id is returned and a nonzero one makes the literal a derived unit unless it became a unit meanwhile |
| Reasoner.ValidationModes | cpog/generator/clausal.cpp:2548-2551 | per mode: the propagation-only modes give the propagation result or 0, the SAT mode gives the SAT result, the full mode falls back from propagation to SAT |
| Watching.AddClauseId | cpog/generator/clausal.cpp:1130-1138 | the clause is appended to one literal's watch list and no other list changes; while saving, only the first change to a list records its old length |
| Watching.AddUnit | cpog/generator/clausal.cpp:1140-1143 | the unit is appended to the trail and nothing else changes |
| Watching.GetUnit | cpog/generator/clausal.cpp:1145-1149 | returns the next unpropagated trail literal and advances past it, or 0 without change once the trail is used up |
| Watching.Drain | cpog/generator/clausal.cpp:1145-1149 | repeated calls hand out exactly the unpropagated trail literals, in trail order |
| Watching.WatchingPair | cpog/generator/clausal.cpp:1176-1180 | while saving, the first watched pair recorded for a clause is kept and later ones are ignored; nothing else changes |
| Watching.Checkpoint | cpog/generator/clausal.cpp:1151-1157 | saving starts from the current trail length and cursor with nothing recorded, and the lists are untouched |
| Watching.Resize | cpog/generator/clausal.cpp:1166-1169 | resizing gives exactly n entries, the first ones unchanged |
| Watching.Restore | cpog/generator/clausal.cpp:1159-1174 | every list changed since the checkpoint is cut back to its saved length, the others are unchanged, the trail and cursor return to their saved values and saving stops |
| Watching.ExtendsAll | cpog/generator/clausal.cpp:1130-1143 | any sequence of list additions, unit additions, unit reads and pair recordings after a checkpoint only extends what was there at the checkpoint |
| Watching.CheckpointRestore | cpog/generator/clausal.cpp:1151-1174 | checkpoint, any such sequence of operations, then restore gives back every watch list, the trail and the cursor as they were |
| ContextStack.NewContext | cpog/generator/clausal.cpp:2137-2142 | each of the three context stacks gains a marker, and the units, asserted literals, justifications and active clauses are unchanged |
| ContextStack.PushAssigned | cpog/generator/clausal.cpp:2152-2173 | the literal becomes a unit and is appended to the asserted literals and the literal stack; the non-fatal warning is raised exactly when the literal or its negation was already a unit |
| ContextStack.PushDerived | cpog/generator/clausal.cpp:2175-2183 | the literal becomes a unit justified by the clause id and goes on the literal stack; the warning is raised exactly when it or its negation was already a unit |
| ContextStack.PushClause | cpog/generator/clausal.cpp:2185-2188 | a clause id is remembered for reactivation exactly when forced, an input clause or an auxiliary clause |
| ContextStack.ClearAssigned | cpog/generator/clausal.cpp:2232-2239 | every asserted literal stops being a unit and goes on the cleared stack, last asserted first, leaving no asserted literal |
| ContextStack.ApplyAllFrame | cpog/generator/clausal.cpp:2152-2188 | pushes and deactivations leave the cleared stack alone, add the remembered clauses to the clause stack, and keep every justified literal a unit |
| ContextStack.PopLiteralsUndo | cpog/generator/clausal.cpp:2196-2210 | popping the literal stack undoes every pushed literal exactly, whether asserted or derived |
| ContextStack.PopClearedReverse | cpog/generator/clausal.cpp:2211-2220 | popping the cleared stack reasserts the cleared literals in their original order |
| ContextStack.PopClausesKept | cpog/generator/clausal.cpp:2221-2229 | popping the clause stack reactivates exactly the remembered clauses |
| ContextStack.ContextRoundTrip | cpog/generator/clausal.cpp:2137-2239 | new_context, an optional clear of the asserted literals, any valid pushes, then pop_context restore the units, the asserted literals in order, the justifications and all three stacks, and reactivate the remembered clauses |
| Bcp.CountMeaning | cpog/generator/clausal.cpp:1743-1752 | counting unassigned literals gives 0 exactly when none is unassigned and at least 2 exactly when two are |
| Bcp.SwapLits | cpog/generator/clausal.cpp:318-323 | swapping two positions exchanges those literals and keeps the others, a permutation of the clause |
| Bcp.Propagate | cpog/generator/clausal.cpp:1729-1764 | the scan's outcome: satisfied gives 0, no unassigned literal gives the conflict marker, one gives that literal at the front, two or more give 0 with both at the front; the clause is permuted |
| Bcp.ScanOne | cpog/generator/clausal.cpp:1730-1741 | one literal of the scan: a true literal or a second unassigned one outside the first pass ends it with its outcome; otherwise the scan state moves one position on |
| Bcp.ScanComplete | cpog/generator/clausal.cpp:1743-1752 | after a full scan with no true literal, the result is the conflict marker, the unique unassigned literal, or 0 with watching, by the unassigned count |
| Bcp.NewWatches | cpog/generator/clausal.cpp:1754-1763 | the clause goes on the list of the negation of each front literal that was not already watched, and on no other list |
| Bcp.WatchFront | cpog/generator/clausal.cpp:1754-1763 | each front literal not already watched gets the clause on its negation's list; other lists, the trail and the recorded pairs are unchanged |
| Bcp.UnitPropagate | cpog/generator/clausal.cpp:1714-1766 | the clause is permuted; conflict exactly when no literal is true and none is unassigned; 0 exactly when one is true or two are unassigned, then with two unassigned front literals on the watch lists; otherwise the unique unassigned literal, with the lists unchanged; a clause longer than two has its old pair recorded while saving |
| InputCnf.Add | cpog/generator/clausal.cpp:611-615 | the clause goes last, and the largest variable becomes the larger of the old one and the clause's |
| InputCnf.AddAllMax | cpog/generator/clausal.cpp:567-581 | adding the clauses one by one keeps them all in order, and the largest variable bounds every clause and is reached by one (or is 0) |
| InputCnf.CheckHeader | cpog/generator/clausal.cpp:582-597 | with a header the read fails exactly when a variable exceeds the declared maximum or the clause count differs, and otherwise the declared maximum becomes the variable count; without a header the formula is kept as read |
| InputCnf.FirstUnsatisfied | cpog/generator/clausal.cpp:665-672 | 0 exactly when every clause is satisfied; otherwise the id of a clause the assignment falsifies, all earlier clauses being satisfied |
| InputCnf.FirstUnsatisfiedFrom | cpog/generator/clausal.cpp:666-671 | the loop from any clause on returns 0 exactly when the rest are satisfied, and otherwise the first falsified one after that point |
| InputCnf.TautologyNeverReported | cpog/generator/clausal.cpp:256-263 | a tautology is never the clause reported as unsatisfied |
| InputCnf.AddClause | cpog/generator/clausal.cpp:705-717 | a clause some unit satisfies is dropped; otherwise its residue becomes the next reduced clause, mapping back to the original id, and an empty residue marks the formula unsatisfiable at that id |
| InputCnf.AddClausesMapBack | cpog/generator/clausal.cpp:705-717 | after adding a list of clauses, every reduced clause is the residue of the original clause its id maps back to |
| InputCnf.MapsBackStep | cpog/generator/clausal.cpp:705-717 | adding one more clause keeps every reduced clause mapped back to a clause it is the residue of |
| InputCnf.AddClausesUnsat | cpog/generator/clausal.cpp:712-715 | the reduced formula is marked unsatisfiable exactly when some original clause leaves an empty residue |
| InputCnf.EmptyResidueSnoc | cpog/generator/clausal.cpp:712-715 | one more clause leaves an empty residue somewhere exactly when an earlier one did or it does |
| InputCnf.MapHint | cpog/generator/clausal.cpp:1087 | a hint naming a reduced clause maps back to its original id; a hint naming a proof step keeps its offset from the first step, counted from start_id |
| InputCnf.GetProofHint | cpog/generator/clausal.cpp:1079-1092 | nothing once all steps are handed out; otherwise the current step's hints, each remapped, without advancing |
| InputCnf.GetProofClause | cpog/generator/clausal.cpp:1095-1105 | nothing once all steps are handed out; otherwise the current step's clause followed by the negated context literals, and the step count advances |
| InputCnf.HintThenClause | cpog/generator/clausal.cpp:1079-1105 | hints then clause hand out one step and move to the next; after the last step both give nothing |
| CnfPropagate.CollectUnits | cpog/generator/cnf_opt.cpp:231-245 | the first loop fails exactly when the unit clauses hold a complementary pair; otherwise it records their literals in order and deletes exactly those clauses, leaving the rest and no unit clause |
| CnfPropagate.UnitLitsSnoc | cpog/generator/cnf_opt.cpp:233-241 | the unit literals of one more clause are the earlier ones plus its literal when it is a unit clause |
| CnfPropagate.ConflictFound | cpog/generator/cnf_opt.cpp:235-238 | a unit clause whose negation is an earlier unit makes the unit literals of the whole formula complementary |
| CnfPropagate.PushNoClash | cpog/generator/cnf_opt.cpp:282-290 | pushing a literal whose negation is not a unit keeps the units free of complementary pairs |
| CnfPropagate.KeepLits | cpog/generator/cnf_opt.cpp:305-308 | the kept units are exactly the unit literals on kept variables |
| CnfPropagate.ReducedSound | cpog/generator/cnf_opt.cpp:266-271 | an assignment making the unit true and satisfying the clause satisfies the clause with the unit's negation removed |
| CnfPropagate.ReducedFacts | cpog/generator/cnf_opt.cpp:261-271 | a clause on the negation's list is live, canonical, holds the negation and not the unit, and its residue is canonical and free of the unit's variable |
| CnfPropagate.AddResidue | cpog/generator/cnf_opt.cpp:293-299 | adding a residue of two or more literals keeps the formula well formed, grows it by at most one live clause and changes only the residue's literal lists |
| CnfPropagate.NegStepKeeps | cpog/generator/cnf_opt.cpp:261-300 | each clause on the negation's list is replaced by its residue, pushed as a unit, or causes a conflict, and the loop invariant holds after it |
| CnfPropagate.NegStepPushes | cpog/generator/cnf_opt.cpp:282-292 | a one-literal residue is pushed as a unit, and the loop goes on exactly when its negation is not a unit |
| CnfPropagate.FinishTurn | cpog/generator/cnf_opt.cpp:256-303 | after the residues, deleting every clause holding the unit or its negation leaves no live clause on that variable |
| CnfPropagate.FinishSurvivors | cpog/generator/cnf_opt.cpp:301-303 | the deletions spare every clause that does not mention the unit's variable |
| CnfPropagate.PropagateOne | cpog/generator/cnf_opt.cpp:253-304 | one turn deletes the clauses holding the unit, replaces those holding its negation by their residues, and either keeps the propagation invariant or ends in a conflict |
| CnfPropagate.UnitPropagate | cpog/generator/cnf_opt.cpp:221-313 | no change after a conflict; a complementary pair of unit clauses ends in conflict; otherwise the units start with the unit clauses' literals, are consistent, no live clause mentions their variables, no unit clause is left, no new literal appears, the kept units are set aside, and progress means units beyond the unit clauses were found |
| CnfOpt.KeepBothPhases | cpog/generator/cnf_opt.hh:76 | a literal is kept exactly when its negation is, since keeping is decided by the variable |
| CnfOpt.CanonicalDistinct | cpog/generator/clausal.cpp:280-309 | a canonized non-tautological clause lists each literal once and never a literal with its negation |
| CnfOpt.CopyCanonized | cpog/generator/cnf_opt.cpp:33-35 | the canonized copy is a tautology exactly when the clause holds a complementary pair, and otherwise has the clause's literals in canonical order |
| CnfOpt.OccAppend | cpog/generator/cnf_opt.cpp:50-59 | appending a clause adds its id to the literal index of exactly its literals, when it is not a tautology |
| CnfOpt.AddClause | cpog/generator/cnf_opt.cpp:32-65 | the clause is added exactly when its canonized copy is not a tautology and no live clause is equal to it; then the copy goes last, has the clause's literals, is indexed under them, and the live count grows by one; otherwise nothing changes |
| CnfOpt.AddKeepsInv | cpog/generator/cnf_opt.cpp:50-60 | appending a canonical clause that equals no live clause keeps the live clauses canonical and pairwise distinct |
| CnfOpt.DeleteClause | cpog/generator/cnf_opt.cpp:67-85 | the clause leaves every literal index and stops being live, every other clause is untouched, and the live count drops by one |
| CnfOpt.Without | cpog/generator/cnf_opt.cpp:89-100 | dropping a literal keeps exactly the other literals, in order |
| CnfOpt.WithoutAscending | cpog/generator/cnf_opt.cpp:89-100 | dropping a literal from a list ordered by variable keeps it ordered |
| CnfOpt.Resolve | cpog/generator/cnf_opt.cpp:87-102 | the resolvent holds exactly the first clause's literals other than var and the second's other than -var, and is not yet canonized |
| CnfOpt.ResolveSound | cpog/generator/cnf_opt.cpp:87-102 | any assignment satisfying both clauses satisfies their resolvent |
| CnfOpt.LiveOnly | cpog/generator/cnf_opt.cpp:318-326 | the kept clauses are exactly the live ones, never more than there were |
| CnfOpt.LiveOnlyInOrder | cpog/generator/cnf_opt.cpp:318-326 | the kept clauses appear in the same relative order as in the original vector |
| CnfOpt.LiveOnlyAppend | cpog/generator/cnf_opt.cpp:318-326 | compacting a concatenation keeps the first part's survivors followed by the second part's, so the copy loop works position by position |
| CnfOpt.LiveOnlyWellFormed | cpog/generator/cnf_opt.cpp:318-328 | dropping the deleted clauses keeps the live ones canonical and pairwise distinct |
| CnfOpt.MaxVarOf | cpog/generator/cnf_opt.cpp:324 | the result bounds the largest variable of every clause and is reached by one, or is 0 |
| CnfOpt.CompactClauses | cpog/generator/cnf_opt.cpp:315-330 | exactly the live clauses survive, in their original order, and the result is the largest variable among them (0 if none) |
| CnfOpt.CauseConflict | cpog/generator/cnf_opt.cpp:117-123 | the database holds only the empty clause, with the conflict flag set, no kept units and empty literal indexes |
| CnfOpt.Ascending | cpog/generator/cnf_opt.cpp:186-196 | lists exactly the members of the set below n, in increasing order |
| CnfOpt.DeleteAll | cpog/generator/cnf_opt.cpp:207-210 | deleting distinct live clauses one by one removes exactly those ids from every index, leaves the other clauses alone and drops the live count by their number |
| CnfOpt.PhasesIds | cpog/generator/cnf_opt.cpp:186-206 | the deletion list holds exactly the clauses holding the literal or its negation |
| CnfOpt.PhasesDistinct | cpog/generator/cnf_opt.cpp:186-206 | no clause is on the deletion list twice, since no live clause holds a literal and its negation |
| CnfEliminate.LitsOfOcc | cpog/generator/cnf_opt.cpp:171-175 | a literal occurs in a live clause exactly when its index entry is not empty |
| CnfEliminate.FewerLits | cpog/generator/cnf_opt.cpp:196-204 | an elimination that brings in no literal and removes the variable leaves strictly fewer literals, so the scan ends although it steps back |
| CnfEliminate.Pairs | cpog/generator/cnf_opt.cpp:186-195 | the nested loops visit every pair of a positive and a negative clause, and only those |
| CnfEliminate.ResolventFacts | cpog/generator/cnf_opt.cpp:189 | a resolvent of two live clauses on v holds neither v nor -v, and only literals that already occur |
| CnfEliminate.AddAll | cpog/generator/cnf_opt.cpp:186-195 | adding the resolvents in turn only appends; each non-tautological one is then held by a live clause, each appended clause has the literals of one of them, and only their literals gain index entries |
| CnfEliminate.Rewind | cpog/generator/cnf_opt.cpp:197-204 | the scan of one clause moves the next variable down to the least unkept positive literal below it, or leaves it |
| CnfEliminate.NextEvar | cpog/generator/cnf_opt.cpp:196-206 | over all negative clauses, the next variable is the least unkept positive literal below it in any of them, or unchanged |
| CnfEliminate.AllResolvents | cpog/generator/cnf_opt.cpp:186-195 | the resolvents cover every positive/negative pair and are clean (no v, no -v, no new literal) |
| CnfEliminate.AddedOcc | cpog/generator/cnf_opt.cpp:186-195 | adding such resolvents leaves the index entries of v and -v as they were and brings in no literal |
| CnfEliminate.StepBack | cpog/generator/cnf_opt.cpp:165-206 | the next variable is v + 1 or an unkept positive literal of a clause holding -v, and no unkept positive literal up to v in those clauses is below it |
| CnfEliminate.EliminateVar | cpog/generator/cnf_opt.cpp:184-210 | eliminating v leaves v absent, brings in no literal, keeps every clause without v; every non-tautological resolvent is held, and every live clause is an old one or a resolvent |
| CnfEliminate.DeletedOrigins | cpog/generator/cnf_opt.cpp:207-210 | after the deletions every live clause is an untouched old clause or has the literals of a resolvent |
| CnfEliminate.DeletedResolvents | cpog/generator/cnf_opt.cpp:207-210 | every non-tautological resolvent survives the deletions |
| CnfEliminate.OrderedBve | cpog/generator/cnf_opt.cpp:149-219 | nothing happens after a conflict; otherwise the result says whether a variable was eliminated, each elimination passed the degree test (pos·neg − (pos + neg) at most max_degree² − 2·max_degree) in the database of its turn and replaced that variable's clauses by their non-tautological resolvents, each eliminated variable is an unkept variable in 1..max_variable that no live clause mentions afterwards, none twice, no literal is new, and clauses on no eliminated variable are untouched |
| CnfEliminate.BveStep | cpog/generator/cnf_opt.cpp:164-215 | one elimination keeps the loop invariant of the scan |
| CnfEliminate.BveTurn | cpog/generator/cnf_opt.cpp:164-215 | an elimination turn extends the trace of eliminations by one step, keeps the scan's invariant, removes literals, and resumes the scan no later than the next variable |
| CnfEliminate.BveShrinks | cpog/generator/cnf_opt.cpp:164-215 | one elimination strictly shrinks the set of literals present |
| PogNodes.Index | cpog/generator/pog.cpp:262-268 | a literal that passes the node test names a node that exists: its position is within the node list and the start variable plus that position is the literal's variable |
| PogNodes.IsNodeOnePast | cpog/generator/pog.cpp:256-260 | the node test as written accepts the variable one past the last node, which get_node cannot fetch |
| PogNodes.IsNodeCorrected | cpog/generator/pog.cpp:256-268 | the corrected node test accepts exactly the literals whose node exists, and differs from the written test only at the variable one past the end |
| PogNodes.FirstOccurrences | cpog/generator/pog.cpp:355-373 | duplicate elimination keeps exactly the literals of the list, each once |
| PogNodes.CheckSkolemSpec | cpog/generator/pog.cpp:357-373 | check_skolem returns a nonzero variable only when some literal's complement occurs earlier in the list, and that variable is one of the list's; when it returns zero the list has no complementary pair and is rewritten to the first occurrence of each literal, in order |
| PogNodes.SkolemScanSpec | cpog/generator/pog.cpp:362-372 | the scan from any position whose seen set and kept list match the prefix ends in a clash report only for a list with a clash, and otherwise with no clash and the duplicate-free list |
| PogNodes.SkolemScanVar | cpog/generator/pog.cpp:362-365 | the variable the scan reports belongs to a literal at or after the scan position |
| PogNodes.ClashFound | cpog/generator/pog.cpp:364-365 | a literal whose complement occurs earlier makes the list clash |
| PogNodes.NoClashSnoc | cpog/generator/pog.cpp:362-369 | extending a clash-free prefix by a literal whose complement has not occurred keeps it clash-free |
| PogNodes.FindSplittingLiteral | cpog/generator/pog.cpp:959-981 | a nonzero answer is a literal of the first argument's literal list whose complement is in the second's; a zero answer means no literal of the first has its complement in the second |
| PogNodes.FirstComplement | cpog/generator/pog.cpp:975-980 | the double loop finds a literal of the first list whose complement is in the second, or reports that none exists |
| PogNodes.FirstComplementFirst | cpog/generator/pog.cpp:975-978 | the literal returned is the first one of the first list, in its order, that has a complement in the second |
| PogTopo.TopoLit | cpog/generator/pog.cpp:295-307 | one call of topo_order only appends to the order and the marks, appends only fresh nodes, and every node it marks ends up emitted |
| PogTopo.TopoChildren | cpog/generator/pog.cpp:303-304 | the walk over a node's children keeps the same growth guarantees as a single call |
| PogTopo.TopoOrderSpec | cpog/generator/pog.cpp:295-307 | on any acyclic graph (given a rank under which every child node ranks below its parent, so nodes may be in any order), the order emitted from the root contains the root's node, lists no node twice, lists only nodes, and places every node after all of its child nodes |
| PogTopo.TopoLitPost | cpog/generator/pog.cpp:295-307 | on a ranked graph, a call on a literal ranked below the bound keeps the order a duplicate-free post-order of nodes with every marked node of lower rank emitted, and the literal's node ends up in the order |
| PogTopo.TopoVisitPost | cpog/generator/pog.cpp:301-305 | visiting an unmarked node emits all its child nodes and then the node itself, keeping the post-order |
| PogTopo.TopoChildrenPost | cpog/generator/pog.cpp:303-304 | after the loop over the children, every child node is in the order and the post-order is kept |
| PogTopo.PostAppend | cpog/generator/pog.cpp:305 | appending a node whose child nodes are all emitted keeps the order a post-order of nodes |
| PogTopo.MarkGood | cpog/generator/pog.cpp:299-301 | marking a node ranked below the bound keeps the walk's invariant, with the node's own rank as the new bound |
| PogTopo.ChildrenBelow | cpog/generator/pog.cpp:295-307 | in a ranked graph, every child node of node i has a smaller rank |
| PogTopo.TopoOrderWellOrdered | cpog/generator/pog.cpp:295-307 | for a graph whose child nodes precede their parents, as compress leaves it, the order holds the root's node, no node twice, and each node after its child nodes |
| PogTopo.LaterChildRanked | cpog/generator/pog.cpp:881-896 | an OR node whose edge needs an AND node for its literals gets that AND node after itself, so the graph is not in child-first order, yet it has a rank |
| PogTopo.LaterChildWalk | cpog/generator/pog.cpp:295-307 | on that graph the walk from the OR node emits the AND node first and then the OR node |
| PogCompress.RemapAll | cpog/generator/pog.cpp:444-453 | every child is renamed through the remap table, in the same positions, with its phase kept |
| PogCompress.OrRewrite | cpog/generator/pog.cpp:476-537 | a new OR node is made only over the remapped children, and when it has two they are neither constants nor complements of each other |
| PogCompress.OrRewriteMeaning | cpog/generator/pog.cpp:476-537 | under any consistent assignment making TRUE_ID true, the OR rewrite is true exactly when one of its remapped children is: collapsing to a child, to TRUE or to the other child keeps the node's value |
| PogCompress.AndChild | cpog/generator/pog.cpp:544-582 | one child of an AND node only adds to the gathered ordinary children and Skolem arguments, at most one ordinary child at a time |
| PogCompress.AndChildMeaning | cpog/generator/pog.cpp:544-582 | a child's contribution keeps the value of the conjunction: the gathered lists are all true afterwards exactly when they were before and the remapped child is true, and a child that zeroes the node is false |
| PogCompress.AndScanMeaning | cpog/generator/pog.cpp:544-582 | the loop over the children keeps the conjunction's value: the gathered lists are all true exactly when the remapped children are, and zeroing happens only when some remapped child is false |
| PogCompress.AndFinish | cpog/generator/pog.cpp:589-627 | the AND case fails exactly when check_skolem finds complementary Skolem arguments; a single literal stands for at most one ordinary child, a new product node has at least two children, and a Skolem node with ordinary children becomes the last child of a new product node |
| PogCompress.AndFinishMeaning | cpog/generator/pog.cpp:589-627 | the finished AND outcome is true exactly when the gathered ordinary children and Skolem arguments all are |
| PogCompress.AndRewriteMeaning | cpog/generator/pog.cpp:538-628 | when the optimizing AND case succeeds, its outcome is true exactly when every remapped child is |
| PogCompress.AllTrueSameElements | cpog/generator/pog.cpp:590 | removing duplicate Skolem arguments does not change whether they are all true |
| PogCompress.Settle | cpog/generator/pog.cpp:622-627 | recording an outcome changes only the remap entry of the node handled, to the literal it became or to the variable of the node just added, and only appends to the new nodes |
| PogCompress.Step | cpog/generator/pog.cpp:439-628 | handling one reachable node keeps the rebuild consistent and only appends new nodes; without optimization it always succeeds and appends one node of the same kind over the remapped children |
| PogCompress.Rebuild | cpog/generator/pog.cpp:433-629 | the loop over the topological order keeps the rebuild consistent |
| PogCompress.Compress | cpog/generator/pog.cpp:375-414 | a missing or constant root leaves no nodes and root 0, or for TRUE a single constant node as root; an input-literal root leaves no nodes under optimization and otherwise a single product node over that literal as root; the start variable and data variables never change |
| PogDelete.FirstImplying | cpog/generator/pog.cpp:1740-1757 | the product-node loop returns the first child implying the clause, after children that neither imply it nor are negatively named nodes; none when no child implies it; failure only when some child is a negatively named node |
| PogDelete.AllImplying | cpog/generator/pog.cpp:1761-1774 | the sum-node loop is true exactly when every child implies the clause, and fails only when some child is a negatively named node |
| PogDelete.Label | cpog/generator/pog.cpp:1735-1781 | a product or Skolem node implies the clause exactly when some child does, a sum node exactly when all children do and then contributes its defining clause as hint, a node implies the clause exactly when it contributes hints, and a constant node is an error |
| PogDelete.LabelFrom | cpog/generator/pog.cpp:1732-1783 | the labelling loop gives one label per node and only appends hints |
| PogDelete.DeleteInputClause | cpog/generator/pog.cpp:1714-1795 | a tautology is deleted with only its own id as hint; otherwise a successful deletion's hints start with the clause id and the unit clause id, and a failed one carries no hints |
| PogDelete.ChildSound | cpog/generator/pog.cpp:1740-1757 | a child labelled as implying the clause makes the clause true under every consistent assignment making the child true |
| PogDelete.LabelSound | cpog/generator/pog.cpp:1735-1782 | a node labelled as implying the clause does imply it, given sound labels for the earlier nodes |
| PogDelete.LabelFromSound | cpog/generator/pog.cpp:1732-1783 | the labelling loop keeps every label sound |
| PogDelete.DeleteSound | cpog/generator/pog.cpp:1784-1794 | when deletion of a non-tautological clause is claimed, every consistent assignment making the root true satisfies the clause |
| Counters.Init | cpog/generator/counters.c:19-33 | on first use every counter is zero and every histogram is empty, with minimum INT_MAX and maximum INT_MIN |
| Counters.ClearCount | cpog/generator/counters.c:43-47 | clearing zeroes exactly the named counter and leaves every other counter and all histograms alone |
| Counters.IncrCountBy | cpog/generator/counters.c:49-53 | the named counter grows by the amount, nothing else changes, and an invalid counter number changes nothing |
| Counters.IncrCount | cpog/generator/counters.c:55-57 | incrementing is adding one |
| Literals.ToInt32 | cpog/generator/counters.c:62 | the conversion of a long to int yields a 32-bit value congruent to the long modulo 2^32, equal to it when it fits |
| Counters.GetCount | cpog/generator/counters.c:59-63 | an invalid counter reads as -1; a valid one reads as its value truncated to 32 bits |
| Counters.GetLongCount | cpog/generator/counters.c:65-69 | an invalid counter reads as -1; a valid one reads as its full value |
| Counters.GetCountTruncates | cpog/generator/counters.c:59-69 | the int and long getters agree on counts that fit an int, and a count of 2^31 reads as INT_MIN through the int getter |
| Counters.IncrHisto | cpog/generator/counters.c:101-110 | recording a datum counts it and widens the named histogram's minimum and maximum to include it, leaving counters and other histograms alone; an invalid histogram number changes nothing |
| Counters.GetHistoMin | cpog/generator/counters.c:112-116 | an invalid histogram reads as INT_MAX; a valid one reads as its least datum so far |
| Counters.GetHistoMax | cpog/generator/counters.c:118-122 | an invalid histogram reads as INT_MAX (not INT_MIN); a valid one reads as its greatest datum so far |
| Counters.GetHistoCount | cpog/generator/counters.c:124-128 | an invalid histogram reads as INT_MAX; a valid one reads as the number of data recorded |
| Counters.HistogramSummarizes | cpog/generator/counters.c:101-128 | from the initial state, a histogram that has recorded the 32-bit data reports their number, their least and their greatest; with no data it still reports INT_MAX and INT_MIN |
| Counters.RecordAllFrom | cpog/generator/counters.c:101-110 | recording a list of data adds its length to the count and folds its least and greatest into the minimum and maximum |
| Namer.InitNamer | cpog/generator/report.c:31-45 | the sequence number restarts at one million and the tag is the part of the (at most 1023-character) file name after its last '/' and before the first '.' that follows |
| Namer.TagBetween | cpog/generator/report.c:35-44 | the last slash and the first dot after it, as found by the two scans, delimit the tag |
| Namer.GenerateName | cpog/generator/report.c:47-53 | the sequence number advances only when asked, the name never exceeds 1022 characters, and when it fits it is reduction-TAG-NUMBER.SUFFIX |
| Namer.FullNameInjective | cpog/generator/report.c:50 | two names with the same tag and suffix are equal only when their sequence numbers are |
| Namer.ConsecutiveNamesDistinct | cpog/generator/report.c:47-53 | two consecutive incrementing calls return different names, with the sequence number advanced by two |
| HashMix.ShiftMixInvolution | d4v2-modified/src/hashing/hash_bytes.cpp:70-72 | shift_mix undoes itself: applying it twice gives back the word |
| HashMix.HighBitsKept | d4v2-modified/src/hashing/hash_bytes.cpp:70-72 | shift_mix leaves the top 17 bits of the word unchanged |
| HashBytes.LoadBytesLittleEndian | d4v2-modified/src/hashing/hash_bytes.cpp:59-68 | loading 1 to 7 bytes yields their little-endian value |
| HashBytes.MaskIsRemainder | d4v2-modified/src/hashing/hash_bytes.cpp:136-145 | masking the length with ~7 and 7 splits it into the whole-word part, a multiple of 8, and its remainder by 8 |
| HashBytes.MixWordsAppend | d4v2-modified/src/hashing/hash_bytes.cpp:139-144 | the main loop treats whole words one after another, so the hash of a concatenation of whole words is the loop over the second part started from the loop over the first |
| HashBytes.TailWordLittleEndian | d4v2-modified/src/hashing/hash_bytes.cpp:145-150 | the tail word mixed in after the loop is the little-endian value of the bytes after the last whole word |
| HashBytes.HashOfWords | d4v2-modified/src/hashing/hash_bytes.cpp:128-154 | for a buffer of whole words there is no tail step: the hash is the closing mix applied to the main loop over the buffer, started from the seed and length |
| HashBytes.SplitAtWords | d4v2-modified/src/hashing/hash_bytes.cpp:136-147 | prefixing whole words to a buffer adds them to the words the loop reads and leaves its tail unchanged |
| Toolchain.Trim | tools/toolchain.py:114-119 | the result is a slice of the input after a prefix of non-alphanumeric characters and before a suffix of line ends; it starts with an alphanumeric character and does not end with a line end |
| Toolchain.Kept | tools/toolchain.py:149-154 | the reference definition of cleaning keeps only printable characters and newlines, and never lengthens the string |
| Toolchain.CleanString | tools/toolchain.py:149-154 | the character-by-character loop computes the reference cleaning, and every character it keeps is printable or a newline |
| Toolchain.KeptIdempotent | tools/toolchain.py:149-154 | cleaning a cleaned string changes nothing, and cleaning keeps exactly as many characters as the input has printable characters and newlines |
| Toolchain.Split | tools/toolchain.py:349 | splitting at '.' gives at least one field, no field holds a '.', and there is a single field exactly when the name has no '.' |
| Toolchain.JoinSplit | tools/toolchain.py:349-352 | joining the fields with '.' gives back the name |
| Toolchain.StripSuffixSpec | tools/toolchain.py:348-352 | a name without '.' is unchanged; otherwise the result followed by '.' and a dot-free extension is the name, so exactly the last extension is removed |
| Toolchain.StripKnownSuffix | tools/toolchain.py:348-352 | appending '.' and a dot-free extension and then stripping gives back the base |
| Toolchain.SplitDotExt | tools/toolchain.py:349 | appending '.' and a dot-free extension adds exactly one last field |
| Toolchain.ArtifactNames | tools/toolchain.py:227-241 | the CNF, NNF and CPOG names are home/root plus one extension that stripSuffix removes again, and the NNF and CPOG names differ |
| Toolchain.TimeLimit | tools/toolchain.py:159-162 | a stage with an entry in the limit table gets that limit, any other the standard limit |
| Toolchain.SetTimeLimit | tools/toolchain.py:121-126 | after setting a limit every stage gets it, the table keeps its keys, and the other settings are unchanged |
| Toolchain.DefaultTimeLimits | tools/toolchain.py:59-83 | with the default settings D4 gets 2000 seconds and GEN 10000, while CHECK and CAKEML, not being keys of the table, get the standard 600 |
| Toolchain.RunProgram | tools/toolchain.py:157-204 | a run succeeds exactly when the program exits with code 0; a timeout reports code 1 and otherwise the exit code is reported |
| Toolchain.CheckOptions | tools/toolchain.py:286-297 | the checker gets -v with the configured verbosity level (read back as that number), then -L check.log, then -n with the thread count exactly when more than one deletion thread is configured, and -D exactly in forward-only mode |
| Decimal.IntToStringRoundTrip | tools/toolchain.py:291 | str() of any integer, negative ones included, reads back with int() as that integer |
| Toolchain.LogNameStrips | tools/toolchain.py:315-320 | the log name is the root plus one extension, which stripSuffix removes |
| Toolchain.D4Stage | tools/toolchain.py:244-258 | the D4 stage runs nothing exactly when not forced and the NNF file exists, and then counts as a success |
| Toolchain.CakeFailureHidden | tools/toolchain.py:301-307 | with the CakeML checker failing and every other stage succeeding, the written sequence still reports a "normal" outcome and a true result |
| Toolchain.RunSequence | tools/toolchain.py:310-346 | the corrected sequence returns a boolean, and with an existing log and no forcing it runs nothing and returns true |
| Toolchain.RunSequenceChain | tools/toolchain.py:329-346 | once the log opens, the outcome is "normal" exactly when all four stages succeed, the result agrees with the outcome, and each later stage runs exactly when every earlier one succeeded |
| Toolchain.RunBatch | tools/toolchain.py:368-376 | without exitWhenError every root is run; with it, the loop runs roots in order and stops right after the first failing root |

## Left out

- Threads and locks in the checker (pthread mutexes, `deletion_thread`, `run_deletion`): the deletion queue is modelled as taken by one consumer.
- Console and log output (`printf`, `report`, `err` messages, `lprintf`, `log_data`), and the proof writers: only the values they report are modelled.
- Floating point: timers, histogram totals and averages, `tree_ratio` and elapsed times are not modelled. `LiteralSet.GrownSize` replaces the checker's `GROW_RATIO` of 1.45 by the exact ratio 145/100.
- The checker's chunked clause memory (`chunk_set`, realloc growth): a block entry holds its literals directly.
- The checker's `variable_limit` tests when adding and deleting clauses (cpog-check.c:1000 and 1084) are not modelled. They only report literals beyond the declared variables.
- Model counting (`ring_evaluate`, `count_regular`, `count_weighted`, `cnf_read_weights`) depends on a rational-number library that is not part of this model.
- SAT-solver and proof-writer plumbing in the generator is not modelled: `run_solver`, `run_hinting_solver`, `monolithic_validate_root`, `justify*`, `apply_lemma`, `concretize`, `reduce_run`. In `Reasoner.Choose` and `Reasoner.ValidateLiteral`, the outcomes of propagation and of the solver are parameters.
- Clause hashing by `next_hash_int` draws from `random()`. The optimizer's duplicate lookup is modelled as equality of canonical contents among live clauses, which is what a hash lookup followed by the source's equality test decides.
- Iteration over the optimizer's `unordered_set`s of clauses is taken in ascending clause order. The source's order depends on the hash table.
- `std::unordered_set` and `std::map` in check_skolem and the D4 reader are modelled as sets and maps. The reader visits ids in ascending order, as `std::map` does.
- Python's `str.isalnum` and `str.isprintable` are modelled for ASCII characters only. Their answers for other Unicode characters are not.
- Subprocesses, timeouts, the file system, the block-file polling and the thread scheduler in `toolchain.py` are not modelled. A stage's exit status, the existence of files, and whether the log opens are inputs.
- `Toolchain.RunBatch` models only the sequential loop, not the scheduled parallel run.
- D4 tokenization (`get_token`, `read_numbers`) is not modelled: lines arrive split into their letter and numbers.
- D4Reader.ReadD4: when a node line ends the file without a newline and without its numbers, the source has already created the node. The model stops without it.
- The `check_literals` pass in pog.cpp returns at once in the source, so it is not modelled.
- `first_literal` is not modelled. find_splitting_literal is modelled on the literal lists it compares.
- PogNodes.CheckSkolemSpec: on a clash the source has already compacted part of the list in place. The model states only the reported variable, since compress then stops with an error.
- PogNodes.CheckSkolemSpec requires that no literal is 0. Every literal list the source builds satisfies this.
- The documented invariants of `pog.hh` are not stated as properties of compress: OR nodes of two children, node children after input literals, and the first extension variable. The code does not enforce them.
- PogCompress.Compress states the constant-root and literal-root cases completely, and for the general case only that the rebuild stays consistent. The meaning of the rebuilt graph is stated node by node (`OrRewriteMeaning`, `AndRewriteMeaning`), not for the whole graph.
- PogTopo.TopoOrderSpec states that the order holds the root, each node once, and each node after its child nodes, which forces every node reachable from the root into it. It does not state that only reachable nodes appear.
- PogDelete.DeleteInputClause requires at least one node, because the source reads the label of the last node. `get_deletion_counterexample` on failure is not modelled.
- CnfEliminate.OrderedBve states what each elimination did and that eliminated variables stay absent. It does not state that every variable left in place failed the degree test at its last visit.
- CnfEliminate.OrderedBve: `pos*neg` is an int product in the source. The model's integers do not wrap, so a variable with more than about 46,000 occurrences in each phase is treated differently.
- InputCnf.HintThenClause: `get_proof_hint` frees the step's hint list as it hands it out, so each step's hints can be asked for once. The model hands out the same list again and does not model the release.
- ContextStack.ContextRoundTrip requires that no pushed literal or its negation was already a unit. When one was, the source warns and the round trip need not restore the units.
- ClauseLiteralSet.LoadClause: the generator's 32-bit generation counter is unbounded here. Wrap-around after 2^31 loads is not modelled.
- The heuristic interface `ScoringMethod.hpp` has no implementation and is not modelled.

## Findings

| source | as written | input that shows it | evidently intended | confidence | as-written member | corrected member |
|---|---|---|---|---|---|---|
| cpog/checker/cpog-check.c:2121-2123 | `setup_deletion_queue` divides by `thread_limit`, which is 0 unless the `-n` option is given (line 109) | any run that reaches implicit deletion without `-n`, with at least one input clause | a missing thread count means one thread | not executed | DeletionQueue.SetupAsWritten | DeletionQueue.Setup |
| cpog/checker/cpog-check.c:947-957 | `find_clause` locates the null entries that fill short gaps between clause ids, `clause_locate` returns NULL for them, and `rup_unit_prop` reads through the result | a hint naming an id skipped inside a block, such as 3 in a block holding clauses 1, 2 and 5 | the hint is rejected as an invalid hint clause | not executed | Rup.HintStepAsWritten | Rup.HintStep |
| cpog/generator/pog.cpp:256-260 | `is_node` accepts an offset equal to `nodes.size()`, one past the last node `get_node` can fetch | a literal whose variable is `start_extension_var + nodes.size()` | offsets strictly below `nodes.size()` | not executed | PogNodes.IsNodeOnePast | PogNodes.IsNodeCorrected |
| tools/toolchain.py:301-307 | `runCake` returns the `(ok, code)` tuple of `runProgram`, which is always true, so `runSequence` ignores the CakeML verdict | the CakeML checker exits with code 1 after the other three stages succeed | the overall outcome is "failed" | not executed | Toolchain.CakeFailureHidden | Toolchain.RunSequence |
