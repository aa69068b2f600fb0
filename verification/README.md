# Verified model of pasboot and the Pascal runtime

Dafny models of the parts of this Pascal system whose correctness is not
visible from any one function, with machine-checked proofs about them.

- **pasboot, the Pascal-to-C translator** (`bootstrap/`). The scalar subset has
  a meaning of its own (`PascalSource`) and the emitted C a C99 meaning
  (`CTarget`). `Emit` is the translator between the two trees, and
  `ExprPreservation`, `StmtPreservation`, `LimitRules` and `ForLoops` prove that
  it preserves meaning; `Dialect` states the documented rules of the language in
  numbers. Beside it stand the expression parser (`Grammar`, `Parser`,
  `ParserProof`, `Derivation`, `Shortest`) with the step from its trees to the translator's
  (`FrontEnd`), the USES ordering (`UnitOrder`), type resolution and the on-demand
  struct definitions (`TypeTable`, `StructOrder`) and string literals
  (`StringLiteral`).
- **The INITCK heap registry** (`runtime/initck_heap.c`). `HeapTable` is the
  open-addressing table as a value and the finite map it stands for,
  `HeapMachine` the critical sections as program points with one step for each
  slot read and each store, `HeapRegistry` the entry points with their probe
  loops, each proved to be a run of those steps, and `HeapLock` every
  interleaving of threads.
- **Text input** (`runtime/fileops.c`, `runtime/readq.c`). `TextSpec` is one
  character sequence read eagerly, `Numerals` what its readers accept character
  by character, and `TextInput` the deferred file machine, the bare readers that
  share its stream, and the number scanners.
- **Two arithmetic kernels**: `Decode` (`runtime/encode_decode.c`) and
  `RealLiteral` (`runtime/json_helpers.c`).

Imperative code is imperative here too: the registry, the file control block,
the parser's cursor, the USES walk, the struct writer, the lexer and the buffers
are classes whose methods are proved against specification functions, and the
properties are lemmas about those functions. `Bits` holds the integer widths,
wrap-around, truncating division and bitwise operators that the rest shares.

Two places where the code does not do what its own words promise:

- *FOR limits.* docs/dialect_notes.md (lines 1771-1775) has the limit evaluated
  before the control variable is assigned. The emitted C assigns the control
  variable first (bootstrap/emit.c:783-784). `PascalSource` gives statements a
  meaning under either rule and `Emit` follows the code.
  `StmtPreservation.StmtPreserved` shows for every program what the emitted C
  does, `LimitRules.StmtFaithful` that this is the documented meaning where no
  FOR limit names its own control variable, `ForLoops.LimitNamesControl` is a
  program on which the two differ, and `ForLoops.FaithfulExactly` says of each
  loop in exactly which stores it is faithful.
- *The name adr.* `adr` is not reserved, but before any word it is taken as the
  operator (bootstrap/parse.c:216), so `adr DIV 2` is rejected. The minimal
  printing of `Grammar` parenthesises the name there and nowhere else;
  `Shortest.PlainAdrExactly` states for all trees exactly when a text without
  those parentheses is read back, and `Shortest.AdrDivTwo` gives an instance.

## Model

| member | source | states |
|---|---|---|
| ExprPreservation.CarrierWraps | bootstrap/prelude.h:56-72 | adding, subtracting or multiplying through the unsigned carrier gives the exact result wrapped at the width, never undefined, also for 8- and 16-bit operands promoted to a 32-bit carrier |
| ExprPreservation.HelperIsArith | bootstrap/prelude.h:56-94 | every helper computes the exact result wrapped at its width and aborts exactly on a zero divisor; MIN DIV -1 is MIN and MIN MOD -1 is 0 |
| ExprPreservation.ComparisonAgrees | bootstrap/emit.c:487-515 | a C comparison of operands of any two plain types, after promotion and conversion to the common type, is the comparison of the Pascal values |
| Bits.BitLaws | bootstrap/emit.c:516-523 | for all integers, every bit of AND, OR, XOR and NOT is that operation on the operands' bits |
| Bits.BitsDecide | bootstrap/emit.c:516-523 | the bits of an integer determine it, so the bit laws fix the operations |
| Bits.TruncLaws | bootstrap/prelude.h:73-88 | DIV and MOD truncate: quotient times divisor plus remainder is the dividend, and the remainder is smaller than the divisor with the dividend's sign |
| Bits.WidthLaws | bootstrap/prelude.h:56-94 | wrapping changes a number by a multiple of 2^8, 2^16, 2^32 or 2^64 into the range of that many bits |
| ExprPreservation.BinaryAgrees | bootstrap/emit.c:475-551 | the C of every eager binary operator gives the Pascal value of the operator on the operands' values |
| ExprPreservation.EmittedBits | bootstrap/emit.c:516-523 | bit i of the C value of an integer AND or OR is 1 exactly when bit i of both, or of either, operand is |
| ExprPreservation.AndThenAgrees | bootstrap/emit.c:482-486 | AND THEN stops at a false left operand, so a division by zero on the right is not reached |
| ExprPreservation.UnaryAgrees | bootstrap/emit.c:615-629 | negation wraps at the operand's width and NOT complements, BOOLEAN or integer, without leaving the type |
| ExprPreservation.OrdAgrees | bootstrap/emit.c:325-340 | ORD keeps the value: CHAR and BOOLEAN zero-extend, an enumeration becomes an INTEGER32 |
| ExprPreservation.RetypeAgrees | bootstrap/emit.c:341-357 | CHR, and RETYPE into every scalar type but BOOLEAN, keep the low bytes when they narrow and sign-extend when they widen |
| ExprPreservation.AcceptsTyped | bootstrap/emit.c:475-639 | the emitter accepts an expression exactly when it is well typed, and gives it the type of the typing rules |
| ExprPreservation.ExprPreserved | bootstrap/emit.c:553-639 | for every well-typed expression and matching stores, the emitted C is defined, evaluates to the Pascal value, and aborts exactly when the Pascal expression divides by zero on an evaluated path |
| PascalSource.EvalInTy | docs/bootstrap_subset.md:95-119 | the value of a well-typed expression lies in its type, whatever wraps on the way |
| Dialect.WrapsAtWider | docs/bootstrap_subset.md:95-99 | + - * differ from the exact result by a multiple of 2^bits of the wider operand and are in its range |
| Dialect.Divides | docs/bootstrap_subset.md:99-103 | only a zero divisor aborts DIV and MOD; they truncate, and only MIN DIV -1 wraps, to MIN with remainder 0 |
| Dialect.Compares | docs/bootstrap_subset.md:109 | integer comparisons compare values, CHAR comparisons signed bytes |
| Dialect.EvaluatesBoth | docs/bootstrap_subset.md:110 | AND and OR abort when either operand does, AND THEN only on an operand it evaluates |
| Dialect.Converts | docs/bootstrap_subset.md:113-117 | ORD keeps the value with the documented type, CHR is the value modulo 256, RETYPE keeps the low bits and the sign |
| Dialect.Literals | bootstrap/sem.c:289-296 | a literal is an INTEGER from -32767 to 32767, else an INTEGER32 if it fits, else an INTEGER64 |
| Dialect.Stores | bootstrap/emit.c:185-236 | an integer variable takes the assigned value modulo 2^bits, in range; any other takes it as it is |
| Dialect.Takes | bootstrap/emit.c:475-551 | which operand types each operator takes, and its result type |
| Dialect.Runs | bootstrap/emit.c:712-754 | statements run in order up to the first that does not end normally, IF runs one branch or none, an assignment changes one variable |
| StmtPreservation.ConvPreserved | bootstrap/emit.c:185-236 | conv followed by the assignment's own C conversion stores the value the dialect stores |
| StmtPreservation.AcceptsStmt | bootstrap/emit.c:712-809 | the emitter accepts exactly the statements of the subset |
| StmtPreservation.SparesOuter | bootstrap/emit.c:780-786 | code emitted at FOR count k never assigns lim or done of a loop numbered k or less, so no inner loop disturbs an enclosing one |
| StmtPreservation.LoopCondition | bootstrap/emit.c:786 | the emitted for condition holds exactly while done is 0 and the variable is not past the limit |
| StmtPreservation.LoopStep | bootstrap/emit.c:786-787 | the emitted step sets done exactly at the limit and moves the variable one wrapped step, in that order |
| StmtPreservation.WhilePreserved | bootstrap/emit.c:755-763 | the emitted while runs as the dialect's loop for every run length, with BREAK and CYCLE in its body |
| StmtPreservation.LoopPreserved | bootstrap/emit.c:785-789 | from any iteration on, the done/lim loop runs as the dialect's FOR with the same limit, for every body and run length |
| StmtPreservation.ForEmitted | bootstrap/emit.c:764-793 | in every store, the emitted FOR is the dialect's loop whose limit is evaluated after the control variable has its start value, and it aborts exactly when a bound divides by zero |
| StmtPreservation.ForPreserved | bootstrap/emit.c:764-793 | every emitted FOR, whatever its limit names and whatever its body holds, runs as a FOR whose limit is evaluated after the start value is assigned |
| StmtPreservation.StmtPreserved | bootstrap/emit.c:712-809 | every statement and its C, started in matching stores, end the same way (normal, break, cycle, return, abort, still running) after any number of iterations and in matching stores, also on abort; FOR limits are taken as the code takes them |
| LimitRules.RulesAgree | docs/dialect_notes.md:1771-1775 | a statement in which no FOR limit names its own control variable runs the same, up to the store of an aborting run, whether limits are evaluated before or after the start value is assigned |
| LimitRules.StmtFaithful | bootstrap/emit.c:712-809 | so the emitted C also follows the documented rule on every such statement, in every store and for every run length |
| Emit.Emitter.Stmt | bootstrap/emit.c:712-809 | the emitter that appends to a buffer and counts FORs produces exactly the code and count of GenStmt after what was there |
| Emit.Emitter.Body | bootstrap/emit.c:645-655 | a block's statements are appended in order, without braces of their own |
| ForLoops.MoreTime | bootstrap/emit.c:712-809 | a run that has ended stays as it is under any longer cutoff, so a run has one outcome |
| ForLoops.EndsOnce | bootstrap/emit.c:712-809 | a statement started in a store has at most one end |
| ForLoops.WhileLaw | bootstrap/emit.c:755-763 | a WHILE ends with r exactly when its condition aborts, is false, or is true and a turn leads there: BREAK ends the loop, CYCLE goes on, RETURN and aborting pass through |
| ForLoops.SameEnd | bootstrap/emit.c:712-809 | the program ends exactly when its C ends, the same way and in the same store, otherwise both run forever: for every program under the code's limit rule, and under the documented rule where no limit names its own control variable |
| ForLoops.ForRunsEach | bootstrap/emit.c:775-787 | with a body that does not assign the variable, a FOR runs the body once for each value from start to limit in order, also when the limit is the extreme of the type |
| ForLoops.EmittedForRunsEach | bootstrap/emit.c:764-793 | the emitted C loop visits exactly the values from start to the limit it saved, for every body that does not assign the variable; the limit is the documented one when it does not name the variable |
| ForLoops.RunEachEnds | bootstrap/emit.c:775-778 | if the body ends from every store in which the variable holds one of the values, after however many iterations of its own, running it for each value ends |
| ForLoops.RunEachLeaves | bootstrap/emit.c:775-778 | unless a turn leaves the loop early, a loop that ends leaves the variable at the given last value, or the store untouched when there is nothing to visit |
| ForLoops.EmittedForEnds | bootstrap/emit.c:764-793 | the emitted C loop ends whenever its body does not assign the variable and ends from the stores in which the variable holds a visited value, also at the extreme of the type, and leaves the variable one wrapped step past the limit, or at its start value when the range is empty |
| ForLoops.FaithfulExactly | docs/dialect_notes.md:1768-1775 | in a given store the emitted FOR follows the documented rule for every body (whose own limits do not name their variables) and run length if and only if the limit has the same value, or an equally empty range, before and after the variable takes its start value |
| ForLoops.LimitNamesControl | bootstrap/emit.c:783-784 | i := 5; FOR i := 1 TO i: the dialect ends with i = 6, the emitted C with i = 2 |
| Grammar.Factor | bootstrap/parse.c:173-249 | every successful parse of a factor uses at least one token and builds a tree of the subset |
| Grammar.ParseExpr | bootstrap/parse.c:316-339 | every successful parse of an expression uses at least one token and builds a tree of the subset |
| Grammar.BoolExpr | bootstrap/parse.c:344-358 | a condition uses at least one token and has AND THEN only along its left spine |
| ParserProof.FactorBack | bootstrap/parse.c:173-249 | a printed factor is read back exactly; NOT takes a factor |
| ParserProof.TermBack | bootstrap/parse.c:260-282 | a printed product is read back to the left, and AND before THEN is not taken |
| ParserProof.SimpleBack | bootstrap/parse.c:284-314 | a printed sum is read back to the left, and a leading minus covers its first term only |
| ParserProof.ExprBack | bootstrap/parse.c:316-339 | any tree without AND THEN, printed with the parentheses it needs and followed by a token that cannot continue it, parses to itself and stops there |
| ParserProof.RoundTrip | bootstrap/parse.c:344-358 | every tree a condition can build is parsed back from its minimal printing, and the parse stops at the token after it |
| ParserProof.PrintInjective | docs/ebnf_grammar.md:80-86 | different trees have different printed forms |
| Derivation.ExprSound | bootstrap/parse.c:146-339 | whatever tokens the parser accepts are a text of the tree it returns, by a grammar stated as a relation without a parser |
| Derivation.ParserExact | bootstrap/parse.c:146-339 | the parser reads e from ts and stops at k if and only if ts is a text of e up to k, with any redundant parentheses and leading pluses, for every token k that cannot continue it |
| Derivation.ConditionExact | bootstrap/parse.c:344-358 | the same for conditions with AND THEN |
| Derivation.PlusIgnored | bootstrap/parse.c:293-294 | a leading plus changes nothing |
| Shortest.NoShorter | bootstrap/parse.c:316-339 | whatever token string parses to a tree has at least as many tokens as the tree's printing, so every pair of parentheses the printing has is needed |
| Shortest.NoShorterCondition | bootstrap/parse.c:344-358 | the same for conditions |
| Shortest.PlainAdrExactly | bootstrap/parse.c:216-223 | written without parentheses around the name adr, a tree is parsed back if and only if no bare adr in it stands before a word |
| Shortest.AdrDivTwo | bootstrap/parse.c:216-223 | the tokens adr DIV 2, which spell a tree of the subset, are rejected |
| FrontEnd.LowerMeans | bootstrap/emit.c:553-639 | the scalar tree of a parsed tree has the type and value that the parsed tree has by its own cases, and there is one exactly when that has a meaning |
| FrontEnd.SourceMeans | bootstrap/emit.c:553-639 | every text of a condition is parsed to it, the translator accepts it exactly when it has a meaning, and its C has its type and evaluates to its value |
| Parser.Cursor.AcceptMulOp | bootstrap/parse.c:266-279 | the multiplying operator ahead is recognised and passed, AND only when THEN does not follow |
| Parser.Cursor.Expression | bootstrap/parse.c:316-339 | the cursor parser computes ParseExpr of the tokens ahead and leaves the cursor where it says |
| Parser.Cursor.SumAfter | bootstrap/parse.c:296-313 | the loop over + - OR computes SimpleRest |
| Parser.Cursor.TermExpr | bootstrap/parse.c:260-282 | the loop over * / DIV MOD AND computes Term and advances |
| Parser.Cursor.SelectorsAfter | bootstrap/parse.c:146-171 | the loop over subscripts, fields and dereferences computes Selectors |
| Parser.Cursor.FactorExpr | bootstrap/parse.c:173-249 | the cursor's factor computes Factor and advances |
| Parser.Cursor.NameOrCall | bootstrap/parse.c:228-245 | a name, or a call with any number of arguments, then selectors |
| Parser.Cursor.ConditionExpr | bootstrap/parse.c:344-358 | the loop over AND THEN computes BoolExpr |
| UnitOrder.Enter | bootstrap/emit.c:1137 | marking an unvisited unit keeps the walk's invariant: the marked units are exactly a path of uses |
| UnitOrder.Leave | bootstrap/emit.c:1140-1141 | finishing a unit whose uses are done keeps the order sound |
| UnitOrder.BackEdge | bootstrap/emit.c:1135-1136 | meeting a unit still on the walk is a cycle below its outermost unit |
| UnitOrder.OrderFits | bootstrap/emit.c:1141 | a sound order never has more entries than there are units, so the array is not overrun |
| UnitOrder.OrderedAcyclic | bootstrap/emit.c:1122-1125 | nothing below a unit of a sound order lies on a cycle |
| UnitOrder.Complete | bootstrap/emit.c:1122-1127 | a sound order that covers the roots is exactly the set of reachable units, and no cycle is reachable |
| UnitOrder.Walk.constructor | bootstrap/emit.c:1180-1182 | the walk begins with nothing visited |
| UnitOrder.Walk.Visit | bootstrap/emit.c:1128-1145 | a visit terminates by the count of unvisited units; it fails only when a cycle lies below, and otherwise adds exactly units reachable from the one visited |
| UnitOrder.Walk.Expand | bootstrap/emit.c:1137-1142 | the first visit to a unit leaves it done, after everything it uses, and the units on the walk unchanged |
| UnitOrder.Walk.Run | bootstrap/emit.c:1180-1184 | the walk succeeds if and only if no cycle is reachable from the compiland's USES, and then the order is exactly the reachable units, each once and after every unit it uses |
| StructOrder.TagsDiffer | bootstrap/sem.c:523-535 | in an interned table different aggregates have different struct tags, although an LSTRING is named by its capacity alone |
| StructOrder.Accepted | bootstrap/sem.c:537-538 | in C accepted by the one-pass scope check, each struct definition follows its own declaration, the declaration of every tag it mentions and the definition of every struct it holds by value, is the only one of its tag, and names no member twice |
| StructOrder.CompileMeans | bootstrap/sem.c:565-571 | the scope's declared and complete tags are exactly those declared and defined in the text |
| StructOrder.DefinedOnce | bootstrap/sem.c:569-570 | no tag, as tag_of spells it, is defined twice |
| StructOrder.ReadsOnce | bootstrap/sem.c:523-588 | two types a spelling can be read as are alike: the same aggregate, scalars C stores alike, or pointers to such |
| StructOrder.Writer.CtypeRef | bootstrap/sem.c:539-588 | a request returns a C spelling that reads back as its type, with the tag declared, and defined if it must be complete; it fails if and only if a pointer it has to spell is unresolved |
| StructOrder.Writer.Complete | bootstrap/sem.c:569-586 | a definition is written after everything it holds by value, and lays out its type: cap + 1 bytes, hi - lo + 1 elements, or the fields in order under their names, each spelled by a C type that reads back as the field's type |
| StructOrder.Writer.Requests | bootstrap/sem.c:590-593 | any sequence of requests over an interned table leaves text the scope check accepts, in which the tag of every requested aggregate is complete; it fails if and only if a requested type reaches an unresolved pointer |
| TypeTable.Resolver.Resolve | bootstrap/sem.c:423-477 | resolving succeeds exactly on acceptable type expressions, gives the type they denote, and leaves every type after the types it holds by value, so none holds itself |
| TypeTable.Resolver.Intern | bootstrap/sem.c:255-285 | LSTRING and array types are shared: one entry for each shape |
| TypeTable.Resolver.Bind | bootstrap/sem.c:496-504 | at the end of a section exactly the pointers that waited get their targets, if all those names are declared |
| TypeTable.Resolver.Declare | bootstrap/emit.c:1024-1035 | a declaration succeeds exactly when its expression is acceptable among the names before it, or it repeats an interface's type, and then its name means the type the expression denotes |
| TypeTable.Resolver.Section | bootstrap/emit.c:1021-1039 | after a section no pointer waits, every declared name is in scope, and the table is still layered and interned |
| TypeTable.Resolver.Structs | bootstrap/sem.c:539-593 | after any sections every request for a struct succeeds where pointer chains end: the C is accepted and the requested aggregates are complete |
| TypeTable.ReadyForStructs | bootstrap/sem.c:539-588 | a table so resolved meets the by-value order that struct definitions need, and every type in it can be completed once no pointer waits |
| StringLiteral.InsideDoubled | bootstrap/lex.c:241-260 | the quote-doubled spelling of any newline-free bytes is lexed back to those bytes, and lexing stops after the closing quote |
| StringLiteral.InsideOnly | bootstrap/lex.c:241-260 | nothing else is lexed: the text read is the quote-doubled spelling of newline-free bytes |
| StringLiteral.InsideMeans | bootstrap/lex.c:245-254 | in characters: a byte stands for itself, two apostrophes for one, one apostrophe ends the literal, and a line end or the end of the text leaves it unterminated |
| StringLiteral.Lexer.LexString | bootstrap/lex.c:241-271 | the scanning loop reads exactly such a literal, gives a CHAR for one byte and a string otherwise, and fails exactly on an unterminated one |
| StringLiteral.ByteRead | bootstrap/emit.c:88-92 | C reads an emitted byte as itself whatever follows: three octal digits leave no room for a following one |
| StringLiteral.LiteralRead | bootstrap/emit.c:80-95 | the emitted C literal denotes the length byte, the bytes and the final null |
| StringLiteral.CStringBytes | bootstrap/emit.c:80-95 | the loop writes such a literal, whose inside can hold no trigraph, quotation mark or line end |
| HeapTable.SlotOf | runtime/initck_heap.c:60-67 | the home slot of any address lies inside a power-of-two table |
| HeapTable.SearchOver | runtime/initck_heap.c:74-79 | an empty slot on the probe path means the key is nowhere in the table |
| HeapTable.PathEnds | runtime/initck_heap.c:74-79 | a probe path of a table that is not full meets an empty slot |
| HeapTable.InsertKeeps | runtime/initck_heap.c:128-136 | storing a new key in the first free slot of its path keeps every live key reachable and unique |
| HeapTable.RewriteKeeps | runtime/initck_heap.c:224-238 | a tombstone, or a live slot rewritten in place, keeps every live key reachable and unique, and the count of used slots |
| HeapTable.NewInsert | runtime/initck_heap.c:128-143 | the insertion keeps the whole table invariant and adds exactly one address to the map |
| HeapTable.Rewrite | runtime/initck_heap.c:116-144 | rewriting a slot keeps the invariant, no buffer is lost or shared, and exactly one address of the map changes |
| HeapTable.SameLive | runtime/initck_heap.c:95-110 | a table with the same live entries stands for the same map |
| HeapTable.SearchMeans | runtime/initck_heap.c:70-80 | an address is in the map if and only if some slot holds it, and that slot has its state |
| HeapTable.DisposeSlot | runtime/initck_heap.c:224-238 | a tombstone forgets exactly that address and its buffer |
| HeapTable.ReleaseSlot | runtime/initck_heap.c:242-251 | a release marks exactly that address, all leaves initialized; repeating it changes nothing |
| HeapRegistry.Registry.constructor | runtime/initck_heap.c:37-39 | the registry starts as the empty map |
| HeapRegistry.Registry.Find | runtime/initck_heap.c:70-80 | the unbounded probe ends, returns an entry if and only if the address is registered, and is a run of the step machine |
| HeapRegistry.Registry.Reserve | runtime/initck_heap.c:84-110 | room is made with the map unchanged and the tombstones dropped, occupied stays the number of used slots within three quarters, and nothing changes when allocation fails |
| HeapRegistry.Registry.Rehash | runtime/initck_heap.c:95-104 | the rehash loop ends and moves exactly the live entries |
| HeapRegistry.FreeSlot | runtime/initck_heap.c:128-130 | the insertion probe ends at the first slot of the path that is empty or a tombstone |
| HeapRegistry.Registry.New | runtime/initck_heap.c:116-144 | the address maps to n unset leaves, replacing a stale registration, a failed allocation leaves the map alone, and the run is one of the step machine |
| HeapRegistry.Registry.Insert | runtime/initck_heap.c:128-143 | a new address is added and occupied grows only for an empty slot |
| HeapRegistry.Registry.Dispose | runtime/initck_heap.c:224-238 | the address is forgotten and no other |
| HeapRegistry.Registry.Release | runtime/initck_heap.c:242-251 | the address is released and no other |
| HeapRegistry.Registry.At | runtime/initck_heap.c:184-193 | tracked state exactly for a registered, unreleased address of that leaf count, else initialized fallback leaves |
| HeapRegistry.Registry.PartAt | runtime/initck_heap.c:205-214 | the same for a part, which must lie inside the registered leaves |
| HeapRegistry.Registry.SetLeaf | runtime/initck_heap.c:1-5 | a leaf set through a looked-up buffer changes that leaf of that address only |
| HeapMachine.PathStep | runtime/initck_heap.c:74-79 | a probe that passes a used slot of a table with room stays on its path, one step further |
| HeapMachine.DisposeEnds | runtime/initck_heap.c:229-235 | the four stores of DISPOSE end in the map without the address |
| HeapMachine.ReleaseEnds | runtime/initck_heap.c:246-249 | setting the leaves one by one and then the mark ends in the map with the address released |
| HeapMachine.RenewEnds | runtime/initck_heap.c:125-142 | freeing a stale buffer and filling in the entry ends in the map with the address registered afresh |
| HeapMachine.InsertEnds | runtime/initck_heap.c:133-142 | the stores into the first free slot end in the map with the address added |
| HeapMachine.AdvanceKeeps | runtime/initck_heap.c:70-251 | each single step under the lock (a slot read in find, in the count, in the move or in the insertion probe, or one store) keeps the invariant of its program point, stays inside the table, and neither loses nor shares a buffer |
| HeapMachine.AdvanceCloser | runtime/initck_heap.c:70-251 | and comes closer to unlock() |
| HeapMachine.SectionEnds | runtime/initck_heap.c:42-50 | from every program point under the lock finitely many steps lead to unlock(), where the table is sound |
| HeapMachine.StoresTouch | runtime/initck_heap.c:246-249 | setting a leaf commutes with every pending store but the free of its buffer, the memset of RELEASE included |
| HeapMachine.StandsTouch | runtime/initck_heap.c:116-251 | a leaf of an undisturbed address set without the lock leaves the thread inside at the invariant of its program point, over the map with that leaf set |
| HeapLock.StepSafe | runtime/initck_heap.c:42-50 | every step of any thread (a test of the flag, a read or store under the lock, an allocation, a free or a leaf set by compiled code outside it) keeps mutual exclusion, the invariant of the program point inside, the table invariant while the lock is free, and the one-at-a-time history |
| HeapLock.RunSafe | runtime/initck_heap.c:42-50 | in every state of every interleaving at most one thread is inside and stands where its program point says, every buffer is in one place, the table is sound whenever the lock is free, and all operations were answered as if done one at a time |
| HeapLock.NeverStuck | runtime/initck_heap.c:74-139 | no run accesses a slot outside the table |
| HeapLock.HolderLeaves | runtime/initck_heap.c:42-50 | whenever the lock is taken, its holder comes to unlock() by finitely many steps of its own |
| HeapLock.LookupMeans | runtime/initck_heap.c:205-214 | after any history a lookup finds tracked state if and only if the last operation to touch the address registered it with that leaf count and the part lies inside; otherwise it gets initialized fallback leaves |
| HeapLock.LeafMeans | runtime/initck_heap.c:1-14 | after any history a tracked leaf reads as initialized if and only if it has been set since its address was registered |
| TextSpec.FoldDos | runtime/fileops.c:108-126 | a text written with DOS line ends reads as the text |
| TextSpec.FamilyIrrelevant | runtime/fileops.c:251-256 | without trapping it makes no difference which family of readers makes each call |
| TextSpec.EagerSuffix | runtime/fileops.c:186-192 | every operation leaves a suffix of the text it found: characters are consumed in order, each once |
| TextSpec.MixedSuffix | runtime/fileops.c:251-256 | so does every program of interleaved calls: no loss, duplication or reordering |
| TextSpec.DecimalRoundTrip | runtime/fileops.c:602-643 | the decimal text of every value in range is read back, up to the first non-digit |
| Numerals.DecimalExactly | runtime/fileops.c:602-643 | blanks, tabs or line ends, a sign or none and digits are read as their value by place exactly when it lies in the 16-, 32- or 64-bit range, and what follows stays |
| Numerals.DecimalRefused | runtime/fileops.c:610-621 | blanks alone are no number, and blanks before anything but a sign and digits are a malformed one |
| Numerals.PointerExactly | runtime/fileops.c:712-757 | blanks, a sign or none, the prefix of decimal, octal or hexadecimal and digits of either case are accepted exactly when the value by place is below 2^64, two's complement after a minus |
| Numerals.PointerRefused | runtime/fileops.c:718-749 | the texts the pointer scanner refuses as malformed or empty |
| Numerals.Shapes | runtime/fileops.c:606-631 | every text is blanks, a sign or none, digits or none, and a rest, so the cases above are all |
| Numerals.FoldMeans | runtime/fileops.c:108-126 | in characters: 13 10 is a line end, and nothing else is changed |
| Numerals.LinesMean | runtime/readq.c:257-330 | in characters: a line end shows as a blank, EOLN sees it, READLN takes it and READ of an LSTRING stops before it |
| Numerals.ErrorsMean | runtime/fileops.c:136-139 | GET at the end is error 3, a refused number error 14, and both end the program where errors are not trapped |
| TextSpec.FoldedDecimal | runtime/readq.c:135-139 | folding line ends never changes the number a text holds, nor how it is refused |
| TextSpec.FoldedPtr | runtime/readq.c:222-229 | the same for pointers |
| TextInput.SameNumbers | runtime/readq.c:139-177 | on every text, carriage returns included, the stdin reader and the reader of a file that holds it give the same number, the exact one, or both refuse |
| TextInput.SamePointers | runtime/readq.c:230-244 | the same for pointers |
| TextSpec.PtrRoundTrip | runtime/fileops.c:707-712 | the unsigned decimal text of every 64-bit value is read back, before anything but a digit (and, for 0, an x) |
| TextInput.TokenExact | runtime/fileops.c:612-642 | the 31-character token refuses exactly the digit runs whose exact value is out of range, however many leading zeros they have, and otherwise has their value |
| TextInput.PtrTokenExact | runtime/fileops.c:735-755 | the pointer token overflows exactly when the whole run's value is 2^64 or more, in octal, decimal and hexadecimal |
| TextInput.Input.constructor | runtime/fileops.c:292-313 | RESET: the whole folded text is still to be read although nothing is buffered |
| TextInput.Input.TextGetc | runtime/fileops.c:115-126 | the first character of the folded text is taken, with at most one character pushed back |
| TextInput.Input.RawGet | runtime/fileops.c:128-159 | the buffer takes the next component, or the end; GET at the end is error 3 and changes nothing |
| TextInput.Input.ForceFill | runtime/fileops.c:178-184 | performing the deferred GET conserves the remaining text |
| TextInput.Input.FcbNext | runtime/fileops.c:194-215 | exactly the first remaining character is consumed, buffered or not, a line marker as itself |
| TextInput.Input.FcbUnget | runtime/fileops.c:217-231 | a character just read becomes the current component again |
| TextInput.Input.Sync | runtime/fileops.c:257-270 | handing the buffered component back to the stream conserves the remaining text if and only if the stream has room for it; on a host with the one guaranteed push-back it is lost exactly when it is a bare carriage return with a character pushed back behind it |
| TextInput.Input.StdGetchar | runtime/readq.c:37-41 | a bare read takes the first character of what the stream gives it after the hand-back, whatever the file control block holds |
| TextInput.Input.Unread | runtime/readq.c:66-70 | the character goes back in front of the remaining text |
| TextInput.Input.AtEof | runtime/fileops.c:524-530 | both forms of EOF are true exactly when no text remains, and consume nothing |
| TextInput.Input.AtEoln | runtime/fileops.c:532-542 | both forms of EOLN tell whether a line marker is next, and stop the program at the end |
| TextInput.Input.Look | runtime/fileops.c:272-276 | F^ shows the next character, a line marker as a blank |
| TextInput.Input.Get | runtime/fileops.c:284-290 | GET drops the first remaining character, also when RESET's GET was still deferred |
| TextInput.Input.ReadChar | runtime/readq.c:257-264 | the next character, a line marker as a blank, from either family |
| TextInput.Input.ReadLn | runtime/readq.c:325-330 | everything through the next line marker is dropped |
| TextInput.Input.ReadLString | runtime/readq.c:266-283 | the first cap characters of the line and their count; the line marker stays |
| TextInput.Input.ReadInt | runtime/fileops.c:602-643 | for either family on every text it is given, succeeds if and only if the digit run's exact value fits 16, 32 or 64 bits, with that value, and leaves the first non-digit unread |
| TextInput.Input.ReadPtr | runtime/fileops.c:712-757 | for either family on every text it is given: decimal, octal or hexadecimal below 2^64, two's complement after a minus sign, exactly the stopping character pushed back |
| TextInput.Input.Perform | runtime/fileops.c:186-231 | one call of either family observes what the eager machine gives on the text of that family, folded for a file and as it is for a bare reader |
| TextInput.Input.Session | runtime/fileops.c:251-270 | any program of calls observes what the eager machine gives: file calls on the folded text, bare calls on the bytes as they are, and on input without carriage returns any mixture of the two on one text |
| Decode.Trim | runtime/encode_decode.c:67-79 | exactly the blanks and tabs at either end are dropped |
| Decode.TrimUnique | runtime/encode_decode.c:66-79 | there is one way to trim a text |
| Decode.Magnitude | runtime/encode_decode.c:84-105 | succeeds if and only if the text is an optional sign and digits of magnitude below 2^64, exactly |
| Decode.DecodeInteger | runtime/encode_decode.c:114-158 | succeeds if and only if the trimmed text is a number of the type or subrange, stores that value (WORD64 as its bit pattern) and otherwise stores nothing |
| Decode.DecodesOnce | runtime/encode_decode.c:107-113 | a text has at most one decoded value |
| Decode.DecodeRoundTrip | runtime/encode_decode.c:107-113 | the decimal text of any value of the destination, in any blanks, decodes to it |
| Decode.DecodesExactly | runtime/encode_decode.c:114-158 | a sign or none and digits in blanks and tabs decode to their value by place exactly when it lies in the type's range, given in numbers, or the subrange |
| Decode.DecodesOnly | runtime/encode_decode.c:84-105 | nothing else decodes |
| RealLiteral.LayoutExact | runtime/json_helpers.c:302-341 | for every digit string and exponent the layout is a literal of the dialect that denotes exactly digits * 10^(exponent - count + 1) |
| RealLiteral.TrimExact | runtime/json_helpers.c:309-311 | dropping trailing zero digits keeps the number |
| RealLiteral.ReadsBack | runtime/json_helpers.c:270-275 | every literal of the grammar is read back from its spelling |
| RealLiteral.Buffer.Write | runtime/json_helpers.c:302-341 | the text written, in characters a sign or none, digits, a point, digits and an exponent after E, fits its buffer with the final NUL and denotes exactly the given value; it is plain if and only if the exponent is in -5..15 and has no superfluous trailing zero |

## Left out

- REAL, pointers, LSTRING, arrays, records, routine calls, VAR parameters and WRITE are outside the translated subset of `Emit`; operands have no effect but an abort.
- ExprPreservation.RetypeAgrees: RETYPE into BOOLEAN, which can leave a byte other than 0 and 1, is not accepted by the model.
- The emitted C is a tree, not text: printing and C parsing of operators and parentheses are not modelled. Conversion to a signed type is two's complement, which section 6.3.1.3 of ISO/IEC 9899:1999 leaves to the implementation.
- The block-scoped lim and done of each FOR live in one C store under their numbers; C scoping is not modelled.
- LimitRules.StmtFaithful: excludes, under the documented rule, programs with a FOR limit that names its own control variable, because there the emitted C can differ; ForLoops.FaithfulExactly gives the exact condition per loop and store. Under that rule the stores are not compared on abort, since only the code has assigned the variable before an aborting limit.
- const_eval, symbol tables and the number branch of the lexer are not modelled; constants enter `PascalSource` with their values.
- Grammar.Factor: tokens carry no source locations, and the different diagnostics of a rejected expression are one failure.
- StructOrder.Writer.Requests: takes the end of pointer-to-pointer chains as given; the detection of pointer cycles (bootstrap/sem.c:505-515) is bounded by the number of pending pointers and is not modelled. The table of types is complete before the requests; the dummy member of a record without fields is left out.
- TypeTable.Resolver.Resolve: array bounds and capacities are values, scopes are one map with the names of the innermost one, and names that are not types are left out.
- UnitOrder.Walk.Run: takes the interfaces to have distinct unit names, which bootstrap/emit.c:1163-1165 has checked; the separate check for a unit that uses itself is not modelled, and such a unit is a cycle here.
- StringLiteral.CStringBytes: takes at most 255 bytes when the length is written, which both callers have checked (bootstrap/emit.c:101-102 and bootstrap/emit.c:220-221).
- HeapRegistry.Registry.New: excludes the address 1, which is the tombstone mark; allocation results are parameters.
- HeapLock.RunSafe: compiled code sets leaves only of an address that no thread is disposing of or allocating anew at that moment; a store through a dangling buffer is not modelled. Steps are sequentially consistent, which the acquire and release order of the flag gives what is under the lock; the fields of one entry are read in one step; the free of the old table after a move and fairness among spinning threads are not modelled. A buffer counts as the table's from the step that chooses its slot, and as the thread's from the step that reads it for DISPOSE.
- The per-thread scratch run of the registry's older entry points, and overflow of table sizes, are not modelled.
- FrontEnd.SourceMeans: a program that declares its own ord, chr or retype is not covered, since there the name is a routine call.
- TextInput.Input.Session: the file is a TEXT file in read mode; writing, closing, binary files, host read failures, READSET, READFN, enumerations, WORD and REAL readers are not modelled. Programs that mix the two families are covered on input without carriage returns, since only the file readers fold them.
- TextInput.Input.ReadLString: capacities are not negative, and the destination is a sequence of characters with a count.
- Decode.DecodeInteger: the source text is a sequence, so null pointers and negative lengths, which count as empty, do not arise. The real and character forms of DECODE and all of ENCODE are left out.
- RealLiteral.Buffer.Write: starts from at most 20 digits and an exponent; finding the shortest digits with printf and strtod is not modelled.
- Sockets, processes, directories, temporary files, the command line, CUDA launches and the diagnostic-only runtime files are operating-system plumbing and are not modelled.
- String search and comparison, move and fill, array descriptors and cJSON helpers would only add easy members.
