# Verified model of NEMU and the programs around it

NEMU is an IA-32 emulator; the repository also holds the small kernel and the
games that run on it, and a set of bit puzzles. This project models the parts
whose correctness is not obvious from reading one function and proves what each
of them does on all inputs, or on all runs. `dafny verify dfyconfig.toml` checks
everything.

| file | component |
|---|---|
| Binary32.dfy, Fpu.dfy, FpuConsequences.dfy | the software binary32 FPU, against a definition of rounding that mentions no algorithm |
| Expr.dfy | the debugger's expression evaluator, against expression trees |
| Cache.dfy | the L1 data cache, against flat memory |
| Pic.dfy | the interrupt controller shared by device threads and the CPU, as interleaved steps |
| Alu.dfy | additive ALU operations, flags and condition codes |
| Breakpoint.dfy | the breakpoint pool and the bytes it patches into the guest |
| Typing.dfy | the node pool and doubly linked list of the falling-letters game, and its clock loop |
| PageTable.dfy | the kernel's page tables, against the architectural walk |
| QuickSort.dfy | the hole-based quicksort test program |
| Inventory.dfy | the game inventory as a map |
| FloatBits.dfy | the two float puzzles |
| Chains.dfy, Arithmetic.dfy, Words.dfy | index-linked lists, division facts and machine words the others share |

Code that works in place is modelled by methods over arrays and objects, each
proved against functions of the old state; what those functions mean is proved
as lemmas. Where the code does not do what it is for, the condition under which
it does is proved in both directions and an input that fails is given:

- Products that enter normalization with exponent 0 and a small significand, and
  results that should round up from subnormal to 2^-126, come out wrong
  (`Fpu.FloatMul`, `FpuConsequences.SubnormalEntryExample`,
  `FpuConsequences.CarryExample`); division shares the second flaw and drops its
  remainder (`Fpu.FloatDiv`, `FpuConsequences.QuotientCarryExample`,
  `FpuConsequences.DroppedRemainderExample`).
- Stacked prefix operators collapse to the last one (`Expr.EvalRender`), which
  does no harm exactly when the others cancel out (`Expr.PrefixesExactly`,
  `Expr.VisibleRun`, `Expr.StackedPrefixExample`); an opening parenthesis in the
  last place makes the evaluator loop (`Expr.HangExactly`, `Expr.HangExample`).
- A line-crossing write whose first line is not cached can leave the second line
  stale (`Cache.L1Cache.Write`, `Cache.StaleLineExample`); reads go wrong at the
  stale bytes only (`Cache.L1Cache.Run`).
- Interrupt number 223 becomes the number for none (`Pic.AssertExactly`,
  `Pic.AssertFailsExample`).
- Condition `be` is written with a conjunction (`Alu.BelowOrEqualExactly`,
  `Alu.EqualNotBelowOrEqual`).
- Resuming breakpoints after a hit saves the patches of the others as if they
  were code (`Breakpoint.HitExactly`, `Breakpoint.SecondBreakpointExample`); so do
  duplicates (`Breakpoint.MaskResumeExactly`, `Breakpoint.ClashExample`); deletion
  leaves its patch behind (`Breakpoint.DeleteExactly`, `Breakpoint.DeleteAllExactly`,
  `Breakpoint.DeleteExample`).
- An inventory amount is added in 16 bits before it is capped
  (`Inventory.AddedExactly`, `Inventory.WrappedExample`).

The comment on create_new_letter calls the speed random; `Typing.Game.CreateNewLetter`
shows it to be constant.

## Model

| member | source | states |
|---|---|---|
| `Fpu.JamRepresents` | pa2019_fall/nemu/src/cpu/fpu.c:22-39 | a right shift that ORs the lost bit into the lowest place still says exactly whether, and on which side, the exact value differs from the significand |
| `Fpu.RoundedIsNearest` | pa2019_fall/nemu/src/cpu/fpu.c:113-145 | rounding on the guard, round and sticky bits of a represented value is roundTiesToEven of the exact value, including the carry into the exponent |
| `Fpu.CarryIntoMinNormal` | pa2019_fall/nemu/src/cpu/fpu.c:113-145 | the increment carries a subnormal into 2^-126 exactly for exact values in the last half unit below 2^-126 |
| `Fpu.NormalizeRight` | pa2019_fall/nemu/src/cpu/fpu.c:15-77 | shifting right until the significand fits keeps the exact value represented, or reports an overflow that really rounds to infinity, or an underflow that really rounds to zero |
| `Fpu.NormalizeLeft` | pa2019_fall/nemu/src/cpu/fpu.c:78-106 | shifting left keeps the exact value represented and stops at the subnormal exponent |
| `Fpu.RoundSignificand` | pa2019_fall/nemu/src/cpu/fpu.c:113-139 | the increment and the one re-shift on a carry-out, for every significand and exponent |
| `Fpu.RoundOff` | pa2019_fall/nemu/src/cpu/fpu.c:113-145 | for a normalized pair: the emitted word is the correct rounding of the exact value, except that a value that should round up to 2^-126 comes out as zero |
| `Fpu.Normalize` | pa2019_fall/nemu/src/cpu/fpu.c:9-146 | for every entry pair that represents an exact value: the result is its correct rounding, except that a value that should round up to 2^-126 comes out as zero |
| `Fpu.LookUp` | pa2019_fall/nemu/src/cpu/fpu.c:148-160 | a corner table returns the entry of the first matching rule, and nothing exactly when no rule matches |
| `Fpu.Align` | pa2019_fall/nemu/src/cpu/fpu.c:223-233 | the alignment loop leaves an operand represented at the larger exponent, and exact while only its three zero low bits are shifted out |
| `Fpu.AddSigned` | pa2019_fall/nemu/src/cpu/fpu.c:235-255 | the two negations and the sum in unsigned arithmetic give sign and magnitude of the signed sum of the aligned significands |
| `Fpu.Combine` | pa2019_fall/nemu/src/cpu/fpu.c:223-255 | one exact and one jammed significand may be added or subtracted: the result still represents the exact sum or difference, so three extra bits suffice |
| `Fpu.AlignedSum` | pa2019_fall/nemu/src/cpu/fpu.c:200-258 | alignment and signed addition together represent the exact sum of the two operands |
| `Fpu.FloatAdd` | pa2019_fall/nemu/src/cpu/fpu.c:163-259 | for all finite operands the correctly rounded sum with the sign rules of section 6.3 of IEEE 754-2008; also infinities |
| `Fpu.FloatSub` | pa2019_fall/nemu/src/cpu/fpu.c:273-290 | the same for a - b |
| `Fpu.ProductExact` | pa2019_fall/nemu/src/cpu/fpu.c:324-349 | significand product and result exponent stand for the exact product |
| `Fpu.MulNormalize` | pa2019_fall/nemu/src/cpu/fpu.c:304-351 | a nonzero product is correctly rounded if and only if it neither enters with exponent 0 and a small significand nor should round up to 2^-126 |
| `Fpu.FloatMul` | pa2019_fall/nemu/src/cpu/fpu.c:304-351 | correct rounding if and only if neither of the two failing cases applies, on all finite operands, and what is returned there: the rounding of twice the product, or zero; signs, zeros, infinities |
| `Fpu.DoubledIsWrong` | pa2019_fall/nemu/src/cpu/fpu.c:304-351 | a product that enters with exponent 0 and a small significand is never correctly rounded |
| `Fpu.ScaleDividend` | pa2019_fall/nemu/src/cpu/fpu.c:414-418 | the scaling loop shifts the significand left until its top bit, bit 63, is set, and counts the shifts |
| `Fpu.ScaleDivisor` | pa2019_fall/nemu/src/cpu/fpu.c:419-423 | the scaling loop divides out exactly the powers of two: the result is odd, and shifting it back by the shifts counted gives the significand |
| `Fpu.QuotientExact` | pa2019_fall/nemu/src/cpu/fpu.c:404-431 | integer quotient, dropped remainder and result exponent stand for the exact quotient |
| `Fpu.TruncationRounding` | pa2019_fall/nemu/src/cpu/fpu.c:425-432 | rounding a truncated quotient is always faithful, and correct if and only if the truncation did not create a tie that goes down |
| `Fpu.TruncationKeepsCarry` | pa2019_fall/nemu/src/cpu/fpu.c:425-432 | dropping the remainder does not change whether a subnormal quotient rounds up to 2^-126 |
| `Fpu.FloatDiv` | pa2019_fall/nemu/src/cpu/fpu.c:368-433 | faithful if and only if the quotient should not round up to 2^-126, where zero is returned, correctly rounded if and only if moreover no nonzero remainder is dropped below an even tie, and always the rounding of the integer quotient; signs, zeros, infinities; both scaling loops terminate |
| `FpuConsequences.AddCommutes` | pa2019_fall/nemu/src/cpu/fpu.c:194-198 | swapping the operands cannot be observed in a sum |
| `FpuConsequences.SumOverflows` | pa2019_fall/nemu/src/cpu/fpu.c:163-259 | a sum of finite operands is infinite exactly from half a unit above the largest finite number on |
| `FpuConsequences.SubAntisymmetric` | pa2019_fall/nemu/src/cpu/fpu.c:273-290 | a - b and b - a differ in sign only, and a - a is +0 |
| `FpuConsequences.NormalProductCorrect` | pa2019_fall/nemu/src/cpu/fpu.c:304-351 | normal operands with a product of at least 2^-126 are multiplied correctly |
| `FpuConsequences.QuotientFaithful` | pa2019_fall/nemu/src/cpu/fpu.c:368-433 | quotients of at least 2^-126 are faithful, even of subnormal operands |
| `FpuConsequences.ExactQuotient` | pa2019_fall/nemu/src/cpu/fpu.c:368-433 | representable quotients are returned exactly |
| `FpuConsequences.CarryExample` | pa2019_fall/nemu/src/cpu/fpu.c:118-146 | 0x3f7fffff times 0x00800000 is one of the values that should round up to 2^-126, on which Normalize returns zero |
| `FpuConsequences.DroppedRemainderExample` | pa2019_fall/nemu/src/cpu/fpu.c:425-432 | 1 / (2 - 2^-23) leaves a nonzero remainder below an even tie, so it is not correctly rounded |
| `FpuConsequences.SubnormalEntryExample` | pa2019_fall/nemu/src/cpu/fpu.c:324-350 | 0x00000001 times 0x49000000 enters with exponent 0 and a small significand |
| `FpuConsequences.QuotientCarryExample` | pa2019_fall/nemu/src/cpu/fpu.c:368-433 | 0x00ffffff / 0x40000000 should round up to 2^-126, which division turns into zero |
| `Expr.CheckParentheses` | pa2019_fall/nemu/src/monitor/expr.c:194-242 | valid exactly when the range is balanced, counting an opening parenthesis in the last place as nothing; true exactly when the first parenthesis is closed by the last |
| `Expr.SkipGroup` | pa2019_fall/nemu/src/monitor/expr.c:270-307 | the inner loop ends just after the parenthesis that closes the group, and skips nothing that could be dominant |
| `Expr.DominantOp` | pa2019_fall/nemu/src/monitor/expr.c:270-307 | on balanced ranges: the rightmost of the lowest-precedence tokens at depth zero |
| `Expr.EvalTokens` | pa2019_fall/nemu/src/monitor/expr.c:337-409 | the recursion on the token array computes the evaluator's meaning of every range on which it returns |
| `Expr.RenderShape` | pa2019_fall/nemu/src/monitor/expr.c:194-242 | the rendering of a tree is balanced, and its tokens at depth zero have at least the precedence of the tree |
| `Expr.OperatorDominant` | pa2019_fall/nemu/src/monitor/expr.c:270-307 | an operator at depth zero that binds no tighter than what stands left of it and looser than what stands right of it is the dominant one |
| `Expr.NodeDominant` | pa2019_fall/nemu/src/monitor/expr.c:270-307 | in the rendering of a binary node the dominant operator is the node's own |
| `Expr.PrefixedDominant` | pa2019_fall/nemu/src/monitor/expr.c:270-307 | in a run of prefix operators the dominant one is the last |
| `Expr.EvalRender` | pa2019_fall/nemu/src/monitor/expr.c:337-409 | for every tree, with any number of prefix operators: evaluating its tokens gives the value of the tree with each run of prefix operators cut down to its last |
| `Expr.PrefixesExactly` | pa2019_fall/nemu/src/monitor/expr.c:337-409 | a run of prefix operators is evaluated right whatever its operand and memory if and only if the operators that are dropped cancel out: no dereference among them, an even number of negations in front, and no "!", or an even number of "!" where the last operator is "!" too |
| `Expr.VisibleRun` | pa2019_fall/nemu/src/monitor/expr.c:163-179 | for runs as retagging leaves them: a single operator, or a run from "!" to "!" without a dereference and with an odd number of "!" |
| `Expr.EvalCorrect` | pa2019_fall/nemu/src/monitor/expr.c:337-409 | where every run of prefix operators in the tree does no harm, that is the value of the tree itself, in 32-bit arithmetic, division by zero included |
| `Expr.EvalMeans` | pa2019_fall/nemu/src/monitor/expr.c:375-404 | what a tree evaluates to, from what its parts evaluate to, in integer arithmetic: sum, difference and product modulo 2^32, the integer quotient or a trap, comparisons and connectives as 1 or 0; a prefix operator likewise; an omitted left operand is 0, and a trap in a part is one of the whole |
| `Expr.OperatorMeans` | pa2019_fall/nemu/src/monitor/expr.c:375-404 | so do two numbers and an operator between them |
| `Expr.MeansUnique` | pa2019_fall/nemu/src/monitor/expr.c:375-404 | that determines the result |
| `Expr.Grouping` | pa2019_fall/nemu/src/monitor/expr.c:244-307 | x a y b z is x a (y b z) where b binds more tightly in C, and (x a y) b z otherwise |
| `Expr.PrefixGrouping` | pa2019_fall/nemu/src/monitor/expr.c:244-307 | a prefix operator comes before every binary one |
| `Expr.StackedPrefixExample` | pa2019_fall/nemu/src/monitor/expr.c:337-409 | "! ! 5" should be 1 and evaluates to 0 |
| `Expr.BalancedNeverHangs` | pa2019_fall/nemu/src/monitor/expr.c:337-409 | evaluation of balanced tokens returns |
| `Expr.HangExactly` | pa2019_fall/nemu/src/monitor/expr.c:270-307 | dominant_op loops forever on exactly those inputs of two or more tokens that are balanced but for an opening parenthesis in the last place |
| `Expr.HangExample` | pa2019_fall/nemu/src/monitor/expr.c:270-307 | "3 + (" never returns |
| `Expr.RetagTokens` | pa2019_fall/nemu/src/monitor/expr.c:163-179 | the in-place loop turns binary into prefix operators as a function of the token and of the retagged token before it |
| `Expr.RetagRecovers` | pa2019_fall/nemu/src/monitor/expr.c:163-179 | retagging recovers the prefix operators if and only if each stands at the start or after an operator the loop looks for, and no binary minus or star does |
| `Expr.RenderVisible` | pa2019_fall/nemu/src/monitor/expr.c:163-179 | on trees: the renderings that retagging recovers are those without a negation or dereference right after "(" or after another one |
| `Expr.ExpressionCorrect` | pa2019_fall/nemu/src/monitor/expr.c:156-192 | from the raw tokens of a tree to its value, with the same two cases |
| `Expr.EvalExpression` | pa2019_fall/nemu/src/monitor/expr.c:156-192 | expr after tokenizing, on all tokens: value and success flag as the meaning of the retagged tokens says, or that it does not return; tokens beyond nr_token untouched |
| `Cache.FromToBytes` | pa2019_fall/nemu/src/memory/memory.c:11-21 | reading n bytes back gives the low n bytes of what was written |
| `Cache.L1Cache.constructor` | pa2019_fall/nemu/src/memory/cache.c:9-9 | an all-invalid cache is in step with any memory |
| `Cache.L1Cache.InitCache` | pa2019_fall/nemu/src/memory/cache.c:11-18 | afterwards no line is valid, tags and blocks are kept, and the cache is in step with memory |
| `Cache.L1Cache.Search` | pa2019_fall/nemu/src/memory/cache.c:27-47 | stopping at the first equal tag, valid or not, never hides a valid line, because valid lines form a prefix with distinct tags |
| `Cache.L1Cache.Fill` | pa2019_fall/nemu/src/memory/cache.c:52-69 | a fill into the first invalid line or over any victim keeps the prefix and the distinct tags; while the group has an invalid line every cached address stays cached, and a full group loses at most one line |
| `Cache.StaleIsLeast` | pa2019_fall/nemu/src/memory/cache.c:20-93 | the stale bytes, those a line shows and memory does not hold, are the least set outside which all lines agree with memory |
| `Cache.ReadIsMemory` | pa2019_fall/nemu/src/memory/cache.c:20-72 | at every address that is not stale a read sees memory |
| `Cache.L1Cache.CacheRead` | pa2019_fall/nemu/src/memory/cache.c:20-72 | for every victim and whatever the lines hold: where the first byte is cached, the low len bytes come from lines where those are cached and from memory where not, elsewhere all come from memory; at most one line is filled, the first that misses, and addresses stay cached as in a fill |
| `Cache.L1Cache.CacheWrite` | pa2019_fall/nemu/src/memory/cache.c:74-93 | memory is written through; the lines that held the bytes are patched, recursively for a write that crosses lines, so the written bytes stop being stale, but for the second part of a crossing write that misses its first line; no line comes or goes |
| `Cache.MissedCrossing` | pa2019_fall/nemu/src/memory/cache.c:74-93 | a crossing write whose first line is not cached leaves the cache in step if and only if the second line is not cached or its bytes do not change |
| `Cache.L1Cache.Write` | pa2019_fall/nemu/src/memory/memory.c:41-55 | a cache in step with memory stays so if and only if the write is not of that kind; from any state, no other byte becomes stale, and outside the written bytes the lines show what they did |
| `Cache.StaleLineExample` | pa2019_fall/nemu/src/memory/cache.c:20-93 | a new cache, a read of the byte at 64, a write of two bytes at 63 that changes it: reading it again returns the old byte |
| `Cache.L1Cache.WouldLeaveStale` | pa2019_fall/nemu/src/memory/cache.c:74-93 | whether a write is of that kind can be told before it |
| `Cache.L1Cache.Run` | pa2019_fall/nemu/src/memory/cache.c:20-93 | for every sequence of reads and writes: every read returns what it sees in the lines and in memory at that moment, outside the stale bytes what flat memory that saw the same writes holds, and each access changes the lines and the stale bytes as above |
| `Cache.TraceRight` | pa2019_fall/nemu/src/memory/cache.c:20-93 | in such a sequence every read up to the first write of that kind is right at all addresses |
| `Cache.WorkingSetStays` | pa2019_fall/nemu/src/memory/cache.c:20-93 | reads that touch at most eight tags of a group, from one that holds no others, leave every line they read there cached to the end of the sequence, whatever is written |
| `Pic.StepSafe` | pa2019_fall/nemu/src/device/i8259_pic.c:11-54 | every step of a device or of the CPU keeps: one owner of the mutex; a number recorded whenever cpu.intr is set, except between the two stores of an acknowledgement, and from the moment the CPU saw it set until it acknowledges; and cpu.intr set whenever there is a number, except between the two stores of a device |
| `Pic.RunSafe` | pa2019_fall/nemu/src/device/i8259_pic.c:11-66 | so does every run of any number of devices |
| `Pic.StepLog` | pa2019_fall/nemu/src/device/i8259_pic.c:11-54 | every step keeps the recorded number the largest one recorded since the last acknowledgement |
| `Pic.RunCorrect` | pa2019_fall/nemu/src/cpu/cpu.c:136-149 | in every reachable state the assert has not failed, every queried number is the largest recorded since the acknowledgement before, every acknowledgement follows its query, and every number given to raise_intr is that of the last query, once each, whether or not the acknowledgement gave up |
| `Pic.DispatchedLargest` | pa2019_fall/nemu/src/cpu/cpu.c:136-149 | so raise_intr is given the largest number recorded between the acknowledgement before its query and that query |
| `Pic.SignalledExactly` | pa2019_fall/nemu/src/device/i8259_pic.c:11-54 | whenever the mutex is free, cpu.intr is set if and only if something recorded has not been acknowledged |
| `Pic.ErasedAfterQuery` | pa2019_fall/nemu/src/device/i8259_pic.c:41-54 | an acknowledgement erases everything recorded between its query and it; of the recorded interrupts that outrank the dispatched one it erases exactly those |
| `Pic.LostInterruptExample` | pa2019_fall/nemu/src/device/i8259_pic.c:41-54 | such a run exists: the interrupt leaves neither a number nor cpu.intr behind |
| `Pic.AssertExactly` | pa2019_fall/nemu/src/cpu/cpu.c:136-149 | the assert holds on every run if and only if no device raises 223, which the base turns into the number for none |
| `Pic.AssertFailsExample` | pa2019_fall/nemu/src/cpu/cpu.c:136-149 | one device raising 223 once makes the assert fail |
| `Pic.PrioritiesExactly` | pa2019_fall/nemu/src/device/i8259_pic.c:28-34 | every dispatched number is the largest recorded one on every run if and only if all raised numbers are below 223 |
| `Alu.SignExtMonotone` | pa2019_fall/nemu/src/cpu/alu.c:3-32 | sign extension keeps the unsigned order of words, which is what comparing extended words for CF relies on |
| `Alu.SumMeaning` | pa2019_fall/nemu/src/cpu/alu.c:3-17 | comparing the sign-extended result with an operand tells the carry, with and without a carry in, and the sign bits tell the overflow |
| `Alu.DifferenceMeaning` | pa2019_fall/nemu/src/cpu/alu.c:92-120 | the result of a subtraction with or without borrow in is the exact difference, reduced once, and the sign bits tell the overflow |
| `Alu.Cpu.SetCFLess` | pa2019_fall/nemu/src/cpu/alu.c:3-23 | set_CF_add and set_CF_sub compare unsigned words of the width |
| `Alu.Cpu.SetCFLessOrEqual` | pa2019_fall/nemu/src/cpu/alu.c:9-32 | set_CF_adc and set_CF_sbb, which look at the old CF |
| `Alu.Cpu.SetPF` | pa2019_fall/nemu/src/cpu/alu.c:48-62 | the bit-counting loop sets PF to the even parity of the low byte |
| `Alu.Cpu.SetOFAdd` | pa2019_fall/nemu/src/cpu/alu.c:63-91 | OF by cases on three sign bits |
| `Alu.Cpu.SetOFSub` | pa2019_fall/nemu/src/cpu/alu.c:92-120 | OF by cases on three sign bits |
| `Alu.Cpu.Add` | pa2019_fall/nemu/src/cpu/alu.c:122-132 | result and CF are the exact sum; ZF, SF, PF, and OF as signed overflow |
| `Alu.Cpu.Adc` | pa2019_fall/nemu/src/cpu/alu.c:134-144 | the same with a carry in |
| `Alu.Cpu.Sub` | pa2019_fall/nemu/src/cpu/alu.c:146-157 | result and CF are the exact difference; ZF, SF, PF, and OF as signed overflow |
| `Alu.Cpu.Sbb` | pa2019_fall/nemu/src/cpu/alu.c:159-170 | the same with a borrow in |
| `Alu.Cpu.AddChain` | pa2019_fall/nemu/src/cpu/alu.c:122-144 | for words of every width and number: add, then adc, is the multi-word sum with CF its carry out |
| `Alu.Cpu.SubChain` | pa2019_fall/nemu/src/cpu/alu.c:146-170 | sub, then sbb, is the multi-word difference; CF is the unsigned order of the whole numbers, and SF against OF the signed one |
| `Alu.SignedOrder` | pa2019_fall/nemu/src/cpu/alu.c:92-120 | SF differs from OF after the last word exactly when the whole signed number is less |
| `Alu.ConditionsAreOrders` | pa2019_fall/nemu/include/cpu/instr_helper.h:169-218 | e, ne, b, ae, a, na, l, ge, g and le after a comparison are the orders they are named for, at every width |
| `Alu.BelowOrEqualExactly` | pa2019_fall/nemu/include/cpu/instr_helper.h:181-182 | be never holds after a comparison, so it is right if and only if the destination is above the source |
| `Alu.EqualNotBelowOrEqual` | pa2019_fall/nemu/include/cpu/instr_helper.h:181-182 | equal operands set ZF alone, and be does not hold of them |
| `Chains.LinkedUnique` | pa2019_fall/nemu/src/monitor/breakpoint.c:13-29 | the records of a list are determined by its links: the lists below are facts about the pool, not annotations |
| `Breakpoint.Monitor.InitBpList` | pa2019_fall/nemu/src/monitor/breakpoint.c:16-29 | all 32 records are on the free list in order |
| `Breakpoint.Monitor.NewBP` | pa2019_fall/nemu/src/monitor/breakpoint.c:31-39 | takes the head of the free list, which is not in use |
| `Breakpoint.Monitor.FreeBP` | pa2019_fall/nemu/src/monitor/breakpoint.c:41-50 | puts a record at the head of the free list |
| `Breakpoint.Monitor.SetBreakpoint` | pa2019_fall/nemu/src/monitor/breakpoint.c:52-80 | one record moves from the free to the active list and saves the byte it patches; fails exactly with 32 live; the code below the patches stays what it was |
| `Breakpoint.Monitor.SetWatchpoint` | pa2019_fall/nemu/src/monitor/breakpoint.c:82-100 | the same without a patch; rejected exactly when the expression fails |
| `Breakpoint.Monitor.DeleteBreakpoint` | pa2019_fall/nemu/src/monitor/breakpoint.c:102-128 | removes the record with that number and no other, or reports that there is none; what is left can still be taken out from the newest on, and the code survives on the condition of `DeleteExactly` |
| `Breakpoint.Monitor.DeleteAllRecursively` | pa2019_fall/nemu/src/monitor/breakpoint.c:130-138 | the recursion frees a list from its end, so the free list becomes it followed by the old free list |
| `Breakpoint.Monitor.DeleteAllBreakpoint` | pa2019_fall/nemu/src/monitor/breakpoint.c:140-144 | the free list becomes the old active list followed by the old free list; the code survives on the condition of `DeleteAllExactly` |
| `Breakpoint.Monitor.FindBreakpoint` | pa2019_fall/nemu/src/monitor/breakpoint.c:169-182 | the newest breakpoint at the address, or none exactly when there is none |
| `Breakpoint.Monitor.Run` | pa2019_fall/nemu/src/monitor/breakpoint.c:16-144 | any run of the commands: the live records in order, with their numbers, targets and saved bytes, are the fold of the commands over those before, each outcome is as it should be, memory holds INT3 at every address set and is unchanged elsewhere; the lists stay acyclic, disjoint and covering the pool, with in_use exactly on the active one, and the patches stacked, which is what `MaskResumeExactly`, `HitExactly` and `DeleteExactly` ask for; runs that only set keep the code below the patches |
| `Breakpoint.SetThenDelete` | pa2019_fall/nemu/src/monitor/breakpoint.c:52-128 | deleting what was set last brings everything back but the patch in memory |
| `Breakpoint.Monitor.MaskBreakpoints` | pa2019_fall/nemu/src/monitor/breakpoint.c:212-228 | masking brings back, byte for byte, the code below the patches, also when an address was set twice |
| `Breakpoint.Monitor.ResumeBreakpoints` | pa2019_fall/nemu/src/monitor/breakpoint.c:184-210 | the loop that saves and patches again, as a function of the active records and memory |
| `Breakpoint.ResumeExactly` | pa2019_fall/nemu/src/monitor/breakpoint.c:184-228 | masking undoes resuming if and only if no byte other than INT3 is broken at twice |
| `Breakpoint.MaskResumeMemory` | pa2019_fall/nemu/src/monitor/breakpoint.c:184-228 | masking, then resuming, patches the same memory again, always |
| `Breakpoint.MaskResumeExactly` | pa2019_fall/nemu/src/monitor/breakpoint.c:184-228 | it restores every saved byte if and only if no byte other than INT3 is broken at twice |
| `Breakpoint.ClashExample` | pa2019_fall/nemu/src/monitor/breakpoint.c:184-228 | one ordinary byte broken at twice: masking and resuming swaps the two saved bytes |
| `Breakpoint.HitExactly` | pa2019_fall/nemu/src/cpu/cpu.c:57-83 | a hit writes one byte back and resumes all breakpoints one instruction later: whatever that instruction stores, the code survives if and only if every byte at risk is INT3: one that another breakpoint covers and the instruction does not overwrite, or that is broken at twice |
| `Breakpoint.Monitor.ServeHit` | pa2019_fall/nemu/src/cpu/cpu.c:57-83 | the code itself, as a function of the old state, with the same condition from any state of stacked patches, and when the patches are stacked afterwards |
| `Breakpoint.SecondBreakpointExample` | pa2019_fall/nemu/src/cpu/cpu.c:57-83 | two breakpoints on ordinary code: hitting one loses the byte under the other |
| `Breakpoint.DeleteExactly` | pa2019_fall/nemu/src/monitor/breakpoint.c:102-128 | deletion leaves its patch: the code survives if and only if the record is a watchpoint, an older breakpoint at the address remains, or the byte was INT3 |
| `Breakpoint.StackedCut` | pa2019_fall/nemu/src/monitor/breakpoint.c:102-128 | deleting any record leaves the patches of the others stacked |
| `Breakpoint.StackedAfterResume` | pa2019_fall/nemu/src/monitor/breakpoint.c:184-210 | resuming leaves the patches stacked if and only if no byte other than INT3 is broken at twice |
| `Breakpoint.DeleteAllExactly` | pa2019_fall/nemu/src/monitor/breakpoint.c:140-144 | deleting all records leaves all patches: the code survives if and only if every byte broken at was INT3 |
| `Breakpoint.DeleteExample` | pa2019_fall/nemu/src/monitor/breakpoint.c:102-128 | deleting the only breakpoint leaves INT3 where the code was |
| `Typing.Game.LinkPool` | pa2019_fall/game/include/adt/linklist.h:52-60 | the first allocation threads the whole pool, last node included |
| `Typing.Game.New` | pa2019_fall/game/include/adt/linklist.h:48-66 | hands out a spare node, never the last one of the pool, and fails exactly with 1000 live; the set-up runs once |
| `Typing.Game.Insert` | pa2019_fall/game/include/adt/linklist.h:77-86 | exactly the two neighbours' links change |
| `Typing.Game.Remove` | pa2019_fall/game/include/adt/linklist.h:87-95 | exactly the two neighbours' links change |
| `Typing.Game.Discard` | pa2019_fall/game/include/adt/linklist.h:87-100 | removing a node and freeing it: the live list loses exactly that node, the free list gains it at its head, both stay well-formed, and no letter changes |
| `Typing.Game.CreateNewLetter` | pa2019_fall/game/src/typing/effect.c:32-50 | the new letter is the newest, the others are untouched, its key is released; every letter starts with the same speed, because the random part is an integer quotient that is always 0 |
| `Typing.Game.UpdateLetterPos` | pa2019_fall/game/src/typing/effect.c:53-73 | one traversal that removes while it walks: the letters become the surviving ones in order, hits and misses grow by the others, the lists stay well-formed and doubly linked, live and spare nodes partition the pool |
| `Typing.Conserved` | pa2019_fall/game/src/typing/effect.c:53-73 | each letter either survives a step or is counted once |
| `Typing.Game.UpdateKeypress` | pa2019_fall/game/src/typing/effect.c:76-102 | the lowest falling letter whose key is down, the newest of equals, is turned upwards and its key released; nothing happens exactly when there is none |
| `Typing.Game.Run` | pa2019_fall/game/src/typing/effect.c:32-102 | any run of the three operations and of keys going down, up to the first creation that finds 1000 live letters: each changes letters, keys, hits and misses only as it should, the lists stay well-formed and share the pool, and letters on the screen, hits and misses grow by exactly the letters created |
| `Typing.Fates` | pa2019_fall/game/src/typing/effect.c:53-73 | letters that were hit leave as hits, the others as misses |
| `Typing.HitsAreTyped` | pa2019_fall/game/src/typing/effect.c:32-102 | in every run the hits, and the letters that will be, are at most those there were, the keys that were down and the keys pressed; misses at most the letters that fell and were created |
| `Typing.StepKeepsSpacing` | pa2019_fall/game/src/typing/effect.c:53-73 | every step uses up one unit of every surviving letter's patience, however it is hit |
| `Typing.FewLetters` | pa2019_fall/game/src/typing/game.c:66-77 | with one letter every 33 steps at most 14 are on the screen |
| `Typing.Game.ServeKeys` | pa2019_fall/game/src/typing/game.c:58-60 | the loop around update_keypress ends, whatever keys go down meanwhile, because every hit stops a letter from falling; of every key that was down, the lowest falling letter with its text, the newest of equals, has been turned upwards; nothing changes but letters turned and keys, every hit takes a key down of its own, and a key is released only by a hit |
| `Typing.PressedKeyHits` | pa2019_fall/game/src/typing/effect.c:76-102 | the same of any sequence of keys going down and calls of update_keypress whose last one finds nothing |
| `Typing.Game.MainLoop` | pa2019_fall/game/src/typing/game.c:38-100 | whatever keys go down at whatever time: each round serves the keys, then makes exactly the missed clock steps, a letter every 33 steps and an update each, with hits and misses as those say; the clock reaches the latest target; hits, misses and letters on the screen add up to the letters created; at most 14 are live, so the pool never runs out |
| `Typing.GamePlays` | pa2019_fall/game/src/typing/game.c:38-100 | what holds of every run of the operations holds of the game |
| `PageTable.WalkKernel` | pa2019_fall/kernel/src/memory/kvm.c:20-35 | the filled tables translate, for every virtual address, below 128 MB to itself, from KOFFSET on to the address less KOFFSET, and nothing else (two-level walk of section 4.3 of the Intel SDM, Volume 3A) |
| `PageTable.WalkUser` | pa2019_fall/kernel/src/memory/vmem.c:12-30 | the user directory translates kernel addresses the same way, [0xa0000, 0xb0000) to itself, and nothing else |
| `PageTable.Kernel.InitPage` | pa2019_fall/kernel/src/memory/kvm.c:12-46 | the nested loops fill the tables so, and touch no other page |
| `PageTable.Kernel.FillTable` | pa2019_fall/kernel/src/memory/kvm.c:29-34 | one pass of the inner loop: the running frame number and entry pointer stay in step with the directory |
| `PageTable.Kernel.InitMm` | pa2019_fall/kernel/src/memory/mm.c:25-37 | the user directory shares exactly the kernel's upper entries; only its page changes |
| `PageTable.Kernel.CreateVideoMapping` | pa2019_fall/kernel/src/memory/vmem.c:12-30 | adds the video page table; only the user's directory and table change |
| `PageTable.Kernel.Boot` | pa2019_fall/kernel/src/memory/vmem.c:12-30 | after the three steps both walks are as intended for every virtual address, and only pages that hold directories or tables have changed |
| `QuickSort.Partition` | pa2019_fall/testcase/src/quick-sort.c:7-24 | the array with the pivot in the returned place is a permutation, at most the pivot to the left of it, above it to the right; nothing outside the range moves |
| `QuickSort.HoleMoves` | pa2019_fall/testcase/src/quick-sort.c:15-19 | copying an element into the hole moves the hole: with the pivot filled in the values stay the same |
| `QuickSort.Sort` | pa2019_fall/testcase/src/quick-sort.c:26-34 | terminates on every range and leaves it sorted and a permutation, everything else untouched; empty and single ranges unchanged |
| `QuickSort.SortAll` | pa2019_fall/testcase/src/quick-sort.c:36-56 | the whole array ends up sorted with the same values, and a second sort changes nothing |
| `QuickSort.SortedUnique` | pa2019_fall/testcase/src/quick-sort.c:36-56 | sorted orders of the same values are equal |
| `Inventory.Globals.AddItem` | pa2019_fall/game/src/nemu-pal/global/global.c:553-660 | for every item and amount: succeeds exactly if there is room or enough of it, caps at 99, never goes below zero; only the slot the search stops at changes, and what it had in use stays |
| `Inventory.AddedExactly` | pa2019_fall/game/src/nemu-pal/global/global.c:615-629 | adding to a held item gives the lesser of 99 and the sum if and only if the 16-bit sum did not wrap to less than 99 |
| `Inventory.WrappedExample` | pa2019_fall/game/src/nemu-pal/global/global.c:615-629 | adding 65500 to 50 leaves 14 |
| `Inventory.Globals.GetItemAmount` | pa2019_fall/game/src/nemu-pal/global/global.c:662-697 | the amount the map has for the item |
| `Inventory.CompressedAmount` | pa2019_fall/game/src/nemu-pal/global/global.c:699-744 | compressing changes no amount, and keeps exactly the items that have one |
| `Inventory.Globals.CompressInventory` | pa2019_fall/game/src/nemu-pal/global/global.c:699-744 | the in-place loops leave the slots with a positive amount in order, then empty ones |
| `FloatBits.TwiceDoubles` | LAB/datalab-handout/bits.c:360-372 | exactly twice the encoded value, also from subnormal to normal, or the infinity of the same sign when out of range |
| `FloatBits.TwiceFields` | LAB/datalab-handout/bits.c:360-372 | infinities and NaNs are returned unchanged, the sign is kept |
| `FloatBits.TwiceIsSum` | LAB/datalab-handout/bits.c:360-372 | for everything but NaN the result is what the FPU of NEMU computes for x + x |
| `FloatBits.F2iTruncates` | LAB/datalab-handout/bits.c:267-288 | truncation toward zero when an int can hold it, 0x80000000 otherwise, for every finite pattern |
| `FloatBits.F2iSpecial` | LAB/datalab-handout/bits.c:267-288 | 0x80000000 for infinities and NaNs |

## Left out

- Binary32: NaN payloads, NaN operands of the FPU operations, and signalling; the four encodings the corner tables call NaN only.
- Fpu: fpu_cmp and fpu_cmpi, which compare with the host's floats, and the register stack of the fpu_* wrappers.
- Expr: tokenizing by regular expressions, the limit of 32 tokens and their text; leaves come with their values, and dereferencing reads through a given function.
- Expr.EvalExpression: a run that never ends is modelled by the outcome Hang, on exactly the inputs of `Expr.HangExactly`.
- Cache: bytes above len in the result of a read, which the code leaves undefined, are arbitrary; memory-mapped I/O, the page and segment translation in front of it, and the clock behind the choice of a victim, which is arbitrary.
- Pic: failing mutex calls are reduced to waiting, or to giving up when the emulator stops; the gate handling of raise_intr; the interrupt flag is an arbitrary choice at each test.
- Alu: multiplication, division, logic and shifts; flags the modelled operations do not set.
- Breakpoint: guest addresses are taken as physical, so two addresses of one byte are not considered; evaluation of watchpoint expressions; listing.
- Typing: floats are reals, which is exact here because every position and speed is a multiple of one half; drawing, frame rates, scan codes and the interrupt enable flag.
- PageTable: access rights, caching bits and the TLB; stores by the kernel after paging is on go to the physical words its own mapping gives; mm_malloc and pages it would add.
- Inventory: loading and saving; for an item that is held, sums and negations that overflow a C int, which the language leaves undefined, are excluded by a precondition.
- FloatBits: shifts into the sign bit of an int behave as on a two's complement machine; the other puzzles.
- Devices, video, audio, disk, ELF loading, the user interface, the rest of the games, the kernel's file system and the instruction bodies: plumbing around the components above.
