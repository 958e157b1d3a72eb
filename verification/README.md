# Verified models of the Koka runtime core

This project models, in Dafny, the parts of Koka's C runtime (`kklib` and the inline primitives of
`std/core`) whose correctness is least obvious from reading them, and proves what they are for.
`dafny verify dfyconfig.toml` checks everything.

* **Reference-counted heap** (`heap`, `stackless_free`, `heap_ops`, `marking`, `indirection`). Blocks
  live in a map from addresses; freeing removes the address, so a block that was freed cannot be read.
  `State.Inv` says that every count is exact for the fields and held references that exist, also in the
  middle of a free, where dying blocks own only the fields that were not released yet. Proved on top:
  the stackless free, which threads its stack of parents through field 0 of the dying blocks, frees
  exactly what is no longer reachable; the pointer-reversing marker restores everything but the counts;
  compressing a chain of indirections keeps all counts exact.
* **Constructor contexts** (`contexts`, `context_ops`). A heap path with a hole denotes a pure one-hole
  context. Applying, extending and composing implement plugging and composition of pure contexts,
  whether the hole is filled in place or the path is copied first, and no other holder of a tree or a
  context sees a difference.
* **A shared count and a shared cell** (`shared_count`, `shared_cell`). Step relations over all
  interleavings with an inductive invariant. Atomic operations are sequentially consistent; the relaxed
  first reads are stale. The lag of a stale read is bounded by the assumption that the comment in
  `kklib/src/refcount.c:139-140` makes, together with the number of threads; nothing else is assumed.
* **Arbitrary precision integers** (`digits`, `bigint`, `long_division`, `karatsuba`, `tagged`,
  `integers`, `decimals`, `parsing`, `numerals`). The base is symbolic; both digit sizes of the runtime qualify.
  Buffers are reused in place exactly as in the source, machine digits wrap around, and every operation
  on the arrays is proved against the number that the digits denote. Small integers are tagged words in
  one of the three overflow schemes. What texts are accepted as numbers is stated
  twice, by position as the parser scans and by a grammar of numerals, and shown to be the same.
* **Effect handlers** (`evidence`, `yielding`). Sorted evidence vectors act as the stack of handlers;
  the eight-slot buffer of continuations acts as an unbounded sequential (Kleisli) composition. What
  compiled code does is a parameter of the model; it may call the continuation that it is given.
* **Tasks, strings, random numbers** (`task_pool`, `utf8`, `range_select`).

## What the source does not keep

Where a property turned out not to hold, the model keeps the code as it is, and the exact condition is
proved:

* Integers may have leading zeros, against the representation stated at `kklib/src/integer.c:27`: parsing
  keeps the zeros at the start of a long text. `Parsing.Parse` says exactly when; `Parsing.ParseZeroed`
  gives texts. On such integers multiplication, negation and sums of equal signs are still exact;
  `Integers.AddInteger` and `Integers.SubInteger` say exactly when the others are (the number with more
  digits must not be the smaller one), `Integers.DivModGeneric` when Euclidean division is, and when it
  becomes a machine division by zero. All of this happens to integers that were parsed:
  `Parsing.WrongDifference` is a wrong difference, `Parsing.WrongQuotient` a wrong quotient,
  `Parsing.UndefinedDivision` a machine division by zero for a divisor other than zero, and
  `Parsing.WrongZeroRemainder` the zero with a minus sign, divided wrongly by a proper divisor. On integers
  without leading zeros sums, differences and divisions are exact and have none either.
* Compression of indirections frees a thread-shared indirection whose only reference is the one being
  given up, and then writes to it: `Indirection.CompressAll` gets to that point if and only if there is
  an indirection with the count -1 on the chain; `Indirection.FreedBeforeTheUpdate` is an example heap.
* Multiplication of small integers by the sign-extension scheme loses one product, the smallest number
  times itself, which wraps around to 0: `Tagged.MulFastExact` and `Integers.MulInteger` (if and only if),
  `Tagged.ProductIsLost` (it occurs).
* Karatsuba multiplication of numbers of more than 25 digits never gives up its operands, and even adds a
  reference to each: `Karatsuba.MulKaratsuba`.
* The quotient of small integers is again small except for the smallest number divided by -1; the source
  only asserts that it is (`kklib/include/kklib/integer.h:211-214`): `Integers.DivModSmall` (if and only if).
* Of a zero with several digits, as parsing a long text of zeros makes one, nothing but the sign is
  printed: `Decimals.ToBuf`. (The other exception stated there, a number without any digits, which takes
  one character more than announced, does not reach the printer: `Integers.FromBigint` makes it small.)
* While parsing, the machine integer for the exponent overflows before the exponent is found to be too
  large, on machines where ten times the base is no machine integer. `Parsing.Parse` reports this
  exactly when it happens (`Parsing.TooLong`), `Parsing.OverflowsAtTenTimesBase` gives the text, and
  `Parsing.Fits` the texts that are safe. What a C program does after the overflow is not defined.
* The single signal for a promise may leave a waiter asleep, if and only if more than one sleeps:
  `TaskPool.SignalForgetsNoneIff`, with a run from the empty pool in `TaskPool.SecondMayBeForgotten`, next
  to `TaskPool.NobodyForgotten` for one waiter each.
* Tolerant UTF-8 conversion is injective exactly when raw characters are kept apart: `Utf8.Injective`
  and `Utf8.NotInjective`.
* A count that was fully sticky once, or a skipped drop, leaks the block, and nothing else does:
  `SharedCount.FreedWhenUnreferenced` (if and only if).

## Model

| member | source | states |
|---|---|---|
| `Heap.SurvivorsAreTheReachable` | kklib/src/refcount.c:366-450 | on an acyclic heap with exact counts, releasing references leaves exactly the blocks that a held reference (or a sticky block) still reaches |
| `Heap.ReachableSurvives` | kklib/src/refcount.c:43-97 | releasing never frees a block that is still reachable, cyclic heap or not |
| `Heap.GiveUpKeepsInv` | kklib/src/refcount.c:296-309 | giving up a reference keeps every count exact, for unshared (n references as n-1), thread-shared (as -n) and sticky counts |
| `Heap.CountsAfterGivingUp` | kklib/src/refcount.c:99-155 | the meaning of a count survives a decrement, a count of 0 or -1 is the last reference and only those are, and a sticky count does not move |
| `Heap.OnlyLowCountsStick` | kklib/src/refcount.c:99-155 | in numbers: a count is sticky exactly from -0x60000000 downwards; above that it stands for exactly one number of references and every decrement moves it by one, until the last |
| `Heap.ExactMeans` | kklib/src/refcount.c:99-155 | in a heap with exact counts, a count above -0x60000000 is the number of held references plus fields that point to the block |
| `Heap.ReachableIsClosed` | kklib/src/refcount.c:366-450 | what is reachable contains every held and every sticky block and is closed under following fields ... |
| `Heap.ReachableIsLeast` | kklib/src/refcount.c:366-450 | ... and is the smallest such set |
| `StacklessFree.RcHeap.DecrefNoFree` | kklib/src/refcount.c:283-309 | the whole new heap after a decrement without free, and that the answer is "last" exactly for counts 0 and -1 |
| `StacklessFree.RcHeap.FastFieldShouldFree` | kklib/src/refcount.c:28-41 | releases exactly one field of a dying block; returns the child exactly if it lost its last reference, and nothing else changes |
| `StacklessFree.RcHeap.FastDropFree` | kklib/src/refcount.c:43-86 | frees the block and the chain of dying children behind it; what it returns is the one block that still has to be freed, with at least two fields and all of them still owned |
| `StacklessFree.RcHeap.FieldShouldFree` | kklib/src/refcount.c:321-341 | as FastFieldShouldFree, the child having been freed as far as the fast path goes |
| `StacklessFree.RcHeap.DropFreeLargeRec` | kklib/src/refcount.c:350-363 | a block of 255 or more fields and all that dies with it is freed, one recursion per child |
| `StacklessFree.RcHeap.DropFreeRecx` | kklib/src/refcount.c:366-450 | the pointer-threading free: the block is gone with all that died with it, every count is exact again, no other dying block was touched, and it terminates because fields and blocks left to release get fewer |
| `StacklessFree.Push` | kklib/src/refcount.c:411-431 | going down into a child keeps the chain of parents threaded through field 0, each with its next field in the index byte, and all counts exact |
| `StacklessFree.Pop` | kklib/src/refcount.c:438-447 | the link in field 0 of the innermost parent is the rest of the chain, and its index byte is where its scan goes on |
| `StacklessFree.RcHeap.DropFree` | kklib/src/refcount.c:88-97 | a block that lost its last reference is freed completely |
| `StacklessFree.RcHeap.CheckDrop` | kklib/src/refcount.c:191-210 | the slow path of drop: unique, sticky and thread-shared counts each end in the right heap |
| `StacklessFree.RcHeap.Drop` | kklib/include/kklib.h:775-784 | dropping a reference keeps all counts exact and all surviving blocks unchanged but for their counts, frees nothing reachable, and on an acyclic heap frees exactly everything else; the block itself goes if its count was 0 or -1, and otherwise its count moves by one, unless it is -0x60000000 or lower, when nothing happens |
| `HeapOps.Dup` | kklib/include/kklib.h:762-772 | a dup adds one held reference and keeps every count exact, whatever range the count is in; the new count in numbers |
| `HeapOps.CountsAfterDup` | kklib/src/refcount.c:99-155 | an increment keeps the meaning of a count; an unshared count that overflows becomes stuck, a fully sticky one does not move |
| `HeapOps.AllocCopy` | kklib/src/refcount.c:802-809 | a new block with the same fields and one reference; everything it points to gained one reference per field, nothing else changed |
| `Indirection.Decref` | kklib/include/kklib.h:794-803 | gives up a reference without releasing the fields: freed, or one count lower, and the reference in a freed field is now held |
| `Indirection.CompressAll` | kklib/src/lazy.c:86-112 | returns the value at the end of any chain; as far as the walk gets, every unique indirection is freed, every other one points at the value with one reference less, the value has gained one reference per survivor, no other block changed, and all counts are exact; it completes, with one owned reference to the value, if and only if no indirection on the chain has the count -1, and otherwise stops where it would next write to a block it has just freed |
| `Indirection.WalkedAll` | kklib/src/lazy.c:97-112 | what a completed walk leaves: an indirection is gone if it was unique, and otherwise its one field is the value and its count one lower; everything else is as it was but for the count of the value |
| `Indirection.ChainDistinct` | kklib/src/lazy.c:92-95 | a chain that ends visits no block twice, so both walks terminate |
| `Indirection.ChainExists` | kklib/src/lazy.c:86-95 | in a heap without cycles every indirection is the start of a chain, so compression applies to all of them |
| `Indirection.StillThere` | kklib/src/lazy.c:105-108 | one step of that: after giving up a shared indirection it still exists if and only if its count was not -1 |
| `Indirection.FreedBeforeTheUpdate` | kklib/src/lazy.c:102-108 | a heap with exact counts in which the code overwrites a field of a block it has just freed |
| `Marking.MarkIndexRoundTrip` | kklib/src/refcount.c:671-702 | the 8-bit index shares the count's word without ever disturbing the count, and the word stays a non-negative 32-bit number |
| `Marking.MarkedCount` | kklib/src/refcount.c:167-175 | what marking does to a count in all cases: negated while it fits, sticky from 0x7FFFFF on (0x60000000 for leaves), 0 stays 0; and to nothing else |
| `Marking.MarkHeap.MakeShared` | kklib/src/refcount.c:167-175 | one unshared count becomes its thread-shared image and nothing else changes |
| `Marking.MarkHeap.FieldShouldMark` | kklib/src/refcount.c:566-583 | an unshared leaf is marked on the spot, an unshared inner block is returned, anything else is skipped |
| `Marking.MarkHeap.MarkSharedRecx` | kklib/src/refcount.c:705-762 | on any acyclic graph of small blocks: terminates, every block reached through unshared blocks gets exactly the image of its count with all its fields and its index restored, every other block is untouched |
| `Marking.ToMarkIsClosed` | kklib/src/refcount.c:705-762 | what has to be marked contains an unshared root and is closed under following fields to unshared blocks ... |
| `Marking.ToMarkIsLeast` | kklib/src/refcount.c:705-762 | ... and is the smallest such set |
| `Marking.DownStep` | kklib/src/refcount.c:729-741 | reversing a pointer and going down keeps the marker's invariant and shortens the work left |
| `Marking.UpStep` | kklib/src/refcount.c:746-759 | going up restores the reversed field and finds the next parent in it |
| `Contexts.PlugCompose` | lib/std/core/inline/types-cctx.h:47-109 | plugging a composition of pure contexts is plugging one after the other |
| `Contexts.ComposeAssociative` | lib/std/core/inline/types-cctx.h:99-109 | composition of pure contexts is associative |
| `Contexts.HoleIsUnit` | lib/std/core/inline/types-cctx.h:47-109 | the empty context is the unit of composition and of plugging |
| `Contexts.PlugInjective` | lib/std/core/inline/types-cctx.h:47-62 | what was plugged in can be told from the result |
| `Contexts.OneTree` | lib/std/core/inline/types-cctx.h:47-62 | a heap structure denotes at most one tree |
| `Contexts.OneCtx` | lib/std/core/inline/types-cctx.h:34-40 | a heap path with a hole denotes at most one context |
| `Contexts.UniquePathIsIsolated` | kklib/src/refcount.c:817-841 | a path of single references cannot be seen from outside: no other block and no other holder points into it |
| `Contexts.FilledTree` | lib/std/core/inline/types-cctx.h:52-55 | writing a value into the hole of a unique context makes the root denote the plugged tree |
| `Contexts.FilledCtx` | lib/std/core/inline/types-cctx.h:52-55 | writing another context into the hole makes the root denote the composition |
| `ContextOps.CctxCopy` | kklib/src/refcount.c:817-841 | the copy is a unique context with the same meaning, it takes over the reference to the root, all counts stay exact, and every other holder sees the same trees and contexts as before |
| `ContextOps.CctxCopyApply` | kklib/src/refcount.c:843-849 | the child is plugged into a copy of a shared context |
| `ContextOps.Fill` | lib/std/core/inline/types-cctx.h:52-55 | in-place plugging of a unique context: the result denotes the plugged tree (or the composed context), all counts exact, other holders undisturbed |
| `ContextOps.CctxApply` | lib/std/core/inline/types-cctx.h:47-62 | application plugs the tree (or unique context) for an empty, a unique and a shared context alike; other holders undisturbed, all counts exact |
| `ContextOps.CctxExtend` | lib/std/core/inline/types-cctx.h:85-87 | extending denotes the composition of both contexts |
| `ContextOps.CctxCompose` | lib/std/core/inline/types-cctx.h:99-109 | composing any two contexts, self-composition included, denotes their pure composition; other holders undisturbed, all counts exact |
| `ContextOps.CctxComposeShared` | lib/std/core/inline/types-cctx.c:9-15 | the same when the second context is shared and copied first |
| `Digits.BothDigitSizesAreValid` | kklib/src/integer.c:30-132 | both digit sizes of the runtime, base 10^9 and 10^18, satisfy all that the proofs use of the base |
| `Digits.ValConcat` | kklib/src/integer.c:1034-1053 | the value of a number cut in two is low + BASE^n * high |
| `Digits.TopDigitDecides` | kklib/src/integer.c:754-764 | numbers of equal length that agree above a digit are ordered by that digit |
| `BigInt.Drop` | kklib/src/integer.c:205-208 | one reference less; freed with the last one and otherwise unchanged |
| `BigInt.Alloc` | kklib/src/integer.c:210-223 | a fresh buffer of the rounded-up size with arbitrary contents |
| `BigInt.TrimTo` | kklib/src/integer.c:231-269 | the count is set, the digits kept, and without permission to reallocate the buffer stays, with the capped rest as its spare room |
| `BigInt.Trim` | kklib/src/integer.c:271-276 | leading zeros go, the value stays |
| `BigInt.AllocReuse` | kklib/src/integer.c:278-286 | the result buffer is the argument itself only if nobody else refers to it and it is large enough; otherwise it is fresh and the argument unchanged |
| `BigInt.Copy` | kklib/src/integer.c:288-297 | a fresh copy with room for more digits, at most MAX_EXTRA, giving up one reference to the original |
| `BigInt.Push` | kklib/src/integer.c:303-309 | one more most significant digit |
| `BigInt.AddAbs` | kklib/src/integer.c:783-843 | the sum of the absolute values, whether it overwrites the first argument or a fresh buffer, with the same number twice, and whatever the word before the digits of a number without digits holds; an argument with other references is never written |
| `BigInt.AddInto` | kklib/src/integer.c:798-838 | the three loops of addition: exact sum, all digits below the base, within the buffer that the overflow guess allocated |
| `BigInt.SubDigits` | kklib/src/integer.c:911-923 | digit-wise subtraction where a wrapped unsigned result plus the base is the right digit |
| `BigInt.SubAbs` | kklib/src/integer.c:901-951 | the difference of the absolute values, trimmed, in place or not, for any number that is not shorter; a negative difference wraps around by a power of the base; arguments with other references are never written |
| `BigInt.CompareAbs` | kklib/src/integer.c:754-764 | the result on any two digit arrays: lengths first, then values; it is the sign of the difference if and only if a longer number is also a larger one |
| `BigInt.Add` | kklib/src/integer.c:1212-1226 | the signed sum on any two digit arrays: exact for equal signs, and for different signs if and only if the number with more digits is not the smaller one, with the exact error otherwise; the reuse discipline of its arguments; termination of the mutual recursion with subtraction |
| `BigInt.Sub` | kklib/src/integer.c:1228-1242 | the signed difference, likewise, with the roles of the signs exchanged |
| `BigInt.ComparableLonger` | kklib/src/integer.c:27 | without leading zeros the number with more digits is always the larger one, so all sums and differences are exact |
| `BigInt.Mul` | kklib/src/integer.c:954-974 | the exact signed product, trimmed |
| `BigInt.MulTerm` | kklib/src/integer.c:961-969 | one digit product is added without exceeding a double digit |
| `BigInt.MulSmall` | kklib/src/integer.c:976-999 | the exact product with one digit, in place or not |
| `BigInt.CdivCmodSmall` | kklib/src/integer.c:1113-1130 | quotient and remainder by one digit, in place or not |
| `LongDivision.LambdaBounds` | kklib/src/integer.c:1139-1142 | the scaling factor is a digit, and makes the top digit of the divisor at least half the base without overflowing it |
| `LongDivision.Normalised` | kklib/src/integer.c:1139-1146 | scaling the divisor keeps its length and makes its top digit at least half the base |
| `LongDivision.EstimateBounds` | kklib/src/integer.c:1147-1156 | the estimated quotient digit is a digit, never too small and at most two too large |
| `LongDivision.MulSub` | kklib/src/integer.c:1157-1176 | the window minus digit times divisor, with borrows as wrapped machine digits, exactly |
| `LongDivision.AddBack` | kklib/src/integer.c:1179-1193 | the divisor is added to the window exactly, with wrapped machine digits |
| `LongDivision.QuotientDigit` | kklib/src/integer.c:1148-1195 | one quotient digit: exact quotient and remainder of the window, all digits below the base, and at most two corrections |
| `LongDivision.DivideLoop` | kklib/src/integer.c:1147-1196 | all quotient digits: dividend == remainder + divisor * quotient with a remainder below the divisor |
| `LongDivision.Denormalise` | kklib/src/integer.c:1197-1203 | undoing the scaling of the remainder is exact |
| `LongDivision.CdivCmod` | kklib/src/integer.c:1132-1205 | abs(x) == q * abs(y) + r with r < abs(y) for all lengths with abs(y) > 0, both results trimmed; an argument with other references is never written |
| `Karatsuba.Slice` | kklib/src/integer.c:1015-1032 | the digits between two positions, at least one digit, zero for an empty range, without giving up a reference; or the first digits of a unique number, cut out in place |
| `Karatsuba.ShiftLeft` | kklib/src/integer.c:1006-1013 | the number times a power of the base |
| `Karatsuba.Halves` | kklib/src/integer.c:1037-1042 | the two slices make up the number, also if one of them is empty |
| `Karatsuba.MiddleTerm` | kklib/src/integer.c:1044-1050 | the middle term is never negative |
| `Karatsuba.MulKaratsuba` | kklib/src/integer.c:1034-1053 | the exact signed product for all sign and length combinations, with operands that get strictly shorter at each recursion, and how the counts of the operands end: given up up to 25 digits, one reference more beyond |
| `Karatsuba.Combine` | kklib/src/integer.c:1048-1052 | the three products are put together exactly |
| `Tagged.BuildsAreValid` | kklib/include/kklib/integer.h:151-191 | the word sizes and ranges of both overflow schemes on 64 bits, and of sign extension on 64 and 32 bits, satisfy all that the proofs use |
| `Tagged.BoxUnbox` | kklib/include/kklib.h:1080-1098 | encoding and decoding of small integers are inverse |
| `Tagged.AddFastExact` | kklib/include/kklib/integer.h:481-618 | in all three schemes the fast path of addition is taken if and only if both are small and the sum is in range, and then gives the sum |
| `Tagged.AddConstFastExact` | kklib/include/kklib/integer.h:492-603 | the same for adding a constant |
| `Tagged.SubFastExact` | kklib/include/kklib/integer.h:502-618 | the same for subtraction |
| `Tagged.EitherBias` | kklib/include/kklib/integer.h:566-618 | each of the three tests with a mask (set bit 1, clear bit 1, set bit 0) may be made on the word or on its sign extension |
| `Tagged.MulFastExact` | kklib/include/kklib/integer.h:511-676 | the fast path of multiplication is taken if and only if the product is in range or, with sign extension, for the smallest number times itself, and gives the product, or 0 in that case |
| `Tagged.ProductIsLost` | kklib/include/kklib/integer.h:666-676 | with sign extension that case does occur, for two small integers, and the result is 0 |
| `Tagged.MulFastIsSmall` | kklib/include/kklib/integer.h:511-676 | even then the result is a well-formed small number |
| `Integers.FromInt` | kklib/src/integer.c:338-355 | a big integer denoting the machine integer |
| `Integers.ToBigint` | kklib/src/integer.c:389-398 | a big integer denoting the same number, of as many digits as are stored or needed |
| `Integers.FromBigint` | kklib/src/integer.c:316-335 | an integer denoting the same number, small if it has one digit that fits; it has leading zeros exactly if the digits have |
| `Integers.AddGeneric` | kklib/src/integer.c:1291-1296 | on any two integers, leading zeros or not: exact if and only if the signs are equal or the number with more digits is not the smaller one, and otherwise off by exactly a power of the base; integers without leading zeros stay so; a number that has other references is never written |
| `Integers.SubGeneric` | kklib/src/integer.c:1298-1303 | likewise: exact if and only if the signs differ or the number with more digits is not the smaller one, with the exact error otherwise |
| `Integers.MulGeneric` | kklib/src/integer.c:1305-1315 | exact multiplication of any two integers, whichever algorithm is chosen, in a fresh number without leading zeros; an argument that has more references than are used is never written, and loses exactly those, except that Karatsuba multiplication of long numbers gives up none |
| `Integers.AddInteger` | kklib/include/kklib/integer.h:481-589 | addition with its fast path: exact on all integers without leading zeros, and on others under exactly the condition, and with exactly the error, of the generic addition |
| `Integers.SubInteger` | kklib/include/kklib/integer.h:502-618 | subtraction with its fast path, likewise |
| `Integers.AddSmallConst` | kklib/include/kklib/integer.h:824-832 | adding a constant, likewise; a number that has other references is never written, and loses one reference |
| `Integers.NegInteger` | kklib/include/kklib/integer.h:839-847 | negation is exact on all integers, leading zeros or not; a number that has other references is never written, and loses one reference |
| `Integers.TrimmedDecided` | kklib/src/integer.c:27 | without leading zeros the number with more digits is never the smaller one, so the condition for sums and differences holds |
| `Integers.LengthBounds` | kklib/src/integer.c:338-355 | the number of digits that a number converts to is the one that its size calls for |
| `Integers.FromMachineInt` | kklib/include/kklib/integer.h:384-386 | the integer for a machine integer, without leading zeros |
| `Integers.MulInteger` | kklib/include/kklib/integer.h:683-686 | multiplication with its fast path is exact on all integers, leading zeros or not, if and only if it is not the one product that the sign-extension scheme loses |
| `Integers.DivSmall` | kklib/src/integer.c:1335-1347 | division of any integer by one digit, rounding towards zero, with the right signs |
| `Integers.DivBig` | kklib/src/integer.c:1351-1380 | division of big integers, rounding towards zero, on any two integers: when it is a machine division by zero, when it is exact otherwise (both if and only if), and what the remainder is |
| `Integers.CdivCmodGeneric` | kklib/src/integer.c:1322-1381 | division rounding towards zero on any two integers: 0 for the small divisor 0, otherwise x == d*y + m with abs(m) < abs(y) and the sign of x if and only if Divisible, in particular for every divisor without leading zeros; a dividend without them gives results without them |
| `Integers.DivModGeneric` | kklib/src/integer.c:1401-1444 | Euclidean division on any two integers: quotient 0 and remainder x for the small divisor 0, otherwise x == d*y + m with 0 <= m < abs(y) if and only if EuclideanExact; operands without leading zeros give results without them; an argument that has more references than are used is never written |
| `Integers.TrimmedDivides` | kklib/src/integer.c:1322-1444 | for integers without leading zeros both kinds of division are exact |
| `Integers.MostlyExact` | kklib/src/integer.c:1401-1444 | Euclidean division is exact for every divisor without leading zeros and every dividend that is not a zero with a minus sign |
| `Integers.KeptCases` | kklib/src/integer.c:1354-1363 | when the dividend itself is the remainder, for which of them Euclidean division is right |
| `Integers.ToEuclidean` | kklib/src/integer.c:1417-1443 | the correction of a negative remainder turns a truncating division into the Euclidean one |
| `Integers.MachineDivision` | kklib/include/kklib/integer.h:760-766 | machine division is division rounding towards zero |
| `Integers.DivModSmall` | kklib/include/kklib/integer.h:760-779 | Euclidean division of small integers; the quotient is small again if and only if it is not the smallest number divided by -1 |
| `Decimals.NumDecimal` | kklib/src/integer.c:440-511 | decimal notation denotes the number it was made for |
| `Decimals.DecimalNum` | kklib/src/integer.c:440-511 | and is the only one without leading zeros that does |
| `Decimals.DigitChars` | kklib/src/integer.c:419-437 | the characters for the digits |
| `Decimals.DecimalAppend` | kklib/src/integer.c:460-467 | appending a padded digit to decimal notation is multiplying by the base and adding |
| `Decimals.DigitToStrFull` | kklib/src/integer.c:419-425 | writes the digit with all its leading zeros, in place, and nothing around it |
| `Decimals.DigitToStrPartial` | kklib/src/integer.c:427-437 | writes the digit without leading zeros, and nothing for zero |
| `Decimals.ToBuf` | kklib/src/integer.c:440-471 | the buffer holds exactly the decimal text of every number but a zero with digits, of which only the sign is printed; too small a buffer is left alone and the needed size returned; the announced size suffices if and only if the number has a digit |
| `Decimals.IntToString` | kklib/src/integer.c:484-511 | a machine integer prints as its decimal text |
| `Parsing.OneLayout` | kklib/src/integer.c:516-587 | a text can be read as a decimal number in one way only |
| `Parsing.ScanSignificant` | kklib/src/integer.c:533-545 | counts the digits before the fraction, and fails exactly where they end in the wrong way |
| `Parsing.ScanFraction` | kklib/src/integer.c:547-570 | counts the digits of the fraction and its trailing zeros, and fails exactly where it ends in the wrong way |
| `Parsing.ScanExponent` | kklib/src/integer.c:573-587 | whether the machine integer overflows on the way; if not, the value of the exponent, failing exactly on a character that is not a digit or an exponent above the base |
| `Parsing.Fits` | kklib/src/integer.c:579-586 | no overflow for exponents that fit a machine integer, nor where ten times the base fits one |
| `Parsing.OverflowsAtTenTimesBase` | kklib/src/integer.c:579-586 | an exponent of ten times the base overflows wherever that is no machine integer |
| `Parsing.ScanNumber` | kklib/src/integer.c:521-587 | what was scanned describes the only possible reading; a failure means there is none, or its exponent is excessive; an overflow is reported exactly when it happens |
| `Parsing.WholeValue` | kklib/src/integer.c:588-590 | with a large enough exponent the value is the digits with zeros added |
| `Parsing.FractionalValue` | kklib/src/integer.c:588-590 | with a smaller one it is no integer at all |
| `Parsing.BuildMachine` | kklib/src/integer.c:594-611 | few digits become a machine integer with that value |
| `Parsing.ReadChunk` | kklib/src/integer.c:620-629 | the next digits as one number, zeros beyond the end of the text |
| `Parsing.BuildBig` | kklib/src/integer.c:613-640 | many digits become a big integer with that value; it has leading zeros if and only if it has several digits and the first chunk of decimal digits is all zeros |
| `Parsing.AcceptsOne` | kklib/src/integer.c:516-641 | a text has at most one value |
| `Parsing.Parse` | kklib/src/integer.c:516-641 | the result is the integer with the value of the text (sign, underscores, fraction, exponent); a text is rejected only if it has no integer value or an exponent above the base; the exponent overflows exactly on the texts described by TooLong; the integer has leading zeros exactly if the first chunk of its decimal digits is all zeros and there are more |
| `Parsing.RoundTrip` | kklib/src/integer.c:440-641 | the only value of the decimal text of an integer is that integer, and its text is neither hexadecimal nor too long and does not start with a chunk of zeros |
| `Parsing.ParsePrinted` | kklib/src/integer.c:516-641 | parsing the text of any integer, however long, results in exactly that integer, without leading zeros |
| `Numerals.WrittenMeans` | kklib/src/integer.c:516-641 | the text made of a sign, groups of digits separated by underscores, a fraction and an exponent has as its values exactly the number meant (all digits, moved left by the exponent and right by the length of the fraction), if the exponent is at most the base |
| `Numerals.OnlyNumerals` | kklib/src/integer.c:516-641 | and these are the only texts with a value: acceptance by position in the text and the numerals written from their parts agree in both directions |
| `Numerals.ParseNumeral` | kklib/src/integer.c:516-641 | parsing such a text results in the integer meant whenever there is one, and in a rejection otherwise |
| `Numerals.WithExponent` | kklib/src/integer.c:572-592 | digits, with any sign and any fraction, followed by e or E, perhaps a plus sign, and digits: the value is all digits times ten to the exponent, over ten to the length of the fraction |
| `Numerals.Hundred` | kklib/src/integer.c:572-592 | 1e2 is 100 and nothing else |
| `Numerals.HexTexts` | kklib/src/integer.c:528-531 | exactly the texts of a zero and the letter x, perhaps after a sign, are left to the parser of hexadecimal numbers |
| `Parsing.ZeroedText` | kklib/src/integer.c:613-640 | a text of zeros and a last digit, perhaps after a minus sign, of twenty digits with base 10^18, whose first chunk is all zeros, and its value |
| `Parsing.ParseZeroed` | kklib/src/integer.c:516-641 | such a text is parsed to a big integer of two digits with leading zeros, against the representation stated at kklib/src/integer.c:27; with a last digit of 0 it is a zero that is not found to be zero, and keeps a minus sign |
| `Parsing.WrongDifference` | kklib/src/integer.c:754-758 | parsing such a text for 5 and subtracting 7 gives BASE^2 - 2 instead of -2 |
| `Parsing.WrongQuotient` | kklib/src/integer.c:1354-1363 | dividing 7 by such a text for 1 completes, and its quotient and remainder are not the Euclidean ones |
| `Parsing.UndefinedDivision` | kklib/src/integer.c:1139-1141 | dividing BASE^2, itself without leading zeros, by such a text for 7 gets to a machine division by zero |
| `Parsing.WrongZeroRemainder` | kklib/src/integer.c:1417-1434 | dividing such a text for 0 with a minus sign by BASE^2, which has no leading zeros, completes with a wrong quotient or remainder |
| `SharedCount.InitHolds` | kklib/src/refcount.c:125-131 | a shared block with n references starts at -n |
| `SharedCount.NextKeeps` | kklib/src/refcount.c:157-210 | every read, atomic step, free and hand-over of a reference keeps the invariant |
| `SharedCount.FreedOnlyWhenUnreferenced` | kklib/src/refcount.c:191-210 | in every interleaving with stale first reads the block is freed at most once, by one thread, when no reference is left and no operation is under way |
| `SharedCount.NeverReadsUnsharedNorWraps` | kklib/src/refcount.c:99-155 | while a reference is left the count reads as shared, it never wraps around, and moves by at most one per step |
| `SharedCount.NeverFreedOnceSticky` | kklib/src/refcount.c:133-141 | once the count reached RC_STICKY the block is never freed, in any continuation |
| `SharedCount.FreedWhenUnreferenced` | kklib/src/refcount.c:191-210 | without references the block is being freed or was freed if and only if no drop was skipped and the count was never fully sticky |
| `SharedCount.ExactAndNeverLeaks` | kklib/src/refcount.c:99-210 | as long as the count stays above -0x60000000 it is exactly the number of references, and without references the block is being freed or was freed |
| `SharedCell.NextKeeps` | kklib/src/ref.c:12-47 | every step of a read or swap, and of code creating and dropping references, with addresses used again after a block was freed, keeps the invariant |
| `SharedCell.OneReader` | kklib/src/ref.c:13-24 | at most one reader holds the guard |
| `SharedCell.ReleaseSucceeds` | kklib/src/ref.c:26-33 | writing the contents back always finds the guard: the restart that "should never happen" never does |
| `SharedCell.DupsLiveContent` | kklib/src/ref.c:24-25 | the contents are live when they are duplicated, because the cell still owns a reference to them |
| `SharedCell.ReturnsOwned` | kklib/src/ref.c:24-35 | a reader returns with a live word and a reference to it that is its own, other than the one of the cell |
| `SharedCell.SwapHandsOver` | kklib/src/ref.c:38-47 | a swap hands the reference that the cell had to the old word over to the caller, and the offered one to the cell |
| `SharedCell.LiveUntilDropped` | kklib/src/ref.c:12-47 | a reference stays, and its block is not freed, until it is dropped, whatever other threads do |
| `SharedCell.FreedWithoutReferences` | kklib/src/ref.c:12-47 | a block is referenced until it is freed: none is lost |
| `SharedCell.NoneForgotten` | kklib/src/ref.c:12-47 | when no thread is inside an operation, every reference is the one of the cell or is owned by code |
| `SharedCell.HandedOutOnce` | kklib/src/ref.c:38-47 | every word ever stored is the current one or was handed out by exactly one swap, in order |
| `SharedCell.ReturnsStored` | kklib/src/ref.c:19-22 | a word returned without the guard was stored at some time and is not the guard |
| `TaskPool.TaskQueue.EnqueueN` | kklib/src/thread.c:230-240 | a linked chain of tasks is appended to the queue, which stays linked as it was |
| `TaskPool.TaskQueue.Enqueue` | kklib/src/thread.c:242-244 | one task is appended |
| `TaskPool.TaskQueue.Dequeue` | kklib/src/thread.c:213-228 | the first task leaves the queue; none if it is empty |
| `TaskPool.TaskGroup.ScheduleTask` | kklib/src/thread.c:246-254 | appending to the linked queue is the scheduling step of the pool |
| `TaskPool.TaskGroup.NextTask` | kklib/src/thread.c:256-278 | taking from the linked queue is the step by which a worker gets its task, and the pool is idle exactly if the linked queue is empty |
| `TaskPool.NextKeeps` | kklib/src/thread.c:188-278 | scheduling, working, returning, setting, signalling and every step of waiting keep the invariant |
| `TaskPool.FirstInFirstOut` | kklib/src/thread.c:213-244 | in every run tasks leave the queue in the order in which they were scheduled, each once; with ScheduleTask and NextTask this is the order of the linked queue |
| `TaskPool.ExecutedOnce` | kklib/src/thread.c:188-196 | a task runs at most once, after it left the queue, and its promise is set at most once, to what it returned |
| `TaskPool.PromiseIsStable` | kklib/src/thread.c:403-412 | a promise that is set keeps its result |
| `TaskPool.ResultWasReturned` | kklib/src/thread.c:188-196 | in every run the result of a promise is what the execution of its task returned before |
| `TaskPool.GetReturnsResult` | kklib/src/thread.c:425-477 | waiting for a promise returns the result of its own task |
| `TaskPool.GetReturnsReturned` | kklib/src/thread.c:425-477 | so waiting returns what its task returned |
| `TaskPool.NobodyForgotten` | kklib/src/thread.c:403-477 | as long as at most one call sleeps on a promise that is about to be signalled, nobody sleeps on after the signal, whether waiters run other tasks meanwhile or not |
| `TaskPool.OneGetterSleepsAlone` | kklib/src/thread.c:425-477 | which holds in particular with one waiter per promise |
| `TaskPool.SignalForgetsNoneIff` | kklib/src/thread.c:403-412 | a signal can be relied on to leave nobody asleep if and only if at most one call sleeps on the promise |
| `TaskPool.SecondMayBeForgotten` | kklib/src/thread.c:403-412 | a run from the empty pool in which two calls sleep on a promise and one of them sleeps on after the signal |
| `Evidence.CmpTransitive` | lib/std/core/inline/hnd.c:76-89 | the comparison of tags is an order |
| `Evidence.Index` | lib/std/core/inline/hnd.c:76-89 | the first position whose tag is not smaller |
| `Evidence.Insert` | lib/std/core/inline/hnd.c:140-180 | the evidence is inserted at the index of its tag, with the old vector as its context; none for no evidence or a named handler |
| `Evidence.Delete` | lib/std/core/inline/hnd.c:182-213 | exactly one entry is removed, the one at the index or the one behind it |
| `Evidence.IndexFinds` | lib/std/core/inline/hnd.c:76-89 | the index plus a mask level finds the handler at that level, counted from the innermost; without one it points to none |
| `Evidence.InsertModels` | lib/std/core/inline/hnd.c:140-180 | inserting evidence is pushing a handler on the stack |
| `Evidence.DeleteModels` | lib/std/core/inline/hnd.c:182-213 | deleting at the index, or behind it, is taking the innermost handler of that tag, or the next one, from the stack |
| `Evidence.DeleteUndoesInsert` | lib/std/core/inline/hnd.c:140-213 | deleting at the index exactly undoes the insertion |
| `Evidence.RunModels` | lib/std/core/inline/hnd.c:140-213 | after every run of insertions and deletions the vector is sorted and has the handlers of the stack, innermost first for each tag |
| `Evidence.RunFinds` | lib/std/core/inline/hnd.c:76-89 | so the index finds the right handler after every run |
| `Yielding.NewKcompose` | lib/std/core/inline/hnd.c:290-300 | the composition stands for its continuations in order |
| `Yielding.RunAppend` | lib/std/core/inline/hnd.c:266-288 | where a list of continuations is cut does not matter: a yield in the first part keeps all of the second behind what it registered itself, and a final one keeps none |
| `Yielding.YieldKeepsRest` | lib/std/core/inline/hnd.c:272-284 | when an element of a composition yields, everything behind it in the composition follows what it registered itself |
| `Yielding.Context.YieldExtend` | lib/std/core/inline/hnd.c:306-323 | one more continuation is registered at the end, also when the eight slots are full |
| `Yielding.Context.YieldCont` | lib/std/core/inline/hnd.c:332-361 | all continuations registered so far become the argument of the new one |
| `Yielding.Context.StartYield` | lib/std/core/inline/hnd.c:363-371 | a yield starts with nothing registered |
| `Yielding.Context.Unwind` | lib/std/core/inline/hnd.c:306-361 | what code registers while it unwinds is the registered continuations, in order |
| `Yielding.RegistersLast` | lib/std/core/inline/hnd.c:306-361 | what one more action registers in the end: a function behind the others, or code that is given all the others |
| `Yielding.RegistersAllLast` | lib/std/core/inline/hnd.c:306-411 | past one more prompt, what was registered before it comes first |
| `Yielding.Context.YieldFinal` | lib/std/core/inline/hnd.c:373-377 | a final yield never resumes |
| `Yielding.Context.YieldPrompt` | lib/std/core/inline/hnd.c:394-411 | the prompt with the marker stops the yield and gets a resumption that stands for everything registered since it started; other prompts leave it |
| `Yielding.Context.YieldUp` | lib/std/core/inline/hnd.c:306-411 | a yield on its way up, past any number of prompts of other handlers and whatever is registered between them, stops at the prompt with its marker, with its clause and a resumption for everything registered, in order |
| `Yielding.Context.YieldAndResume` | lib/std/core/inline/hnd.c:266-411 | resuming it with a value is running everything registered on the way on that value: the same result, or the same next yield |
| `Yielding.Context.YieldThrough` | lib/std/core/inline/hnd.c:266-411 | in particular yielding through any list of continuations and resuming with a value is running the list on that value |
| `Yielding.OnlyExtends` | lib/std/core/inline/hnd.c:306-323 | code that only registers functions registers them in order |
| `Yielding.Context.YieldCapture` | lib/std/core/inline/hnd.c:432-449 | the current yield is taken out of the context |
| `Yielding.Context.YieldReyield` | lib/std/core/inline/hnd.c:451-463 | and put back unchanged |
| `Yielding.Context.Call` | lib/std/core/inline/hnd.c:266-346 | running any function value, however it was chunked, does what running its continuations one after the other does: the same value, or the same yield with the same continuations left; also for code that calls the continuation it was given any number of times |
| `Yielding.Context.CallComposed` | lib/std/core/inline/hnd.c:266-288 | the same for a composition: when an element yields, what it registered followed by all elements behind it is what is registered |
| `Utf8.Write` | kklib/src/string.c:124-180 | the UTF-8 encoding (section 3 of RFC 3629) of the character, surrogate halves moved to the raw range, in exactly the computed length, and nothing around it |
| `Utf8.EncodedBits` | kklib/src/string.c:147-180 | the groups of six bits of a character are its bytes, after the mark of their number (section 3 of RFC 3629) |
| `Utf8.RawRange` | kklib/src/string.c:124-145 | where stray bytes, surrogate halves and what is no character go |
| `Utf8.ReadSound` | kklib/src/string.c:239-280 | reading takes a valid character or one stray byte, never beyond the end, and says how many bytes it takes to represent it |
| `Utf8.ReadComplete` | kklib/src/string.c:239-280 | a valid character that is there is read |
| `Utf8.Validate` | kklib/src/string.c:283-312 | the length of the converted string, and whether it is the original |
| `Utf8.ConvertFromInvalid` | kklib/src/string.c:327-350 | writes the converted string, in exactly the length of the first pass |
| `Utf8.Convert` | kklib/src/string.c:352-365 | the converted string, for valid and invalid input |
| `Utf8.ConvertedIsWellFormed` | kklib/src/string.c:327-365 | the result is always well-formed UTF-8 (section 4 of RFC 3629) |
| `Utf8.SameLength` | kklib/src/string.c:283-312 | comparing lengths is enough to know whether the conversion changes anything |
| `Utf8.UnchangedIfValid` | kklib/src/string.c:283-365 | the conversion changes nothing if and only if the input is well-formed and, in identity mode, without raw characters |
| `Utf8.EncodeInjective` | kklib/src/string.c:147-180 | a string is the encoding of one sequence of characters only |
| `Utf8.Injective` | kklib/src/string.c:232-280 | in identity mode different input stays different |
| `Utf8.NotInjective` | kklib/src/string.c:232-280 | in the other mode a stray byte and the raw character for it become the same |
| `RangeSelect.RangeUint32` | kklib/src/random.c:224-238 | returns the number of the first accepted input, below the bound; the early test never changes which inputs are accepted; 0 for a bound of 0 |
| `RangeSelect.Threshold` | kklib/src/random.c:230 | the threshold is 2^32 modulo the bound |
| `RangeSelect.InputsAreConsecutive` | kklib/src/random.c:224-238 | the accepted inputs for a number are one run of consecutive numbers |
| `RangeSelect.Unbiased` | kklib/src/random.c:224-238 | every number below the bound is produced by exactly floor(2^32 / bound) accepted inputs |

## Left out

- OS, file, process, console, clock, regular expressions, entropy, the allocator itself, pointer compression and memory orders: no state of interest here; addresses come from a search for an unused one.
- StacklessFree: raw blocks with a custom free function, and drop with reuse of the memory, are not modelled.
- Marking.MarkHeap.MarkSharedRecx: for blocks of less than 255 fields; for larger ones the source calls back on the block itself instead of the child (`kklib/src/refcount.c:653-660`). The recursive pre-marking of shallow structures (`kklib/src/refcount.c:586-650`) is not modelled.
- Marking: exact counts across the boundary from unshared to shared are not claimed: a count is negated (`kklib/src/refcount.c:171`), so that n + 1 references become -n, and 0 stays 0, where the comment at `kklib/src/refcount.c:125-131` asks for -(n + 1). SharedCount starts from a block that is already shared.
- ContextOps.CctxCopy: the source drops the reference in a field of the copied path before it overwrites the field, the model overwrites first; `ContextOps.LinkCopy` states that this drop never frees, so that nothing depends on the order. The linear variants (`kk_cctx_apply_linear` and the like) are the in-place branch alone and add nothing.
- ContextOps.CctxExtend: requires that the extending context is unique, as it is in all of the source's own calls (`lib/std/core/inline/types-cctx.h:103-104`, `lib/std/core/inline/types-cctx.c:13-14`); other calls come from compiled code, which is not part of this model.
- SharedCount: one block; what its fields own is given up by the free of the heap model. Memory orders are not modelled.
- SharedCell: the reference to the cell itself, which the early return of an unboxed value does not give up (`kklib/src/ref.c:21`), is not modelled.
- BigInt.Drop: thread-shared and sticky counts of big integers are not modelled; a count is the number of further references. Reallocation gives back the same object.
- BigInt.Alloc: nothing is known about the contents of a fresh buffer; digits are unbounded naturals there, and are proved to be below the base where they are used.
- Karatsuba.Slice: nothing is claimed when more digits than there are would be cut out of a unique number in place, which multiplication never asks for since it holds a second reference by then.
- LongDivision.CdivCmod: for divisors without leading zeros; for others it is a machine division by zero, and `Integers.DivBig` says exactly when it gets there.
- Integers.CdivCmodGeneric: temporaries that the source leaks on some paths are not accounted for.
- Integers.FromBigint: a number without digits becomes 0 and is not given up, as in the source.
- Integers: equality of integers is not modelled: a number of two digits that would fit a small integer stays big, so canonical forms cannot be claimed. Division by powers of ten, powers, trailing zeros, conversion from and to floating point and 64-bit clamping are left out as easier or not supported by the code. What a machine division by zero does is not defined.
- Tagged: words with tag 0 for values (`kklib/include/kklib/integer.h:619-664`) are not modelled; the build uses tag 1. Bit operations on disjoint bits are written as sums.
- Parsing.Parse: hexadecimal numbers are recognised but not parsed; counts of digits are unbounded, so texts too long for the address space are not excluded.
- Decimals.ToBuf: requires, for a number without digits only, a buffer that is not of exactly the announced size; there the source would write beyond it. No such number reaches the printer.
- Evidence.Delete: a vector of at most one handler becomes empty whatever the index, as in the source. Reference counts of the evidence, and named handlers (found by name only) beyond leaving the vector as it is, are not modelled; neither are evidence vectors created from indices.
- Yielding.Context.Call: compiled code is a function of its argument and of the results of the calls of its continuation, of which it makes finitely many. Resuming after a final yield is given by that code.
- TaskPool: shutdown, allocation failure, liveness of the workers, and a task whose result is the box `any` (read as "not set") are not modelled. Spurious wake-ups are.
- Utf8: back-conversion to qutf-8, UTF-16 import and conversion through code pages are left out. A byte sequence is followed by a zero, as all strings of the runtime are.
- RangeSelect.RangeUint32: the random inputs are a finite sequence with at least one accepted input, since otherwise the source does not terminate.
