# Verification of the kernel support library

A Dafny model of the support library that the teaching-kernel labs share, with proofs of what
it promises: the intrusive skew heap of the run queue, the 48-bit random number generator, the
format engine and `strtol`, the memory and string routines, the intrusive list, the hash, the
bit array and the console line editor. The copy modelled is the one of lab 6; the line editor
is that of lab 2. `dafny verify dfyconfig.toml` checks everything.

## How it is built

**Skew heap.** `SkewTree` is the value layer: trees, the self-adjusting merge and removal of an
arbitrary element, with their contents and heap order. `SkewCost` holds the amortised analysis,
with the number of right-heavy nodes as potential and calls of merge with two non-empty
arguments as cost. `SkewHeap` is the pointer layer: entries with `parent`, `left` and `right`,
updated in place, each operation proved to compute the tree of the value layer with all links
right. `HeapRuns` puts whole runs together, on trees and on pointers. A comparator is any
function of two nodes, and "less" means that it returns exactly -1, which is the only test the
source makes; the order laws are assumed only where heap order or the minimum is claimed.
Between operations the client may change priorities of nodes outside the heap, which appears as
a new comparator.

**Generator.** The product of the 64-bit state wraps modulo 2^64 before it is masked to 48 bits;
masking and shifting are written as remainder and quotient by powers of two. The macro that
reduces the result does not parenthesise its argument (`riscv64-ucore-labcodes/lab6/libs/riscv.h:235-241`),
so the remainder is taken modulo 2147483647 and 1 is added: the comment in the source allows 0,
the code never returns it.

**Printing and reading numbers.** `Format` says what a format string denotes, reading it from
left to right once. `Printf` is the engine: it keeps the source's loops, walks back in the format
after an unrecognised escape, and writes to a bounded buffer. Arguments are 64-bit slots or
strings, read with the widths and signs of the machine (int 32 bits, long and long long 64).
`Digits` and `Strtol` give positional notation in both directions and `RoundTrip` joins them.
`Notation` says over the 36 digit characters what is read, and `Escapes` says from the characters
of an escape and its argument what is printed.

Where code and description differ the code is followed, and a theorem says exactly where they
meet. The minus flag pads numbers with minus signs (`MinusFlag`); padding comes behind the sign
of a negative number and the sign is not counted in the width (`PrefixedWidths`); `.0` is no
precision (`DottedNumber`); `strtol` skips only spaces and tabs, takes "0x" for a prefix even
without a digit behind it, and never takes "0X" (`MeetsDescription`). Base 1, which the
description of the number printer allows, would not terminate for a number above 0 and is
excluded, as no caller passes it.

**Smaller parts.** `Memory` copies blocks inside one byte array; `CStrings` compares strings;
`List` relates pointer rings to the sequences of their entries; `Hash` counts the inputs of each
bucket; `BitArray` works on 64-bit vectors and relates them to sets of bit numbers; `Readline`
relates the editor to a fold over the keys.

`Perform` in three modules, `List.DelAndPutBack`, the two methods of `RoundTrip` and
`Notation.ReadPositional` are clients: they compose operations over whole runs and are not
functions of the source. `Adopt`, `Replacement` and `Splice` in `SkewHeap`, and the smaller
methods of `Printf` and `Strtol`, are stretches of one source function given contracts of their
own.

## Model

| member | source | states |
|---|---|---|
| SkewTree.MergeElems | riscv64-ucore-labcodes/lab6/libs/skew_heap.h:29-59 | merging keeps exactly the nodes of both arguments, none twice |
| SkewTree.MergeOrdered | riscv64-ucore-labcodes/lab6/libs/skew_heap.h:29-59 | merging keeps heap order, for any asymmetric comparator |
| SkewTree.RemoveElems | riscv64-ucore-labcodes/lab6/libs/skew_heap.h:69-85 | removal takes exactly the named node out and leaves the size one smaller |
| SkewTree.RemoveOrdered | riscv64-ucore-labcodes/lab6/libs/skew_heap.h:69-85 | heap order survives the splice under a strict weak order |
| SkewTree.RemovalNeedsNegativeTransitivity | riscv64-ucore-labcodes/lab6/libs/skew_heap.h:69-85 | for an asymmetric comparator, removal keeps heap order in every tree if and only if the comparator is negatively transitive |
| SkewTree.RootIsUnbeaten | riscv64-ucore-labcodes/lab6/libs/skew_heap.h:61-67 | in an ordered heap no node beats the root |
| SkewTree.OrderedCongruence | riscv64-ucore-labcodes/lab6/libs/skew_heap.h:36-37 | heap order depends on the comparator on the members only |
| SkewTree.SizeIsCardinality | riscv64-ucore-labcodes/lab6/libs/skew_heap.h:29-59 | the size used in the bounds is the number of distinct nodes |
| SkewCost.LgIsLogarithm | riscv64-ucore-labcodes/lab6/libs/skew_heap.h:29-59 | lg(n) in the bounds is floor(log2(n + 1)) |
| SkewCost.StepsUseUpASpine | riscv64-ucore-labcodes/lab6/libs/skew_heap.h:33-57 | the steps counted use up one right spine: at least the shorter one, fewer than both together |
| SkewCost.MergeAmortised | riscv64-ucore-labcodes/lab6/libs/skew_heap.h:29-59 | merge steps plus the change in right-heavy nodes are at most 2(lg a + lg b), for any comparator |
| SkewCost.InsertAmortised | riscv64-ucore-labcodes/lab6/libs/skew_heap.h:61-67 | an insertion has amortised cost at most 2(lg n + 1) |
| SkewCost.RemoveAmortised | riscv64-ucore-labcodes/lab6/libs/skew_heap.h:69-85 | removing any node has amortised cost at most 4 lg n, the ancestors that turn right-heavy included |
| SkewHeap.Entry.Init | riscv64-ucore-labcodes/lab6/libs/skew_heap.h:23-27 | all three links are cleared |
| SkewHeap.Adopt | riscv64-ucore-labcodes/lab6/libs/skew_heap.h:42-44 | a node takes two disjoint trees as its children and all links are right |
| SkewHeap.Merge | riscv64-ucore-labcodes/lab6/libs/skew_heap.h:29-59 | the pointer merge yields the value-layer merge of two disjoint trees, all links right, the returned node's own parent untouched, nothing outside written, with exactly the counted steps; of two nodes the first wins if and only if the comparator returns -1, and its left subtree becomes its right one |
| SkewHeap.Insert | riscv64-ucore-labcodes/lab6/libs/skew_heap.h:61-67 | inserting any node, whatever its stale links, yields the value-layer insertion; the root stays on top if and only if the comparator returns -1 for it and the new node |
| SkewHeap.Locate | riscv64-ucore-labcodes/lab6/libs/skew_heap.h:73-80 | any node of a heap names its true parent, whose child pointers lead back to it |
| SkewHeap.Plug | riscv64-ucore-labcodes/lab6/libs/skew_heap.h:77-83 | redirecting the one child pointer gives the tree without the node |
| SkewHeap.Replacement | riscv64-ucore-labcodes/lab6/libs/skew_heap.h:73-75 | the merged children of the removed node carry its parent |
| SkewHeap.Splice | riscv64-ucore-labcodes/lab6/libs/skew_heap.h:79-81 | the child pointer redirected is the one that led to the removed node |
| SkewHeap.Remove | riscv64-ucore-labcodes/lab6/libs/skew_heap.h:69-85 | removal by pointer of root, inner node or leaf yields the value-layer removal, with all links right; the pointer that led to the node leads to the child the comparator picks |
| HeapRuns.EnabledStepKeepsDistinct | riscv64-ucore-labcodes/lab6/libs/skew_heap.h:61-85 | each operation changes the set of members as the abstract queue does |
| HeapRuns.StepKeepsPriorityQueue | riscv64-ucore-labcodes/lab6/libs/skew_heap.h:61-85 | each operation keeps the heap a priority queue |
| HeapRuns.RunRefinesPriorityQueue | riscv64-ucore-labcodes/lab6/libs/skew_heap.h:23-85 | after every run the members are those of the abstract queue and no member beats the root |
| HeapRuns.LastInsertedFirst | riscv64-ucore-labcodes/lab6/libs/skew_heap.h:37-67 | after any insertions into the empty heap under a strict weak order the root is the last inserted of the nodes that nothing precedes, said with the comparator's value -1 |
| HeapRuns.RunAmortised | riscv64-ucore-labcodes/lab6/libs/skew_heap.h:29-85 | over every run total steps plus final potential are within the initial potential plus the sum of the bounds |
| HeapRuns.RunFromEmpty | riscv64-ucore-labcodes/lab6/libs/skew_heap.h:29-85 | n operations from the empty heap take at most n(4 lg n + 2) merge steps |
| HeapRuns.Perform | riscv64-ucore-labcodes/lab6/libs/skew_heap.h:23-85 | a whole run on real nodes, removed ones reinserted included, leaves a heap with the tree and the steps of the abstract run; under the order laws the pointer returned is a minimum of the abstract queue, null only when that is empty |
| Rand.Generator.Next | riscv64-ucore-labcodes/lab6/libs/rand.c:11-16 | the new state is 25214903917 s + 11 modulo 2^48, whatever the 64-bit wrap in front of the mask; the result lies in 1..RAND_MAX and is congruent to the shifted state plus 1 |
| Rand.Generator.Srand | riscv64-ucore-labcodes/lab6/libs/rand.c:22-25 | a seed becomes the state |
| Rand.FirstCalls | riscv64-ucore-labcodes/lab6/libs/rand.c:4-15 | the first states and values from the seeds 0 and 1 |
| Rand.JumpAdds | riscv64-ucore-labcodes/lab6/libs/rand.c:13 | 2^k steps add 2^k to the state modulo 2^(k+1) |
| Rand.Recurs | riscv64-ucore-labcodes/lab6/libs/rand.c:13 | the low k bits recur after n steps if and only if 2^k divides n |
| Rand.LowBitsPeriod | riscv64-ucore-labcodes/lab6/libs/rand.c:13 | the low k bits of the state have period exactly 2^k, from every state |
| Rand.StatePeriod | riscv64-ucore-labcodes/lab6/libs/rand.c:13 | two calls leave the same state if and only if their numbers agree modulo 2^48 |
| Rand.FullPeriod | riscv64-ucore-labcodes/lab6/libs/rand.c:11-16 | 2^48 calls return to the start and visit every 48-bit value exactly once |
| Rand.ReturnedValues | riscv64-ucore-labcodes/lab6/libs/rand.c:9-15 | the values returned are exactly 1..RAND_MAX: each within a period, and never the documented 0 |
| Rand.ReturnFrequency | riscv64-ucore-labcodes/lab6/libs/rand.c:11-16 | over a period the values 1 to 32 are returned 33 * 4096 times each and all others 32 * 4096 times, from any state |
| Hash.ScrambleIsBijective | riscv64-ucore-labcodes/lab6/libs/hash.c:4-15 | multiplying by the constant modulo 2^32 can be undone |
| Hash.TopBitsOfProduct | riscv64-ucore-labcodes/lab6/libs/hash.c:3-17 | a hash h of v means that the low 32 bits of v times 2^31 + 2^29 - 2^25 + 2^22 - 2^19 - 2^16 + 1 lie in the h-th block of 2^(32 - bits) |
| Hash.Equidistribution | riscv64-ucore-labcodes/lab6/libs/hash.c:7-17 | every value below 2^bits is the hash of exactly 2^(32 - bits) inputs, and no other value is a hash |
| Hash.FullHashIsInjective | riscv64-ucore-labcodes/lab6/libs/hash.c:13-17 | with 32 bits the hash is injective |
| Digits.NumeralIsCanonical | riscv64-ucore-labcodes/lab6/libs/printfmt.c:39-54 | the digits printed are valid, have no leading zero and denote the number |
| Digits.NumeralIsUnique | riscv64-ucore-labcodes/lab6/libs/printfmt.c:39-54 | no other digit string does |
| Format.Signed32 | riscv64-ucore-labcodes/lab6/libs/printfmt.c:86-97 | an int argument is the slot modulo 2^32 in two's complement |
| Format.Signed64 | riscv64-ucore-labcodes/lab6/libs/printfmt.c:86-97 | a long argument is the slot in two's complement |
| Format.Scan | riscv64-ucore-labcodes/lab6/libs/printfmt.c:140-190 | flags, width and precision end at the first character that is none of theirs |
| Format.FieldWidths | riscv64-ucore-labcodes/lab6/libs/printfmt.c:45-54 | number and string fields have length max(width, contents): the contents at one end and only padding beside them, the pad character in front, or spaces behind a string with the minus flag |
| Format.MinusFlag | riscv64-ucore-labcodes/lab6/libs/printfmt.c:148-151 | with the minus flag a number is what left justification would give if and only if there is nothing to pad |
| Format.PrefixedWidths | riscv64-ucore-labcodes/lab6/libs/printfmt.c:234-262 | the sign and "0x" come on top of max(width, digits); counting them into the width would give the same length if and only if there is no such prefix or nothing to pad |
| Format.DottedNumber | riscv64-ucore-labcodes/lab6/libs/printfmt.c:153-179 | a dot and digits set the precision to their value unless that is 0; a leading zero becomes the pad character |
| Format.ScanPads | riscv64-ucore-labcodes/lab6/libs/printfmt.c:140-156 | whatever the flags, the pad character is a space, a zero or a minus sign |
| Format.LiteralStretch | riscv64-ucore-labcodes/lab6/libs/printfmt.c:133-138 | text without a percent sign stands for itself |
| Format.UnknownEscape | riscv64-ucore-labcodes/lab6/libs/printfmt.c:277-282 | an unrecognised escape can be continued from right behind its own percent sign |
| Format.UnknownEscapeIsLiteral | riscv64-ucore-labcodes/lab6/libs/printfmt.c:277-282 | an unrecognised escape, flags and digits included, stands for its own text |
| Format.NestedErrorFormats | riscv64-ucore-labcodes/lab6/libs/printfmt.c:203-208 | what the two nested formats for error codes print |
| Printf.Sink.Putch | riscv64-ucore-labcodes/lab6/libs/printfmt.c:299-305 | a character is counted always and stored while there is room |
| Printf.PrintNum | riscv64-ucore-labcodes/lab6/libs/printfmt.c:39-54 | the recursion writes the padding once, in front, and then the canonical digits |
| Printf.PrintString | riscv64-ucore-labcodes/lab6/libs/printfmt.c:212-232 | a string is cut by the precision, filtered by the alternate flag and padded to the width |
| Printf.PrintError | riscv64-ucore-labcodes/lab6/libs/printfmt.c:198-209 | a code and its negation print the same name, or the number where there is none |
| Printf.ScanNumber | riscv64-ucore-labcodes/lab6/libs/printfmt.c:159-166 | the decimal value of the whole run of digits |
| Printf.ScanEscape | riscv64-ucore-labcodes/lab6/libs/printfmt.c:140-190 | the loop over the flags agrees with their left-to-right reading |
| Printf.Convert | riscv64-ucore-labcodes/lab6/libs/printfmt.c:192-275 | each recognised conversion writes its text, which module Escapes fixes, and takes its argument; any other character writes nothing |
| Printf.ProcessEscape | riscv64-ucore-labcodes/lab6/libs/printfmt.c:140-283 | the rewind stops right behind the percent sign of this escape, and the text to come is unchanged by it |
| Printf.VPrintFmt | riscv64-ucore-labcodes/lab6/libs/printfmt.c:125-285 | for every format and arguments the engine terminates, reads nothing behind the terminator and writes exactly the text of the format |
| Printf.Vsnprintf | riscv64-ucore-labcodes/lab6/libs/printfmt.c:337-348 | returns the full length; the buffer holds the first min(length, size - 1) characters and a terminator; nothing behind it is written; size 0 or no buffer is an error |
| Strtol.ReadPrefix | riscv64-ucore-labcodes/lab6/libs/string.c:208-230 | blanks, sign and base prefix as the specification function reads them |
| Strtol.ReadDigits | riscv64-ucore-labcodes/lab6/libs/string.c:232-253 | the longest run of digits valid in the base, its value computed without overflow; Notation fixes what digits denote |
| Strtol.Strtol | riscv64-ucore-labcodes/lab6/libs/string.c:203-259 | signed positional value and end position of the longest valid run, when the digits fit in a long; see PositionalIsRead |
| Strtol.RunEnd | riscv64-ucore-labcodes/lab6/libs/string.c:236-250 | the run is all digits of the base and cannot be longer |
| Strtol.SkipBlanks | riscv64-ucore-labcodes/lab6/libs/string.c:208-211 | exactly the leading spaces and tabs are skipped |
| Strtol.ReadsGrammar | riscv64-ucore-labcodes/lab6/libs/string.c:188-259 | any text that divides into blanks, sign, base prefix, digits and a rest that is no digit is read as that grammar says, to the end of the digits |
| Strtol.EveryTextDivides | riscv64-ucore-labcodes/lab6/libs/string.c:188-259 | every text divides so, whatever the base |
| Strtol.MeetsDescription | riscv64-ucore-labcodes/lab6/libs/string.c:181-259 | value and end position are those of the description if and only if no white space but spaces and tabs comes first, and what stands behind the sign is neither "0x" without a hexadecimal digit (bases 0 and 16) nor "0X" with one (base 16) |
| Strtol.UpperCasePrefixNotRead | riscv64-ucore-labcodes/lab6/libs/string.c:199-224 | of the prefix "0X" that the description promises only the zero is read, after any blanks and sign and in front of any rest |
| Strtol.BarePrefixIsConsumed | riscv64-ucore-labcodes/lab6/libs/string.c:221-224 | "0x" without a digit behind it is consumed whole, after any blanks and sign and in front of any such rest |
| Notation.PositionalIsRead | riscv64-ucore-labcodes/lab6/libs/string.c:195-258 | every number in every base from 2 to 36, over 0-9a-z or 0-9A-Z, with or without a minus sign, is read as itself to its end |
| Notation.ReadPositional | riscv64-ucore-labcodes/lab6/libs/string.c:203-259 | strtol returns such a number up to the greatest long |
| Notation.CaseIsIgnored | riscv64-ucore-labcodes/lab6/libs/string.c:236-244 | texts that differ only in the case of digits behind the prefix give the same number and end |
| Notation.NumeralIsPositional | riscv64-ucore-labcodes/lab6/libs/printfmt.c:53-54 | what the number printer writes is the lower-case notation |
| Escapes.EscapeGrammar | riscv64-ucore-labcodes/lab6/libs/printfmt.c:140-190 | flags, width, dot and precision, and letters l, written in this order, are understood: the last pad character, the number as width, the number behind the dot as precision, the alternate flag, the count of l |
| Escapes.StarTakesAnInt | riscv64-ucore-labcodes/lab6/libs/printfmt.c:169-178 | a star takes the next argument, as a signed int, for the width or else the precision |
| Escapes.UnsignedEscape | riscv64-ucore-labcodes/lab6/libs/printfmt.c:244-274 | u, o, x and p print their argument, modulo 2^32 without an l, in base 10, 8, 16 and 16, padded to the width, and go on with the next argument |
| Escapes.SignedEscape | riscv64-ucore-labcodes/lab6/libs/printfmt.c:234-242 | d prints the signed value of its argument, 32 bits without an l and 64 with one, the sign in front of the field |
| Escapes.WrittenUnsigned | riscv64-ucore-labcodes/lab6/libs/printfmt.c:125-275 | the text of a format written as one unsigned escape, from its characters alone |
| Escapes.WrittenSigned | riscv64-ucore-labcodes/lab6/libs/printfmt.c:125-242 | the same for a signed escape |
| Escapes.UnsignedFieldRoundTrip | riscv64-ucore-labcodes/lab6/libs/printfmt.c:244-274 | strtol in the base of the conversion reads the argument back from such a format if and only if the padding keeps it |
| Escapes.SignedFieldRoundTrip | riscv64-ucore-labcodes/lab6/libs/printfmt.c:234-242 | likewise for the signed value of the argument |
| Escapes.CharacterEscape | riscv64-ucore-labcodes/lab6/libs/printfmt.c:192-195 | c prints the low byte of its argument |
| Escapes.StringEscape | riscv64-ucore-labcodes/lab6/libs/printfmt.c:212-232 | s prints the first characters the precision allows, or (null), question marks for unprintable ones under the alternate flag, at one end of its field |
| Escapes.ErrorEscape | riscv64-ucore-labcodes/lab6/libs/printfmt.c:197-209 | e prints the name of the code, whatever its sign, or its number |
| Escapes.ErrorTextsDiffer | riscv64-ucore-labcodes/lab6/libs/printfmt.c:10-28 | two codes print the same if and only if they are equal but for the sign |
| Escapes.PercentEscape | riscv64-ucore-labcodes/lab6/libs/printfmt.c:272-275 | a doubled percent sign prints one and takes no argument |
| Escapes.OtherEscape | riscv64-ucore-labcodes/lab6/libs/printfmt.c:277-282 | any other conversion character makes the percent sign plain text |
| RoundTrip.UnsignedRoundTrip | riscv64-ucore-labcodes/lab6/libs/printfmt.c:39-54 | strtol returns the number printed, in any base from 2 to 16, if and only if it was not padded with minus signs (one in front of 0 apart) |
| RoundTrip.SignedRoundTrip | riscv64-ucore-labcodes/lab6/libs/printfmt.c:234-242 | a signed decimal reads back if and only if nothing but zeros, or blanks in front of an unsigned one, pads it; otherwise its negation or 0 is read |
| RoundTrip.PointerRoundTrip | riscv64-ucore-labcodes/lab6/libs/printfmt.c:256-262 | a pointer reads back with base 0 or 16 if and only if it is unpadded or padded with zeros |
| RoundTrip.PrintAndReadField | riscv64-ucore-labcodes/lab6/libs/printfmt.c:125-348 | any signed field, with any flags, width and precision scanned from the format, is read back from the buffer if and only if its flags keep the number |
| RoundTrip.PrintAndRead | riscv64-ucore-labcodes/lab6/libs/printfmt.c:313-348 | any long but the least, printed with "%ld" into a large enough buffer, is read back as itself |
| CStrings.PrecedesIsTotalOrder | riscv64-ucore-labcodes/lab6/libs/string.c:97-101 | the order that comparison decides is a strict total order |
| CStrings.Strcmp | riscv64-ucore-labcodes/lab6/libs/string.c:103-113 | the sign of the result is the lexicographic order, zero exactly on equal strings |
| CStrings.Strncmp | riscv64-ucore-labcodes/lab6/libs/string.c:126-132 | comparing n characters is comparing the two n-character truncations |
| CStrings.Memcmp | riscv64-ucore-labcodes/lab6/libs/string.c:355-366 | zero exactly on equal blocks, otherwise the first difference decides |
| CStrings.MemcmpAgreesWithStrcmp | riscv64-ucore-labcodes/lab6/libs/string.c:355-366 | over a length covering both terminators memcmp equals strcmp if and only if the strings differ or the bytes behind them agree |
| CStrings.Strnlen | riscv64-ucore-labcodes/lab6/libs/string.c:33-40 | the length of the string, or the bound if that is less |
| Memory.Memmove | riscv64-ucore-labcodes/lab6/libs/string.c:292-311 | for every overlap the destination ends as a snapshot of the source and all else is unchanged |
| Memory.Memcpy | riscv64-ucore-labcodes/lab6/libs/string.c:327-339 | forward copying repeats the part in front of a destination inside the source |
| Memory.RepeatedIsSnapshot | riscv64-ucore-labcodes/lab6/libs/string.c:322-325 | forward copying is a snapshot if and only if the blocks do not overlap that way or the source repeats with their distance |
| List.RingIsUnique | riscv64-ucore-labcodes/lab6/libs/list.h:17-19 | pointers and a first entry determine the ring |
| List.RingRotates | riscv64-ucore-labcodes/lab6/libs/list.h:17-19 | a ring may be read from any of its entries |
| List.Init | riscv64-ucore-labcodes/lab6/libs/list.h:40-43 | an entry becomes a ring of its own |
| List.AddBetween | riscv64-ucore-labcodes/lab6/libs/list.h:141-146 | an entry put between two consecutive ones is there in the ring |
| List.Unlink | riscv64-ucore-labcodes/lab6/libs/list.h:154-158 | the entry between two neighbours leaves the ring |
| List.Add | riscv64-ucore-labcodes/lab6/libs/list.h:53-56 | insertion behind an entry |
| List.AddAfter | riscv64-ucore-labcodes/lab6/libs/list.h:79-82 | insertion behind an entry at any position |
| List.AddBefore | riscv64-ucore-labcodes/lab6/libs/list.h:66-69 | insertion in front of an entry, at the back when that is the head |
| List.Del | riscv64-ucore-labcodes/lab6/libs/list.h:91-94 | removal at any position, rings of one and two entries included, with the stale links kept |
| List.DelInit | riscv64-ucore-labcodes/lab6/libs/list.h:102-106 | removal leaves the rest and a ring of one |
| List.Empty | riscv64-ucore-labcodes/lab6/libs/list.h:112-115 | true exactly on a ring of one |
| List.Next | riscv64-ucore-labcodes/lab6/libs/list.h:121-124 | the entry behind |
| List.Prev | riscv64-ucore-labcodes/lab6/libs/list.h:130-133 | the entry in front |
| List.DelAndPutBack | riscv64-ucore-labcodes/lab6/libs/list.h:84-94 | an entry deleted, from a ring of any size, and put back between the neighbours its stale links name restores every link |
| List.StepKeepsDisjoint | riscv64-ucore-labcodes/lab6/libs/list.h:40-106 | every operation keeps the rings disjoint and loses no entry: only list_del frees the one it takes out of a longer ring |
| List.Perform | riscv64-ucore-labcodes/lab6/libs/list.h:40-106 | every run of operations over any number of rings, initialisation and one-entry rings included, leaves the rings that the abstract run leads to, and entries outside keep their links |
| BitArray.BitUpdates | riscv64-ucore-labcodes/lab6/libs/atomic.h:60-80 | or, and-not and exclusive or with the mask of one bit act on that bit of a 64-bit word and on no other |
| BitArray.OneBitChanged | riscv64-ucore-labcodes/lab6/libs/atomic.h:30-46 | a word changed in one bit changes membership of one number |
| BitArray.SetBit | riscv64-ucore-labcodes/lab6/libs/atomic.h:60-62 | adds one number to the set |
| BitArray.ClearBit | riscv64-ucore-labcodes/lab6/libs/atomic.h:69-71 | removes one number from the set |
| BitArray.ChangeBit | riscv64-ucore-labcodes/lab6/libs/atomic.h:78-80 | toggles one number |
| BitArray.TestAndSetBit | riscv64-ucore-labcodes/lab6/libs/atomic.h:96-98 | adds the number and answers whether it was there |
| BitArray.TestAndClearBit | riscv64-ucore-labcodes/lab6/libs/atomic.h:105-107 | removes the number and answers whether it was there |
| BitArray.TestBit | riscv64-ucore-labcodes/lab6/libs/atomic.h:87-89 | answers membership for the bits of the first word, the only one it reads |
| BitArray.Perform | riscv64-ucore-labcodes/lab6/libs/atomic.h:52-107 | a run over an array of any length refines a set of numbers, every answer included |
| Readline.PlainKeys | riscv64-ucore-labcodes/lab2/libs/readline.c:35-38 | printable keys are the line, as many as there is room for |
| Readline.BackspaceUndoes | riscv64-ucore-labcodes/lab2/libs/readline.c:35-42 | a printable key and a backspace after it leave no trace, whatever comes before and after |
| Readline.VanishingKeys | riscv64-ucore-labcodes/lab2/libs/readline.c:35-48 | a printable key at a full line, a backspace at the empty line and any other control key change neither line nor echo |
| Readline.EditedFits | riscv64-ucore-labcodes/lab2/libs/readline.c:35-42 | a line holds at most 1023 characters, all printable |
| Readline.EchoReplays | riscv64-ucore-labcodes/lab2/libs/readline.c:29-48 | typing the echoed characters, with as much room or more, gives the same line and the same echo |
| Readline.Editor.Readline | riscv64-ucore-labcodes/lab2/libs/readline.c:24-49 | the line returned is the fold over the keys before the first line end; an error key returns none; the echo is that of the accepted keys |

## Left out

- The copies of these libraries in the other labs: they are not modelled separately.
- Kernel, firmware calls, boot tools and user programs: not part of this model.
- strlen, strcpy, strncpy, strchr, strfind, memset: they would add only easy members.
- Overflow of signed integers, which C leaves undefined: field widths, counts and the negation of the least int or long are unbounded integers here.
- Strtol.Strtol: requires that the digits denote at most the greatest long, because beyond that the accumulation overflows, which C leaves undefined.
- Printf.PrintNum: requires a base from 2 to 16; with base 1 the recursion would not end.
- Hash.Equidistribution: requires 1 to 32 bits, because a shift by 32 is undefined in C.
- BitArray.TestBit: requires a bit number below 64, because a longer shift is undefined in C.
- Printf.VPrintFmt: the function that puts a character is fixed to the one for bounded buffers, because the others only differ in where the characters go; a character code is reduced to a byte when it is put.
- Printf.PrintError: prints what the nested formats denote instead of calling the engine again; NestedErrorFormats proves that they denote it.
- Reading an argument that is absent or of another kind, undefined in C, yields 0 or NULL.
- Memory ordering of the atomic instructions: each is one step. The array is never shared.
- The prompt of the line editor, and waiting for keys that never come: the input is given up to its first line end or error.
- SkewHeap.Merge: the comparator may not read the links of nodes, because those change while merge runs.
