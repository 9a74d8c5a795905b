# Verified models of GCC 3.2.3 (System/370 port)

This project models a dozen small algorithms of the compiler in Dafny and proves that each fast or
destructive form does what its simple meaning says. `dafny verify dfyconfig.toml` checks everything.

## What is modelled

**Sparse bitmaps** (`gcc/bitmap.c`, `gcc/bitmap.h`). The element lists are heap objects with `next` and
`prev`; `Pool` holds the globals, that is the word width (HOST_BITS_PER_WIDE_INT, any positive width
except in the two binary searches, which exist for 32 and 64) and the free list. `Chunks` says which set a
list stands for and that a set has one canonical list, `Merge` what the three-way merge computes on lists,
`BitmapOperation` that the destructive loop computes it when TO is FROM1, FROM2 or both, and that no
element is lost or shared. A word is a natural number below 2^w and the bitwise operators are written out
bit by bit; `unsigned int` element numbers are naturals below the sentinel `~0` that the merge compares
with. The body of an iteration macro is modelled by recording the bit number it is given.

**Memory disambiguation** (`gcc/alias.c`, with `plus_constant` and `find_constant_term_loc`). Addresses are
REG, CONST_INT, SYMBOL_REF, LABEL_REF, CONST, PLUS and MULT; they evaluate to a place in an object, and
numbers are places in an object of their own. `reg_known_value` is a table whose values mention only
registers found before. All recursive calls of `memrefs_conflict_p` are tail calls, so one level of it is a
step from one question to the next. The answer 0 is proved to mean "cannot overlap" for every valuation of
the registers as long as every division by a MULT scale is harmless; `ScaleConditionExact` proves that this
is the exact condition, and `MisalignedScale` is an input on which the code is wrong. For one address with
two displacements, for symbols, and for registers known relative to one base, the answer is exact.

**Alias sets** (`gcc/alias.c`, with the type part of the C hook in `gcc/c-common.c`). `AliasGraph` treats any
sequence of `record_alias_subset` calls as a graph and proves when the descendant sets stay the transitive
closure. `AliasSets` proves that `get_alias_set`, called on types in any order, leaves a table in which the
two lookups of `alias_sets_conflict_p` decide what the structure of the types says: whether from one of them
component steps lead to a type like the other, or to one that may alias anything.

**Component references** (`gcc/alias.c`). The nested loops return true exactly when the two references are
disjoint in every layout that keeps the fields of a record apart and assumes nothing about those of a union.

**Comparison narrowing** (`gcc/c-common.c`). Integer types have any precision; values convert modulo
2^precision. `shorten_compare` is proved to keep the truth value of every comparison unless an operand is a
sign extension into an unsigned type that is itself narrower than the nominal type; that exception is
real, and `FaithfulExact` proves it exact for converted variables: `(unsigned) c == 4294967295ULL` with a
`signed char c` of -1 is decided to be false.

**Truth values and case labels** (`gcc/c-common.c`). `truthvalue_conversion` keeps the truth value and the
side effects. The neighbour-only check of `c_add_case_label` accepts a switch exactly when no two labels
clash. For ranges that are not empty, clashing is overlapping (`AcceptedExact`); a range written backwards
takes no value, yet keeps other labels from its low value, and can be reported (`EmptyReported`).

**Scopes** (`gcc/c-decl.c`). One slot per identifier and `shadowed` lists agree with a search of the levels
after every call. `ScopeRuns` proves this for whole runs: the slots agree all along exactly when every level
is left without a name that was declared twice in it and has no outer local definition, and `poplevel` then
puts every slot back to its value at the matching `pushlevel`. `StaleSlot` is a run in which it does not. The
BLOCK tree of a function holds every block made inside it once, in the order in which the levels were left,
linked to its superior. The decision of `duplicate_decls` about an earlier declaration of the same level is a
parameter. For an external declaration held against a global or limbo one, it always ends in 0
(gcc/c-decl.c:2083-2084), so such a declaration is installed like any other.

**Basic-block layout** (`gcc/bb-reorder.c`). The recursion with its restart places every block once and gives
each block the successor its edges favour as its neighbour whenever that is still possible.

**Builtins** (`gcc/builtins.c`). The argument block round trip holds for every register exactly when storing
the incoming structure value address does not run into a slot, which can happen only if the target passes
one in but keeps no place for it. `get_pointer_alignment` takes the
offsets outside the innermost cast into account, and for the address of an object all of them; the offsets
inside that cast only lower the limit. So its result divides the address exactly when the base is an object, or
what the base points to has an alignment that divides those inner offsets, or the limit that the outer offsets
leave does. The result never gives away more than the expression makes necessary.

**Declaration printer** (`gcc/c-aux-info.c`). Strings are token sequences; a multi-word type specifier is one
token, and blanks and comments are none. Reading the printed declaration with the declarator grammar of
sections 6.7.5 and 6.7.6 of ISO/IEC 9899:1999 gives back the name and the type, exactly when no array of
things that take no space has lost its size (such an array prints as `[0]`).

Where the code and its comments disagree the model follows the code: `bitmap_copy` of a bitmap onto itself
empties it, and the size test of the product case in `memrefs_conflict_p` is `== 0`, not `<= 0` (that leaf turns
out to be unreachable, by `CanonIdempotent`).

## Model

| member | source | states |
|---|---|---|
| Bitmaps.Pool.Allocate | gcc/bitmap.c:85-133 | takes the head of the free list or a new element, with no bits; the rest of the free list stays a free list without it |
| Bitmaps.Pool.Release | gcc/bitmap.c:79-80 | the element is on the free list, which holds exactly it and what it held |
| Bitmaps.Bitmap.Find | gcc/bitmap.c:295-326 | null exactly when no element has the number, wherever the cursor was; the cursor ends on the found element and the list is untouched |
| Bitmaps.Bitmap.Link | gcc/bitmap.c:169-221 | the element is inserted at the place its number belongs; the list stays doubly linked, sorted and without zero elements; the cursor is on it |
| Bitmaps.Bitmap.Free | gcc/bitmap.c:53-81 | exactly the element leaves the list for the free list; a cursor that was on it moves to the next one, or else the previous one or null, and any other stays |
| Bitmaps.Bitmap.SetBit | gcc/bitmap.c:353-372 | the set gains exactly the bit; elements are conserved between the list and the free list |
| Bitmaps.Bitmap.ClearBit | gcc/bitmap.c:331-349 | the set loses exactly the bit, an element left without bits is freed, and no element is lost |
| Bitmaps.Bitmap.TestBit | gcc/bitmap.c:377-395 | true exactly for members of the set |
| Chunks.CanonicalUnique | gcc/bitmap.h:40-58 | two well-formed lists stand for the same set exactly when they are the same list |
| Merge.MergedMembers | gcc/bitmap.c:559-642 | the merge of two lists stands for the intersection, difference, union or symmetric difference of their sets; for IOR_COMPL the complement reaches only the chunks that are present |
| Merge.TurnKeepsPlace | gcc/bitmap.c:559-643 | every turn of the loop keeps: built so far plus merge of the rest is the whole result, and the changed flag tells whether a difference from the old TO has been seen |
| Merge.WholeRun | gcc/bitmap.c:506-659 | the run builds the set operation, and the flag with what is left of TO tells whether the set differs from the old one |
| BitmapOperation.Discard | gcc/bitmap.c:590-599 | the skipped elements of TO go to the free list, and exactly the chunks below the index are skipped |
| BitmapOperation.Step | gcc/bitmap.c:559-643 | one turn on the heap does what one turn does on the lists, for every sharing of TO with the sources |
| BitmapOperation.Rest.Spliced | gcc/bitmap.c:646-654 | pointing the last left-over element at the free list makes one free list of both |
| BitmapOperation.Operation | gcc/bitmap.c:506-659 | TO becomes the set operation on what the sources were, even if TO is one of them or both; the answer is true exactly when TO's set changed; every element stays on a list, live or free |
| BitmapSets.Clear | gcc/bitmap.c:226-241 | the bitmap is empty and its elements are free |
| BitmapSets.Copy | gcc/bitmap.c:244-290 | TO becomes FROM's set; a bitmap copied onto itself becomes empty |
| BitmapSets.Equal | gcc/bitmap.c:663-677 | true exactly when the sets are equal |
| BitmapSets.UnionOfDiff | gcc/bitmap.c:696-713 | DST becomes A | (B & ~C), whichever of the four are the same bitmap; the answer tells whether it changed; every element stays on a list |
| BitmapSets.IorAndCompl | gcc/bitmap.c:681-692 | TO becomes TO | (A & ~B) |
| BitSearch.LowestBit | gcc/bitmap.c:421-443 | the binary search finds the lowest one bit of a nonzero word of 32 or 64 bits |
| BitSearch.HighestBit | gcc/bitmap.c:477-496 | the binary search finds the highest one bit |
| BitSearch.HighMaskValues | gcc/bitmap.c:477-496 | the masks of the source are the runs of bits the search is proved for |
| BitmapBits.FirstSetBit | gcc/bitmap.c:400-450 | the minimum of the set, or -1 exactly when it is empty |
| BitmapBits.LastSetBit | gcc/bitmap.c:453-501 | the maximum of the set, or -1 exactly when it is empty |
| BitmapVisits.ListVisitsExact | gcc/bitmap.h:180-213 | walking a list from a word and bit visits a bit exactly if it is set and not before the start |
| BitmapVisits.VisitsFrom | gcc/bitmap.h:164-213 | starting at MIN's word and bit, or at the start of the next element, visits exactly the members from MIN on, ascending |
| BitmapIteration.ExecuteIfSet | gcc/bitmap.h:164-215 | the body runs once, in ascending order, for exactly the members not below MIN |
| BitmapIteration.ExecuteIfAndCompl | gcc/bitmap.h:221-282 | likewise for the members of the first bitmap that are not in the second |
| BitmapIteration.ExecuteIfAnd | gcc/bitmap.h:288-355 | likewise for the members of both, although the loop stops early or skips |
| Rtl.PlusConstantValue | gcc/explow.c:75-178 | the result denotes the address plus the constant, wherever the constant was merged in |
| Rtl.CanonValue | gcc/alias.c:1033-1065 | canonicalising keeps the address, for every valuation that agrees with the known values, and whether it is one |
| Rtl.CanonIdempotent | gcc/alias.c:1033-1065 | canonicalising twice is canonicalising once |
| Rtl.CanonResolved | gcc/alias.c:1033-1065 | no register with a known value is left in a sum |
| Rtl.CanonWeight | gcc/alias.c:1033-1065 | the result is the argument itself or lighter, which makes the recursions below terminate |
| Rtl.EqualForMemrefValue | gcc/alias.c:1072-1196 | expressions found equal denote the same address |
| Rtl.EqualSymmetric | gcc/alias.c:1072-1196 | equality is symmetric |
| Rtl.EqualForms | gcc/alias.c:1086-1140 | sums and products match in either operand order, and a register matches its known value |
| MemrefsConflict.LevelSound | gcc/alias.c:1523-1722 | every branch keeps the promise: an answer 0 is right, and a recursive question asks no less |
| MemrefsConflict.DisjointIsApart | gcc/alias.c:1523-1722 | answer 0 means the byte ranges cannot overlap under any valuation, and is never given for a size that is not positive, if every scale division is harmless |
| MemrefsConflict.SameBaseExact | gcc/alias.c:1546-1608 | for two references off one register the answer is 0 exactly when they do not overlap |
| MemrefsConflict.DisplacedExact | gcc/alias.c:1535-1608 | so it is for any canonical address, with a displacement or without on either side |
| MemrefsConflict.KnownBasesExact | gcc/alias.c:1033-1065 | so it is for two registers known to be at distances from one base |
| MemrefsConflict.SymbolsExact | gcc/alias.c:1692-1718 | so it is for symbols with displacements; different symbols never conflict |
| MemrefsConflict.SharedTerm | gcc/alias.c:1573-1576 | a term that two sums share does not change the answer |
| MemrefsConflict.ScaleConditionExact | gcc/alias.c:1611-1634 | for references s*r and s*(r+k)+c the answers are right for all k exactly when a size becomes zero by the division or the scale divides both sizes and the displacement |
| MemrefsConflict.MisalignedScale | gcc/alias.c:1630-1633 | 4*(r+1) and 4*r+2, four bytes each, overlap and are called disjoint |
| AliasGraph.RecordKeepsClosed | gcc/alias.c:611-662 | a call keeps the descendant sets transitively closed exactly when every set above the superset already has the subset |
| AliasGraph.RunClosed | gcc/alias.c:611-662 | if every set gets its subsets before it becomes one, children and the zero flag are exactly what is reachable, throughout the run |
| AliasGraph.RunConflict | gcc/alias.c:248-280 | in such a run two sets conflict exactly if they are equal, one is 0, one reaches the other, or either reaches 0 |
| AliasGraph.OutOfOrder | gcc/alias.c:611-662 | a run in the other order in which a reachable set is missed |
| AliasSets.Sets.RecordSubset | gcc/alias.c:611-662 | the updates of the entry amount to the specified table |
| AliasSets.Sets.GetAliasSet | gcc/alias.c:520-560 | the number kept for the type, which `SameNumber` describes; no set that existed before gains or loses descendants |
| AliasSets.SameNumber | gcc/c-common.c:2345-2394 | two types have one set exactly if they are the same but for signedness, the qualifiers of what a pointer points to and being a vector, and set 0 exactly if they are characters, functions or vectors of such |
| AliasSets.Sets.RecordComponents | gcc/alias.c:670-702 | afterwards the type's set has below it exactly the sets of what is inside |
| AliasSets.FoldedParts | gcc/alias.c:664-702 | that is, exactly the sets of the types reached by steps to an element that may be aliased, an addressable field or a part of a complex type |
| AliasSets.ConflictIsMayAlias | gcc/alias.c:248-280 | the two lookups decide whether some part of one type is like the other type, or may alias anything |
| AliasSets.ComponentsConflict | gcc/alias.c:664-702 | a type conflicts with everything reached from it by component steps, at any depth |
| AliasSets.Sets.TypesConflict | gcc/alias.c:520-560 | asking about two types gives that answer whatever was asked before |
| ComponentRefs.NonoverlappingComponentRefs | gcc/alias.c:1804-1857 | true only if the references do not overlap in any layout, and for containment without cycles exactly then |
| ComponentRefs.AlwaysApartExact | gcc/alias.c:1801-1803 | references are apart in every layout exactly if their chains select different fields of one record somewhere |
| ComponentRefs.UnionMembers | gcc/alias.c:1843-1847 | two members of one union object overlap in some layout, so the answer for them is false |
| ComponentRefs.FindCommon | gcc/alias.c:1816-1841 | the loops find the first level of x that has a level of y in the same type |
| ComponentRefs.Layout.PartIsApart | gcc/alias.c:1801-1803 | chains that part do not overlap in any layout in which different fields of a record are disjoint, whatever those of unions do, and objects of one type are the same or disjoint |
| ShortenCompare.GetNarrower | gcc/tree.c:4218-4264 | the loop strips what the recursive definition says |
| ShortenCompare.NarrowerValue | gcc/tree.c:4209-4217 | extending the stripped operand as told, and converting to the type of the original, gives the original value |
| ShortenCompare.NarrowerStops | gcc/tree.c:4218-4264 | no conversion is left that could be stripped: it makes the value narrower or extends it the other way |
| ShortenCompare.FixedValueExact | gcc/c-common.c:1777-1832 | a fixed value is found exactly if every value between the bounds compares that way; otherwise the constant is between them |
| ShortenCompare.AgainstConstantPreserves | gcc/c-common.c:1729-1898 | a comparison with a wider constant keeps its truth value, including a sign-extended operand under an unsigned comparison |
| ShortenCompare.BothNarrowPreserves | gcc/c-common.c:1904-1926 | comparing both operands in the type of the wider one keeps the truth value |
| ShortenCompare.ShortenedPreserves | gcc/c-common.c:1655-1984 | the result has the truth value of the comparison in the nominal type, for all widths, signednesses, operators and operand values, except for twice-extended operands |
| ShortenCompare.DecidedExact | gcc/c-common.c:1729-1898 | a narrower variable against a constant is decided exactly when the comparison does not depend on it; a sign-extended one under an unsigned order is compared in its own width |
| ShortenCompare.ComparedNarrow | gcc/c-common.c:1904-1926 | two narrower variables that extend alike are compared in the wider of their types, others in the nominal type |
| ShortenCompare.UnsignedZero | gcc/c-common.c:1935-1974 | an unsigned value is decided to be at least 0 |
| ShortenCompare.FaithfulExact | gcc/c-common.c:1669-1681 | for a converted variable all comparisons with constants are right exactly unless it is sign-extended to an unsigned type narrower than the nominal one |
| ShortenCompare.Shorten | gcc/c-common.c:1655-1984 | the reassignments of the operands, type and code amount to the specified result |
| Truthvalue.TruthvalueExact | gcc/c-common.c:2098-2253 | the result is 1 where the original is nonzero and 0 where it is zero, for every expression and environment |
| Truthvalue.TruthvalueEffects | gcc/c-common.c:2098-2253 | evaluating the result has the same side effects, whichever way the tests go |
| Truthvalue.TruthvalueType | gcc/c-common.c:2094-2097 | the result has the type of truth values |
| Truthvalue.RotatedTruth | gcc/c-common.c:2176-2184 | a rotation keeps zero and nonzero apart |
| CaseLabels.Switch.AddCaseLabel | gcc/c-common.c:3396-3541 | the label is recorded at its place even when it is reported, and reported as specified |
| CaseLabels.DuplicateExact | gcc/c-common.c:3467-3508 | among labels that do not clash a new one is reported exactly when it clashes with one of them, and together with such a one |
| CaseLabels.ReportExact | gcc/c-common.c:3467-3508 | among nonempty labels that take no value in common a nonempty one is reported exactly when it takes a value of one of them |
| CaseLabels.ReportedWhich | gcc/c-common.c:3467-3508 | the label named is the one with the same key, or else one before that clashes, or else the next one after |
| CaseLabels.InsertedDisjoint | gcc/c-common.c:3534-3541 | a label that is not reported leaves the labels disjoint |
| CaseLabels.SilentExact | gcc/c-common.c:3396-3541 | a run is accepted exactly when no two of its labels clash, two defaults included |
| CaseLabels.AcceptedExact | gcc/c-common.c:3396-3541 | no two labels of an accepted run take the same value, and a run without empty ranges in which no two do is accepted |
| CaseLabels.EmptyReported | gcc/c-common.c:3456-3467 | 5, then the empty range 5 ... 3, which is reported |
| CaseLabels.MissedAfterError | gcc/c-common.c:3534-3541 | after an error, which records the label all the same, a clash can be missed |
| Scopes.State.PushLevel | gcc/c-decl.c:917-958 | a new empty level, with every name meaning what it meant |
| Scopes.State.PushDecl | gcc/c-decl.c:2171-2583 | returns the earlier declaration of the level if it is merged, and otherwise the new one, which is then first in its level; the name means what is returned, and the slots agree with a search |
| Scopes.State.LookupName | gcc/c-decl.c:3005-3018 | exactly what searching the levels from the current one out to the global one finds |
| Scopes.State.LookupNameCurrentLevel | gcc/c-decl.c:3021-3038 | exactly what the current level says |
| Scopes.State.PopLevel | gcc/c-decl.c:989-1186 | names and slots change as specified and agree unless a name was redeclared; a block is made exactly if the caller, the level or a function body asks for one, or the level does and has subblocks; it holds the level's declarations, none for a function, and joins the level outside or is the function's tree |
| Scopes.State.Run | gcc/c-decl.c:917-1186 | any run of calls on the state does what the specification of the run says, and keeps everything in agreement |
| Scopes.State.RunScope | gcc/c-decl.c:976-978 | after `pushlevel`, any calls inside the level and the matching `poplevel`, every slot has the value it had before |
| ScopeRuns.RunExact | gcc/c-decl.c:152-166 | in every run the slots agree with a search of the levels after each call exactly when each level is left with no name declared twice in it that has no outer local definition |
| ScopeRuns.ScopeExact | gcc/c-decl.c:976-978 | a scope, whatever happens inside, leaves slots and levels as they were exactly when that holds of its own level at the end |
| ScopeNames.PopRestores | gcc/c-decl.c:1094-1117 | the slots agree with the remaining levels exactly when no name was declared twice in the level without an outer local definition |
| ScopeRuns.StaleSlot | gcc/c-decl.c:1094-1117 | a run from the empty state after which a slot holds a declaration of no remaining level |
| ScopeNames.DeclarationKeeps | gcc/c-decl.c:2463-2556 | a declaration, also a second one in its level, keeps slots, levels and shadowed lists in agreement |
| ScopeBlocks.PopHandsOn | gcc/c-decl.c:1072-1092 | the blocks below a level stay all different and in order, and get the new block as their superior or none |
| ScopeBlocks.AppendKeeps | gcc/c-decl.c:1170-1186 | blocks made or carried forward come after those already there |
| Scopes.State.PopBlocks | gcc/c-decl.c:1072-1186 | that for the blocks alone; every block made inside goes to the function's tree, each once and linked to its superior, or on to the level outside, with no superior if no block was made |
| Reorder.Chain.Select | gcc/bb-reorder.c:176-229 | the last jump if it is predicted to be taken more than half of the time, otherwise the last fallthru; without a prediction the first fallthru, or else the following block if a normal edge leads there |
| Reorder.Chain.MakeReorderChain1 | gcc/bb-reorder.c:143-258 | terminates, extends the chain by new blocks only, starting with the given one, places what normal edges of these lead to except blocks without successors, and leaves the last one wanting no unplaced successor |
| Reorder.Chain.MakeReorderChain | gcc/bb-reorder.c:101-130 | the chain starts at block 0, holds every block once and ends; the successor a block's edges favour follows it unless it was placed before |
| ApplyArgs.RoundUp | gcc/builtins.c:954-956 | the least multiple of the alignment that is not below the size |
| ApplyArgs.SlotsDisjoint | gcc/builtins.c:954-959 | slots are aligned, above the header, within the block and disjoint |
| ApplyArgs.Layout.ApplyArgsSize | gcc/builtins.c:893-963 | the size and offsets, computed once, are those the walks compute |
| ApplyArgs.SaveArgs | gcc/builtins.c:1073-1122 | the stores fill the block as specified |
| ApplyArgs.RestoreRegisters | gcc/builtins.c:1232-1249 | every register is given what its slot holds |
| ApplyArgs.RoundTripExact | gcc/builtins.c:1091-1122 | every register reads back as saved, whatever the structure value address, exactly when no slot is overwritten by it; the header reads back |
| ApplyArgs.LostArgument | gcc/builtins.c:1112-1122 | a target with one register on which the address is read back as the argument |
| PointerAlignment.AlignmentExact | gcc/builtins.c:165-225 | the result is a power of two up to the limit, and divides the bit address exactly when the base is an object, or what the base points to has an alignment that divides the constant offsets inside the innermost cast, or the limit the outer offsets leave divides them |
| PointerAlignment.LimitIsLargest | gcc/builtins.c:199-202 | that limit is the largest power of two, up to the one given, that divides all offsets outside the innermost cast |
| PointerAlignment.AlignmentBest | gcc/builtins.c:165-225 | the result is the largest power of two up to the limit that the base and the offsets allow: the alignment of a declared object, whatever is pointed to on the way, and all offsets; or the alignment of what the base points to, and the offsets outside the innermost cast |
| PointerAlignment.DeclaredObject | gcc/builtins.c:208-219 | a character object declared with 64 bits of alignment has them |
| PointerAlignment.MisalignedOffset | gcc/builtins.c:193-206 | two bytes past an `int *` are taken to be aligned for an int, and the condition fails |
| PointerAlignment.GetPointerAlignment | gcc/builtins.c:165-225 | both loops terminate with the specified result |
| AuxInfo.Printer.GenType | gcc/c-aux-info.c:305-467 | seed and type give the specified text, and the global holds the type's own specifier although parameters overwrote it |
| AuxInfo.Printer.GenFormalListForType | gcc/c-aux-info.c:110-186 | the loop prints the parameter list as specified, with `void` and ellipsis in their places |
| AuxInfo.Printer.AffixDataType | gcc/c-aux-info.c:63-101 | the specifier goes after the leading qualifiers |
| AuxInfo.Printer.GenDecl | gcc/c-aux-info.c:479-542 | a named declaration is printed as the text that reads back, whatever the global held |
| DeclaratorRoundTrip.DeclaratorReads | gcc/c-aux-info.c:305-467 | wrapping a seed that reads as some declarator gives text that reads as that declarator extended by the type |
| DeclaratorRoundTrip.TypeReads | gcc/c-aux-info.c:305-467 | a whole declaration reads as its name and type, whatever delimiter follows |
| DeclaratorRoundTrip.RoundTrip | gcc/c-aux-info.c:305-467 | reading the text gives the name and type back exactly when no array loses its size |
| DeclaratorRoundTrip.LostSize | gcc/c-aux-info.c:344-346 | an array of three empty structures reads back as one of none |

## Left out

- The iteration macros: a body that changes the bitmap being walked, and the wrap-around of bit numbers beyond `unsigned int`.
- Bitmap obstack memory, debugging output, and the generic loop for another number of words per element.
- RTL forms ADDRESSOF, VALUE, HIGH, LO_SUM, AND, auto-increment and MEM inside an address, `alias_invariant`, and machine modes: addresses are unbounded integers, so `trunc_int_for_mode` is the identity.
- MemrefsConflict.DisjointIsApart: requires that every division by a scale on the way is harmless, because the code is wrong otherwise (`ScaleConditionExact`, `MisalignedScale`); a division by the scale zero is an answer of its own.
- The expression part of `get_alias_set`, including restrict pointers, and `init_alias_analysis`; strict aliasing is on, and types are complete when they are asked about.
- ComponentRefs.NonoverlappingComponentRefs: the converse direction assumes that no type contains itself, which holds for C types by value.
- ShortenCompare.ShortenedPreserves: excludes operands that are sign-extended to an unsigned type narrower than the nominal one, because the code is wrong there (`FaithfulExact`); conversions of constants are taken to be folded, as `convert` does.
- `shorten_compare` on real operands and on fields narrower than their type, its warnings, and the side effects of an operand it drops.
- `truthvalue_conversion` on real and complex expressions; `fold` is taken as the identity.
- The checks and conversions of case values before the table is looked at; the splay tree is an ordered map.
- Implicit, limbo and forward declarations, tags, labels, traditional mode, and preallocated blocks in `gcc/c-decl.c`.
- Scopes.State.PopLevel: promises agreement of the slots only if no name was redeclared without an outer definition, because the code does not restore them otherwise (`PopRestores`, `ScopeRuns.StaleSlot`).
- CaseLabels.SilentExact: counts an empty range as keeping other labels from its low value, because the code does; what labels take is in `AcceptedExact`.
- AuxInfo.Printer.GenType: leaves out the qualifiers of array and function types of their own, which the code prints before the type they return or hold; a `volatile` function would read back as one returning a `volatile` type.
- The emission of the reordered blocks, and the search for the mode in which a register is saved: any assignment of modes to registers is covered.
- PointerAlignment.AlignmentExact: takes the alignment limit to be a power of two of at least a byte, without which the halving loop of the original need not end.
- Typedef-named and anonymous aggregates, `restrict`, K&R styles, variable-length arrays and the `unsigned` prefix in `gcc/c-aux-info.c`, and `gen_decl` beyond name and type.
- The return-register walks `apply_result_size` and `result_vector`, which repeat the argument walks.
