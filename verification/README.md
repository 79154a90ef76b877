# Verification of the base library, the enum utilities and the row scan

This project models, in Dafny, the parts of the repository whose correctness depends on state,
arithmetic or interleaving, and proves what they promise for all inputs, all runs or all reachable
states. `dafny verify dfyconfig.toml` checks everything.

- **Enum utilities** (`3rd_Party/magic_enum`). What the compiler knows of an enum (its declared values,
  names, order, hashes) is an ordinary input, so that every statement ranges over all enums. Modelled are
  the generation of case labels (`CaseLabels`), the paged hash dispatch against searching from the front
  (`PagedSwitch`), the table-driven CRC-32 against polynomial division (`Hashing`), the table of values
  and the arithmetic lookups that replace it (`EnumTable`), tuple packing (`Fuse`), the index sort
  (`Indexing`), the packed bitset (`PackedBits`, `Bitsets`), the ordered set (`EnumSets`) and printing,
  parsing and casting of flags (`Flags`).
- **`StringsBulk`**: the byte image both builders write and the accessors read (`StringsImage`), the
  comparison operators (`StringsOrder`) and the ownership of blocks (`StringsOwnership`).
- **Observables**: lists, tickets and single calls as classes (`Observers`), and the protocol of many
  threads as a state machine over lock-level steps (`ObserverProtocol`), with the invariant of a step
  (`ObserverInvariant`) and the theorems about runs (`ObserverRuns`). On top of it, calls wait for the
  calls they have made and callbacks own tickets that are destroyed where the last reference to the
  callback is dropped (`ObserverReentry`, `ObserverNesting`); this decides when the locks block for good
  (`ObserverDeadlock`, `ObserverDrops`, `ObserverProgress`, `ObserverExample`).
- **`CFStackAllocator`** (`StackAllocator`) and the accessibility walk **`scanRows`** (`RowScan`).

`BitMath`, `Arith`, `Sequences` and `Wrappers` are shared groundwork. Words of any width are natural
numbers with recursively defined bit operations, except in `Hashing`, where they are bit-vectors.

Code that changes state is a class or a method with loops, proved against a function of its inputs or of
the old state; the laws are lemmas about those functions. A dispatch that does not compile is a result of
its own.

## Where the code does not meet its evident intent

The model follows the code. In each case the exact condition or a concrete failing input is proved.

- Ending an observation whose callback is the last owner of another engaged ticket of the same observable
  destroys that ticket with the indirect lock held; its destructor waits for this lock forever, although
  the class is meant to be reentrant (`ObserverExample.BlockingRun`,
  `ObserverDeadlock.DeadlockIffLastOwner`).
- Dead labels of `calculate_cases` can collide with live ones, so that the dispatch does not compile for
  some tables with distinct hashes (`CaseLabels.CalculateCases`, `Hashing.CollidingNamesRejected`).
- The recursive call of `constexpr_switch` does not pass the predicate on: beyond 256 values keys are
  compared with equality (`PagedSwitch.AgreesIffExactBeyondFirstPage`). The defect is latent: all present
  callers pass a predicate that is equality, for which the dispatch is right
  (`PagedSwitch.SwitchIsSearch`, `Hashing.NameCastIsSearch`).
- The assertion in `enum_fuse` admits enums for which fusing collides (`Fuse.AssertionAdmitsCollision`).
- The range test in `enum_flags_cast` is exact only with the lowest flag at bit 0 or a single flag
  (`Flags.RangeTestExactIff`).
- `bitset::all` has no right answer for a full set without spare bits (`Bitsets.Bitset.AllSet`).
- A `StringsBulk` reads back only if its last offset fits in 32 bits, which `Build` does not check
  (`StringsImage.ReadsBackIffOffsetsFit`).
- Moving an observation ticket onto itself ends its observation (`Observers.ObservationTicket.Assign`).
- An empty block that `CFStackAllocator` serves from a used-up buffer is later passed to `free`
  (`StackAllocator.EmptyBlockMisrouted`).
- `scanRows` identifies elements by hash, so that elements with equal hashes hide each other
  (`RowScan.UntruncatedIsReachable`).

## Model

| member | source | states |
|---|---|---|
| CaseLabels.HasDuplicate | 3rd_Party/magic_enum/include/magic_enum.hpp:1089-1110 | despite its name the loop answers true exactly when no hash occurs twice |
| CaseLabels.CalculateCases | 3rd_Party/magic_enum/include/magic_enum.hpp:1033-1067 | for every page of hashes, sorted or not, in any type with zero and at least 256 values, evaluation never increments past the limit and never reads past the labels that are there; it yields 256 labels of the type that start with the hashes, and they are distinct if and only if the page fits (`PageFits`: the labels counted up are distinct, and if they do not fill the page, those the filling runs into come first and in order) |
| CaseLabels.CountUpLabels | 3rd_Party/magic_enum/include/magic_enum.hpp:1044-1054 | the labels after the live ones are the next consecutive values, and counting only stops short of 256 at the limit of the type |
| CaseLabels.FillUnused | 3rd_Party/magic_enum/include/magic_enum.hpp:1056-1064 | after a page that ran into the limit, wrapping around and skipping gives distinct labels if and only if those counted up are distinct and leave room below in order |
| CaseLabels.CountedDistinctIff | 3rd_Party/magic_enum/include/magic_enum.hpp:1052-1054 | when counting up fills the page, labels are distinct if and only if the hashes are and none of them lies in the stretch counted up from the last one |
| CaseLabels.IncreasingFits | 3rd_Party/magic_enum/include/magic_enum.hpp:1033-1067 | strictly increasing hashes always fit |
| CaseLabels.HashAboveLastCollides | 3rd_Party/magic_enum/include/magic_enum.hpp:1052-1054 | a hash shortly above the last one of a page collides with a dead label |
| PagedSwitch.ConstexprSwitch | 3rd_Party/magic_enum/include/magic_enum.hpp:1134-1162 | the dispatch is rejected if and only if both hashes repeat or the labels of some page collide, whichever key is searched; otherwise the result is the one value that has the hash of the key and that the predicate in force accepts, or the default when there is none, be it after a live label, a dead label or no label, over any number of pages |
| PagedSwitch.LinearSearch | 3rd_Party/magic_enum/include/magic_enum.hpp:1280-1285 | the first match from the front, or the default only if nothing matches |
| PagedSwitch.SwitchIsSearch | 3rd_Party/magic_enum/include/magic_enum.hpp:1153-1161 | with equality as predicate the dispatch gives the index or default that searching from the front gives, for exactly those tables that compile and any number of pages |
| PagedSwitch.CompilesIff | 3rd_Party/magic_enum/include/magic_enum.hpp:1147-1151 | a table, over any number of pages, is accepted if and only if the primary hashes, or else the secondary ones, are distinct and the labels of each page are |
| PagedSwitch.AcceptedIff | 3rd_Party/magic_enum/include/magic_enum.hpp:1134-1162 | from the hashes alone, sorted or not: where each page leaves room to count up from its last hash, a table is accepted if and only if the chosen hashes are distinct and no hash of a page lies in the stretch above its last one |
| PagedSwitch.AcceptedIsSearch | 3rd_Party/magic_enum/include/magic_enum.hpp:1134-1162 | for every such table, with either hash and any number of pages, the dispatch gives the index or default that searching from the front gives |
| PagedSwitch.IncreasingCompiles | 3rd_Party/magic_enum/include/magic_enum.hpp:1134-1162 | tables with increasing hashes, such as the values of an enum, compile |
| PagedSwitch.AgreesIffExactBeyondFirstPage | 3rd_Party/magic_enum/include/magic_enum.hpp:1155-1158 | the recursive call drops its predicate: for a table that compiles, dispatch and search agree on all keys if and only if, beyond the first 256 values, the predicate accepts nothing but equal values |
| PagedSwitch.ForgottenPredicateExample | 3rd_Party/magic_enum/include/magic_enum.hpp:1156-1157 | a table of 257 values that compiles, and a predicate no present caller passes, for which the dispatch returns the default and the search does not |
| Hashing.CrcHash | 3rd_Party/magic_enum/include/magic_enum.hpp:1011-1017 | the table-driven loop computes the CRC-32 of every name: the remainder of dividing it by the polynomial bit by bit, also for negative characters |
| Hashing.TableIsDivision | 3rd_Party/magic_enum/include/magic_enum.hpp:977-1010 | each of the 256 table constants is the remainder of its index after eight division steps |
| Hashing.RoundIsDivision | 3rd_Party/magic_enum/include/magic_enum.hpp:1013-1015 | one look-up round (shift, look up by the low byte, combine) is the division of one character |
| Hashing.CollideIff | 3rd_Party/magic_enum/include/magic_enum.hpp:1011-1017 | names of equal length collide if and only if their character-wise difference divides to zero |
| Hashing.CloseNamesCollideIff | 3rd_Party/magic_enum/include/magic_enum.hpp:1011-1017 | names of equal length whose differences lie within four consecutive characters have equal hashes only if they are equal |
| Hashing.CloseNamesKeepPrimary | 3rd_Party/magic_enum/include/magic_enum.hpp:1142-1149 | for enums with such names the dispatch keeps the primary hash, whatever the secondary one is |
| Hashing.NameCastIsSearch | 3rd_Party/magic_enum/include/magic_enum.hpp:1402-1424 | with the predicate the cast from a name passes, the hashed cast is the search through the names for every enum whose names compile, on any number of pages |
| Hashing.NamesAccepted | 3rd_Party/magic_enum/include/magic_enum.hpp:1402-1424 | names whose hashes are distinct and clear of the stretch above the last one of their page are found by the hashed cast as by the search |
| Hashing.FallingNamesFound | 3rd_Party/magic_enum/include/magic_enum.hpp:1402-1424 | an enum of the names `a` and `b`, whose CRC-32s fall, compiles, and the cast of `a` finds it |
| Hashing.CollidingNamesRejected | 3rd_Party/magic_enum/include/magic_enum.hpp:1052-1054 | enumerators named `jwkg` and `b`, in this order, have different hashes and still do not compile |
| EnumTable.ValidCount | 3rd_Party/magic_enum/include/magic_enum.hpp:770-799 | the count is the number of declared candidates, and the flags mark exactly these |
| EnumTable.Values | 3rd_Party/magic_enum/include/magic_enum.hpp:801-824 | the table is strictly increasing and holds exactly the declared candidates of the range, for plain and for flag enums |
| EnumTable.DenseIsContiguous | 3rd_Party/magic_enum/include/magic_enum.hpp:895-908 | when max - min + 1 is the number of values there are no gaps: entry i is min + i, or the flag at bit min + i |
| EnumTable.SparseIff | 3rd_Party/magic_enum/include/magic_enum.hpp:895-908 | a table counts as sparse if and only if its values, or the bits of its flags, are not consecutive |
| EnumTable.EnumValueIsEntry | 3rd_Party/magic_enum/include/magic_enum.hpp:1220-1232 | the arithmetic form of `enum_value` is the table entry |
| EnumTable.EnumIndex | 3rd_Party/magic_enum/include/magic_enum.hpp:1267-1294 | the index found, by search or by subtraction, is that of the value, and nothing is found only for undeclared values |
| EnumTable.EnumCast | 3rd_Party/magic_enum/include/magic_enum.hpp:1373-1398 | the cast succeeds exactly on declared values, in the search form and in the range form |
| Fuse.Log2 | 3rd_Party/magic_enum/include/magic_enum.hpp:439-451 | the loop computes the floor of the binary logarithm |
| Fuse.IndexBitsLeast | 3rd_Party/magic_enum/include/magic_enum_fuse.hpp:45 | `log2(2c - 1)` bits is the least width that holds every index below c |
| Fuse.FuseFailsOnUnknown | 3rd_Party/magic_enum/include/magic_enum_fuse.hpp:41-59 | fusing fails exactly when some argument is not a declared enumerator, at any position |
| Fuse.FuseIsPackModWord | 3rd_Party/magic_enum/include/magic_enum_fuse.hpp:42-59 | shifting and or-ing in a 64-bit word gives the mixed-radix packing of the indices modulo 2^64 |
| Fuse.PackInjective | 3rd_Party/magic_enum/include/magic_enum_fuse.hpp:42-59 | without a width limit different index tuples pack differently |
| Fuse.FusedIndexRecovered | 3rd_Party/magic_enum/include/magic_enum_fuse.hpp:42-59 | shifting out the widths of the arguments before it and masking recovers each index from the fused number: the first argument occupies the lowest bits |
| Fuse.InjectiveIffLargestFits | 3rd_Party/magic_enum/include/magic_enum_fuse.hpp:73-85 | the documented bijection holds if and only if the tuple of the largest indices packs below 2^64 |
| Fuse.WidthsWithinWordInjective | 3rd_Party/magic_enum/include/magic_enum_fuse.hpp:73-85 | reserved widths that add up to at most 64 suffice |
| Fuse.AssertionAdmitsCollision | 3rd_Party/magic_enum/include/magic_enum_fuse.hpp:78 | the compile-time assertion is too weak: it accepts 22 enums of five values, for which two tuples fuse to the same number |
| Indexing.SortPositions | 3rd_Party/magic_enum/include/magic_enum_containers.hpp:128-149 | for any strict order the exchange sort yields a permutation of the positions after which no later value precedes an earlier one |
| Indexing.GetIndices | 3rd_Party/magic_enum/include/magic_enum_containers.hpp:128-160 | the value array is a sorted arrangement of the enumerators and the index array is the inverse of the permutation |
| Indexing.ItOfAt | 3rd_Party/magic_enum/include/magic_enum_containers.hpp:169-176 | `it(at(v))` names v |
| Indexing.RankRespectsOrder | 3rd_Party/magic_enum/include/magic_enum_containers.hpp:140-160 | an enumerator that precedes another one has the smaller index |
| Flags.EnumFlagsName | 3rd_Party/magic_enum/include/magic_enum_flags.hpp:64-93 | there is a text if and only if the value is a non-empty union of declared flags that all have names, and it spells these names in the order of declaration with single separators between them |
| Flags.PrintedExact | 3rd_Party/magic_enum/include/magic_enum_flags.hpp:73-91 | the printing that parsing is shown to undo is this one |
| Flags.EnumFlagsParse | 3rd_Party/magic_enum/include/magic_enum_flags.hpp:131-167 | succeeds if and only if the text is not empty and each piece between separators matches a declared name; a bit of the result is set if and only if it is that of the first flag some piece matches |
| Flags.ParsedExact | 3rd_Party/magic_enum/include/magic_enum_flags.hpp:139-164 | the parsing that is shown to undo printing is this one, for texts of any form |
| Flags.DeclaredPartIsWhole | 3rd_Party/magic_enum/include/magic_enum_flags.hpp:73-91 | the final test of the accumulated value holds exactly on the non-empty unions of declared flags |
| Flags.PrintThenParse | 3rd_Party/magic_enum/include/magic_enum_flags.hpp:66-93 | for distinct non-empty names without the separator, printing succeeds exactly on the non-empty unions, and parsing the text gives the union back |
| Flags.ParseThenPrint | 3rd_Party/magic_enum/include/magic_enum_flags.hpp:134-167 | whatever parses, in any order and with repetitions, has a canonical text that parses to the same value |
| Flags.EnumFlagsCast | 3rd_Party/magic_enum/include/magic_enum_flags.hpp:95-129 | with gaps between the flags the cast succeeds exactly on the non-empty unions of declared flags; without gaps exactly within the range |
| Flags.ValuesOrs | 3rd_Party/magic_enum/include/magic_enum_flags.hpp:50-60 | the upper end of that range has exactly the bits of the declared flags |
| Flags.RangeTestExactIff | 3rd_Party/magic_enum/include/magic_enum_flags.hpp:119-125 | for flags without gaps the range test is the union test on every value if and only if the lowest flag is bit 0 or there is only one flag |
| Flags.SparseIff | 3rd_Party/magic_enum/include/magic_enum_flags.hpp:103-119 | the per-flag test is used if and only if the declared flags leave gaps |
| PackedBits.Shape.SameMembers | 3rd_Party/magic_enum/include/magic_enum_containers.hpp:638 | packings with clear spare bits and the same members are the same words |
| PackedBits.Shape.Combine | 3rd_Party/magic_enum/include/magic_enum_containers.hpp:699-718 | combining words bit by bit keeps the spare bits clear and combines membership |
| PackedBits.Shape.Complement | 3rd_Party/magic_enum/include/magic_enum_containers.hpp:720-730 | complementing and masking keeps the spare bits clear and complements membership |
| PackedBits.Shape.WriteBit | 3rd_Party/magic_enum/include/magic_enum_containers.hpp:513-520 | replacing a word by one that differs in one bit changes membership at one position only |
| PackedBits.FullWords | 3rd_Party/magic_enum/include/magic_enum_containers.hpp:732-741 | the words are full exactly when every enumerator is a member |
| PackedBits.NoSpareIff | 3rd_Party/magic_enum/include/magic_enum_containers.hpp:490-498 | words have no spare bits exactly for 8, 16 or 32 enumerators and multiples of 64 |
| PackedBits.PopCountLoop | 3rd_Party/magic_enum/include/magic_enum_containers.hpp:94-102 | the loop counts the one bits |
| PackedBits.CountIsCardinality | 3rd_Party/magic_enum/include/magic_enum_containers.hpp:687-693 | the population counts of the words add up to the number of members |
| PackedBits.EncodingRoundTrip | 3rd_Party/magic_enum/include/magic_enum_containers.hpp:541-574 | a packing and its integer determine each other, and the integer is below 2^count |
| Bitsets.Bitset.Put | 3rd_Party/magic_enum/include/magic_enum_containers.hpp:513-520 | assigning through a reference adds or removes that enumerator and no other |
| Bitsets.Bitset.Test | 3rd_Party/magic_enum/include/magic_enum_containers.hpp:652-657 | membership, or out of range for a value that is no enumerator |
| Bitsets.Bitset.Set | 3rd_Party/magic_enum/include/magic_enum_containers.hpp:743-749 | one member is changed, or out of range and nothing changed |
| Bitsets.Bitset.Equal | 3rd_Party/magic_enum/include/magic_enum_containers.hpp:638 | word equality is set equality |
| Bitsets.Bitset.Any | 3rd_Party/magic_enum/include/magic_enum_containers.hpp:676-683 | true exactly when there is a member |
| Bitsets.Bitset.Count | 3rd_Party/magic_enum/include/magic_enum_containers.hpp:687-693 | the cardinality |
| Bitsets.Bitset.AllSet | 3rd_Party/magic_enum/include/magic_enum_containers.hpp:659-674 | right if and only if the last word has spare bits or some enumerator is missing; on a full set without spare bits it answers false for words of 8 or 16 bits and reaches the end of the function for wider ones |
| Bitsets.Bitset.Assign | 3rd_Party/magic_enum/include/magic_enum_containers.hpp:699-718 | `&=`, `\|=` and `^=` are intersection, union and symmetric difference, also with itself |
| Bitsets.Bitset.Complement | 3rd_Party/magic_enum/include/magic_enum_containers.hpp:720-730 | complement within the enumerators, in a fresh bitset |
| Bitsets.Bitset.SetAll | 3rd_Party/magic_enum/include/magic_enum_containers.hpp:732-741 | all enumerators become members, the spare bits stay clear |
| Bitsets.Bitset.Reset | 3rd_Party/magic_enum/include/magic_enum_containers.hpp:751 | no member is left |
| Bitsets.Bitset.ToInteger | 3rd_Party/magic_enum/include/magic_enum_containers.hpp:541-553 | the integer whose bits are the members, or overflow only if a member lies beyond the width of the type |
| Bitsets.Bitset.FromInteger | 3rd_Party/magic_enum/include/magic_enum_containers.hpp:563-574 | the bitset of the integer's bits, or out of range only for integers of 2^count and above |
| Bitsets.Bitset.ToRawString | 3rd_Party/magic_enum/include/magic_enum_containers.hpp:807-814 | one character for each enumerator, telling members from others |
| Bitsets.Bitset.FromRawString | 3rd_Party/magic_enum/include/magic_enum_containers.hpp:576-590 | accepts exactly the well-formed substrings and takes their members; otherwise the error of the first offending character |
| Bitsets.RawRoundTrip | 3rd_Party/magic_enum/include/magic_enum_containers.hpp:576-590 | reading back a printed raw string is accepted and gives the members back |
| Bitsets.Bitset.ToFlags | 3rd_Party/magic_enum/include/magic_enum_containers.hpp:781-790 | the flag value with exactly the members' bits |
| Bitsets.Bitset.FromFlags | 3rd_Party/magic_enum/include/magic_enum_containers.hpp:606-618 | the bitset of a flag value, or invalid argument only if a bit is no declared flag |
| Bitsets.FlagRoundTrip | 3rd_Party/magic_enum/include/magic_enum_containers.hpp:606-618 | sets of flags and flag values determine each other |
| EnumSets.EnumSet.Insert | 3rd_Party/magic_enum/include/magic_enum_containers.hpp:933-945 | the element is in afterwards, reported as new only if it was not, and a value that is no enumerator changes nothing; the size stays the number of members |
| EnumSets.EnumSet.Erase | 3rd_Party/magic_enum/include/magic_enum_containers.hpp:987-995 | that element is gone and no other, and the result is the number erased; the size stays the number of members |
| EnumSets.EnumSet.Clear | 3rd_Party/magic_enum/include/magic_enum_containers.hpp:928-931 | no member, size zero |
| EnumSets.EnumSet.Contains | 3rd_Party/magic_enum/include/magic_enum_containers.hpp:1012 | true exactly for members; false for values that are no enumerators |
| EnumSets.EnumSet.Next | 3rd_Party/magic_enum/include/magic_enum_containers.hpp:282-287 | incrementing a filtered iterator skips to the next member or to the end |
| EnumSets.EnumSet.Begin | 3rd_Party/magic_enum/include/magic_enum_containers.hpp:271-276 | `begin` is the first member or the end |
| EnumSets.EnumSet.Elements | 3rd_Party/magic_enum/include/magic_enum_containers.hpp:902-908 | walking from `begin` to `end` visits the members in the order of the index, each once |
| EnumSets.ElementsSorted | 3rd_Party/magic_enum/include/magic_enum_containers.hpp:902-908 | with an index sorted by the comparator that is the order of the comparator |
| EnumSets.EnumSet.EraseIf | 3rd_Party/magic_enum/include/magic_enum_containers.hpp:1111-1122 | a member stays if and only if it does not satisfy the predicate, although the walk erases while iterating; the result is the number erased |
| EnumSets.EnumSet.Less | 3rd_Party/magic_enum/include/magic_enum_containers.hpp:1089-1103 | the smaller set is less; of two sets of one size that is less which lacks the first element in which they differ |
| EnumSets.LessIff | 3rd_Party/magic_enum/include/magic_enum_containers.hpp:1089-1103 | the relation that is shown to be a strict total order is this one |
| EnumSets.InOrderExact | 3rd_Party/magic_enum/include/magic_enum_containers.hpp:282-287 | the visited positions are exactly the members and strictly increase |
| EnumSets.LessTrichotomy | 3rd_Party/magic_enum/include/magic_enum_containers.hpp:1085-1103 | exactly one of less, equal and greater holds |
| EnumSets.LessTransitive | 3rd_Party/magic_enum/include/magic_enum_containers.hpp:1089-1103 | the order is transitive |
| StringsImage.Write | Source/Base/source/StringsBulk.cpp:405-408 | stores write only bytes not written before, and nothing else |
| StringsImage.Allocate | Source/Base/source/StringsBulk.cpp:188-202 | the block has the size of header, offsets and characters, with only the header written |
| StringsImage.TotalBytesForChars | Source/Base/source/StringsBulk.cpp:415-421 | the sizing pass counts every character and terminator the writing pass stores |
| StringsImage.BuildNonOwning | Source/Base/source/StringsBulk.cpp:393-413 | every byte after the header is written exactly once, nothing beyond the end, and the block is the image of the strings |
| StringsImage.BuildOwning | Source/Base/source/StringsBulk.cpp:441-460 | the other builder produces the identical block |
| StringsImage.Layout | Source/Base/source/StringsBulk.cpp:19-36 | byte by byte: size, number of strings, offsets cut to 32 bits, lowest bytes first, and at its offset each string with its terminator |
| StringsImage.OffsetsIncrease | Source/Base/source/StringsBulk.cpp:404-410 | offsets strictly increase |
| StringsImage.StringReads | Source/Base/source/StringsBulk.cpp:19-36 | offset and length of string i, in 32-bit and 64-bit arithmetic, give back its characters and terminator |
| StringsImage.ReadsBackIffOffsetsFit | Source/Base/source/StringsBulk.cpp:19-36 | all strings read back if and only if the offset of the last one fits in 32 bits |
| StringsImage.ImageInjective | Source/Base/source/StringsBulk.cpp:393-413 | different lists of strings have different blocks |
| StringsOrder.CompareLess | Source/Base/source/StringsBulk.cpp:215-237 | the loop decides whether, at the first string in which the lists differ up to a zero byte, the first list ends or has the string that precedes in byte order |
| StringsOrder.LessIff | Source/Base/source/StringsBulk.cpp:215-237 | the relation that is shown to be a strict weak order is this lexicographic order |
| StringsOrder.StrcmpSign | Source/Base/source/StringsBulk.cpp:225 | the sign of `strcmp` is that of the first differing bytes, terminators included |
| StringsOrder.StrcmpNegativeIff | Source/Base/source/StringsBulk.cpp:225 | `strcmp` is negative if and only if what precedes the first zero byte of the one string is lexicographically smaller |
| StringsOrder.KeyExact | Source/Base/source/StringsBulk.cpp:225 | what `strcmp` sees of a string is its longest prefix without a zero byte |
| StringsOrder.CompareEqual | Source/Base/source/StringsBulk.cpp:204-208 | true exactly when the strings agree pairwise up to their first zero byte |
| StringsOrder.StrcmpOrders | Source/Base/source/StringsBulk.cpp:225 | the sign of `strcmp` is antisymmetric and transitive, and zero exactly on strings that agree up to the first zero byte |
| StringsOrder.StoredCompare | Source/Base/source/StringsBulk.cpp:25-28 | `strcmp` on the addresses the accessor computes in two built blocks is `strcmp` on the strings |
| StringsOrder.LessTrichotomy | Source/Base/source/StringsBulk.cpp:234-252 | `<` is asymmetric, and neither side is less exactly when `==` holds |
| StringsOrder.LessTransitive | Source/Base/source/StringsBulk.cpp:234-252 | `<` is transitive |
| StringsOrder.IncomparableTransitive | Source/Base/source/StringsBulk.cpp:234-252 | incomparability is transitive, so that `<` is a strict weak order |
| StringsOrder.PlainEquality | Source/Base/source/StringsBulk.cpp:204-208 | without embedded zeros `==` is equality of the lists of strings |
| StringsOwnership.StringsBulk.Build | Source/Base/source/StringsBulk.cpp:393-413 | a new bulk that alone owns the new block; when allocation throws, nothing changes |
| StringsOwnership.StringsBulk.Copy | Source/Base/source/StringsBulk.cpp:49-66 | equal content in a block of its own; the source and all other blocks are untouched |
| StringsOwnership.StringsBulk.Move | Source/Base/source/StringsBulk.cpp:68-72 | the block changes owner, the source ends up empty |
| StringsOwnership.StringsBulk.AssignCopy | Source/Base/source/StringsBulk.cpp:84-113 | the old block is freed and an equal one owned; self-assignment and a failed allocation change neither operand |
| StringsOwnership.StringsBulk.AssignMove | Source/Base/source/StringsBulk.cpp:115-127 | the old block is freed, the other one taken over; self-assignment leaves the bulk alone |
| StringsOwnership.StringsBulk.Destroy | Source/Base/source/StringsBulk.cpp:78-82 | frees the block the bulk owns and no other |
| StringsOwnership.OneOwner | Source/Base/source/StringsBulk.cpp:42-127 | in every state these operations lead to, a live block has exactly one non-empty owner |
| StringsOwnership.BlocksApart | Source/Base/source/StringsBulk.cpp:42-127 | different bulks hold different blocks, so that freeing one leaves the content of the others |
| Observers.ScopedObservable.AddTicketedObserver | Source/Base/source/ScopedObservable.cpp:65-90 | one observer with a new ticket is appended and the ticket engaged; an empty callback or mask changes nothing and gives an empty ticket |
| Observers.ScopedObservable.AddUnticketedObserver | Source/Base/source/ScopedObservable.cpp:92-112 | one observer without a ticket is appended, unless callback or mask is empty |
| Observers.ScopedObservable.StopObservation | Source/Base/source/ScopedObservable.cpp:143-163 | the first observer with the ticket is removed and the order of the rest kept; an unknown ticket changes nothing |
| Observers.ScopedObservable.FireObservers | Source/Base/source/ScopedObservable.cpp:114-141 | exactly the observers whose mask has a bit in common with the notification are called, in order and once each whatever they throw, and the first error is rethrown |
| Observers.ScopedObservable.Destroy | Source/Base/source/ScopedObservable.cpp:59-63 | tickets no longer reach the observable |
| Observers.ObservationTicket.Move | Source/Base/source/ScopedObservable.cpp:18-22 | the observation changes hands and the source is empty |
| Observers.ObservationTicket.Stop | Source/Base/source/ScopedObservable.cpp:24-31 | removes the observer of an engaged ticket of a live observable, and does nothing otherwise |
| Observers.ObservationTicket.Assign | Source/Base/source/ScopedObservable.cpp:33-46 | the old observation ends and the other one is taken over; assigning a ticket to itself ends its observation and leaves it empty |
| Observers.WithoutRemoves | Source/Base/source/ScopedObservable.cpp:152-158 | removal keeps tickets distinct and removes that ticket and no other |
| Observers.FireUnscoped | Source/Base/source/Observable.cpp:83-98 | the unscoped variant calls these observers up to and including the first that throws, and lets that error through |
| Observers.WantsIffShares | Source/Base/source/ScopedObservable.cpp:128 | the mask test passes if and only if some bit is set in both masks |
| ObserverInvariant.StepKept | Source/Base/source/ScopedObservable.cpp:12-163 | every step of every thread keeps mutual exclusion, the freshness of copies to be published, the accounts of notifications, the life cycle and the place of every ticket |
| ObserverRuns.RunsKeep | Source/Base/source/ScopedObservable.cpp:12-163 | the invariant holds after every interleaving of adds, removes, notifications, moves, assignments and destruction, calls from inside callbacks included |
| ObserverRuns.NoLostUpdates | Source/Base/source/ScopedObservable.cpp:79-112 | under every interleaving the published list is the replay of the updates in the order of their critical sections, and a copy about to be published is the next update applied to it |
| ObserverRuns.FiresAreExact | Source/Base/source/ScopedObservable.cpp:114-141 | under every interleaving a finished notification took the list as it was at some moment since it began, called exactly its observers that share a bit with the mask, in order and once each, and rethrows the first error |
| ObserverRuns.TicketsCorrespond | Source/Base/source/ScopedObservable.cpp:12-63 | in every reachable state with a live observable its ticketed observers and the handles or calls holding tickets correspond one to one |
| ObserverRuns.QuiescentTickets | Source/Base/source/ScopedObservable.cpp:12-63 | when no call is in progress the ticketed observers are exactly those of engaged handles |
| ObserverRuns.StopsFindTheirObserver | Source/Base/source/ScopedObservable.cpp:143-163 | ending an observation always finds its observer, whatever happened since the ticket was handed out |
| ObserverRuns.NoStopOnDeadObservable | Source/Base/source/ScopedObservable.cpp:24-63 | once the instance is reset, and thus once the observable is destroyed, no handle is inside `StopObservation` |
| ObserverRuns.UnticketedStay | Source/Base/source/ScopedObservable.cpp:92-112 | observers added without a ticket are never removed and keep their order |
| ObserverNesting.WorldKept | Source/Base/source/ScopedObservable.cpp:12-163 | with calls nested in calls and tickets owned by callbacks, every move keeps the protocol invariant, keeps handles of callbacks out of other hands, and keeps calls made under the indirect lock where they are |
| ObserverDeadlock.WorldsAreRuns | Source/Base/source/ScopedObservable.cpp:12-163 | nesting and ownership only restrict the protocol, so that every theorem about its runs holds here |
| ObserverDeadlock.DeadlockIffLastOwner | Source/Base/source/ScopedObservable.cpp:24-31 | in every reachable state there are calls that wait in a circle for the two locks if and only if some removal, the indirect lock held, drops the last owner of an engaged ticket of the same observable |
| ObserverDeadlock.BlockedForGood | Source/Base/source/ScopedObservable.cpp:24-31 | such a removal never returns and never gives the lock back, whatever else happens |
| ObserverDrops.LastOwnerIsRemoved | Source/Base/source/ScopedObservable.cpp:143-163 | the ticket in question is owned by the very observer that was removed |
| ObserverDrops.OnlyDropsLose | Source/Base/source/ScopedObservable.cpp:65-163 | the last reference to a callback can go only where the end of an add, a removal, a notification or the observable drops a list |
| ObserverProgress.NoDeadlock | Source/Base/source/ScopedObservable.cpp:24-163 | as long as no removal drops a last owner, some call in progress can go on, callers waiting for the calls they have made |
| ObserverExample.BlockingRun | Source/Base/source/ScopedObservable.cpp:24-31 | a run of one thread with two observations, the second ticket owned by the first callback: ending the first one blocks all calls in progress, and for good |
| StackAllocator.RoundUp | Source/Base/source/CFStackAllocator.cpp:41-43 | the bit mask computes the rounded size |
| StackAllocator.AlignedLeast | Source/Base/source/CFStackAllocator.cpp:41-43 | the rounded size is the least multiple of 16 not below the request |
| StackAllocator.CFStackAllocator.constructor | Source/Base/include/Base/CFStackAllocator.h:8-26 | an aligned buffer, all of it free, and counters of zero |
| StackAllocator.CFStackAllocator.DoAlloc | Source/Base/source/CFStackAllocator.cpp:38-58 | a request that fits is cut from the free end of the buffer, any other one goes to the heap; free space, blocks and counters stay consistent |
| StackAllocator.CFStackAllocator.DoDealloc | Source/Base/source/CFStackAllocator.cpp:60-70 | a block is passed to `free` exactly if the heap served it or it is the end of the buffer |
| StackAllocator.PointersAligned | Source/Base/source/CFStackAllocator.cpp:46-52 | every pointer into the buffer that is handed out is a multiple of 16 |
| StackAllocator.BlocksDisjoint | Source/Base/source/CFStackAllocator.cpp:46-52 | blocks ever served from the buffer do not overlap and stay inside it |
| StackAllocator.EmptyBlockMisrouted | Source/Base/source/CFStackAllocator.cpp:46-70 | the failing run: a request for the whole buffer, one for nothing, and the latter freed |
| StackAllocator.RunsAreExact | Source/Base/source/CFStackAllocator.cpp:38-70 | over every run the free space and the rounded sizes make up the buffer, the two counters the operations step stand for the live blocks modulo 2^16 (failed requests and misrouted blocks on the side of the heap), and the blocks that were or will be misrouted are as many as empty requests served from a used-up buffer |
| StackAllocator.RoutedWellIff | Source/Base/source/CFStackAllocator.cpp:38-70 | every free goes back to the side that served the block if and only if no empty request is served from a used-up buffer |
| StackAllocator.CountersAreLiveBlocks | Source/Base/source/CFStackAllocator.cpp:51-68 | in such runs both counters are the numbers of live blocks, failed requests included |
| StackAllocator.CountsExactly | Source/Base/source/CFStackAllocator.cpp:51-68 | within the range of the 16-bit counters these are the exact numbers |
| RowScan.ScanRows | Scripts/Performance/q1_10_signed_ax_driver.swift:283-328 | on any graph, cyclic or not, the walk ends, takes elements first in first out, examines the first of each identity and no more than the limit, collects the observations of the examined elements in order, and is truncated only at the limit; otherwise no start or successor is left out |
| RowScan.RowsInOrder | Scripts/Performance/q1_10_signed_ax_driver.swift:304-312 | one observation for each examined row with a matching label, in the order of examination |
| RowScan.ReachableIff | Scripts/Performance/q1_10_signed_ax_driver.swift:286-327 | reachable are the application, its windows, the visible rows of reachable tables and outlines, and the children of anything else but rows |
| RowScan.ReachableLeast | Scripts/Performance/q1_10_signed_ax_driver.swift:286-327 | and nothing else is |
| RowScan.UntruncatedIsReachable | Scripts/Performance/q1_10_signed_ax_driver.swift:290-327 | a walk that was not truncated examined exactly the reachable elements if and only if their identities tell them apart |
| RowScan.RowsAreReachableMatches | Scripts/Performance/q1_10_signed_ax_driver.swift:304-312 | the observations are then exactly those of the reachable rows whose label begins with the prefix, with that label and whether the row is focused and selected |

## Left out

- ObserverRuns.TicketsCorrespond: holds for fewer than 2^64 - 1 drawn tickets; a ticket is not drawn any more once the 64-bit counter would wrap to the empty ticket.
- StringsImage.ReadsBackIffOffsetsFit: covers blocks below 2^64 bytes, the range of the size field.
- Hashing.CrcHash: does not model the 32-bit FNV-1a hash used when CRC-32 repeats; the dispatch is proved for any secondary hash.
- Bitsets.Bitset.FromInteger: integers are bit patterns, so that the conversion of a negative value to its unsigned pattern is the caller's.
- RowScan.ScanRows: attribute reads are functions of the element, so that a user interface that changes during the walk is not captured; a prefix is compared code unit by code unit.
- Which candidates the compiler reports as declared enumerators, the reflected minimum and maximum, and the extraction of names from compiler output are inputs.
- Addresses returned by `malloc`, the order in which threads take locks and what callbacks throw are inputs; memory ordering and fairness of the spinlock are not modelled.
- ObserverDeadlock.DeadlockIffLastOwner: of the captured state of a callback only tickets of the same observable are modelled; other destructors that run where it is dropped are the program's own.
- ObserverReentry: a handle owned by a callback is used only by that callback's code until the callback shares it or is dropped, and a callback that owns handles is added again only by itself.
- A missing observer list and an empty one are the same sequence.
- Calls into a `StringsBulk` with an index out of range throw; these checks and the random-access iterators, whose postfix decrement increments, are left out.
- `set::lower_bound`, `upper_bound` and the transparent look-ups, whose building block never resets its position, are left out.
- The bitset constructor from a list of names and the matching printer are left out; the raw, integer and flag encodings are covered.
- `ObservableBase` shares the list protocol of the scoped variant; only its different notification is modelled separately.
- Serial queues, dispatch groups, Core Foundation, POSIX and logging wrappers delegate to code that is not part of this model.
- The rest of the Swift driver, the iostream and format adapters, and the vendored compression and SSH headers are left out.
