# seacraft: verified model of the core logic

This project models the parts of seacraft that hold real logic and proves what they do.

- `Sameness`, `SamenessLaws`, `SamenessExact`, `SamenessNulls`, `SamenessMixed`: the deep comparison
  of the web UI. JavaScript values are primitives, arrays and objects with ordered entries; a comparison ends in `Same`,
  `Different` or a TypeError. The reference is `Equiv`: equal primitives, equal key sets with
  equivalent values, arrays equal up to a permutation; `SamenessNulls` takes null and undefined
  fields for missing ones, and `SamenessMixed` compares across types.
- `MergeTree`, `MergeHeap`: the deep merge. `MergeTree` is the pure merge of value trees and its
  algebra; `MergeHeap` is the in-place algorithm on a heap of objects. A ghost `Shape` is a picture
  of the objects that a value reaches, and `Holds` says that the heap looks like the picture.
- `UrlParams`, `UrlLaws`, `UrlExact`, `UrlSegments`, `UrlAgain`, `UrlNames`: removal of a URL parameter by way of
  an object and its JSON text, with JSON escaping, the three replacements and the enumeration order
  of object keys; `UrlAgain` deletes twice.
- `Units`, `UnitLaws`: storage units, the shifting recursions, the closed ladder, rounding and the
  way back to bytes, over exact rationals.
- `Duration`, `Filters`: duration text, the filter query string and table filtering.
- `UnitOfWorkModel`, `UnitOfWorkLaws`, `UnitOfWorkFaults`: the unit of work over a transactional store. Every call
  that reaches the database may fail, as an arbitrary schedule says; the theorems hold for every
  schedule and every sequence of calls, repository writes through a transaction's own handle and
  its own Commit and Rollback included.
- `Paging`: page requests and counts with 64-bit wrap-around, clause lists, and fetched pages.
- `LogFields`: the sweep that turns loose key/value arguments into log fields.
- `Basics.dfy` holds the shared modules: primitives, decimal text, counting, splitting and joining,
  filtering.

Some behaviour differs from what names and comments suggest. The model follows the code, and each
departure is stated with its exact condition:

- `getByte` takes position 0 for "not found", so bytes are multiplied by 1024^4
  (`Units.GetByteExactly`, `UnitLaws.RoundTripExactly`).
- Two truthy numbers are always the same, nested arrays never are, and an array with repetitions
  may pass for one that is no permutation of it (`SamenessExact`).
- Null fields hide values that only the smaller object has (`SamenessNulls.NullsDecideExactly`).
- A truthy non-object in a merge target hides the source's object, and a falsy value in the middle
  breaks associativity (`MergeTree.SourceLeavesReadBack`, `MergeTree.AssociativeExactly`). An
  object under an inherited name is lost (`MergeTree.LeftIdentityExactly`).
- Characters that JSON escapes or the replacements touch, and numeric names, change a URL from
  which another parameter is deleted; so do repeated names, parameters without an equals sign and
  a second question mark (`UrlSegments.DeletesExactly`). Deleting again may change it again
  (`UrlAgain.DeletionIdempotentExactly`), and the order of two deletions may matter
  (`UrlAgain.SafeDeletionsCommuteExactly`, `UrlAgain.OrdersAgreeExactly`).
- `SaveChange`, and `Commit` without a transaction, report success but never commit
  (`UnitOfWorkLaws.PrivateTxFrozen`); a committed transaction stays current
  (`UnitOfWorkLaws.CommittedStaysCurrent`).
- A result with a non-positive page size counts one row a page (`Paging.RawSizeExactly`).
- A page far past the end can wrap around to the first rows (`Paging.PastTheEndExactly`).

## Model

| member | source | states |
|---|---|---|
| SamenessExact.IsSameObject | ui/src/app/shared/units/utils.ts:660-701 | the comparison as it runs, truthiness tests, array refusal and key loop included, gives the verdict of `Sameness.SameObject` |
| SamenessExact.CompareEntries | ui/src/app/shared/units/utils.ts:672-698 | the key loop over the value with more keys leaves at its first fault, be it a difference or a TypeError |
| SamenessExact.CompareEntry | ui/src/app/shared/units/utils.ts:674-696 | one key: arrays, objects and everything else go to their own comparison, falsy values to loose equality |
| SamenessExact.IsSameArrayValue | ui/src/app/shared/units/utils.ts:708-730 | the two nested sweeps with their flags give the verdict of `Sameness.SameArray`, including the TypeError when the second value is no array but has a matching length |
| SamenessExact.SearchItem | ui/src/app/shared/units/utils.ts:715-723 | the inner sweep finds the item exactly when some verdict of its row is `Same`, and fails exactly when some verdict is an error |
| SamenessLaws.StringsSame | ui/src/app/shared/units/utils.ts:671-697 | strings, walked as indexed characters of the longer one, are the same exactly when equal |
| SamenessLaws.AgreementIsEquiv | ui/src/app/shared/units/utils.ts:671-673 | visiting only the keys of the larger object is enough: agreement on them is equality of key sets and of all values |
| SamenessLaws.ItemsSame | ui/src/app/shared/units/utils.ts:710-727 | for an array without repetitions, the one-sided search and the length test accept exactly the permutations |
| SamenessLaws.ObjectsSame | ui/src/app/shared/units/utils.ts:660-701 | on trees of one schema `isSameObject` never fails and decides equivalence up to permutation of arrays, for every coercion rule |
| SamenessLaws.ArraysSame | ui/src/app/shared/units/utils.ts:708-730 | on arrays of one schema `isSameArrayValue` decides whether one is a permutation of the other up to sameness |
| SamenessExact.SameIsEquivalenceRelation | ui/src/app/shared/units/utils.ts:660-730 | on such trees sameness is reflexive, symmetric and transitive |
| SamenessExact.PermutationExactly | ui/src/app/shared/units/utils.ts:708-730 | the array comparison decides permutation for every second array exactly when the first has no two equivalent items |
| SamenessExact.OverwriteIsNoPermutation | ui/src/app/shared/units/utils.ts:708-730 | overwriting one of two equivalent items by a different one is never a permutation (a counting argument) |
| SamenessExact.OverwritePasses | ui/src/app/shared/units/utils.ts:708-730 | yet the search accepts exactly that overwritten array as the same |
| SamenessExact.ScalarsCompareByTruth | ui/src/app/shared/units/utils.ts:660-701 | two numbers or booleans are the same exactly when both are truthy or both falsy |
| SamenessExact.ScalarArraysExactly | ui/src/app/shared/units/utils.ts:708-730 | arrays of numbers and booleans are the same exactly when they have one length and every truth value of the first occurs in the second |
| SamenessExact.ScalarPermutationExactly | ui/src/app/shared/units/utils.ts:708-730 | so the array comparison decides permutation of booleans exactly when the first array repeats none, and of numbers exactly when it is empty or a single zero |
| SamenessExact.NestedArraysNeverMatch | ui/src/app/shared/units/utils.ts:668-670 | an array that holds an array is the same as no array, not even itself |
| SamenessMixed.CoercedExactly | ui/src/app/shared/units/utils.ts:671-697 | objects of booleans, numbers and strings of any types are the same exactly when they have the same keys, with values equal if of one type and related by JavaScript's coercion if not |
| SamenessMixed.NumberAgainstText | ui/src/app/shared/units/utils.ts:688-694 | in particular a field of 5 against one of "5" is decided by coercion alone |
| SamenessMixed.CoercedAgainstObjects | ui/src/app/shared/units/utils.ts:671-694 | with equal keys the values of the second object choose the comparison: its primitives are compared loosely with objects and arrays of the first too |
| SamenessMixed.ObjectAgainstScalar | ui/src/app/shared/units/utils.ts:660-697 | an object is the same as a number or boolean exactly when that is truthy and all its fields are null or undefined |
| SamenessMixed.NaNIsNever | ui/src/app/shared/units/utils.ts:674-694 | a field of NaN is never the same as another, not even as NaN |
| SamenessMixed.TruthDecides | ui/src/app/shared/units/utils.ts:661-667 | two of the six falsy values are the same, and a falsy value is never the same as another one |
| SamenessMixed.SearchExactly | ui/src/app/shared/units/utils.ts:708-730 | arrays of one length: the error of any pair of items surfaces, and without errors every item must be the same as some item of the second |
| SamenessMixed.TextAgainstArray | ui/src/app/shared/units/utils.ts:709-715 | text of the length of a non-empty array raises the missing forEach; other text, and text on the left, is different |
| SamenessMixed.LengthAgainstArray | ui/src/app/shared/units/utils.ts:709-715 | an object passes for an array by its length field alone: an error, or the same if both are empty |
| SamenessMixed.FirstFieldDecides | ui/src/app/shared/units/utils.ts:672-698 | the first field that is not the same decides, be it different or an error |
| SamenessNulls.ObjectsAgree | ui/src/app/shared/units/utils.ts:660-701 | with null or undefined fields at any depth, `isSameObject` never fails and says `Same` exactly when both sides agree, null for missing, on every key of the object with more keys |
| SamenessNulls.ArraysAgree | ui/src/app/shared/units/utils.ts:708-730 | arrays of such objects are the same exactly when they have one length and every item of the first agrees with some item of the second |
| SamenessNulls.NullsDecideExactly | ui/src/app/shared/units/utils.ts:671-673 | it decides equivalence with null for missing exactly when no value of the smaller object, at any depth, lies outside the keys of the larger one, or the visited keys differ already (arrays of full, repetition-free values) |
| SamenessNulls.RevealedDecide | ui/src/app/shared/units/utils.ts:660-730 | with arrays of objects with null fields too, it decides that equivalence wherever nothing is hidden, items against items included, and no array repeats an item |
| SamenessNulls.RevealedArraysDecide | ui/src/app/shared/units/utils.ts:708-730 | and likewise for two such arrays |
| SamenessNulls.EquivAgrees | ui/src/app/shared/units/utils.ts:671-697 | a difference that it reports is real: equivalent values always agree |
| SamenessNulls.TwoNullsHideOne | ui/src/app/shared/units/utils.ts:671-679 | an object of two null fields is the same as any object of one other field, both ways round, so sameness with nulls is not transitive |
| SamenessNulls.NullIsMissing | ui/src/app/shared/units/utils.ts:674-679 | adding a null or undefined field to any object gives the same object, in both directions |
| SamenessLaws.EquivTransitive | ui/src/app/shared/units/utils.ts:703-707 | the reference notion of sameness composes permutations: it is transitive |
| SamenessLaws.EquivSymmetric | ui/src/app/shared/units/utils.ts:703-707 | and it is symmetric |
| MergeHeap.MergeDeep | ui/src/app/shared/units/utils.ts:568-587 | in place and for any number of sources: the target object is returned, stays a tree, takes in no foreign object, holds the left fold of the pure merge over the sources, and every source object keeps its fields; the recursion ends. Keys are any names but `__proto__` |
| MergeHeap.MergeFields | ui/src/app/shared/units/utils.ts:574-585 | the key loop, in any order of keys, turns the target's tree into the pure merge of both trees |
| MergeHeap.MergeField | ui/src/app/shared/units/utils.ts:575-584 | one key arrives: a non-object is assigned, an object is merged into the present object or a fresh one |
| MergeHeap.EnsureObject | ui/src/app/shared/units/utils.ts:577-579 | a falsy or absent value makes room as an empty object; a truthy one, own or inherited, does not |
| MergeHeap.MergeChild | ui/src/app/shared/units/utils.ts:580 | the recursive call changes the part of the tree below its key and nothing beside it; an inherited function takes nothing in |
| MergeHeap.Assign | ui/src/app/shared/units/utils.ts:578-582 | assigning one key replaces that part of the tree and keeps the rest |
| MergeHeap.PictureUnique | ui/src/app/shared/units/utils.ts:568-587 | the heap determines the tree that a value stands for |
| MergeTree.RightIdentity | ui/src/app/shared/units/utils.ts:574-585 | merging an empty source changes nothing |
| MergeTree.LeftIdentityExactly | ui/src/app/shared/units/utils.ts:574-585 | merging into an empty object copies the source exactly when no object of the source, at any depth, has an inherited name such as constructor |
| MergeTree.ConstructorIsLost | ui/src/app/shared/units/utils.ts:577-580 | an object under the name constructor leaves an empty target empty |
| MergeTree.LostNames | ui/src/app/shared/units/utils.ts:577-580 | exactly the eleven names of functions that every object inherits lose their objects |
| MergeTree.FalsyGivesWay | ui/src/app/shared/units/utils.ts:577-579 | of the primitives exactly the six falsy ones give way to an object |
| MergeTree.ReferencesStay | ui/src/app/shared/units/utils.ts:577-579 | an array or a function in the target never gives way |
| MergeTree.IntoEmpty | ui/src/app/shared/units/utils.ts:577-580 | in general it copies the source without its objects under inherited names |
| MergeTree.Idempotent | ui/src/app/shared/units/utils.ts:568-587 | merging the same source twice equals merging it once, for all trees |
| MergeTree.CoversIsReplacement | ui/src/app/shared/units/utils.ts:574-585 | a source replaces the target outright exactly when it covers every key of it and loses nothing to inherited names |
| MergeTree.InertExactly | ui/src/app/shared/units/utils.ts:574-585 | a source changes nothing exactly when every leaf of it is there already and every object is stopped or inert |
| MergeTree.AssociativeExactly | ui/src/app/shared/units/utils.ts:568-587 | merging is associative exactly where, at every object of the last source, no falsy leaf of the middle tree stands between it and a value it does not cover, and pruning inherited names early makes no difference |
| MergeTree.AssociativeOnCompatible | ui/src/app/shared/units/utils.ts:568-587 | in particular it is associative when the two sources never hold an object and a non-object at one path and the last has no object under an inherited name |
| MergeTree.SourceLeavesReadBack | ui/src/app/shared/units/utils.ts:574-585 | a path of the source that ends in a non-object reads back its value, or nothing exactly when a truthy non-object of the target, or an inherited name that it lacks, cuts the path |
| MergeTree.SourceObjectsMerge | ui/src/app/shared/units/utils.ts:576-580 | an object of the source is merged over what the target has at its path; a truthy non-object there stays, and a cut path or an inherited name that the target lacks holds nothing |
| MergeTree.UntouchedReadsAsBefore | ui/src/app/shared/units/utils.ts:575-584 | every path that the source does not touch reads as before |
| MergeTree.MergeAllConcat | ui/src/app/shared/units/utils.ts:568-587 | several sources are merged one after the other |
| MergeTree.LastSourceWins | ui/src/app/shared/units/utils.ts:568-587 | the last source that touches a path decides it: its leaf is read back, at the top level always |
| MergeTree.UntouchedByAllReadsAsBefore | ui/src/app/shared/units/utils.ts:568-587 | a path that no source touches reads as before |
| UrlParams.DelUrlParam | ui/src/app/shared/units/utils.ts:737-763 | the parser loop and the printer return `UrlParams.DelParam`, on every text |
| UrlNames.SegmentParts | ui/src/app/shared/units/utils.ts:745-747 | a segment's name ends at its first equals sign and its value at the second; the rest is dropped, and without one the value is undefined |
| UrlNames.CollectExactly | ui/src/app/shared/units/utils.ts:743-748 | the object holds each name but `__proto__` once, at the rank of its first segment and with the value of its last |
| UrlNames.LastValueStays | ui/src/app/shared/units/utils.ts:737-763 | deleting k from base?n=x&n=y&k=z leaves base?n=y |
| UrlNames.EscapeReadsBack | ui/src/app/shared/units/utils.ts:755 | what JSON puts between its quotes reads back as the text (section 7 of RFC 8259) |
| UrlLaws.ParseUrl | ui/src/app/shared/units/utils.ts:739-747 | splitting at the separators and filling the object inverts printing the parameters, in order |
| UrlLaws.StringifyPrinted | ui/src/app/shared/units/utils.ts:755-758 | stringify followed by the three replacements is the query text printed character by character, with the separators in place |
| UrlLaws.PrintedExactly | ui/src/app/shared/units/utils.ts:755-758 | that printing keeps a text exactly when it has no character the printer strips, escapes or rewrites |
| UrlSegments.SegmentNameOccurs | ui/src/app/shared/units/utils.ts:741 | the name of a segment occurs in the query, so the substring test never hides a segment to delete |
| UrlExact.IndexExactly | ui/src/app/shared/units/utils.ts:742-748 | the names that move to the front are the decimals below 2^32 - 1 |
| UrlExact.EnumerateExactly | ui/src/app/shared/units/utils.ts:755 | the printed order is the original one exactly when such names lead in ascending order |
| UrlExact.PrintoutExactly | ui/src/app/shared/units/utils.ts:752-758 | the printout equals the plain query exactly for safe text in enumeration order |
| UrlSegments.DeletesExactly | ui/src/app/shared/units/utils.ts:737-763 | on every text and for every key, the function deletes the segments of that name and keeps all other text exactly where `Faithful` holds: what is left is nothing, or clean segments of the one query, and a key that is not found names no segment |
| UrlSegments.PrintoutClean | ui/src/app/shared/units/utils.ts:752-758 | any segments print as their own text exactly when there is just an empty one, or each is one name and one value, names are distinct, and text and order survive the printer |
| UrlSegments.DeletesOne | ui/src/app/shared/units/utils.ts:737-763 | on parameters with safe text in enumeration order the result is the base with the other parameters, or the bare base; the substring test changes nothing |
| UrlSegments.FixedExactly | ui/src/app/shared/units/utils.ts:737-763 | on every text, deleting a key changes nothing exactly when the key is not looked for, or names no segment of a clean query |
| UrlAgain.DeletionIdempotentExactly | ui/src/app/shared/units/utils.ts:737-763 | on every text, deleting twice is deleting once exactly when the key is not looked for, or `Settled` holds of the segments that stay: none is kept, the key does not occur in their printed text, or nothing in them is escaped and the printed text consists of ordered parameters of other names |
| UrlAgain.SafeDeletionIdempotentExactly | ui/src/app/shared/units/utils.ts:737-763 | on safe text that leaves one exception, the empty key where only parameters without a value stay |
| UrlSegments.BackslashesGrow | ui/src/app/shared/units/utils.ts:755-758 | it can fail: where another parameter's name contains the key and its value has a backslash, each deletion doubles that backslash |
| UrlSegments.DeletionsCommute | ui/src/app/shared/units/utils.ts:737-763 | deletions of two keys commute, and each can be repeated, wherever both are faithful |
| UrlAgain.SafeDeletionsCommuteExactly | ui/src/app/shared/units/utils.ts:737-763 | on safe text two deletions commute exactly when a key does not occur, or both orders or neither leave the bare question mark of parameters without a value |
| UrlAgain.DeletionsCommuteExactly | ui/src/app/shared/units/utils.ts:737-763 | where the printer rewrites parameters one by one they commute exactly when in addition nothing that stays is escaped, or each key survives the other deletion alike |
| UrlAgain.SafeNamesAreRegular | ui/src/app/shared/units/utils.ts:755-758 | it does so wherever names are safe and values have no colon or comma |
| UrlAgain.SurvivorsCommuteExactly | ui/src/app/shared/units/utils.ts:737-763 | on any text where each key survives the other deletion they commute exactly when the same parameters are left |
| UrlAgain.OrdersAgreeExactly | ui/src/app/shared/units/utils.ts:737-763 | and on every text with both keys exactly when both or neither reach the bare base and the parameters printed last print alike |
| UrlAgain.OrderMatters | ui/src/app/shared/units/utils.ts:752-758 | the order does matter: b?a=1&c without a and then c is b?, and without c and then a it is b |
| UrlAgain.ShownKept | ui/src/app/shared/units/utils.ts:748-755 | deleting commutes with parsing, ordering and showing the parameters |
| UrlAgain.AbsentCommutesExactly | ui/src/app/shared/units/utils.ts:737-763 | on every text, a deletion commutes with that of a key that does not occur exactly when the first key is not looked for, or `Settled` holds of what it leaves and the other key |
| Units.GetSuitableUnit | ui/src/app/shared/units/utils.ts:404-422 | the recursion ends on a suffix of its array and shows the count scaled to the first unit left, rounded to two decimals |
| UnitLaws.StepsMeaning | ui/src/app/shared/units/utils.ts:409-414 | among n units it stops at the largest one that the count reaches |
| UnitLaws.StepsUnique | ui/src/app/shared/units/utils.ts:409-414 | and that unit is the only one with these bounds |
| UnitLaws.LadderAgrees | ui/src/app/shared/units/utils.ts:503-552 | for every size the recursion over the five units, getSizeUnit and getSizeNumber choose the same power of 1024 |
| UnitLaws.FormatSizeAgrees | ui/src/app/shared/units/utils.ts:503-516 | formatSize prints the same amount and unit, with B for bytes |
| UnitLaws.RoundWithinHalf | ui/src/app/shared/units/utils.ts:396-398 | rounding moves a number by at most half a unit of its last kept decimal |
| UnitLaws.RoundMonotone | ui/src/app/shared/units/utils.ts:396-398 | rounding is monotone |
| UnitLaws.RoundIdempotent | ui/src/app/shared/units/utils.ts:396-398 | rounding twice is rounding once |
| UnitLaws.RoundsHalfUp | ui/src/app/shared/units/utils.ts:396-398 | two decimals are the nearest whole number of hundredths, the greater of two equally near |
| UnitLaws.UnitsAre1024 | ui/src/app/shared/units/utils.ts:404-422 | each unit is 1024 times the one before |
| UnitLaws.ShownIsNear | ui/src/app/shared/units/utils.ts:404-422 | the shown amount, scaled back by its unit, is within 0.005 of that unit of the count |
| Units.GetByte | ui/src/app/shared/units/utils.ts:428-441 | the reduce with its flag multiplies by 1024 as often as the unit's position, four times for bytes, five for an unknown unit |
| Units.GetByteExactly | ui/src/app/shared/units/utils.ts:435 | the result is count * 1024^position exactly for the units above bytes, or for zero |
| Units.LimitExactly | ui/src/app/shared/units/utils.ts:488-501 | validateLimit rejects exactly above 1024 to the number of units left; bytes are judged like TiB |
| Units.GetIntegerAndUnit | ui/src/app/shared/units/utils.ts:449-486 | both arrays end as the suffixes left by the shifts, and the record, undefined or TypeError is the one for them; one array passed as both is shifted twice by a step that shifts both |
| UnitLaws.DropsMeaning | ui/src/app/shared/units/utils.ts:455-476 | no more units are dropped for the used amount than for the hard one; the hard amount divides by 1024 at every dropped unit and not at the one reached unless it is the last; the used amount stays at least 1 and below 1024, or followed all the way |
| UnitLaws.PartsConserve | ui/src/app/shared/units/utils.ts:449-486 | with a second array at least as long the record is always produced, and both amounts are conserved before rounding |
| UnitLaws.PartsExactly | ui/src/app/shared/units/utils.ts:449-486 | no record without units, and the TypeError exactly from a second array no longer than what is dropped from it |
| UnitLaws.LargestWholeUnit | ui/src/app/shared/units/utils.ts:456-460 | for a whole number the chosen unit is the largest listed one in which it is still whole |
| UnitLaws.RoundTripExactly | ui/src/app/shared/units/utils.ts:428-486 | getByte brings the hard amount back exactly when it was divisible by 1024 |
| UnitLaws.SharedExactly | ui/src/app/shared/units/utils.ts:455-476 | with one array for both lists the hard amount has its right unit exactly when the used one is below 1024 or nothing can be shifted, and the used amount exactly when nothing can, zero apart |
| UnitLaws.SharedRunsOut | ui/src/app/shared/units/utils.ts:449-486 | and no record comes back exactly when the length is even, the hard amount divides by 1024 half as often, and the used one reaches that power of 1024 |
| Duration.DurationStr | ui/src/app/shared/units/utils.ts:769-786 | the three successive floors and the reassigned result print the base-60 digits of the whole seconds, leading zero fields dropped |
| Duration.FieldsRecompose | ui/src/app/shared/units/utils.ts:770-774 | minutes and seconds are below 60 and the fields recompose to the whole seconds, for negative distances too |
| Duration.PrintsAlikeExactly | ui/src/app/shared/units/utils.ts:769-786 | two distances print alike exactly when they have the same whole seconds |
| Duration.TextReadsBack | ui/src/app/shared/units/utils.ts:769-786 | the number before each unit word of the text is that field, and a missing word is a zero field |
| Filters.GetQueryString | ui/src/app/shared/units/utils.ts:640-653 | the loop builds the comma-joined clauses, and null for no filters |
| Filters.QueryReadsBack | ui/src/app/shared/units/utils.ts:643-649 | the text parses back to the same filters when names have no comma or equals sign and values no comma |
| Filters.DoFiltering | ui/src/app/shared/units/utils.ts:198-226 | narrowing filter by filter leaves exactly the items that pass all filters, in order |
| Filters.DottedProperty | ui/src/app/shared/units/utils.ts:212-218 | a dotted property selects the rows whose list has a record with exactly the value |
| Filters.LaterDotsAreMoot | ui/src/app/shared/units/utils.ts:212-218 | what follows a second dot is ignored |
| Filters.PlainProperty | ui/src/app/shared/units/utils.ts:219-221 | a property without a dot keeps exactly the rows whose column the pattern accepts |
| Filters.FilterOrderIsMoot | ui/src/app/shared/units/utils.ts:210-223 | the order of the filters does not matter |
| Filtering.FilterPartition | ui/src/app/shared/units/utils.ts:211-222 | filtering keeps order, adds nothing and misses nothing that passes |
| UnitOfWorkModel.Database.Begin | pkg/db/gorm/unit_work.go:81-86 | a new transaction with the next id, open unless beginning failed |
| UnitOfWorkModel.Database.Save | pkg/db/gorm/unit_work.go:98 | a save joins the pending writes of an open transaction, or fails and writes nothing |
| UnitOfWorkModel.Database.Commit | pkg/db/gorm/unit_work.go:45-47 | a commit, on the handle too, makes all pending writes durable at once, or ends the transaction without writing |
| UnitOfWorkModel.Database.Rollback | pkg/db/gorm/unit_work.go:49-51 | a rollback, on the handle too, ends an open transaction and drops its writes; an ended one is left alone |
| UnitOfWorkModel.UnitOfWork.Current | pkg/db/gorm/unit_work.go:69-71 | the current transaction, or a nil pointer inside the interface |
| UnitOfWorkModel.UnitOfWork.IsHasActive | pkg/db/gorm/unit_work.go:73-75 | whether a transaction is current, ended or not |
| UnitOfWorkModel.UnitOfWork.Begin | pkg/db/gorm/unit_work.go:77-83 | refused with nil and no change when a transaction is current, otherwise a new current one |
| UnitOfWorkModel.UnitOfWork.SaveChange | pkg/db/gorm/unit_work.go:85-113 | begins its own transaction, saves the arguments, and rolls back on the first error |
| UnitOfWorkModel.UnitOfWork.SaveEach | pkg/db/gorm/unit_work.go:92-111 | the two nested loops with their early exits save the one-level flattening of the arguments, nil ones skipped, up to the first failure |
| UnitOfWorkModel.UnitOfWork.Rollback | pkg/db/gorm/unit_work.go:115-121 | rolls back and clears the current transaction, if any |
| UnitOfWorkModel.UnitOfWork.Commit | pkg/db/gorm/unit_work.go:123-152 | all branches: no transaction, nil dereference, not current, failed save, failed commit, success |
| UnitOfWorkLaws.RunsAreSafe | pkg/db/gorm/unit_work.go:77-152 | over every run of the unit of work and its handles, and every fault schedule, the durable writes are the initial ones followed by the complete batches of the successful commits in order, no transaction is committed twice, and at most the current transaction is open |
| UnitOfWorkLaws.StepKeepsInv | pkg/db/gorm/unit_work.go:77-152 | each single call keeps the invariant behind it |
| UnitOfWorkLaws.FailureEndsTheTransaction | pkg/db/gorm/unit_work.go:115-151 | in every reachable state a Rollback, and a failing Commit of the current transaction, leave nothing open, nothing written, and IsHasActive false |
| UnitOfWorkLaws.CommitEffect | pkg/db/gorm/unit_work.go:132-151 | everything a Commit that names a transaction can do to the store, outcome by outcome |
| UnitOfWorkLaws.CommittedStaysCurrent | pkg/db/gorm/unit_work.go:147-151 | a successful Commit leaves its ended transaction current: Begin is refused, and committing again fails, writes nothing and clears it |
| UnitOfWorkLaws.HandleEffect | pkg/db/gorm/unit_work.go:45-51 | Commit and Rollback on a handle end its own transaction if that is open, and touch nothing else |
| UnitOfWorkLaws.EndedByHandleStaysCurrent | pkg/db/gorm/unit_work.go:45-51 | the unit of work is not told: the ended transaction stays current, Begin is refused, and a Commit of it fails, writes nothing and clears it |
| UnitOfWorkLaws.SaveChangeAllOrNothing | pkg/db/gorm/unit_work.go:85-113 | on success the flattened arguments are pending in the new transaction, on failure it is ended and empty; nothing else moves |
| UnitOfWorkLaws.CommitWithoutTransaction | pkg/db/gorm/unit_work.go:124-131 | Commit(nil) saves its arguments as they are, nil ones included, and makes nothing durable |
| UnitOfWorkLaws.PrivateTxFrozen | pkg/db/gorm/unit_work.go:86-112 | no later call ever ends a transaction that SaveChange left open, so its writes never become durable |
| UnitOfWorkFaults.CommitOutcome | pkg/db/gorm/unit_work.go:123-152 | every outcome of Commit by its cause: which argument, which state, and which fault |
| UnitOfWorkFaults.CommitDoneExactly | pkg/db/gorm/unit_work.go:139-151 | committing the current transaction works exactly when it is open and no fault strikes its saves or the commit; then its writes and the arguments are durable |
| UnitOfWorkFaults.FaultlessRunCommits | pkg/db/gorm/unit_work.go:77-152 | Begin, writes through the handle and a Commit without faults make exactly these writes durable, in order |
| UnitOfWorkFaults.SaveChangeExactly | pkg/db/gorm/unit_work.go:85-113 | SaveChange works exactly when beginning and all saves meet no fault, or there is nothing to save |
| UnitOfWorkFaults.SavedExactly | pkg/db/gorm/unit_work.go:92-111 | it leaves plain arguments pending as they are, nothing for nil, and the items for a list |
| UnitOfWorkFaults.SavedInOrder | pkg/db/gorm/unit_work.go:92-111 | several arguments are saved one after the other |
| UnitOfWorkFaults.BeginExactly | pkg/db/gorm/unit_work.go:77-83 | Begin opens a new transaction exactly when none is current and no fault strikes |
| UnitOfWorkFaults.HandleWorksExactly | pkg/db/gorm/unit_work.go:45-47 | a write and a commit on a handle work exactly in an open transaction without a fault |
| UnitOfWorkFaults.RollbackExactly | pkg/db/gorm/unit_work.go:115-121 | Rollback clears the current transaction and ends it if open; without one it changes nothing |
| Paging.PagedListRequest.InitPage | pkg/message/pagination.go:52-60 | defaults for non-positive fields and the wrapped 64-bit offset |
| Paging.PagedListResult.SetTotal | pkg/message/pagination.go:31-44 | the page count for a positive total; a total below one changes nothing |
| Paging.Expression.And | pkg/db/expression.go:39-41 | appends one clause |
| Paging.Repository.Queryable | pkg/db/gorm/repository.go:167-176 | narrowing clause by clause leaves the rows that satisfy every clause, in order |
| Paging.Repository.GetPageList | pkg/db/gorm/repository.go:102-123 | the requested window of the matching rows with their total, or an error |
| Paging.CountMeaning | pkg/message/pagination.go:36-43 | the page count is the least number of pages that hold the total |
| Paging.RawSizeExactly | pkg/message/pagination.go:36-38 | with the size as stored the count fits the fetched pages exactly when it is positive or there is at most one row |
| Paging.PageContents | pkg/message/pagination.go:31-60 | within the count page i holds rows (i-1)*size up to i*size: all but the last are full, the last is not empty |
| Paging.PagesPartition | pkg/message/pagination.go:31-60 | pages 1..PageCount, concatenated, are exactly the matching rows |
| Paging.Repository.FetchPage | pkg/db/gorm/repository.go:102-123 | InitPage, GetPageList and SetTotal in a row answer the requested page of the matching rows and their page count |
| Paging.Repository.FetchAll | pkg/db/gorm/repository.go:102-176 | a caller that fetches page after page up to the page count reads exactly the rows that satisfy every clause, in order |
| Paging.PastTheEndExactly | pkg/message/pagination.go:52-60 | a later page is empty exactly when there are no rows or its wrapped offset still lies behind them; without overflow it is empty |
| Paging.PastTheEndWraps | pkg/message/pagination.go:52-60 | the offset does wrap: page 2^62 + 1 of size 4 is page 1 |
| Paging.DefaultPage | pkg/message/pagination.go:17-60 | a request without page fields is answered by the first ten rows |
| Paging.WindowRows | pkg/db/gorm/repository.go:117 | the answer holds the rows from the offset on, as many as the limit allows |
| Paging.ClausesSelect | pkg/db/gorm/repository.go:167-176 | a row is in the answer exactly when it is in the table and satisfies every clause |
| LogFields.HandleFields | pkg/log/log.go:150-196 | the fields of the longest valid prefix followed by the additional ones; at most one complaint, of the right kind, and none exactly for complete pairs with string keys |
| LogFields.Stops | pkg/log/log.go:161-192 | the place where the loop breaks is the end of the longest valid prefix |
| LogFields.LongestIsUnique | pkg/log/log.go:161-192 | there is only one longest valid prefix, so the fields are determined |
| LogFields.ComplaintsExactly | pkg/log/log.go:161-191 | each complaint by its cause: a typed field, a single last argument, or a key that is no string |
| LogFields.PairsReadBack | pkg/log/log.go:177-192 | the fields read back as the arguments of that prefix, in order |

## Left out

- Loose equality between values of different types follows JavaScript's coercion rules; it is an arbitrary relation in `Sameness`, and every theorem holds for all of them.
- Numbers are exact and finite; infinities, signed zero, IEEE rounding and exponent notation are not modelled.
- In the comparison, property names that shadow members of `Object.prototype` (such as `constructor` or `hasOwnProperty`), getters, prototypes, dates, functions and cyclic data are not modelled.
- MergeHeap.MergeDeep: says nothing about an own key `__proto__` in a source, where the recursion would write into `Object.prototype` itself (keys are of the type `MergeTree.Key`, which leaves that name out), nor about a target that shares objects with a source or reaches one of its objects by two paths.
- SamenessNulls.NullsDecideExactly: takes arrays whose items have no null fields and no repetitions; for all others `SamenessNulls.ArraysAgree` gives the verdict and `SamenessNulls.RevealedDecide` a sufficient condition.
- The enumeration order of a merge target's keys is not modelled: the key loop of the merge is proved for every order.
- Arrays in merged values are opaque references, since the merge never enters them.
- Amounts of sizes are pairs of a number and a unit; their decimal text, and `NaN` from unparsable sizes, are not modelled.
- Lone surrogates, which JSON escapes, are outside the text model: characters are compared as they are.
- The URI encoding applied to the filter text, regular expressions in filters (an arbitrary predicate) and null filter states are not modelled.
- Several units of work sharing one database, panics inside database calls with their recovery, and concurrent use are not modelled; a nil dereference in Commit is an outcome that changes nothing.
- What a saved entity does to a table is not modelled: the store is the list of durable saves in order, of which any table content is a function. Transaction ids are fresh, and a failed commit ends its transaction.
- The ordering clause and SQL text of queries: rows come in the requested order, a clause is an arbitrary predicate, and counting and finding see the same rows.
- A Where value that is not an argument list (only possible without And) raises a type assertion error, which is not modelled.
- Insert, Update, Delete, Get, GetList, Exist and the services: single calls into the ORM.
- A field list that is cut short is reported through DPanic, which is a recorded event here: that is the mode without development checks; in development mode DPanic panics.
- The gin server, middleware, options, command-line set-up, other loggers, Angular components, sorting, cron checks and HTTP helpers: wiring without logic of its own.
