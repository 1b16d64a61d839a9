# ColgateDB core, modelled in Dafny

ColgateDB is a teaching relational database written in Java. This project
models its storage and query-execution core and proves properties of the model:

- the **buffer manager** (`BufferManagerImpl`): a bounded cache of page frames
  with pin counts and dirty flags, eviction, flushing and discarding, over a
  disk manager;
- the **lock table entry** (`LockTableEntry`): the lock mode, the holders and
  the queue of lock requests of one page;
- the **slotted page** (`SlottedPage`) and its slot iterator, and the byte
  layout of a page (`SlottedPageFormatter`): a bitmap header, fixed-width slots
  and zero padding, with ints written big-endian;
- the value types: `TupleDesc`, `Tuple`, `SimplePageId`, `RecordId`,
  `IntField`, `Type`;
- the operators `Predicate`, `Filter` and `Project`, over a child stream of
  tuples.

One Dafny module per Java class. Java exceptions become `Result`/`Status`
values carrying an `Error` kind that names the exception class. A Java object
whose fields change is a Dafny `class`; a value object is a `datatype`. Java
`int` field values, page ids, tuple numbers and hash codes are `Int32`, and the
hash codes wrap modulo 2^32 as Java's arithmetic does. Counts, sizes and
indices (pin counts, the pool size, page sizes, slot numbers) are unbounded
`int`.

The formatter's methods are stubs in the repository (`implement me!`). They are
modelled from the layout the class documents: `computePageCapacity`,
`getHeaderSize`, the bitmap order, the slot order and the zeroed tail. Both
directions of the round trip are proved: decoding an encoded page gives back
its slots, and encoding a decoded canonical page gives back its bytes.

Files:

| file | module | Java class |
|---|---|---|
| common.dfy | Common | exceptions, `int` |
| types.dfy | Types | `Type`, `Op` |
| int_field.dfy | IntFields | `IntField` |
| page_id.dfy | PageIds | `SimplePageId` |
| record_id.dfy | RecordIds | `RecordId` |
| tuple_desc.dfy | TupleDescs | `TupleDesc` |
| tuple.dfy | Tuples | `Tuple` |
| strings.dfy | Strings | `Integer.toString`, string concatenation |
| predicate.dfy | Predicates | `Predicate` |
| tuple_stream.dfy | TupleStreams | a child `DbIterator` |
| filter.dfy | Filters | `Filter` |
| project.dfy | Projects | `Project` |
| slotted_page.dfy | SlottedPages | `SlottedPage` |
| formatter.dfy | Formatter | `SlottedPageFormatter` |
| lock_table.dfy | LockTable | `LockTableEntry` |
| buffer_manager.dfy | BufferManagers | `BufferManagerImpl`, a disk manager |

## Model

| member | source | states |
|---|---|---|
| Common.Wrap32 | src/main/java/colgatedb/page/SimplePageId.java:61-64 | the 32-bit result is congruent to the exact integer modulo 2^32, as Java `int` arithmetic wraps |
| Common.Wrap32InRange | src/main/java/colgatedb/page/SimplePageId.java:61-64 | a value that fits in an `int` is unchanged by wrapping |
| Types.Len | src/main/java/colgatedb/tuple/Type.java:26-45 | `getLen`: 4 for INT, STRING_LEN + 4 for STRING; `TupleDescs.SumLenByCount` and `TupleDescs.SizeByFieldKinds` state the schema sizes it gives |
| IntFields.Compare | src/main/java/colgatedb/tuple/IntField.java:62-89 | `compare`; its meaning for each operator is stated by `IntFields.CompareMeaning` and `IntFields.LikeIsEquals` |
| IntFields.FieldEquals | src/main/java/colgatedb/tuple/IntField.java:48-50 | `equals`; stated as value equality by `IntFields.EqualsAndHash` |
| IntFields.HashCode | src/main/java/colgatedb/tuple/IntField.java:44-46 | `hashCode`; `IntFields.EqualsAndHash` states it is the value and agrees with `equals` |
| IntFields.GetType | src/main/java/colgatedb/tuple/IntField.java:96-98 | `getType`; `IntFields.EqualsAndHash` states it is INT |
| IntFields.CompareMeaning | src/main/java/colgatedb/tuple/IntField.java:62-89 | EQUALS, NOT_EQUALS, GREATER_THAN, GREATER_THAN_OR_EQ, LESS_THAN and LESS_THAN_OR_EQ each hold exactly when the two int values are so related |
| IntFields.LikeIsEquals | src/main/java/colgatedb/tuple/IntField.java:84-85 | LIKE on ints is equality |
| IntFields.ComplementaryOps | src/main/java/colgatedb/tuple/IntField.java:62-89 | NOT_EQUALS negates EQUALS; GREATER_THAN negates LESS_THAN_OR_EQ; LESS_THAN negates GREATER_THAN_OR_EQ |
| IntFields.CompareConverse | src/main/java/colgatedb/tuple/IntField.java:62-89 | a > b iff b < a; a >= b iff b <= a; equality is symmetric |
| IntFields.EqualsAndHash | src/main/java/colgatedb/tuple/IntField.java:44-50 | `equals` is value equality; equal fields have equal hash codes; the hash code is the value; the type is INT |
| PageIds.PageIdEquals | src/main/java/colgatedb/page/SimplePageId.java:73-81 | `equals`; `PageIds.EqualsIsValueEquality` states it is equality of both numbers and agrees with the hash |
| PageIds.HashCode | src/main/java/colgatedb/page/SimplePageId.java:61-64 | the hash is tableId * 37 + pgNo wrapped to 32 bits |
| PageIds.Serialize | src/main/java/colgatedb/page/SimplePageId.java:96-103 | two ints from which the constructor rebuilds the same page id |
| PageIds.EqualsIsValueEquality | src/main/java/colgatedb/page/SimplePageId.java:61-81 | `equals` is equality of both numbers, reflexive and symmetric; equal ids hash alike |
| PageIds.ToString | src/main/java/colgatedb/page/SimplePageId.java:86-88 | "x-y" of table id and page number; `PageIds.SeparatorPosition` locates the '-' and `PageIds.ToStringInjective` states that the text determines the id |
| PageIds.FindDash | src/main/java/colgatedb/page/SimplePageId.java:86-88 | the first '-' at or after a position, or the end |
| PageIds.NoDashAfterSign | src/main/java/colgatedb/page/SimplePageId.java:86-88 | a decimal integer has no '-' after its first character |
| PageIds.SeparatorPosition | src/main/java/colgatedb/page/SimplePageId.java:86-88 | in the `toString` text, the separating '-' is the first '-' after position 0 and follows the table id's digits |
| PageIds.ToStringInjective | src/main/java/colgatedb/page/SimplePageId.java:86-88 | two page ids with the same `toString` are equal |
| RecordIds.RecordIdEquals | src/main/java/colgatedb/tuple/RecordId.java:64-73 | `equals`; `RecordIds.EqualsIsValueEquality` states it is equality of page id and tuple number and agrees with the hash |
| RecordIds.HashCode | src/main/java/colgatedb/tuple/RecordId.java:84-89 | the hash is tupleno * 23 + the page id's hash, wrapped to 32 bits |
| RecordIds.EqualsIsValueEquality | src/main/java/colgatedb/tuple/RecordId.java:64-89 | `equals` is equality of page id and tuple number and is symmetric; a different field means not equal; equal record ids hash alike |
| TupleDescs.NewTupleDesc | src/main/java/colgatedb/tuple/TupleDesc.java:69-83 | fails with UnsupportedOperationException exactly when there are no types or the two arrays differ in length; otherwise item i is (typeAr[i], fieldAr[i]) |
| TupleDescs.NewUnnamedTupleDesc | src/main/java/colgatedb/tuple/TupleDesc.java:93-102 | fails exactly on an empty type array; otherwise item i is (typeAr[i], "") |
| TupleDescs.NumFields | src/main/java/colgatedb/tuple/TupleDesc.java:107-109 | `numFields`: the item count; `TupleDescs.MergeIntendedMeetsDoc` states that a merge adds the counts |
| TupleDescs.TypesOf | src/main/java/colgatedb/tuple/TupleDesc.java:199-214 | the field types in order, one per item |
| TupleDescs.GetFieldType | src/main/java/colgatedb/tuple/TupleDesc.java:119-127 | succeeds exactly for a valid index and then gives that item's type; NoSuchElementException past the end, IndexOutOfBoundsException below zero |
| TupleDescs.GetFieldName | src/main/java/colgatedb/tuple/TupleDesc.java:136-144 | succeeds exactly for a valid index and then gives that item's name; the same two exceptions otherwise |
| TupleDescs.FindName | src/main/java/colgatedb/tuple/TupleDesc.java:153-163 | the first index at or after `from` whose name matches, or none when no item there matches |
| TupleDescs.FieldNameToIndex | src/main/java/colgatedb/tuple/TupleDesc.java:153-163 | the first index carrying the name; NoSuchElementException exactly when the name is null or absent |
| TupleDescs.Size | src/main/java/colgatedb/tuple/TupleDesc.java:172-179 | `getSize`; `TupleDescs.SizeByFieldKinds` states it is 4 bytes per INT field and 132 per STRING field |
| TupleDescs.SumLenAppend | src/main/java/colgatedb/tuple/TupleDesc.java:172-179 | the summed length of two type lists joined is the sum of their summed lengths |
| TupleDescs.SumLenByCount | src/main/java/colgatedb/tuple/TupleDesc.java:172-179 | the summed length is 4 per INT plus STRING_LEN + 4 per STRING |
| TupleDescs.SizeByFieldKinds | src/main/java/colgatedb/tuple/TupleDesc.java:172-179 | `getSize` is 4 bytes per INT field plus 132 per STRING field |
| TupleDescs.TupleDescEquals | src/main/java/colgatedb/tuple/TupleDesc.java:199-214 | `equals`; `TupleDescs.EqualsIsSameTypes`, `TupleDescs.EqualsIsEquivalence` and `TupleDescs.EqualsIgnoresNames` state what it compares |
| TupleDescs.EqualsIsSameTypes | src/main/java/colgatedb/tuple/TupleDesc.java:199-214 | two schemas are equal exactly when their type lists are; equal schemas have equal sizes |
| TupleDescs.EqualsIsEquivalence | src/main/java/colgatedb/tuple/TupleDesc.java:199-214 | schema equality is reflexive, symmetric and transitive |
| TupleDescs.EqualsIgnoresNames | src/main/java/colgatedb/tuple/TupleDesc.java:199-214 | renaming every field leaves a schema equal to the original |
| TupleDescs.ItemStrings | src/main/java/colgatedb/tuple/TupleDesc.java:51-53 | one `name(type)` rendering per item, in order |
| TupleDescs.ToString | src/main/java/colgatedb/tuple/TupleDesc.java:230-242 | the loop builds the item renderings joined by ", " |
| TupleDescs.ToStringShape | src/main/java/colgatedb/tuple/TupleDesc.java:230-242 | the rendering starts with the first item's text and ends with the last's: no leading or trailing separator |
| TupleDescs.MergeAsWrittenResult | src/main/java/colgatedb/tuple/TupleDesc.java:252-268 | the outcome of the loops as written; `TupleDescs.MergeAsWritten` is proved to compute it and `TupleDescs.MergeAsWrittenBreaksDoc` shows where it breaks the documented result |
| TupleDescs.MergeIntended | src/main/java/colgatedb/tuple/TupleDesc.java:244-251 | the documented merge; `TupleDescs.Merge` is proved to compute it and `TupleDescs.MergeIntendedMeetsDoc` states its fields and size |
| TupleDescs.MergeAsWritten | src/main/java/colgatedb/tuple/TupleDesc.java:252-268 | the loops as written: td1's items, then td1's first NumFields(td2) items again, or IndexOutOfBoundsException when td2 is longer |
| TupleDescs.Merge | src/main/java/colgatedb/tuple/TupleDesc.java:244-268 | the corrected loops produce td1's items followed by td2's |
| TupleDescs.MergeIntendedMeetsDoc | src/main/java/colgatedb/tuple/TupleDesc.java:244-268 | the corrected merge has td1.numFields + td2.numFields fields, td1's first and td2's after, and the sizes add |
| TupleDescs.MergeAsWrittenBreaksDoc | src/main/java/colgatedb/tuple/TupleDesc.java:260-263 | as written, merging (INT a) with (STRING b) yields two INT fields named a, and merging one field with two throws |
| Tuples.FieldString | src/main/java/colgatedb/tuple/IntField.java:40-42 | a field renders as a non-empty string ("null" when unset) |
| Tuples.FieldStringHasNoTab | src/main/java/colgatedb/tuple/IntField.java:40-42 | a rendered field contains no tab |
| Tuples.FieldStrings | src/main/java/colgatedb/tuple/Tuple.java:93-104 | one rendering per field, in order |
| Tuples.Tuple.constructor | src/main/java/colgatedb/tuple/Tuple.java:39-44 | a fresh tuple of the schema's width with every field unset and no record id |
| Tuples.Tuple.Fields | src/main/java/colgatedb/tuple/Tuple.java:110-113 | the fields, one per schema item, in order |
| Tuples.Tuple.SetField | src/main/java/colgatedb/tuple/Tuple.java:61-71 | NoSuchElementException for a bad index, RuntimeException on a type mismatch, each leaving the fields unchanged; otherwise only field i changes, to f |
| Tuples.Tuple.GetField | src/main/java/colgatedb/tuple/Tuple.java:78-84 | field i, possibly unset, for a valid index; NoSuchElementException otherwise |
| Tuples.Tuple.GetRecordId | src/main/java/colgatedb/tuple/Tuple.java:118-120 | the record id, possibly null |
| Tuples.Tuple.SetRecordId | src/main/java/colgatedb/tuple/Tuple.java:127-129 | the record id becomes the argument |
| Tuples.Tuple.ToString | src/main/java/colgatedb/tuple/Tuple.java:93-104 | the loop builds the field renderings joined by tabs |
| Tuples.SetGetRoundTrip | src/main/java/colgatedb/tuple/Tuple.java:61-129 | after `setField(i, f)` on an INT field, `getField(i)` returns f; after `setRecordId(r)`, `getRecordId` returns r |
| Tuples.ToStringTabs | src/main/java/colgatedb/tuple/Tuple.java:85-104 | the rendering of n fields has exactly n - 1 tabs and does not end with a tab |
| Strings.DigitChar | src/main/java/colgatedb/tuple/IntField.java:40-42 | the character of a decimal digit |
| Strings.DigitValue | src/main/java/colgatedb/tuple/IntField.java:40-42 | the digit of a digit character, the only one that renders as it |
| Strings.NatToStringDigits | src/main/java/colgatedb/tuple/IntField.java:40-42 | a natural number renders as decimal digits only |
| Strings.IntToStringChars | src/main/java/colgatedb/tuple/IntField.java:40-42 | an integer renders as digits with a leading '-' exactly when it is negative |
| Strings.ParseNatToString | src/main/java/colgatedb/tuple/IntField.java:40-42 | reading back a rendered natural number gives the number |
| Strings.ParseIntToString | src/main/java/colgatedb/tuple/IntField.java:40-42 | reading back a rendered integer gives the integer |
| Strings.IntToStringInjective | src/main/java/colgatedb/tuple/IntField.java:40-42 | different integers render differently |
| Strings.JoinedSoFarStep | src/main/java/colgatedb/tuple/Tuple.java:95-102 | one more loop step of the concatenation keeps the partial-join invariant |
| Strings.JoinedSoFarDone | src/main/java/colgatedb/tuple/Tuple.java:95-102 | at loop exit the concatenated string is the join |
| Strings.JoinStartsWithFirst | src/main/java/colgatedb/tuple/TupleDesc.java:230-242 | a join of at least one part starts with the first part |
| Strings.JoinEndsWithLast | src/main/java/colgatedb/tuple/TupleDesc.java:230-242 | a join of at least one part ends with the last part |
| Strings.JoinAppend | src/main/java/colgatedb/tuple/Tuple.java:93-104 | joining two non-empty lists is joining their joins with one separator |
| Strings.JoinLength | src/main/java/colgatedb/tuple/Tuple.java:93-104 | a join's length is the parts' lengths plus one separator between neighbours |
| Strings.JoinCountSeparators | src/main/java/colgatedb/tuple/Tuple.java:93-104 | joining n separator-free parts with a one-character separator gives n - 1 separators |
| Predicates.Filter | src/main/java/colgatedb/operators/Predicate.java:89-92 | succeeds exactly when the field index is valid and the field is set, and then is `compare(op, operand)` on it; NoSuchElementException for a bad index, NullPointerException for an unset field |
| Predicates.NumFieldsOf | src/main/java/colgatedb/tuple/Tuple.java:39-44 | a tuple has one field per schema item |
| Predicates.Passes | src/main/java/colgatedb/operators/Predicate.java:80-92 | `filter` returning true; `Predicates.EqualsPassesOnlyItsOperand` and the example lemmas state which tuples pass |
| Predicates.EqualsPassesOnlyItsOperand | src/main/java/colgatedb/operators/Predicate.java:80-92 | an EQUALS predicate passes a tuple exactly when the field holds the operand's value |
| Predicates.GreaterThanExamples | src/main/java/colgatedb/operators/Predicate.java:80-92 | GREATER_THAN i passes i + 1 and rejects i and i - 1 |
| Predicates.LessThanOrEqExamples | src/main/java/colgatedb/operators/Predicate.java:80-92 | LESS_THAN_OR_EQ i passes i - 1 and i and rejects i + 1 |
| TupleStreams.TupleStream.constructor | src/main/java/colgatedb/operators/DbIterator.java:23-29 | a closed child over the given tuples, at the first one |
| TupleStreams.TupleStream.Open | src/main/java/colgatedb/operators/DbIterator.java:31-36 | the child is open at its first tuple |
| TupleStreams.TupleStream.Close | src/main/java/colgatedb/operators/DbIterator.java:68-71 | the child is closed and keeps its position |
| TupleStreams.TupleStream.Rewind | src/main/java/colgatedb/operators/DbIterator.java:54-59 | the child goes back to its first tuple |
| TupleStreams.TupleStream.HasNext | src/main/java/colgatedb/operators/DbIterator.java:38-43 | true exactly when open and not exhausted: false when there are no more tuples or the iterator is closed |
| TupleStreams.TupleStream.Next | src/main/java/colgatedb/operators/DbIterator.java:45-52 | the tuple under the cursor, which moves one step; NoSuchElementException, with nothing moved, when there is none or the iterator is closed |
| Filters.Verdicts | src/main/java/colgatedb/operators/Filter.java:79-85 | the predicate's outcome on each child tuple, in order |
| Filters.Scan | src/main/java/colgatedb/operators/Filter.java:79-87 | from a position, the first passing tuple, or the first predicate exception, or exhaustion when every later tuple fails the predicate; everything skipped failed it |
| Filters.ScanStep | src/main/java/colgatedb/operators/Filter.java:79-86 | one loop step: a passing tuple ends the scan there; a failing one moves the scan on by one |
| Filters.Passing | src/main/java/colgatedb/operators/Filter.java:77-99 | the passing tuples from a position on; no more than there are tuples |
| Filters.PassingSelects | src/main/java/colgatedb/operators/Filter.java:77-99 | every tuple in the passing list is a child tuple at or after the position that passes the predicate |
| Filters.Outputs | src/main/java/colgatedb/operators/Filter.java:77-99 | the specification of a run of `hasNext`/`next` (`Filters.Drain` is proved to collect it): the tuples each scan hits, in order, or the exception of the first scan that throws, which is one some tuple raised |
| Filters.ScanPassing | src/main/java/colgatedb/operators/Filter.java:77-99 | a hit at k means the passing list is the tuple at k followed by the passing list after k; exhaustion means it is empty |
| Filters.OutputsArePassing | src/main/java/colgatedb/operators/Filter.java:77-99 | `Outputs` succeeds exactly when the predicate throws on no tuple from the position on, and is then exactly the passing tuples in child order |
| Filters.Filter.constructor | src/main/java/colgatedb/operators/Filter.java:47-53 | closed, nothing pending, output schema is the child's |
| Filters.Filter.Open | src/main/java/colgatedb/operators/Filter.java:60-64 | the child is open at its start and the filter is open |
| Filters.Filter.Close | src/main/java/colgatedb/operators/Filter.java:67-70 | the child and the filter are closed |
| Filters.Filter.RewindAsWritten | src/main/java/colgatedb/operators/Filter.java:73-75 | only the child rewinds; a pending tuple stays pending |
| Filters.Filter.Rewind | src/main/java/colgatedb/operators/Filter.java:73-75 | the corrected rewind: the child rewinds and nothing is pending |
| Filters.Filter.HasNext | src/main/java/colgatedb/operators/Filter.java:78-88 | true at once when a tuple is pending; false while closed or exhausted; otherwise the outcome of scanning the child's verdicts from the cursor: a hit leaves that tuple pending with the cursor just past it, exhaustion leaves the cursor at the end, and a predicate exception propagates |
| Filters.Filter.Seek | src/main/java/colgatedb/operators/Filter.java:79-87 | the loop of `hasNext`, from nothing pending, ends as the scan of the verdicts says |
| Filters.Filter.Pull | src/main/java/colgatedb/operators/Filter.java:80-85 | one loop step: the child's next tuple becomes the candidate, and it is pending exactly when it passes |
| Filters.Filter.Next | src/main/java/colgatedb/operators/Filter.java:91-99 | a pending tuple is returned first; otherwise the scan's hit, or NoSuchElementException on exhaustion, or the predicate's exception; whatever is returned passes the predicate, and nothing is pending afterwards |
| Filters.Filter.SetChildren | src/main/java/colgatedb/operators/Filter.java:107-112 | DbException unless there is exactly one child, which then replaces the old one |
| Filters.After | src/test/java/colgatedb/operators/OperatorTestUtility.java:138-150 | a run's result once some tuples are collected: those tuples followed by the rest's, or the rest's exception |
| Filters.AfterScan | src/main/java/colgatedb/operators/Filter.java:77-99 | one more round of `hasNext`/`next`: a scan hit adds that tuple to what is collected, exhaustion ends the run with what is collected, an exception ends it with that exception |
| Filters.Drain | src/test/java/colgatedb/operators/OperatorTestUtility.java:138-150 | calling `hasNext`, then `next` while it says true, on a filter with nothing pending collects exactly `Outputs` of the child's verdicts from the child's position, or nothing over a closed child |
| Filters.OpenAndDrain | src/main/java/colgatedb/operators/Filter.java:60-99 | opening a filter over a fresh child and running it to the end collects `Outputs` from the first tuple |
| Filters.FilterRun | src/main/java/colgatedb/operators/Filter.java:60-99 | such a run succeeds exactly when the predicate throws on no tuple, and then hands out exactly the passing tuples in the child's order |
| Filters.HasNextBeforeOpen | src/main/java/colgatedb/operators/Filter.java:47-53 | a new filter reports no next tuple before `open` |
| Filters.RewindAsWrittenReplays | src/main/java/colgatedb/operators/Filter.java:73-99 | with two passing tuples a, b: open, next (a), hasNext, rewind, next gives b, not a |
| Filters.RewindRestarts | src/main/java/colgatedb/operators/Filter.java:73-99 | the same calls with the corrected rewind give a again |
| Projects.ProjectedNames | src/main/java/colgatedb/operators/Project.java:55-60 | the child's field names at the listed ids, in order; fails exactly when an id is out of range, with the exception of one such id |
| Projects.ProjectedNamesFailureSticks | src/main/java/colgatedb/operators/Project.java:58-60 | once the loop over ids has thrown, a longer prefix throws the same |
| Projects.BuildSchema | src/main/java/colgatedb/operators/Project.java:51-63 | the constructor's schema: a bad id throws as `getFieldName` does; otherwise UnsupportedOperationException exactly when there are no types or the counts differ; else field i has types[i] and the name of child field fieldList[i] |
| Projects.FieldFor | src/main/java/colgatedb/operators/Project.java:96-98 | the child field to copy: NoSuchElementException for a bad id, NullPointerException when it is unset, RuntimeException when its type differs from the output type; else the field |
| Projects.ProjectFields | src/main/java/colgatedb/operators/Project.java:96-98 | all output fields copied in order, each the child's field at its id; fails exactly when some copy fails, with that copy's exception |
| Projects.ProjectFieldsFailureSticks | src/main/java/colgatedb/operators/Project.java:96-98 | once a copy has thrown, copying more fields throws the same |
| Projects.ProjectAllIsIdentity | src/main/java/colgatedb/operators/Project.java:88-100 | projecting every field of a fully set INT tuple in its own order gives back its fields |
| Projects.Project.constructor | src/main/java/colgatedb/operators/Project.java:51-63 | closed, with the given schema, ids and child |
| Projects.Project.Open | src/main/java/colgatedb/operators/Project.java:69-73 | the child is open at its start and the projection is open |
| Projects.Project.Close | src/main/java/colgatedb/operators/Project.java:75-78 | the child and the projection are closed |
| Projects.Project.Rewind | src/main/java/colgatedb/operators/Project.java:80-82 | the child rewinds |
| Projects.Project.HasNext | src/main/java/colgatedb/operators/Project.java:84-86 | true exactly when open and the child has a next tuple |
| Projects.Project.Next | src/main/java/colgatedb/operators/Project.java:88-100 | NoSuchElementException with nothing moved when there is no next tuple; otherwise the child advances one tuple, and the result is a fresh tuple of the output schema with the child's record id and the projected fields, or the copy's exception |
| Projects.Project.SetChildren | src/main/java/colgatedb/operators/Project.java:109-114 | DbException unless there is exactly one child, which then replaces the old one |
| Projects.CopyFields | src/main/java/colgatedb/operators/Project.java:96-98 | the copy loop succeeds exactly when the projection does, with the same exception, and then the output fields are the projected fields |
| Projects.NewProject | src/main/java/colgatedb/operators/Project.java:46-63 | a closed projection whose schema is as built by the constructor, or the constructor's exception |
| SlottedPages.CountEmpty | src/main/java/colgatedb/page/SlottedPage.java:112-120 | the number of empty slots, at most the number of slots |
| SlottedPages.CountEmptyUpdate | src/main/java/colgatedb/page/SlottedPage.java:145-207 | filling or emptying one slot moves the empty count by exactly one |
| SlottedPages.FirstEmptyFrom | src/main/java/colgatedb/page/SlottedPage.java:172-180 | the first empty slot at or after a position, all before it full; or none when all are full |
| SlottedPages.FirstEmptyIffCount | src/main/java/colgatedb/page/SlottedPage.java:167-184 | there is no empty slot from a position on exactly when the empty count there is zero |
| SlottedPages.UsedFrom | src/main/java/colgatedb/page/SlottedPage.java:229-256 | the used slot numbers from a position, each in range and used |
| SlottedPages.UsedFromExact | src/main/java/colgatedb/page/SlottedPage.java:229-256 | the list is increasing and holds every used slot from the position |
| SlottedPages.UsedFromCount | src/main/java/colgatedb/page/SlottedPage.java:229-256 | the list has one entry per used slot |
| SlottedPages.SlottedPage.constructor | src/main/java/colgatedb/page/SlottedPage.java:52-59 | a page with the given id, schema and size, all of whose slots are empty |
| SlottedPages.SlottedPage.IsSlotUsed | src/main/java/colgatedb/page/SlottedPage.java:87-89 | true exactly when the slot holds a tuple; index out of bounds otherwise |
| SlottedPages.SlottedPage.IsSlotEmpty | src/main/java/colgatedb/page/SlottedPage.java:96-98 | true exactly when the slot holds no tuple; index out of bounds otherwise |
| SlottedPages.SlottedPage.GetNumEmptySlots | src/main/java/colgatedb/page/SlottedPage.java:112-120 | the loop counts the empty slots |
| SlottedPages.SlottedPage.GetTuple | src/main/java/colgatedb/page/SlottedPage.java:127-132 | the slot's tuple; PageException for an empty slot; index out of bounds otherwise |
| SlottedPages.SlottedPage.InsertTupleAt | src/main/java/colgatedb/page/SlottedPage.java:145-155 | PageException for a used slot or a different schema, changing nothing; otherwise only that slot changes, to t, t's record id names this page and slot, and one fewer slot is empty |
| SlottedPages.SlottedPage.InsertTuple | src/main/java/colgatedb/page/SlottedPage.java:167-184 | PageException for a different schema or a full page, changing nothing; otherwise t goes into the first empty slot, its record id names it, and one fewer slot is empty |
| SlottedPages.SlottedPage.DeleteTuple | src/main/java/colgatedb/page/SlottedPage.java:194-207 | PageException when t has no record id, names another page, or names an empty slot, and index out of bounds for a slot number outside the page, each changing nothing; otherwise that slot is emptied and t's record id cleared |
| SlottedPages.SlottedPage.Iterator | src/main/java/colgatedb/page/SlottedPage.java:216-219 | a fresh iterator whose remaining slots are all the used slots in order |
| SlottedPages.SlotIterator.constructor | src/main/java/colgatedb/page/SlottedPage.java:225-227 | starts at slot 0 |
| SlottedPages.SlotIterator.HasNext | src/main/java/colgatedb/page/SlottedPage.java:230-246 | skipping empty slots changes nothing remaining; true exactly when a used slot remains, and then the index is on it |
| SlottedPages.SlotIterator.Next | src/main/java/colgatedb/page/SlottedPage.java:249-256 | the next used slot's tuple, which is consumed; NoSuchElementException when none remains |
| SlottedPages.SlotIterator.Remove | src/main/java/colgatedb/page/SlottedPage.java:259-263 | always UnsupportedOperationException |
| SlottedPages.IterateAll | src/main/java/colgatedb/page/SlottedPage.java:216-256 | draining the iterator yields exactly the tuples of the used slots, in slot order, as many as there are non-empty slots |
| SlottedPages.InsertThenDelete | src/main/java/colgatedb/page/SlottedPage.java:167-207 | inserting a tuple and deleting it again restores the page's slots and the empty count |
| Formatter.Capacity | src/main/java/colgatedb/page/SlottedPageFormatter.java:57-69 | the largest n with n * (8 * tuple size + 1) <= 8 * pageSize |
| Formatter.HeaderSize | src/main/java/colgatedb/page/SlottedPageFormatter.java:71-80 | ceiling(numSlots / 8): the fewest bytes with a bit per slot |
| Formatter.CapacityFits | src/main/java/colgatedb/page/SlottedPageFormatter.java:57-80 | the header and the slots of a page at capacity fit in the page |
| Formatter.CapacityExamples | src/main/java/colgatedb/page/SlottedPageFormatter.java:57-80 | capacities and header sizes for small INT and INT/STRING schemas |
| Formatter.SlotUsed | src/main/java/colgatedb/page/SlottedPageFormatter.java:126-134 | `isSlotUsed`; `Formatter.HeaderByteExamples` checks it against the documented header byte and `Formatter.HeaderBits` states it of a built header |
| Formatter.MarkBit | src/main/java/colgatedb/page/SlottedPageFormatter.java:136-144 | bit k of the byte is set to `used` |
| Formatter.MaskDisjoint | src/main/java/colgatedb/page/SlottedPageFormatter.java:38-45 | different slots of a byte use different bits |
| Formatter.MarkBitOthers | src/main/java/colgatedb/page/SlottedPageFormatter.java:136-144 | setting one bit leaves the other seven as they were |
| Formatter.SameBitsSameByte | src/main/java/colgatedb/page/SlottedPageFormatter.java:35-45 | a header byte is determined by its eight slot bits |
| Formatter.Marked | src/main/java/colgatedb/page/SlottedPageFormatter.java:136-144 | marking slot i in a header sets its bit to `isUsed` and keeps the header's length |
| Formatter.MarkedOthers | src/main/java/colgatedb/page/SlottedPageFormatter.java:136-144 | marking slot i leaves every other slot's bit unchanged |
| Formatter.MarkSlot | src/main/java/colgatedb/page/SlottedPageFormatter.java:136-144 | the header array afterwards is the marked header |
| Formatter.HeaderByteExamples | src/main/java/colgatedb/page/SlottedPageFormatter.java:38-45 | the documented byte 10010110 marks exactly slots 1, 2, 4 and 7 |
| Formatter.HeaderBits | src/main/java/colgatedb/page/SlottedPageFormatter.java:35-45 | in the header built from the used flags, a slot's bit is set exactly when the slot is used; bits past the last slot are clear |
| Formatter.HeaderDeterminedByBits | src/main/java/colgatedb/page/SlottedPageFormatter.java:35-45 | a header of the right length with exactly the used slots' bits set is the built header |
| Formatter.TwosComplement | src/main/java/colgatedb/page/SlottedPageFormatter.java:82-102 | an `int` as its unsigned 32-bit pattern |
| Formatter.EncodeInt | src/main/java/colgatedb/page/SlottedPageFormatter.java:82-102 | an `int` as 4 big-endian bytes |
| Formatter.DecodeInt | src/main/java/colgatedb/tuple/Type.java:32-39 | the INT field's `parse` through `readInt`; `Formatter.DecodeEncodeInt` and `Formatter.EncodeDecodeInt` state it inverts `Formatter.EncodeInt` both ways |
| Formatter.DecodeEncodeInt | src/main/java/colgatedb/page/SlottedPageFormatter.java:82-123 | reading back 4 written bytes gives the `int` |
| Formatter.EncodeDecodeInt | src/main/java/colgatedb/page/SlottedPageFormatter.java:82-123 | writing back a read `int` gives the 4 bytes |
| Formatter.UnsignedOfBigEndian | src/main/java/colgatedb/page/SlottedPageFormatter.java:82-123 | the big-endian bytes of a number read back as the number |
| Formatter.BigEndianOfUnsigned | src/main/java/colgatedb/page/SlottedPageFormatter.java:82-123 | bytes read as a number and written back are the same bytes |
| Formatter.EncodeInts | src/main/java/colgatedb/page/SlottedPageFormatter.java:47-51 | a tuple's fields as 4 bytes each, in order |
| Formatter.DecodeEncodeInts | src/main/java/colgatedb/page/SlottedPageFormatter.java:47-123 | reading back the written fields gives the fields |
| Formatter.EncodeDecodeInts | src/main/java/colgatedb/page/SlottedPageFormatter.java:47-123 | writing back the read fields gives the bytes |
| Formatter.SlotBytes | src/main/java/colgatedb/page/SlottedPageFormatter.java:47-51 | a used slot's field bytes, or tuple-size zeros for an empty slot |
| Formatter.Payload | src/main/java/colgatedb/page/SlottedPageFormatter.java:47-51 | the slots' bytes in slot order, slot count times tuple size long |
| Formatter.PayloadAt | src/main/java/colgatedb/page/SlottedPageFormatter.java:47-51 | slot k's bytes sit at offset k times the tuple size in the payload |
| Formatter.PayloadDetermined | src/main/java/colgatedb/page/SlottedPageFormatter.java:47-51 | bytes holding each slot at its offset are the payload |
| Formatter.EncodePage | src/main/java/colgatedb/page/SlottedPageFormatter.java:24-54 | the page's bytes, exactly pageSize long |
| Formatter.DecodePage | src/main/java/colgatedb/page/SlottedPageFormatter.java:24-54 | one slot per slot number, each of the schema's width |
| Formatter.EncodePageParts | src/main/java/colgatedb/page/SlottedPageFormatter.java:31-54 | a written page is the header, then the payload, then zeros |
| Formatter.DecodeEncodeSlot | src/main/java/colgatedb/page/SlottedPageFormatter.java:24-123 | every slot of a written page reads back as it was |
| Formatter.DecodeEncodePage | src/main/java/colgatedb/page/SlottedPageFormatter.java:24-123 | reading a written page gives back its slots |
| Formatter.EncodeDecodeSlot | src/main/java/colgatedb/page/SlottedPageFormatter.java:24-123 | in a canonical page, every slot's bytes are what writing its decoded slot gives |
| Formatter.EncodeDecodePage | src/main/java/colgatedb/page/SlottedPageFormatter.java:24-123 | writing a read canonical page (empty slots zeroed, tail zeroed) gives back its bytes |
| Formatter.EncodeDecodeHeader | src/main/java/colgatedb/page/SlottedPageFormatter.java:35-45 | the header built from a read canonical page is that page's header |
| Formatter.PageToBytes | src/main/java/colgatedb/page/SlottedPageFormatter.java:82-102 | the written bytes are the page's encoding |
| Formatter.WritePayload | src/main/java/colgatedb/page/SlottedPageFormatter.java:47-51 | the loop writes the payload |
| Formatter.WriteHeader | src/main/java/colgatedb/page/SlottedPageFormatter.java:35-45 | the loop writes the header from the used flags |
| Formatter.WriteSlot | src/main/java/colgatedb/page/SlottedPageFormatter.java:47-51 | the loop writes one slot's bytes |
| Formatter.BytesToPage | src/main/java/colgatedb/page/SlottedPageFormatter.java:104-123 | PageException exactly when the bytes are too short for the header and slots; otherwise the decoded slots |
| Formatter.ReadSlot | src/main/java/colgatedb/page/SlottedPageFormatter.java:104-123 | the loop reads one slot's fields |
| LockTable.RequestEquals | src/main/java/colgatedb/transactions/LockTableEntry.java:147-153 | `LockRequest.equals`; `LockTable.RequestEqualsIsValueEquality` states it is equality of tid and permission |
| LockTable.RequestEqualsIsValueEquality | src/main/java/colgatedb/transactions/LockTableEntry.java:147-153 | two requests are equal exactly when their tid and permission are |
| LockTable.RemoveFirst | src/main/java/colgatedb/transactions/LockTableEntry.java:110-113 | `List.remove(Object)`: never longer than the queue |
| LockTable.RemoveFirstMultiset | src/main/java/colgatedb/transactions/LockTableEntry.java:110-113 | removal takes out one copy of the request when it is queued and nothing otherwise |
| LockTable.FirstIndex | src/main/java/colgatedb/transactions/LockTableEntry.java:110-113 | the position of the first equal request |
| LockTable.RemoveFirstAbsent | src/main/java/colgatedb/transactions/LockTableEntry.java:110-113 | removing an absent request leaves the queue unchanged |
| LockTable.RemoveFirstCutsFirstOccurrence | src/main/java/colgatedb/transactions/LockTableEntry.java:110-113 | removal cuts out exactly the first equal request and keeps the rest in order |
| LockTable.Enqueue | src/main/java/colgatedb/transactions/LockTableEntry.java:96-105 | an upgrade goes to the front; otherwise the request is appended unless already queued |
| LockTable.EnqueueKeepsNoDuplicates | src/main/java/colgatedb/transactions/LockTableEntry.java:96-105 | a non-upgrade request keeps a duplicate-free queue duplicate-free and is then queued exactly once |
| LockTable.CutKeepsNoDuplicates | src/main/java/colgatedb/transactions/LockTableEntry.java:110-113 | cutting one entry out of a duplicate-free queue keeps it duplicate-free and leaves no copy of that entry |
| LockTable.RemoveFirstFromNoDuplicates | src/main/java/colgatedb/transactions/LockTableEntry.java:110-113 | in a duplicate-free queue, removal leaves no copy of the request |
| LockTable.LockTableEntry.constructor | src/main/java/colgatedb/transactions/LockTableEntry.java:33-38 | no lock mode, no holders, no requests |
| LockTable.LockTableEntry.GetNextTransaction | src/main/java/colgatedb/transactions/LockTableEntry.java:64-67 | the tid of the first request; IndexOutOfBoundsException on an empty queue |
| LockTable.LockTableEntry.ReleaseLock | src/main/java/colgatedb/transactions/LockTableEntry.java:72-77 | tid no longer holds the lock; the mode is cleared when no holder is left and kept otherwise; the queue is unchanged |
| LockTable.LockTableEntry.SetLock | src/main/java/colgatedb/transactions/LockTableEntry.java:82-90 | tid holds the lock in mode perm and its first matching request leaves the queue |
| LockTable.LockTableEntry.AddRequest | src/main/java/colgatedb/transactions/LockTableEntry.java:96-105 | the queue becomes Enqueue of the request; holders and mode are unchanged |
| LockTable.LockTableEntry.ReleaseRequest | src/main/java/colgatedb/transactions/LockTableEntry.java:110-113 | the first matching request leaves the queue; holders and mode are unchanged |
| BufferManagers.AfterWrite | src/main/java/colgatedb/BufferManagerImpl.java:93 | the disk stores the written bytes under the page id, keeps every other page, and logs the write |
| BufferManagers.AfterRead | src/main/java/colgatedb/BufferManagerImpl.java:54 | a read changes nothing stored and logs the read |
| BufferManagers.Disk.constructor | src/main/java/colgatedb/BufferManagerImpl.java:30-41 | the stand-in for the disk manager `dm` the buffer manager is given: a disk holding the given pages with empty logs |
| BufferManagers.Disk.ReadPage | src/main/java/colgatedb/BufferManagerImpl.java:54 | the stored page, or an error for a page never written; the read is logged |
| BufferManagers.Disk.WritePage | src/main/java/colgatedb/BufferManagerImpl.java:93 | the page's bytes are stored and the write is logged |
| BufferManagers.Without | src/main/java/colgatedb/BufferManagerImpl.java:117 | the cache minus the victim, if any |
| BufferManagers.BufferManager.constructor | src/main/java/colgatedb/BufferManagerImpl.java:39-42 | an empty cache over the given disk, dirty pages not evictable |
| BufferManagers.BufferManager.IsDirty | src/main/java/colgatedb/BufferManagerImpl.java:132-138 | true exactly when the page is cached and its frame is dirty |
| BufferManagers.BufferManager.InBufferPool | src/main/java/colgatedb/BufferManagerImpl.java:141-144 | true exactly when the page is cached |
| BufferManagers.BufferManager.GetFrame | src/main/java/colgatedb/BufferManagerImpl.java:148-156 | the page's frame, or BufferManagerException when it is not cached |
| BufferManagers.BufferManager.GetPage | src/main/java/colgatedb/BufferManagerImpl.java:159-167 | the cached page, whose id is the one asked for, or BufferManagerException |
| BufferManagers.BufferManager.EvictDirty | src/main/java/colgatedb/BufferManagerImpl.java:107-109 | the flag is set; the cache is unchanged |
| BufferManagers.BufferManager.Evict | src/main/java/colgatedb/BufferManagerImpl.java:111-123 | succeeds exactly when some frame is unpinned and, unless dirty pages may go, clean; then one such frame is written to disk and removed and nothing else changes; otherwise BufferManagerException with nothing changed |
| BufferManagers.BufferManager.PinPage | src/main/java/colgatedb/BufferManagerImpl.java:46-66 | a cached page gains one pin and is returned with no disk access; a missing page is handled as MissOutcome says; the cache never exceeds numPages |
| BufferManagers.BufferManager.PinMissing | src/main/java/colgatedb/BufferManagerImpl.java:50-57 | a full cache evicts first, failing with nothing changed when it cannot; then the page is read and cached with one pin, clean, or the read's error propagates after the eviction |
| BufferManagers.BufferManager.UnpinPage | src/main/java/colgatedb/BufferManagerImpl.java:69-87 | BufferManagerException when the page is not cached or not pinned, changing nothing; otherwise one pin fewer and the dirty flag ORed with the argument |
| BufferManagers.BufferManager.FlushPage | src/main/java/colgatedb/BufferManagerImpl.java:90-97 | BufferManagerException when not cached; otherwise a dirty page is written and marked clean, and a clean one causes no write |
| BufferManagers.BufferManager.FlushAllPages | src/main/java/colgatedb/BufferManagerImpl.java:100-104 | every frame is clean afterwards, the disk stores every dirty page's bytes, and exactly the dirty pages are written, each once |
| BufferManagers.BufferManager.DiscardPage | src/main/java/colgatedb/BufferManagerImpl.java:170-174 | the page leaves the cache without being written; an uncached page changes nothing |
| BufferManagers.AfterEvict | src/main/java/colgatedb/BufferManagerImpl.java:111-123 | the victim's page is written whether or not it is dirty |
| BufferManagers.MissAfterRead | src/main/java/colgatedb/BufferManagerImpl.java:50-57 | the states after evicting then reading satisfy MissOutcome |
| BufferManagers.PageData | src/main/java/colgatedb/BufferManagerImpl.java:100-104 | every cached page's bytes, by id |
| BufferManagers.MarkClean | src/main/java/colgatedb/BufferManagerImpl.java:90-104 | the listed frames become clean; pages and pin counts are unchanged |
| BufferManagers.StoreAll | src/main/java/colgatedb/BufferManagerImpl.java:90-104 | the listed pages' bytes are stored; every other stored page is kept |
| BufferManagers.MarkCleanStep | src/main/java/colgatedb/BufferManagerImpl.java:100-104 | flushing one more page marks one more frame clean |
| BufferManagers.StoreAllStep | src/main/java/colgatedb/BufferManagerImpl.java:100-104 | flushing one more dirty page stores one more page |
| BufferManagers.FlushProgressStart | src/main/java/colgatedb/BufferManagerImpl.java:100-104 | before the loop, nothing has been flushed |
| BufferManagers.FlushProgressStep | src/main/java/colgatedb/BufferManagerImpl.java:100-104 | flushing one more page keeps the loop's account of what is clean, stored and written |
| BufferManagers.FlushProgressEnd | src/main/java/colgatedb/BufferManagerImpl.java:100-104 | after the loop, every frame is clean and exactly the dirty pages have been stored and written once each |

## Left out

- Concurrency. The `synchronized` methods of the buffer manager run one at a time, as the model's methods do.
- The eviction queue of `BufferManagerImpl` is left out. The code appends to it on every pin and never reads it.
- BufferManagers.BufferManager.Evict: the order of a `HashMap` key set is not known, so the victim is any eligible frame rather than the first in hash order.
- Pages are byte values, not objects. A client changing a pinned page in place is not modelled, and neither is `allocatePage`.
- The disk manager is a stand-in that stores bytes and logs reads and writes. `DiskManagerImpl` and the page makers are not part of this model.
- SlottedPages.SlottedPage.constructor takes the slot count as a parameter. `getNumSlots` delegates to the formatter's stub; `Formatter.Capacity` gives the documented value.
- The before-image of a page and its logging (`getBeforeImage`, `setBeforeImage`) are left out; `getPageData`/`setPageData` are `Formatter.PageToBytes`/`Formatter.BytesToPage`.
- Formatter.PageToBytes and `Formatter.BytesToPage` work on slot images: a sequence of optional int lists. STRING fields are not encoded; only INT fields are. Java's signed `byte` is `bv8`.
- Formatter.BytesToPage rejects bytes too short for the header and slots up front. Java's stream would throw part way through.
- BufferManagers.Frame.pinCount is unbounded: Java's `int` pin count would wrap to a negative value after 2^31 - 1 pins of one page, and the frame would then pass `evict`'s `pinCount <= 0` test while still pinned. The model's non-negative pin count assumes that never happens.
- BufferManagers.BufferManager.constructor and SlottedPages.SlottedPage.constructor take the pool size and the page size as unbounded `int`; Java `int` overflow in arithmetic on them is not modelled.
- Formatter.Capacity does not model an overflow of `pageSize * 8` in Java `int` arithmetic.
- The private helpers `isSlotUsed(i, header)` and `markSlot` are modelled on a header value (`Formatter.SlotUsed`, `Formatter.Marked`) and on a header array (`Formatter.MarkSlot`).
- `Type.parse`, `Field.serialize` for strings and `StringField` are left out: fields are INT only.
- TupleDesc.hashCode always throws `UnsupportedOperationException` and is left out. So is `TupleDesc.iterator`, which only hands out the items.
- Tuples.Tuple.constructor requires a well-formed schema. The source leaves the data array null for a schema with no fields, which `TupleDesc`'s constructors never build.
- `LockTableEntry.toString`, `Predicate.toString`, `getLockType`, `getLockHolders` and `getRequests` are left out; the last three read a field.
- `LockManagerImpl`, `AccessManagerImpl`, `HeapFile`, `Join`, `Aggregate`, `Insert`, `Delete`, `SeqScan`, `OrderBy` and the transaction id counter are not part of this model.
- The child operator is `TupleStreams.TupleStream`, a stand-in for a `DbIterator` over a fixed list of tuples. It never yields null, so `Filter.hasNext`'s null check has no case to skip.
- `getChildren`, `getPredicate` and `getTupleDesc` are left out as members: the predicate and schema are `const` fields.
- Filters.Filter.HasNext: the loop of `hasNext` is written as `Filters.Filter.Seek`, which calls `Filters.Filter.Pull` for each step.
- Projects.NewProject models both constructors. The `ArrayList<Type>` form only converts to an array, and a constructor's exception is returned as a failed `Result`.
- Predicates.Filter: the operand is an `IntField`, the only field kind modelled.

## Findings

| source | as written | input that shows it | evidently intended | confidence | as-written member | corrected member |
|---|---|---|---|---|---|---|
| src/main/java/colgatedb/tuple/TupleDesc.java:261 | the second loop of `merge` reads `td1`'s items where it should read `td2`'s | td1 = (INT a), td2 = (STRING b): the result is (INT a, INT a). td1 = (INT a), td2 = (INT, INT): IndexOutOfBoundsException | td1's fields followed by td2's, as the method's documentation says | high, not executed | TupleDescs.MergeAsWrittenBreaksDoc | TupleDescs.MergeIntendedMeetsDoc |
| src/main/java/colgatedb/operators/Filter.java:73-75 | `rewind` rewinds the child but keeps `found` and the pending tuple | child [a, b], both passing: open, next (a), hasNext (b pending), rewind, next returns b instead of a | rewinding restarts the output, so nothing stays pending | medium, not executed | Filters.RewindAsWrittenReplays | Filters.RewindRestarts |
