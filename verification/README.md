# Verification of the SQL processor with a B+ tree id index

This project models the SQL processor in Dafny 4.11 and proves what its parts promise. `dafny verify dfyconfig.toml`
checks everything.

- **B+ tree** (`BPTreeModel`, `BPTreeOrder`, `BPTreeFill`, `BPTreeMemory`, `BPTreeChain`, `BPTree`). The heap-allocated
  tree is modelled as it is: nodes with key, row and child arrays, parent pointers, `next` links between leaves, and the
  mutual recursion of `bptree_insert_into_parent` and `bptree_split_internal`. Each call of these two starts in a memory
  that is sound but for one pending right sibling, and moves that spot one level up. `BPTreeModel.Insert` describes the
  same insertion from the root down, on plain trees; the pointer code refines it, and the laws are proved about it.
- **The words of the laws** (`Reference`, `TextLaws`). `Reference` says without the program's functions what white space
  is, what a name in another case is, byte order by positions, the number of a text by the places of its digits, and
  what a condition asks of a cell. `TextLaws` proves that the basic functions mean just this, and the laws of the other
  parts are stated in these words.
- **Runtime table and executor** (`TableModel`, `TableRuntime`, `Executor`, `TableLaws`). `TableModel.Run` is the plain meaning of a
  list of statements: one table name, columns, a list of rows, and a look at every row for each SELECT. The executor
  with its array, its id counter and its tree gives the same answers. `TableLaws` says of each statement when it
  succeeds, what it leaves and what it answers.
- **CSV storage** (`Csv`, `CsvLaws`, `Storage`, `StorageFacts`, `StorageHistory`, `StorageLaws`, `SheetModel`,
  `StorageLimits`). A file is its sequence of characters. Reading, appending, rewriting, offsets, automatic ids and the primary key check are modelled
  on it. `SheetModel.PlainRun` is the plain meaning of a history of statements, a header and a list of rows, and the file
  follows it. `StorageLimits` holds the inputs on which a file loses what it was given.
- **Secondary index** (`RangeOrder`, `Index`, `IndexLaws`). Hash chains for equality, sorted entries and binary search for ranges.
- **Front end** (`Lexer`, `Spelling`, `Splitter`, `TokenCache`, `Parser`, `Grammar`, `SqlText`, `Shell`, `Script`). From
  the text of a file to its statements, and back: `Spelling.Lays` says how tokens are spelled, in any letter case and
  with any white space, and a text says a statement exactly if it spells its tokens.

Text is what stands before the terminating NUL, one `char` a byte, in the C locale. Allocation always succeeds. Keys
are 32-bit, ids and parsed integers 64-bit, with the cut-off of `strtoll`; overflow of `long long`, which C leaves
undefined, wraps around.

Where the code does not do what one would expect, the model follows the code:

- Values that are partly integers and partly not may have no consistent order. All range queries for values of a column
  are right exactly if no value that is no integer stands, as a string, between two integers the wrong way round
  (`Index.ColumnExact`); where three values stand in a circle, some query is wrong however the entries are arranged
  (`RangeOrder.MixedFails`), and "2", "10" and "1a" are such values (`RangeOrder.MixedCycle`).
- The hash index compares spelling where a scan compares parsed numbers; they agree exactly when no other cell parses
  as the value does (`Index.EqualsIsScan`), and not for "007" and "7" (`Index.SpellingDiffers`). Parsing cuts off, so
  different integers that lie at or beyond one end of `long long` compare as equal, and only those
  (`Text.CompareExactly`): a scan for one of them finds the others (`Index.CutOffAlike`).
- A statement that names another table drops all rows before anything else is checked (`TableModel.SwitchDrops`); a
  failed statement keeps the table exactly in the cases of `TableModel.FailureKeeps`.
- A row of one empty value is written as a blank line and is not read again, so a DELETE can lose a row it was to keep
  (`StorageLimits.BlankLost`).
- A row can be written that is too long to be read (`StorageLimits.WideRow`), and a string literal may hold a line
  break (`StorageLimits.BreakSpoils`); the INSERT is accepted, and from then on the file does not load.
- A file whose last line has no newline loads, but the row of an INSERT is glued to that line: no row is gained
  (`StorageFacts.LoadGlued`), and a header alone turns into another header (`StorageLimits.RowGlued`). So an INSERT
  into a file that loads stores its row exactly in the cases of `StorageHistory.InsertStores`.
- A first INSERT that fails leaves an empty file (`StorageLimits.EmptyFileLeft`), and a DELETE on it spoils it
  (`StorageHistory.SpoiledByDelete`).
- An id at the end of `long long` makes the next automatic id overflow; with wrap-around it can repeat one
  (`StorageLimits.AutoIdRepeats`), exactly when the ids clash as `StorageHistory.NextTaken` says, and only so do ids
  ever cease to be distinct (`SheetModel.HistoryIds`).
- The runtime table takes an unknown operator, which a text can say (`!`), for a condition that no row satisfies
  (`TextLaws.MatchesExact`); a DELETE on a file refuses it (`StorageLaws.DeleteExact`).
- `*` is a column name everywhere but at the start of a SELECT list (`Grammar.WellFormed`).

A remark: a range query and its opposite, such as `<` and `>=`, cut the sorted entries at one place, so their answers
always make up the whole index, right or wrong (`RangeOrder.AnswersComplement`).

## Model

| member | source | states |
|---|---|---|
| BPTree.LinkedTree.Insert | src/bptree.c:300-335 | from any valid tree, a valid tree: the pair of an absent key enters at its place in the sorted contents; a present key is refused and no object changes |
| BPTree.LinkedTree.Search | src/bptree.c:78-99 | finds exactly what a linear search over all stored pairs finds, for every key, also in the empty tree |
| BPTree.InsertIntoParent | src/bptree.c:125-163 | takes a memory that is sound but for one pending right sibling to a settled one whose root is the tree that root-down insertion gives |
| BPTree.SplitInternal | src/bptree.c:223-298 | splits the full parent of the pending sibling, passes the new one on, and ends with the same guarantee; recursion ends because the path to the root shrinks |
| BPTree.SplitPending | src/bptree.c:231-296 | the step itself: after it the only broken spot is the new right half, one level up |
| BPTree.RaiseRoot | src/bptree.c:135-150 | the step above the root: a new root over both halves settles the memory |
| BPTree.AdoptPending | src/bptree.c:152-159 | the step into a parent with room settles the memory |
| BPTree.SplitLeaf | src/bptree.c:165-221 | the split of a full leaf, its link into the leaf chain and the repair above it give a sound memory for the inserted tree |
| BPTree.InsertIntoLeaf | src/bptree.c:101-123 | the leaf's keys and rows become the old ones with the pair inserted at its sorted place, all else unchanged |
| BPTree.InsertIntoInternal | src/bptree.c:29-46 | the node's keys and children become the old ones with the separator and the right child inserted, and the child's parent is set |
| BPTree.FindLeaf | src/bptree.c:61-76 | follows separators to a leaf along a path of the tree |
| BPTreeOrder.FindIsLinearFind | src/bptree.c:61-99 | the separator descent never misses a stored key and never finds another |
| BPTreeOrder.InsEntries | src/bptree.c:101-123 | insertion adds one pair to the sorted contents, whatever is split |
| BPTreeOrder.InsOrdered | src/bptree.c:185-294 | after insertion every left subtree stays below and every right subtree at or above its separator, also over a split |
| BPTreeOrder.InsertCorrect | src/bptree.c:300-335 | one insertion: contents, order and equal leaf depth, with one level more exactly if the root was split |
| BPTreeChain.InsertHealthy | src/bptree.c:125-163 | insertion keeps a tree ordered, balanced and filled, and raises its height by one exactly if the root is split |
| BPTreeChain.SplitLeafPends | src/bptree.c:185-221 | splitting a leaf gives the state with one pending right sibling |
| BPTreeChain.ChainListsContents | src/bptree.c:216-220 | the chain starts at the leaf that first children lead to from the root; following `next` from there lists all stored pairs, strictly ascending |
| BPTreeChain.ChainAfterSplit | src/bptree.c:216-220 | a leaf split keeps the chain: every leaf once, in tree order |
| BPTreeChain.ParentLarger | src/bptree.c:125-163 | parent pointers lead to ever larger trees, so there is no cycle; every node but the root stands at exactly one place among all children, below its parent, so nothing is shared |
| BPTreeMemory.SplitPends | src/bptree.c:264-296 | splitting an inner node moves the pending sibling one level up and breaks nothing else |
| BPTreeMemory.AddSettles | src/bptree.c:29-46 | giving the pending sibling its place in a parent with room repairs the memory |
| BPTreeMemory.GrowSettles | src/bptree.c:135-150 | giving it its place under a new root repairs the memory |
| BPTreeFill.InsertFilled | src/bptree.c:185-294 | after every insertion each leaf but the root holds 16 to 31 keys and each inner node but the root has 16 to 32 children |
| BPTreeFill.SizeAtLeast | src/bptree.c:185-294 | a tree whose leaves are h > 0 links below the root holds at least 2 * 16^h keys |
| BPTreeFill.InsertLeaves | src/bptree.c:202-221 | insertion replaces one leaf by itself with the pair, or by its two halves, and keeps the others in order |
| BPTreeFill.AscendingFill | src/bptree.c:202-214 | keys inserted in ascending order give max(1, n / 16) leaves, all but the last with exactly 16 keys, and exactly half full nodes off the right spine |
| Text.TestEqualsIgnoreCase | src/utils.c:103-118 | true exactly for texts of one length that agree in upper case everywhere |
| Text.TestIsInteger | src/utils.c:145-167 | true exactly for digits with an optional sign |
| Text.Decimal | src/table_runtime.c:134 | the printed id is an integer literal, and parsing it gives the number back |
| Text.CompareExactly | src/utils.c:172-196 | two integers compare as the numbers they stand for if and only if these are equal or not both at or beyond the same end of `long long`; otherwise they compare as equal |
| Text.Trim | src/utils.c:54-76 | the buffer then holds its text without the white space at both ends |
| Text.SafeCopy | src/utils.c:36-49 | copies everything and succeeds if there is room, and otherwise copies what the buffer holds and fails |
| TextLaws.CharsExact | src/utils.c:64-72 | white space is exactly blank, tab, newline, vertical tab, form feed and carriage return; digits and letters are the ASCII ones |
| TextLaws.NamesExact | src/utils.c:103-118 | names are the same without regard to case exactly if they have one length and at each place one character, or one ASCII letter in both cases, which are 32 apart |
| TextLaws.FindExact | src/table_runtime.c:34-48 | the search for a column finds the first one that has the name in any case, and nothing if none has it |
| TextLaws.IntegersExact | src/utils.c:145-174 | the integer literals are an optional sign and digits; each stands for the sum of its digits by their places, cut off at -2^63 and 2^63 - 1 |
| TextLaws.DecimalExact | src/table_runtime.c:134 | the text of a number has a minus sign exactly if it is negative, and no zero in front |
| TextLaws.OrderExact | src/utils.c:201 | one string is below another exactly if they agree up to some place where the first one ends or has the smaller character; equal only if the same |
| TextLaws.MatchesExact | src/table_runtime.c:159-180 | a cell matches a condition exactly if it satisfies it: integers by number, everything else by byte order, for each of the six operators, and never for another |
| TextLaws.TrimExact | src/utils.c:54-76 | what trimming takes away is white space at the ends, and nothing white is left there |
| TableModel.ScanById | src/table_runtime.c:372-379 | scanning for an id finds the row one below it, or nothing: for every spelling, also signed, zero-padded or out of range |
| TableModel.RunNumbered | src/table_runtime.c:264-321 | in every state that a run reaches, row k carries the decimal text of k + 1 in the column `id` |
| TableModel.FailureKeeps | src/executor.c:392-502 | a statement that fails keeps the table if and only if it is a DELETE, names the active table, or finds an empty table under its own name |
| TableModel.SwitchDrops | src/table_runtime.c:249-261 | a statement that names another table drops all rows first: what it leaves and answers is what it does on an empty table |
| TableLaws.InsertExact | src/table_runtime.c:53-113 | an INSERT into a table with columns succeeds exactly if it names all but the first, in order and in any case; into an empty one exactly if it names 1 to 31 columns of fewer than 64 characters, none of them `id`; the new row holds the next id and the values in order; otherwise the table stays as it is |
| TableLaws.SelectExact | src/executor.c:416-475 | a SELECT leaves the table, and fails exactly if there is none, or a selected column is unknown, or there are rows and the column of the condition is unknown; the answer shows the first column of each name, and exactly the rows that satisfy the condition, in order |
| TableRuntime.Runtime.GetOrLoad | src/table_runtime.c:239-262 | the active table under its name in any case, or an empty one under the new name |
| TableRuntime.Runtime.ReserveIfNeeded | src/table_runtime.c:213-237 | room for one more row, the rows unchanged, and a capacity that is still an `int` below 2^30 rows |
| TableRuntime.Runtime.InitializeSchema | src/table_runtime.c:79-113 | accepts exactly 1 to 31 columns of which none is `id` and each fits, and then the columns are `id` and these |
| TableRuntime.Runtime.ValidateInsertSchema | src/table_runtime.c:53-74 | accepts exactly the table's columns without `id`, in order, in any case |
| TableRuntime.Runtime.InsertRow | src/table_runtime.c:264-321 | the new table and the outcome are those of the plain model; the index again holds exactly id k + 1 for slot k |
| TableRuntime.Runtime.IndexRow | src/table_runtime.c:309-319 | the new id is never in the tree yet, so this insertion cannot fail |
| TableRuntime.Runtime.LinearScan | src/table_runtime.c:331-389 | the slots whose cells satisfy the condition, ascending; fails exactly for an unknown column of a table with rows |
| TableRuntime.Runtime.GetRowBySlot | src/table_runtime.c:323-329 | the row in a slot, and nothing outside the table |
| TableRuntime.IndexLeaves | src/table_runtime.c:311 | the id index of n rows has max(1, n / 16) leaves |
| Executor.PrepareProjection | src/executor.c:183-227 | positions and headers of the selected columns, all if none is named; fails exactly if one is unknown |
| Executor.CanUseIdIndex | src/executor.c:305-333 | takes the index exactly for `=` on the id column of a table with rows and an integer from 0 to INT_MAX |
| Executor.IndexIsScan | src/executor.c:305-357 | where the index is taken, the linear scan selects the row one below the key, or nothing |
| Executor.CollectById | src/executor.c:338-357 | one lookup in the tree gives the selected columns of exactly that row |
| Executor.CollectByIndices | src/executor.c:233-270 | the selected columns of the rows in these slots, in order; it never fails for slots of the table |
| Executor.SelectFrom | src/executor.c:435-471 | with index or scan, the answer is that of looking at all rows |
| Executor.Execute | src/executor.c:486-502 | the table and the answer of any statement are those of the plain model |
| Executor.ExecuteAll | src/executor.c:392-502 | so are those of any run of statements |
| Csv.WriteRow | src/storage.c:524-594 | appends the values, quoted where needed, with commas between and a newline behind |
| Csv.ParseLine | src/storage.c:168-271 | the fields of a line; an error exactly if it ends inside quotes |
| Csv.RoundTrip | src/storage.c:168-271 | parsing a written row gives the row back for every non-empty list of values without a line break, and an error if a value has one |
| Csv.FieldsClean | src/storage.c:191-266 | no parsed field contains a line break |
| Csv.RewriteNoLonger | src/storage.c:524-594 | writing parsed fields again takes no more room than their line did, but for a missing newline |
| CsvLaws.FieldsExact | src/storage.c:168-271 | every line: it can be read exactly if the number of quotation marks up to its end is even; commas divide where the number before them is even; a mark belongs to a field exactly where that number is odd and another mark follows |
| CsvLaws.WrittenPlain | src/storage.c:524-594 | a value is written as it is exactly if it has no comma, quotation mark or line break |
| CsvLaws.LineExact | src/storage.c:690-700 | a line is read whole exactly if it has at most 16383 characters with its newline, or 16382 without one at the end of the file |
| CsvLaws.HeaderExact | src/storage.c:599-638 | a header is read exactly if its line is short enough, its quotation marks are even in number, and it names at most 32 columns of fewer than 64 characters |
| CsvLaws.RecordsExact | src/storage.c:690-756 | each line behind the header: unreadable if too long, passed over if it starts with a line break, otherwise the next row if its marks are even in number and its fields as many as the columns |
| CsvLaws.RowAtExact | src/storage.c:1189-1248 | what reading at any offset gives, with and without an expected number of fields |
| Storage.ReadHeader | src/storage.c:599-638 | the column names; none for an empty file; an error for a line that is too long or malformed, more than 32 columns or a name over 63 characters |
| Storage.LoadTable | src/storage.c:644-757 | columns, rows and offsets, blank lines passed over; an error as soon as one line is too long, malformed or of another width |
| Storage.ReadRowAtOffset | src/storage.c:1189-1248 | the fields of the line at an offset, if their number is as expected |
| Storage.NextAutoId | src/storage.c:456-519 | one more than the largest id of the file; an error without an id column or with an id that is no integer |
| Storage.ValidatePrimaryKey | src/storage.c:319-374 | accepts exactly a non-empty id that no row has, and any row without an id column |
| Storage.Insert | src/storage.c:914-1119 | the file after an INSERT: header and row in a new file, the row with the values in column order behind an old one, and an error in exactly the cases of the code |
| Storage.Delete | src/storage.c:798-908 | the file after a DELETE and the number of deleted rows; an error for an unknown column or operator only if there are rows |
| StorageLaws.DeleteExact | src/storage.c:380-448 | a DELETE succeeds exactly on a file that loads, and if it has no condition, or there are no rows, or the column exists and the operator is one of the six |
| StorageLaws.InsertExact | src/storage.c:1027-1088 | an INSERT into a file that is not empty succeeds exactly if there is a header, the statement names its columns in any order and case, but for an id that is filled in, and, where there are ids, the file loads and they allow it: all integers if one is filled in, otherwise the given one not empty and new |
| StorageLaws.FirstInsertExact | src/storage.c:961-1017 | a first INSERT succeeds exactly if its names have fewer than 64 characters, and the id it names is not empty, or there is room for one among 32 columns |
| StorageFacts.RereadAtOffset | src/storage.c:690-756 | in every file that loads, reading at a recorded offset gives the row loaded there, and offsets ascend strictly |
| StorageFacts.LoadAppended | src/storage.c:1092-1112 | writing a row behind a file that loads adds exactly this row to what loads if and only if the file ends in a newline and the row has the width of the table, fits the reader's buffer, holds no line break and is not one empty value |
| StorageFacts.LineAdded | src/storage.c:690-756 | behind a newline, any row written: what loads is as before but for this row and its offset; a blank line is passed over; a line break or a line that is too long makes the file unreadable |
| StorageFacts.LoadGlued | src/storage.c:696-700 | behind a last line without a newline, a written row makes no new row: as many rows load as before, if the file still loads, and all but the last are the same |
| StorageFacts.LoadWritten | src/storage.c:840-893 | a written table loads exactly if every line fits the reader's buffer, and then gives back header and rows, but for blank ones |
| StorageFacts.AllVisible | src/storage.c:348-350 | all rows of a written table are read again if and only if none is a row of one empty value |
| StorageFacts.DeleteKeeps | src/storage.c:859-890 | after a DELETE on any file with a header, the file loads and holds exactly the rows left, in order; deleted plus left is the number before |
| StorageFacts.SurvivorPlaces | src/storage.c:859-890 | the rows left stand in the order they had, and are exactly those that do not satisfy the condition, or none without one |
| SheetModel.HistoryIds | src/storage.c:914-1119 | after each statement of any history of inserts and deletes the ids that load are pairwise distinct texts, if and only if no INSERT stored a readable row in a table in which the id it filled in was taken |
| SheetModel.StatementIds | src/storage.c:914-1119 | ids stay distinct, from the statements alone: it is enough that each id they name as an integer leaves room below LLONG_MAX, inclusive, for as many ids as there are INSERTs that name none |
| SheetModel.HistoryFollows | src/storage.c:798-1119 | after every history of inserts and deletes, what there is to read in the file is what a plain header and list of rows hold; a line break or a line that is too long leaves nothing to read |
| StorageHistory.AutoIdAbove | src/storage.c:478-512 | an automatic id exceeds every id of the file if and only if none of them is LLONG_MAX |
| StorageHistory.NextTaken | src/storage.c:478-512 | the next automatic id is taken if and only if some id up to the last LLONG_MAX is the text of one more than the largest id behind it, or of LLONG_MIN if there is none behind it |
| StorageHistory.InsertStores | src/storage.c:1044-1112 | an INSERT into any file that loads writes one row: under each column the value the statement names for it, whatever its order, and under an unnamed `id` the next one; the row is added to what loads if and only if the file ends in a newline and the row is not too long, without line breaks and not one empty value |
| StorageHistory.FirstInsertStores | src/storage.c:961-1026 | an INSERT into an empty file stores the columns and values of the statement, with `id` and 1 in front if it names no id; the file loads, with just these, if and only if the row is not too long and no name or value has a line break |
| StorageHistory.AutoIdExceeds | src/storage.c:478-512 | for any file that loads, an automatic id exceeds every id in it if and only if none is LLONG_MAX, and equals none if and only if the ids do not clash as `NextTaken` says |
| StorageLimits.AutoIdRepeats | src/storage.c:506-509 | after INSERTs of the ids 6, LLONG_MAX and 5, one without an id stores a second row under the id 6 |
| StorageHistory.SpoiledByDelete | src/storage.c:849-857 | a DELETE on an empty file succeeds, and afterwards an INSERT is accepted if and only if it names one nameless column |
| StorageLimits.EmptyFileLeft | src/storage.c:943-1017 | a first INSERT with an empty id fails and leaves an empty file |
| StorageLimits.WideRow | src/storage.c:346-348 | 32 columns with values of 255 quotation marks are accepted, and the file then does not load |
| StorageLimits.BreakSpoils | src/storage.c:223-228 | under the header id, a an INSERT of a value with a newline in it is accepted, and the file then does not load |
| StorageLimits.RowGlued | src/storage.c:696-700 | the file `id,a` without a newline loads; an INSERT of y turns it into one line, the header id, a1, y |
| StorageLimits.BlankLost | src/storage.c:859-890 | on a file with a row of one empty value, a DELETE that is to keep this row loses it |
| RangeOrder.Sorting | src/index.c:244-245 | sorting permutes the entries, and orders them by value and offset if the comparison is transitive on the values |
| RangeOrder.AnswerExact | src/index.c:328-360 | a range query answers exactly if and only if no entry behind the boundary comes before one in front of it |
| RangeOrder.PartitionedExactly | src/index.c:102-171 | every value of a column partitions the entries at both bounds if and only if the comparison is transitive on the values and the entries are in its order |
| RangeOrder.RangesExact | src/index.c:284-361 | all range queries for values of a column are exact under just that condition |
| RangeOrder.ConsistentExactly | src/utils.c:180-202 | the comparison is transitive on a set of values if and only if no value that is no integer stands, as a string, above one integer and below another that is not larger |
| RangeOrder.UniformConsistent | src/utils.c:180-202 | the comparison is transitive on integers with an integer, and on values without an integer with any value |
| RangeOrder.MixedFails | src/index.c:102-118 | where three values x < y < z < x occur, the entries are not ordered and a range query for one of the three is wrong, however they are arranged |
| RangeOrder.MixedCycle | src/utils.c:180-202 | "2", "10" and "1a" are such values |
| Index.HashString | src/index.c:10-20 | the hash, with the wrap-around of a 64-bit word |
| Index.EqualityIndex.Add | src/index.c:58-97 | the offset is added to those of its key, and each key still stands in one node of its own bucket |
| Index.LowerBound | src/index.c:130-148 | the place where binary search for the first entry not below the value ends |
| Index.UpperBound | src/index.c:153-171 | the place where binary search for the first entry above the value ends |
| Index.Build | src/index.c:197-247 | both indexes over the cells of a column; fails exactly for a missing column or a cell over 255 characters |
| Index.TableIndex.QueryEquals | src/index.c:253-278 | the offsets of exactly the rows whose cell is the value byte for byte, in row order |
| Index.TableIndex.QueryRange | src/index.c:284-361 | the offsets that a scan selects, ordered by value and offset, where the comparison is transitive on the column's values and the query's; `!=` for any data; an error for other operators |
| Index.ColumnExact | src/index.c:197-361 | over all values of the column and all operators, the built index answers exactly if and only if the column's values are separated as `RangeOrder.ConsistentExactly` says |
| Index.EqualsIsScan | src/index.c:253-278 | equality by spelling selects what a scan selects if and only if no cell of another spelling parses as the value does |
| Index.SpellingDiffers | src/index.c:253-278 | for the cell "007" and the value "7" a scan finds the row and the hash index does not |
| Index.CutOffAlike | src/index.c:253-278 | for any two different integers from LLONG_MAX on, a scan for one finds the other and the hash index does not |
| Index.IndexedRows | src/index.c:253-278 | reading the file at the offsets of an equality query yields exactly the rows with that value, in order |
| Index.RangeRows | src/index.c:284-361 | reading the file at the offsets of a range query yields each row that satisfies the condition exactly once, and no other |
| IndexLaws.ChooseExact | src/index.c:284-361 | the scan that a range query is compared with selects exactly the entries that satisfy the condition, in order |
| IndexLaws.EqualExact | src/index.c:253-278 | the offsets of an equality query are those of exactly the entries with this very key, in order |
| IndexLaws.OrderedExact | src/index.c:102-118 | the order of a range index is by value, and by offset among equal values |
| IndexLaws.HashExact | src/index.c:10-20 | the hash is a polynomial in 33 that starts at 5381, modulo 2^64 |
| Lexer.TokenizeSql | src/tokenizer.c:311-477 | the tokens of a text, or why there are none: a token of more than 255 characters or an open string |
| Lexer.ReadString | src/tokenizer.c:231-261 | a string literal with its doubled quotes undone |
| Spelling.NextSpelled | src/tokenizer.c:311-477 | what spells a token and ends there is read as it: keywords in any case, names, integers, strings with doubled quotes, operators, punctuation and stray characters, of at most 255 characters |
| Spelling.NextOnly | src/tokenizer.c:311-477 | what is read as a token spells it, and ends where it cannot go on |
| Spelling.LexExact | src/tokenizer.c:311-477 | a text lexes to a list of tokens if and only if it spells them one after the other, with any white space around them |
| Splitter.FindTerminator | src/utils.c:316-341 | the first semicolon outside quotes |
| Splitter.TerminatorExact | src/utils.c:316-341 | the terminator is the first semicolon with an even number of quotes in front of it; there is none exactly if no semicolon is such |
| Splitter.PieceLexes | src/tokenizer.c:231-261 | a piece that ends at its first terminator lexes to tokens of which exactly the last is a semicolon, or has a token that is too long; its strings are closed |
| Splitter.RestLexes | src/utils.c:316-341 | a text without a terminator lexes to no semicolon |
| Splitter.LexOverCut | src/main.c:90-114 | cutting at a terminator does not change the tokens |
| Splitter.FileLexes | src/main.c:83-115 | lexing a file at once gives the tokens of its pieces one after the other, and of the rest |
| Splitter.SplitRebuilds | src/main.c:83-115 | pieces, the white space between them and the rest are the file |
| Splitter.SplitOnly | src/main.c:83-115 | there is no other way: pieces with any white space between them, put together, are cut again just there |
| TokenCache.Tokenizer.Tokenize | src/tokenizer.c:483-523 | for every history of calls, the tokens that lexing the trimmed text gives |
| TokenCache.Tokenizer.Lookup | src/tokenizer.c:87-121 | a hit returns the tokens of the text and moves its entry to the head; a miss changes nothing |
| TokenCache.Tokenizer.Store | src/tokenizer.c:127-164 | the entry goes to the head; of more than 64 the last is dropped |
| TokenCache.Tokenizer.EvictOldest | src/tokenizer.c:58-81 | exactly the last entry goes |
| TokenCache.RecentMeaning | src/tokenizer.c:84-164 | the cache's order: each text that lexed once, the later used before the earlier |
| TokenCache.RecentStep | src/tokenizer.c:87-164 | keeping only 64 entries after every call is keeping the 64 most recent of the whole history |
| Parser.ParseTokens | src/parser.c:365-385 | the statement of a token list, if it is one |
| Grammar.ParseExact | src/parser.c:121-385 | a token list parses as a statement if and only if it is that statement printed, with or without a final semicolon, literals being integers or strings |
| SqlText.LexRendered | src/tokenizer.c:311-477 | words that spell tokens, with any white space behind each, lex to the tokens, whatever follows |
| SqlText.TrimSpells | src/main.c:44-52 | white space at the ends changes neither whether a text lexes nor its tokens |
| SqlText.WritesExact | src/parser.c:121-385 | a text lexes and parses to a statement if and only if it spells its tokens |
| SqlText.SayableExact | src/parser.c:121-385 | a statement has a text if and only if it fits the buffers, its names are words that are no keywords, or `*`, and its operator is one that can be written |
| SqlText.TextRoundTrip | src/parser.c:121-385 | each such statement has a text in capitals with single blanks, quotes doubled, that spells it |
| Shell.Session.ProcessStatement | src/main.c:28-65 | a text does to the table what its statement does, and nothing if it says none |
| Shell.RunFile | src/main.c:71-119 | running a file gives the answers of its pieces in the plain model |
| Script.StatementExact | src/main.c:28-65 | a text says a statement if and only if it spells its tokens, with or without a semicolon, keywords in any case, any white space |
| Script.TextExact | src/main.c:28-65 | a text does to the table, and answers, what the statement it spells does, and nothing if it spells none |
| Script.SpelledEnds | src/main.c:71-119 | a text that spells tokens, of which only the last is a semicolon, and ends there, is one piece of a file |
| Script.ScriptRuns | src/main.c:71-119 | a file of pieces that spell statements, with any white space between and around them and an unfinished rest behind, runs as the statements do in the plain model |

## Left out

- Memory release (`bptree_free`, `table_free`, `index_free`, `tokenizer_cleanup_cache`) and failing allocations.
- Runtime tables of 2^30 rows and more: the doubled capacity is no `int` any more, so this bound is a precondition.
- File opening, locks, renaming, directories and paths: an operation on a table file is one step on its characters.
- Printing of tables, borders, padding and display width.
- The interactive loop: it trims what remains behind a statement, so it is not equivalent to running a file.
- The benchmark; its linear search over ids is the reference for `BPTree.LinkedTree.Search`.
- `qsort` is replaced by an insertion sort on values; the range index uses only that sorting permutes, and orders where the comparison is transitive.
- The growing buffers of fields, rows, tokens and statement text are sequences; their doubling is not modelled (that of the runtime's row array and of the offset lists is).
- Failing writes to a file: output is appending to a sequence of characters.
- The flag for the first use of the runtime table: a constructor gives the state it leads to.
- StorageFacts.DeleteKeeps: not for an empty file, which has no header; what happens there is `StorageHistory.SpoiledByDelete`.
