# btdb, verified

btdb is a small disk database in C: slotted pages, a heap file per table, a linked-leaf B-tree index, a
catalog, and a pull executor behind an SQL parser. This project models its storage, index, catalog and
query execution in Dafny and proves what they promise. Check it with `dafny verify dfyconfig.toml`.

Layers, each proved against the one below:

| files | what they model |
|---|---|
| PageLayout, Page, PageRuns | the slotted page: as a value, as buffers changed in place, and over whole runs |
| Types, Codec, Schema, Expr | datums and their order, the tuple and index-entry bytes, lookup by name, type checker and evaluator |
| Heap, HeapFile, HeapWrites, ModifyScan, HeapRuns | the table file, the cursor, what writes come to, INSERT, UPDATE, DELETE, and whole runs against a map from tuple id to row |
| IndexOrder, IndexSplit, IndexChain, IndexMachine, IndexHighs | the index as a list of entries, one split, the chain of pages, one insertion, keys and high keys |
| IndexNode, BTreeIndex | the same on page buffers and a file of linked pages |
| IndexRuns, IndexWidths, IndexInputs, CreateIndex, IndexScan, IndexChoice, IndexHeaps | whole builds, inputs that break them, CREATE INDEX over a heap, the index scan and when the planner picks it, heaps on which this goes wrong |
| Relations, SortOrder, SortStability, Executor, JoinList, PlanQuery, SelectAnalysis | row streams and their meaning, what the sort does to equal keys, plan nodes, from-clause analysis, planning and running a SELECT, and its analysis |
| Catalog | table definitions on disk and restart |

Where the program changes things in place the model does: page buffers are arrays in a class, tables,
indexes, cursors, plan nodes and the catalog are classes, loops are loops. Each is specified by functions
on values, and the properties are proved of those.

## How to read it

- A page is its bytes, its slot entries and the header offsets. The bytes of the special area are kept as
  a record beside them, and slot entries and header are fields, not bytes of the buffer.
- The index is specified by `ChainKeys`, its entries read along the right links from page 1. An insertion
  must equal `Inserted`: the list with the entry at its lower bound.
- A node of a plan is specified by a `Stream`: the rows it still has to deliver, and whether it then ends
  or the program stops. This makes failures exact: assertions, null predicates, null sort keys, null
  pointers.
- What a specification function means is stated once more without it: in numbers, bytes, positions or rows
  (`WriteExactly`, `TupleLayout`, `AssignMeaning`, `CheckedOperation`, `RelationMeaning`, `OrderMeaning` and others).
- `Stops`, `AssertFails`, `Crashed`, `Failed`, `Overrun`, `Clobbered` are outcomes, so error cases are part
  of the contracts. `Undefined` stands for int32 overflow and division by zero.

## Where the code departs from its comments

The model does what the code does and the theorems say when that is what the comments promise.

- Free space (`src/storage.h:103-109`) wraps below six bytes; adding then writes below the free area. This
  is outcome `Overrun`. It is reached by 126 index entries of 13 characters; never by int or bool entries, nor
  by entries of any other safe width. Of entries of a width that fits the root page but not a later one (147
  characters) as written no index holds more than two pages (`LaterBuild`).
- The right page's high key (`src/storage.c:1050-1057`): the comment says the old high key, the code reads
  the first key. Parameter `src` selects the slot: 0 as commented, 1 as written. As written, an insertion can
  put the new entry in front of the high key (outcome `Clobbered`). The program does not notice and goes on;
  the entry is lost and another one doubled (`ClobberLoses`). `IndexInputs` has a family of such inputs,
  `IndexHeaps` a heap; ordered builds are not among them.
- If the new entry's virtual slot equals the split slot it goes right (`src/storage.c:1110`), one item more
  than the loop accounted for. `SplitFits` excludes that case, `OneFifthSplits` includes it.
- As written, a split can leave the left page without a key (`LeftEmptyExactly`, `NoneEmptyExactly`); with
  the commented high key it cannot, nor with entries of at most a fifth of a page. A scan ends at such a page;
  page 1 emptied that way hides the whole index (`HiddenRows`).
- `BTreeFirst` does not move right (`src/storage.c:1189-1191`), hence the condition on the leftmost page.
- `BTreeGetNext` at the right end reads the meta page as a leaf, past its special area, and finds no item
  there (`src/storage.c:1214-1219`); the model returns nothing.
- Search keys are read as the parent table's column 0 (`src/storage.c:965-966`). If the indexed column has
  another type, the first comparison fails: outcome `WrongKeyType`, from the second row on. A null key has no
  comparison function: outcome `NullKey`.
- `Gt` is total: on two datums of different types, where the C functions assert, it compares the types. The
  contracts say where such a comparison would come up; searches never see the null high key of a fresh page
  (`RunFromEntries`).
- Columns are set and read by name. `create table t (a int, a int)` is accepted, since `src/analyzer.c:630-639`
  looks at other tables only; INSERT then sets the first column twice. `NamedExactly` and `KeyTupleExactly` have
  the exact conditions.
- `CheckType` looks at the left operand only (`src/analyzer.c:200`); agreement is a side condition, and
  `DisagreementFails` shows what happens without it.
- A nested loop that is restarted does not ask for a new left tuple (`src/plan.c:304-306`, `src/plan.c:422`).
  Joins whose inner side is a join restart one; `Completes` is the exact condition.
- A qualification is checked against everything listed so far, not against its own join (`src/analyzer.c:413-417`):
  `RightJoinEscapes`, `AnalyzedLeftDeepOwns`.
- The planner takes the boundary key of an index scan without a look at its type: `BoundaryTypedExactly`.
- The planner restricts no operators when it picks an index (`src/plan.c:447`). Of the forward scans, those for
  != and for OR with true are unsound (`SkippedRowPasses`), all others are range scans (`ForwardIsRange`).
- Sorting happens before filtering (`src/plan.c:543-589`), so a null sort key stops a query even on rows
  that the where clause would drop.
- The sort is not stable (`SortRuns`, `SortStableExactly`), an output column that repeats a name stays null, and a
  catalog that spans pages need not be in creation order on restart (`CreationOrderExactly`).

## Model

| member | source | states |
|---|---|---|
| PageLayout.FreeSpaceTest | src/storage.h:103-109 | the free-space subtraction in size_t wraps: the test refuses exactly the items that do not fit, if and only if at least six bytes are left; below that it refuses nothing |
| PageLayout.SlackFromItems | src/storage.c:375-400 | free space is a function of the items alone: capacity less their lengths and slot entries, whatever order they were added in |
| PageLayout.ItemsTilePage | src/storage.c:375-463 | on every valid page each byte between the free area and the special area belongs to exactly one item |
| PageLayout.EmptyMeaning | src/storage.c:359-367 | a fresh page is valid and holds no items |
| PageLayout.AddMeaning | src/storage.c:465-480 | an item that fits is inserted at its slot; all other items keep their bytes, order and dead marks; the page stays valid |
| PageLayout.RemoveMeaning | src/storage.c:433-463 | removal with its memmove and offset fix-up takes out exactly item k, for any interleaving of item positions on the page |
| PageLayout.DeadMeaning | src/storage.c:422-431 | marking dead changes one mark and no bytes |
| PageLayout.ReplaceFirst | src/storage.c:887-891 | high-key replacement: removing slot 0 and adding at slot 0 changes only slot 0, and fits if the new item is no longer than free space plus the old one |
| PageBuffer.Page.Init | src/storage.c:359-367 | the buffer holds the empty page |
| PageBuffer.Page.AddItem | src/storage.c:375-400 | on arrays, in place: outcome decided by the wrapped test; unchanged if refused; otherwise exactly the page with the item appended |
| PageBuffer.Page.AddItemAt | src/storage.c:465-480 | append, then rotate the slot entry down: exactly the page with the item inserted at idx |
| PageBuffer.Page.GetItem | src/storage.c:402-411 | the item of an existing slot, nothing past the last slot |
| PageBuffer.Page.DeleteItem | src/storage.c:422-431 | exactly the page with slot k marked dead |
| PageBuffer.Page.RemoveLoc | src/storage.c:433-463 | shift the slots, slide the bytes, fix the offsets: exactly the page without item k; no effect past the last slot |
| PageBuffer.Page.SetHighKey | src/storage.c:887-891 | slot 0 is replaced if the item is no longer than the free space plus the old one; otherwise the old item is gone and the rest is as it was |
| PageRuns.Perform | src/storage.c:359-480 | one operation of any kind acts on the list of items and dead marks as append, insert, mark or remove, and goes through exactly if it is allowed and does not overrun |
| PageRuns.GoesExactly | src/storage.c:375-480 | which page operations go through, in numbers |
| PageRuns.AfterExactly | src/storage.c:375-480 | what they do to the list of items and dead marks, cell by cell |
| PageRuns.Run | src/storage.c:359-480 | every run of page operations: up to the first that is not allowed or overruns, the page is valid and holds exactly the list the operations describe |
| Types.GtOrder | src/types.c:96-122 | "greater than" is asymmetric and its negation transitive on all datums, strings by strcmp included |
| Types.GtAntisymmetric | src/types.c:175-183 | datums neither of which is greater are equal |
| Types.StrLessExactly | src/types.c:175-183 | one text is less than another if and only if at the first position where they differ it has the lesser character or has ended |
| Types.GtMeaning | src/types.c:96-122 | "greater than" is that of numbers, of true over false, and of texts by their first difference |
| Codec.DatumRoundTrip | src/types.c:45-76 | a non-null datum is read back from its stored bytes |
| Codec.DatumLayout | src/types.c:45-76 | the bytes of a datum: none for null, 1 or 0 for a bool, four in two's complement for an int, the characters and a NUL for a text |
| Codec.MakeTuple | src/storage.c:28-49 | a fresh tuple has n null columns of one byte each, well formed |
| Codec.EmptyLayout | src/storage.c:28-49 | a fresh tuple: its length, its marks, and one zero byte a column |
| Codec.SetCol | src/storage.c:296-336 | the copy loop rebuilds the tuple with one column replaced: offsets contiguous, length adjusted, all other cells kept |
| Codec.GetAfterSet | src/storage.c:262-336 | get after set, for every well-formed layout: column i reads as the new datum, every other column as before |
| Codec.TupleRoundTrip | src/storage.h:48-61 | the byte layout (length, self id, bitmap, locations, data) determines the tuple |
| Codec.TupleLayout | src/storage.h:48-61 | where length, page and slot number, column count, null marks, offsets, lengths and data lie in the bytes of a tuple |
| Codec.RowRoundTrip | src/storage.c:262-336 | a row that conforms to the column types is recovered from its tuple bytes, id included |
| Codec.SetFits | src/storage.c:296-336 | SetCol with null or a datum of the column type keeps a tuple in shape for its column types and replaces exactly that column of its row |
| Codec.BuildTuple | src/plan.c:155-162 | MakeTuple followed by SetCol under the name of every column; with different names the tuple of the row |
| Codec.NamedMeaning | src/plan.c:155-162 | wherever the values that stay have the types of the columns they land in, the tuple is in shape and its row is the values, each under its name |
| Codec.ConformingLands | src/plan.c:155-162 | they have for every row of the column types, if columns that share a name share a type |
| Codec.NamedAt | src/storage.c:247-260 | the first column of a name holds the last value given under it, every other one stays null |
| Codec.NamedExactly | src/plan.c:155-162 | the stored row is the row of values if and only if every column that shares its name with another is given null |
| Codec.UniqueExactly | src/plan.c:155-162 | it is for every row of values if and only if all names differ |
| Codec.EntryRoundTrip | src/storage.c:861-885 | the first key and the tuple id of an index entry are recovered from its bytes |
| Heap.PutLookup | src/storage.c:516-537 | writing a tuple adds one live address that was free before; every other address keeps its tuple, byte for byte |
| Heap.PutLive | src/storage.c:516-537 | in scan order the new tuple comes after the live tuples of its page and before those of later pages |
| Heap.DeletedLookup | src/storage.c:539-549 | marking dead removes one address and touches no other |
| Heap.DeletedLive | src/storage.c:539-549 | deleting the tuple just passed takes it out of what lies behind the cursor and leaves what lies ahead |
| Heap.FirstStop | src/storage.c:520-529 | the search stops at the first page, from p on, that is not full |
| Heap.LiveStored | src/storage.c:516-579 | every live tuple stores its own page and slot |
| HeapFile.Table.Place | src/storage.c:516-537 | placing a tuple keeps the heap invariant, stops at the first page with room or appends one, and changes nothing if it fails |
| HeapFile.Table.Delete | src/storage.c:539-549 | exactly the pages with one slot marked dead; the heap invariant kept |
| HeapFile.Table.Update | src/storage.c:551-579 | the old version is dead and the new one placed from the same page on; its stored id is its own address |
| HeapFile.Cursor.SeekNext | src/storage.c:491-514 | terminates; what lay ahead is the returned tuple followed by what lies ahead now; it returns nothing exactly at the end |
| HeapFile.Cursor.InsertTuple | src/storage.c:516-537 | the outcome, the page reached and the pages after, as placing the tuple from the cursor page on |
| HeapWrites.WriteExactly | src/storage.c:516-537 | in numbers: writing a tuple of this size succeeds, overruns or is refused by the first page that is not passed over as full, or by an empty one; it runs out of page numbers exactly where two bytes cannot hold the next one |
| HeapWrites.UpdateExactly | src/storage.c:551-579 | the same for an update, from the page of the old version on, marking dead freeing nothing; no other page changes |
| HeapWrites.UpdateAllExactly | src/storage.c:551-579 | a list of updates is written through if and only if each one, in its turn, finds a page with room once its old version is dead |
| HeapRuns.SelfIds | src/storage.c:516-579 | on every heap that satisfies the invariant, the key of each row in the map from tuple id to row is the id stored in its tuple |
| HeapRuns.InsertExactly | src/storage.c:516-537 | an insertion goes to the first page of all that is not passed over, and changes no other |
| HeapRuns.Perform | src/storage.c:516-579 | what insert, delete and update come to is decided by the room on the pages alone, and so are the pages they leave; on the map they act as put, remove, and remove and put, each new row under an id that was free, all other rows untouched |
| HeapRuns.Run | src/storage.c:516-579 | every run of operations comes to what the pages decide and leaves those pages and exactly the map the operations describe, up to the first that is not legal or, by the room on the pages, cannot be written; such a row leaves the map as it was or, in an update, without the row to be replaced |
| HeapRuns.RunAllExactly | src/storage.c:516-579 | a run completes if and only if each operation, on the pages it finds, is legal and has room |
| ModifyScan.DeleteScan | src/plan.c:220-246 | deleting while scanning: runs to the end exactly if the where clause is true or false of every live row, and then exactly the tuples of which it is true are gone, the others in their order; where it stops, this is so of the tuples before, and the rest are all there |
| ModifyScan.KeptMeaning | src/plan.c:220-246 | DELETE keeps a tuple, as often as it was there, if and only if the where clause is not true of its row |
| ModifyScan.AssignMeaning | src/plan.c:192-208 | a new version exists if and only if every column named is there and every value can be computed on the old row; each column then holds the value, on the old row, of the last clause that names it, or what it held |
| ModifyScan.BuildVersion | src/plan.c:192-208 | the SET loop keeps the tuple id and comes to exactly that row, or fails exactly if a column is missing or a value cannot be computed on the old row |
| ModifyScan.CollectVersions | src/plan.c:174-210 | the first pass reads every live tuple once and writes nothing |
| ModifyScan.UpdateMeaning | src/plan.c:169-218 | row by row: set where the where clause is true, as it was where it is false; possible if and only if every row is one or the other and the true ones can be set |
| ModifyScan.UpdateScan | src/plan.c:169-218 | it stops before any write exactly if that is not possible; else it comes to what writing the new versions one after the other comes to, and leaves those pages; if it finishes, the rows are, as multisets, the old ones updated in that sense; finished or not, every tuple of which the where clause is not true keeps address and bytes |
| ModifyScan.CheckedAssignIsTyped | src/analyzer.c:571-577 | what analysis checks of a SET clause makes every value it yields fit the column, operand types agreeing or not |
| ModifyScan.CheckedListLands | src/analyzer.c:484-498 | what analysis checks of a VALUES list makes the values, if they can be evaluated, null or of the types of their columns |
| ModifyScan.CheckedListStops | src/analyzer.c:484-498 | a VALUES list that analysis accepts need not have values: 1 + true for an int column |
| ModifyScan.InsertScan | src/plan.c:148-167 | it comes to what evaluating and writing the VALUES lists one after the other comes to, and leaves those pages: it stops at the first list that cannot be evaluated or finds no room; in every case the rows are the old ones and one for each list before, each value under the name of its column, and every old tuple is where it was |
| ModifyScan.InsertAllExactly | src/plan.c:148-167 | all lists go in if and only if each, in its turn, can be evaluated and its tuple finds room from the cursor page on |
| ModifyScan.InsertExactly | src/plan.c:148-167 | a list goes to the first page that is not passed over, from the page of the list before on; the first list from page 0 on |
| ModifyScan.InsertedExactly | src/plan.c:155-162 | a VALUES list leaves the row of its values if and only if every column that shares its name with another is given null |
| ModifyScan.InsertedMeaning | src/plan.c:155-162 | the row a VALUES list leaves: in the first column of each name the value given last under it, null in any other |
| Expr.TypeSound | src/analyzer.c:150-351 | a checked expression whose operand types agree never trips an operator assertion; its value has the checked type or is null, and it is null exactly when a leaf is |
| Expr.CheckedOperation | src/analyzer.c:187-351 | exactly which operations are accepted and as what: comparisons for all types, AND and OR for bool, arithmetic for int, a null literal taking the type of the other side; any other operator panics |
| Expr.IdentTypeIs | src/analyzer.c:160-180 | a column has the type of its first occurrence in the last table of the list that has it |
| Expr.OperatorMeaning | src/types.c:78-269 | on operands of its type every comparison says what one total order says, equality is equality of values, AND and OR are the connectives |
| Expr.ArithmeticMeaning | src/types.c:279-313 | sums, differences and products have a value exactly where int32 holds it; division truncates toward zero and has a value except for divisor 0 and for the smallest int over -1 |
| Expr.DisagreementFails | src/analyzer.c:200-220 | the side condition is needed: if operand types disagree somewhere, no row without nulls yields a value |
| Expr.ValueTyped | src/analyzer.c:150-351 | if a checked expression yields a value at all, on whatever row, it has the checked type or is null, operand types agreeing or not |
| Expr.IntPlusBool | src/types.c:279-286 | a concrete expression that checks as int and fails when evaluated |
| Expr.WhereStopsExactly | src/plan.c:95-104 | a where clause found boolean stops a scan exactly on the rows where a leaf is null or arithmetic is undefined |
| Expr.TestMeaning | src/plan.c:95-104 | a row passes a where clause exactly if it is true of it, and is rejected exactly if it is false |
| IndexOrder.InsertedSorted | src/storage.c:985-998 | insertion at the lower bound keeps a list of entries sorted |
| IndexOrder.BuildSorts | src/plan.c:703-711 | inserting entries one by one at their lower bounds yields a sorted permutation of them |
| IndexSplit.FilledRightIs | src/storage.c:1110-1113 | where a new item that goes right ends up: its lower bound, or the high-key slot of the right page |
| IndexSplit.SplitRightMeaning | src/storage.c:1085-1122 | new item right: left keys then right keys are the old keys with the new one at its lower bound, if and only if it is not put before the high key |
| IndexSplit.SplitLeftMeaning | src/storage.c:1085-1122 | new item left: same, whatever stands in the high-key slot meanwhile |
| IndexSplit.SplitFits | src/storage.c:1043-1122 | byte accounting of a split point that is found: the left copy, the new high key and, unless the new slot equals the split slot, the right copy with the new item all fit |
| IndexSplit.OneFifthSplits | src/storage.c:1043-1122 | with every entry and slot at most a fifth of the page, a full page always splits: unless the new entry is pushed before the high key, no assertion fails, the equal-slot case fits, and both halves keep a key; the other case is exact as well |
| IndexSplit.LeftEmptyExactly | src/storage.c:1085-1122 | a split that goes through leaves the left page without a key if and only if the high key is read as written, the page has one key and the new entry is below it |
| IndexChain.StopIsLowerBound | src/storage.c:974-983 | the page where moving right stops holds the lower bound of the key among all entries of the chain |
| IndexChain.AfterInsert | src/storage.c:985-998 | insertion without split keeps the chain invariant and inserts at the lower bound of the whole chain |
| IndexChain.AfterSplit | src/storage.c:1085-1133 | the same for a split into two linked pages, with the left page's new high key the first key of the right one |
| IndexMachine.StepKeeps | src/storage.c:977-1133 | one insertion, split or not: entries grow by exactly the new one, at its lower bound; order, high keys against later pages, and (high key as commented) keys under their high keys are kept |
| IndexMachine.SplitFallsAt | src/storage.c:1063-1113 | by the bytes: a split leaves on the left page the keys that fit it together with the next one as its high key, and one fewer if the new entry is the last of them |
| IndexMachine.ClobberLoses | src/storage.c:1110-1133 | a clobbering insertion goes through unnoticed: the new entry is not among the entries afterwards, and the one the right page took as its high key is there twice |
| IndexHighs.RightUnderHighExactly | src/storage.c:1050-1057 | with the high key read from the first key, a split keeps the keys of the right page under its high key if and only if neither the last key of the page nor the new one exceeds the first |
| IndexHighs.HighsKeptExactly | src/storage.c:977-1133 | so for the whole chain: after an insertion as written all keys are still under their high keys if and only if the page does not split, is the last one, or its keys and the new one are all alike |
| IndexNode.FindIdx | src/storage.c:926-959 | the search loop returns the first slot not below the key, else the end of a rightmost page, else HIGH_KEY exactly if the key exceeds the high key |
| IndexNode.FindSplit | src/storage.c:1063-1085 | the split loop with its running byte counts finds the split point of the specification, or fails exactly if the right page overflows first or nothing is left |
| IndexNode.PlanSplit | src/storage.c:1022-1085 | virtual insertion, space accounting and the loop together |
| IndexNode.Halve | src/storage.c:1008-1104 | the two new pages hold the placeholder or high key and exactly their share of the old keys, none dropped by the unchecked copies |
| IndexNode.Split | src/storage.c:999-1133 | outcome and both pages of a split, with right links, clobbered or not, as the specification says |
| BTreeIndex.Index.constructor | src/storage.c:764-768 | a new index is a meta page without a root |
| BTreeIndex.Index.EnsureRoot | src/storage.c:1157-1171 | the root is page 1, created on demand, and changes no entries |
| BTreeIndex.Index.Locate | src/storage.c:972-983 | move right along the links to the page of the lower bound |
| BTreeIndex.Index.Insert | src/storage.c:961-1151 | on pages and links, in place: the outcome and the chain afterwards are those of the specification; the chain from page 1 stays acyclic and ends at the null page |
| IndexRuns.BuildRefines | src/plan.c:703-711 | every run of insertions keeps the chain invariant; a run that completes spells out the sorted permutation of its entries |
| IndexRuns.SmallStep | src/storage.c:990-1133 | with small entries an insertion is done if and only if the page has six bytes left and, if it is full, the entry is not pushed before its high key; no linked page is left empty, and the wrapped free-space test goes wrong exactly on a page with under six bytes left |
| IndexRuns.RunFromEntries | src/storage.c:926-959 | along every run the slots a search compares with hold inserted entries, never the placeholder of a fresh page |
| IndexRuns.NoneEmptyExactly | src/storage.c:977-1133 | an insertion that goes through leaves a page of the chain without keys in exactly that case |
| IndexRuns.CommentedRunsKeepKeys | src/plan.c:703-711 | with the commented high key, no run leaves a page without keys, whatever the size of the entries |
| IndexRuns.UniformSlack | src/storage.c:991 | if the entries have one safe width, a page never has one to five bytes left |
| IndexRuns.SafeWidths | src/storage.h:103-109 | int and bool entries have a safe width, text entries of 13 characters do not |
| IndexRuns.CommentedNeverClobbers | src/storage.c:1050-1054 | with the high key taken from slot 0, as the comment says, no insertion pushes its entry before a high key |
| IndexRuns.SmallBuild | src/plan.c:703-711 | entries of any column type of at most a fifth of a page, in any order: the build completes if and only if the chain admits every insertion; with the commented high key, if and only if every insertion finds six bytes on its page, and only an overrun can go wrong; no page is left empty |
| IndexRuns.UniformBuild | src/plan.c:703-711 | any number of entries of one safe width, in any order: never an overrun; with the commented high key the build always completes, as written it completes or clobbers a high key |
| IndexRuns.UnsafeBuild | src/plan.c:703-711 | entries of one width that leaves the root under six bytes: the build completes if and only if they all fit the root page, else it overruns |
| IndexWidths.UniformSlackExactly | src/storage.c:991 | exactly which pages of entries of one width have one to five bytes left or none: full ones whose room the width divides that closely |
| IndexWidths.LaterBuild | src/plan.c:703-711 | as written, entries of a width that leaves the root at least six bytes and later pages fewer, in any order: the build completes or overruns, completes if the entries are at most one more than fit the root page, and never has more than two pages |
| IndexWidths.LaterLimit | src/plan.c:703-711 | so every build over more such entries than two pages hold overruns |
| IndexInputs.OrderedBuild | src/plan.c:703-711 | as written, builds over small ascending or non-increasing keys of any type complete if and only if every insertion finds six bytes on its page |
| IndexInputs.GapEntryClobbers | src/storage.c:1050-1057 | 148 ascending int keys, then one between the last two: every such input clobbers a high key as written |
| IndexInputs.EmptyPageBuilds | src/storage.c:1085-1122 | a short key, a very long one above it, a short one not above the first: every such build completes as written and leaves page 1 without a key |
| CreateIndex.MakeIndexTuple | src/storage.c:861-885 | the entry of a stored tuple: its own address and its indexed columns, each set by its name |
| CreateIndex.KeyTupleMeaning | src/storage.c:868-874 | the columns of an entry; the first is the key |
| CreateIndex.KeyTupleExactly | src/storage.c:868-874 | an entry holds the indexed columns if and only if no index column is repeated but where it is null |
| CreateIndex.BuildIndex | src/plan.c:703-711 | the build loop over the cursor comes to what the run over the live tuples comes to, and leaves that chain on disk |
| CreateIndex.BuildCompletes | src/plan.c:703-711 | it completes exactly if no search key meets a stored key of another type (column 0 has the type of the key, or there is at most one row), no key is null, no entry is as long as a page, and every insertion is done |
| CreateIndex.WrongKeyExactly | src/storage.c:961-970 | CREATE INDEX stops at a comparison between types if and only if column 0 and the first indexed column differ in type, there are two rows, the first gets its entry and the second has a key |
| CreateIndex.NullKeyExactly | src/plan.c:703-711 | a build that has got that far stops at the next row with NullKey if and only if its key is null |
| CreateIndex.BuiltIndex | src/plan.c:703-711 | a completed build: chain invariant, keys in order, entries exactly a permutation of those of the live tuples |
| CreateIndex.CreateIndexSmall | src/plan.c:703-711 | for every heap and any columns, entries of at most a fifth of a page: completes if and only if no key is null or meets a key of another type and the chain admits every insertion; with the commented high key, and as written on ordered heaps, if and only if every insertion finds six bytes; what it leaves is a correct index without empty pages |
| CreateIndex.CreateIndexUniform | src/plan.c:703-711 | for entries of one safe width nothing is left to go wrong with the commented high key and on ordered heaps; as written only a clobbered high key |
| CreateIndex.OneColumnEntries | src/storage.c:861-885 | which heaps those are for one column: ints and bools have one width, any column is small if and only if its texts are short |
| CreateIndex.BuildFollows | src/plan.c:703-711 | if nothing else stands in the way, the build comes to what the run of insertions comes to and leaves the same chain, clobbered or not |
| IndexScan.Scan.First | src/storage.c:1182-1199 | positions on the lower bound of page 1, or finds nothing; fails exactly if the boundary key meets a key of another type; what lay ahead is the entry followed by what lies ahead now |
| IndexScan.Scan.Next | src/storage.c:1201-1243 | the next entry on the page or first on the right neighbour; nothing exactly at the end of the chain or before a page without keys |
| IndexScan.PulledMeaning | src/plan.c:118-146 | what pulling delivers: the passing tuples before the first on which the predicate cannot be decided, and the end exactly if there is none |
| IndexScan.Scan.GetNext | src/plan.c:118-146 | takes the first tuple off what the scan has still to deliver; ends exactly if there is none left, stops exactly where the boundary key meets another type or the predicate cannot be decided with no passing tuple before |
| IndexScan.Scan.Drain | apps/btdb.c:33-38 | initialised and drained, it terminates and has delivered exactly that, whether it came to the end or not; nothing for a null boundary key |
| IndexScan.StartMeaning | src/storage.c:1182-1199 | the scan visits everything from the lower bound on, up to a page without keys, if the leftmost page reaches the boundary, otherwise nothing |
| IndexScan.IndexScanRefines | src/plan.c:85-146 | on an index without empty pages that matches the heap, for a predicate that passes nothing below the boundary, index scan and filtered sequential scan deliver the same tuples as multisets if and only if a key on the leftmost page reaches the boundary or nothing passes |
| IndexScan.IndexScanSorted | src/plan.c:118-146 | and delivers them in ascending key order, fetching only slots that exist |
| IndexScan.RangeWhere | src/plan.c:455-472 | column compared to a constant by =, >= or > (or the mirror image), or connected with one by AND, or by OR if it is not true, passes nothing below the constant |
| IndexScan.BuiltIsFresh | src/plan.c:703-711 | the index a completed build leaves matches the heap, and every slot a search compares with has a key |
| IndexScan.BuiltKeepsKeys | src/plan.c:703-711 | it has no empty page with the commented high key, and none as written if the entries take at most a fifth of a page |
| IndexChoice.ChooseIndex | src/plan.c:474-493 | the search finds the first single-column index of the table on the column, or none exactly if there is none |
| IndexChoice.CoversExactly | src/plan.c:478-489 | an index covers a column of a table if and only if it is an index of that table whose own table has that column and no other |
| IndexChoice.CheckedOperator | src/analyzer.c:214-351 | a clause found boolean carries the function for its own operator |
| IndexChoice.BoundaryExactly | src/plan.c:455-472 | there is a boundary exactly for a column on one side and a literal on the other; the scan goes backwards exactly for column < or <= literal and literal > or >= column |
| IndexChoice.ForwardIsRange | src/plan.c:443-472 | a forward index scan is chosen for a range clause, for which index scan and filtered sequential scan agree, if and only if the operator is neither != nor OR with true |
| IndexChoice.RangeIsForward | src/plan.c:455-472 | every range clause gets its forward scan |
| IndexChoice.BoundaryTypedExactly | src/plan.c:455-472 | the boundary key the planner takes can be compared on every index of the column if and only if the operand types agree and it is not null |
| IndexChoice.SkippedRowPasses | src/plan.c:443-472 | for != and for OR with true the planner chooses a forward scan all the same, and every row below the boundary that the scan skips would have passed |
| IndexScan.SelectThroughIndex | src/plan.c:118-146 | build on a column of any type, then drain a range scan: exactly what it delivers in every case; it fails for a null constant; where the sequential scan runs through, it does too, in key order, and with equal results under the same exact condition |
| IndexHeaps.GapHeapClobbers | src/storage.c:1050-1057 | a heap page of 149 ints on which CREATE INDEX clobbers a high key |
| IndexHeaps.TextHeapOverruns | src/storage.h:103-109 | a heap page of 126 texts of 13 characters on which it overruns the root page, with either high key |
| IndexHeaps.LongTextFits | src/storage.c:516-537 | three texts, one of them of 8030 characters, fit one heap page |
| IndexHeaps.LongTextBuild | src/storage.c:1085-1122 | CREATE INDEX over that page completes and leaves page 1 without a key |
| IndexHeaps.HiddenRows | src/storage.c:1188-1191 | CREATE INDEX over that page, then any index scan: it runs through and finds none of the three rows |
| IndexHeaps.WrongKeyHeap | src/storage.c:961-970 | a heap page of two rows (int, bool) on which CREATE INDEX on the second column does that |
| Relations.LoopMeaning | src/plan.c:290-367 | the nested loop over sides that end delivers exactly the join in left-major order, and stops exactly if some pair cannot be decided |
| Relations.JoinRowsAre | src/plan.c:309-366 | row by row: the joined rows are the concatenations of the pairs that pass and, in an outer join, the padded left rows without partner |
| Relations.JoinRowConcatExactly | src/plan.c:342-352 | copying columns by name concatenates the rows if and only if no two joined columns share a name |
| Relations.JoinRowSwapped | src/plan.c:342-352 | with the operands swapped under the unswapped column list, the row is still in the column order of the list |
| Relations.StraightJoined | src/plan.c:290-367 | with different names the loop's join is the join by concatenation, with the same decided pairs |
| Relations.SwappedJoined | src/plan.c:432-435 | the right-join plan delivers the left join of the swapped operands with columns put back in order, and stops in the same cases |
| Relations.EvalSwapped | src/plan.c:354-359 | an expression evaluates the same on both orders of the halves of a joined row |
| Relations.ThroughInOrder | src/plan.c:263-275 | pushing a row through a sorted prefix by exchanges leaves it sorted |
| Relations.SortMeaning | src/plan.c:260-276 | the exchange sort sorts in the chosen direction and permutes |
| SortOrder.ThroughMeaning | src/plan.c:262-275 | one round of the sort: the rows not above the new one stay, then the new one, then every run of equal keys with its first row moved to its end |
| SortOrder.RoundKeepsOrderExactly | src/plan.c:262-275 | a round keeps the order of rows with equal keys if and only if the rows above the new one that share a key are one and the same row |
| SortStability.SortRuns | src/plan.c:260-276 | the whole sort, key by key: each row that goes before a key turns the rows of that key so far by one, each row of the key joins at the end |
| SortStability.OrderDetermines | src/plan.c:260-276 | key order and the order for every key leave a single arrangement, so that this says where every row ends up |
| SortStability.SortStableExactly | src/plan.c:260-276 | rows with equal keys stay in order if, and where no two of them are the same row only if, between one row of a key and the next the rows that go before them turn those so far a whole number of times |
| SortOrder.SortNotStable | src/plan.c:260-276 | a concrete input on which the sort reverses equal keys |
| Relations.SelectedMeaning | src/plan.c:380-389 | filtering runs through exactly if every row can be decided, and keeps the rows that pass, in order |
| Relations.ProjectMeaning | src/plan.c:397-405 | projection fails exactly if a target does; else it yields the target values, each under its name, in order if the names differ |
| Relations.RepeatedTargetNull | src/plan.c:399-404 | an output column that repeats an earlier name stays null |
| Executor.PlanNode.Init | src/plan.c:67-83 | a node between runs starts the next one: it then has that whole run to deliver, with its flags as the last run left them |
| Executor.PlanNode.GetNext | src/plan.h:17-26 | one pull of any node takes the first row off what it still has to deliver, ends exactly when nothing is left, stops exactly where the program does |
| Executor.PlanNode.SequentialScan | src/plan.c:85-108 | the same for the scan of the live tuples under its predicate |
| Executor.PlanNode.NestedLoopScan | src/plan.c:290-367 | the same for the join, across calls and restarts, with the "no result yet" flag local to a call |
| Executor.PlanNode.NextMatch | src/plan.c:309-366 | one round with the inner child: match, reject, pad, or read through a null left tuple |
| Executor.PlanNode.SortScan | src/plan.c:248-288 | drain, sort once, hand out by index; stops exactly if there are two rows to compare and a key is null |
| Executor.PlanNode.ExchangeSort | src/plan.c:260-276 | in place: the sorted sequence, or failure exactly if the rows cannot be compared |
| Executor.PlanNode.Push | src/plan.c:262-275 | the inner loop pushes row i through rows 0 to i - 1 and leaves the rest alone |
| Executor.PlanNode.GetResult | src/plan.c:369-407 | filter, then project, one row a call |
| JoinList.AnalyzeMeaning | src/analyzer.c:356-434 | slots are numbered in post-order, every earlier definition is kept, and every join gets its operands' columns, left then right |
| JoinList.ListedExactly | src/analyzer.c:356-434 | a from clause is accepted if and only if its tables are defined and every qualification is found boolean against the columns listed before it in post-order |
| JoinList.PanicsExactly | src/analyzer.c:356-434 | analysis panics on a from clause if and only if the first thing found wrong, in post-order, is a qualification on which the type checker panics |
| JoinList.AnalyzedNamesResolve | src/analyzer.c:160-185 | over tables with different column names, every name an expression uses has, in a joined row, the type it was checked with |
| JoinList.AnalyzedLeftDeepOwns | src/analyzer.c:413-417 | in a left-deep clause every accepted qualification names only columns of its own join |
| JoinList.OwnResolves | src/analyzer.c:413-417 | the types an accepted qualification was checked with hold in a joined row if and only if its join has the columns it names |
| JoinList.RightJoinEscapes | src/analyzer.c:413-417 | every clause with a join as right operand has such qualifications: any int column of what stands left of it is accepted and fails on every row |
| JoinList.QualEscapes | src/analyzer.c:413-417 | FROM a JOIN b JOIN c ON x = 1 ON true, x a column of a: analysis accepts it, and the inner qualification fails on every row |
| PlanQuery.PlanJoin | src/plan.c:409-524 | the plan tree of any from clause, operands swapped for a right join, delivers what the clause asks for in every run; refused exactly if a where clause is not a binary expression |
| PlanQuery.AllRuns | src/plan.c:304-306 | the first n + 1 runs of the plan of any from clause, self joins included, all end if and only if the sides of every join end as often as they are started, every qualification met can be decided, and no inner side that is started again has rows; each then delivers the nested loops over the tables |
| PlanQuery.JoinMeaning | src/plan.c:409-524 | the plan of any from clause runs to its end under that exact condition, and delivers exactly those rows, in order |
| PlanQuery.LoopedIsRelation | src/plan.c:409-524 | over tables with different column names these are the relation of the clause: joins by concatenation, a right join as the left join of the swapped operands with its columns put back |
| PlanQuery.RelationMeaning | src/plan.c:290-367 | the rows of a join over tables with different column names: the pairs of which the qualification is true; for LEFT also the left rows in none, with nulls; for RIGHT the right rows likewise |
| PlanQuery.InnerTablesComplete | src/plan.c:409-524 | if every inner side is a table, the condition is that every qualification decides |
| PlanQuery.PairsDecideExactly | src/plan.c:354-359 | an accepted qualification decides all pairs of rows if and only if there are none, or its join has the columns it names, no leaf is null and its arithmetic is defined |
| PlanQuery.AnalyzedDecides | src/analyzer.c:356-434 | the qualifications of an analyzed clause decide if and only if each is defined in that sense; in a left-deep clause none names a column its join lacks |
| PlanQuery.PlanSelect | src/plan.c:526-592 | result over sort over join; refused exactly if the sort column is missing or unordered or the where clause is not a binary expression |
| PlanQuery.ExecPlan | apps/btdb.c:25-40 | initialise and pull to the end: all rows of the stream, or failure exactly if the stream stops |
| PlanQuery.Select | src/plan.c:369-592 | a whole SELECT over any from clause succeeds if and only if the planner accepts it and it has a value, and delivers project(filter(sort(join))) row for row, columns set by name: in the order asked for, the rows of which the where clause is true, each target what it computes on its row |
| PlanQuery.SelectPlainly | src/plan.c:369-592 | with different column names the join is the relation of the clause; with different output names the rows are the target values in order |
| PlanQuery.OrderMeaning | src/plan.c:543-589 | after the sort the joined rows are a permutation of what they were, and down the rows, before and after the where clause, the sort column does not fall, or for DESC does not rise |
| PlanQuery.ShownOrdered | src/plan.c:543-589 | so too in every output column that shows the sort column |
| PlanQuery.ChosenMeaning | src/plan.c:380-389 | the where clause leaves of each row as many copies as there were if it is true of it, none otherwise |
| SelectAnalysis.SelectionMeaning | src/analyzer.c:59-107 | each target has the type it was checked with, and its output column that type and its name, made up if it is no plain column |
| SelectAnalysis.OutputUniqueExactly | src/analyzer.c:91-98 | the output names all differ if and only if no column is selected twice |
| SelectAnalysis.AnonNameIs | src/analyzer.c:91-98 | the made-up names are ?column0?, ?column1? and so on, in decimal digits |
| SelectAnalysis.DigitsMeaning | src/analyzer.c:91-98 | the digits spell the number, without a leading zero |
| SelectAnalysis.AnalyzedReady | src/analyzer.c:50-148 | what analysis accepts has its slots, files and output names as planning and execution need them |
| SelectAnalysis.SelectAcceptedExactly | src/analyzer.c:50-148 | a SELECT is accepted if and only if its from clause is, every target has a type, the where clause is found boolean with the output columns in sight, and the sort column is one of the tables' |
| SelectAnalysis.SelectPanicsExactly | src/analyzer.c:50-148 | so for a whole SELECT, taking from clause, targets and where clause in turn |
| SelectAnalysis.AnalyzedWhereStopsExactly | src/analyzer.c:109-117 | with the output definition on the list, the accepted where clause stops the program exactly on joined rows where it names a made-up output column, a leaf is null or arithmetic is undefined |
| SelectAnalysis.PlannedExactly | src/plan.c:526-592 | an accepted statement is planned, sort column included, if and only if its where clause is a binary expression or missing |
| SelectAnalysis.ShownRowTyped | src/analyzer.c:103-106 | what the projection makes of a joined row has the types of the output columns, selected twice or not |
| SelectAnalysis.SelectStatement | src/analyzer.c:50-148 | a SELECT from its syntax tree to its answer: refused exactly if analysis refuses it, answered exactly if it is planned and has a value; over tables with different column names every row of the answer has the output types |
| Catalog.TypeToString | src/types.c:26-43 | every printable type has a comma-free name that reads back as the type |
| Catalog.TypeNames | src/types.c:11-43 | the three type names, both ways; any other text is no type |
| Catalog.NextToken | src/storage.c:232-243 | a token is neither empty nor contains a comma, and the rest is shorter |
| Catalog.SerializeColumns | src/storage.c:192-212 | the string building loop |
| Catalog.ColumnsTextIs | src/storage.c:192-212 | the column text is "type,name" of each column, separated by commas |
| Catalog.DefRowIs | src/storage.c:214-222 | name, number and columns stand in the catalog columns of those names |
| Catalog.ParseColumns | src/storage.c:224-245 | the token loop, with its two ways to run into a null token |
| Catalog.ColumnsRoundTrip | src/storage.c:192-245 | columns survive being written and read back if and only if there is one and no name is empty or contains a comma |
| Catalog.DefRoundTrip | src/storage.c:192-245 | the same for whole definitions, with the index cast to 32 bits and back |
| Catalog.TableDefs.CreateTable | src/storage.c:344-357 | next index, definition in memory, row on the first catalog page that is not full for it; what it comes to is decided by the room on the pages |
| Catalog.CreateExactly | src/storage.c:344-357 | in numbers: CREATE TABLE comes to the first catalog page that is not passed over, or to a new one of 8183 bytes |
| Catalog.CreationOrderExactly | src/storage.c:344-357 | the catalog reads back in creation order if and only if every definition went on the last page or a new one |
| Catalog.FlatPermutes | src/storage.c:344-357 | filling pages by first fit loses and repeats no definition |
| Catalog.OutOfOrderComesBack | src/storage.c:113-131 | three definitions that all are created and come back with the third before the second |
| Catalog.TableDefs.Restart | src/storage.c:113-131 | reads the definitions back in scan order; fails exactly if there is no row or one does not parse |
| Catalog.RestartRecovers | src/storage.c:113-131 | what is read back is a permutation of what was saved, and the same list if the heap is in creation order |
| Catalog.CreateAllAndRestart | src/storage.c:344-357 | a sequence of CREATE TABLEs succeeds if and only if each definition finds room in its turn; a restart then succeeds and reads the definitions back page by page |

## Left out

- File input and output, `fsync`, and the `SM` functions: a file is a sequence of pages, writing past the end extends it.
- The scanner, the grammar, printing and the interactive loop: statements start as syntax trees.
- Backward index scans (`src/storage.c:1222-1228`), which the planner chooses for `<` and `<=`: unfinished, without a settled meaning.
- Non-leaf index levels, the descent path and the commented-out root split: no effect in the current code.
- Index maintenance after CREATE INDEX: the program does none, so the index scan is compared on the heap it was built from.
- `DeserializeIndexDef` (`src/storage.c:820-847`): its `sscanf` arguments are swapped, there is no round trip to prove.
- `JOIN_OUTER`, which panics, and the INSERT column list, which is ignored.
- Memory: allocation, freeing, alignment, and aliasing between tuples and the pages they were read from.
- int32 overflow and division by zero: the value is `Undefined`, and a query that meets one is counted as stopped.
- Index scans inside join trees: a from clause is planned over sequential scans, and the index scan is compared with them separately.
- CreateIndex.BuildRun: a search key of text type read from the bytes of an int or bool key may read past them before it is compared; only the comparison is modelled.
- JoinList.AnalyzeMeaning: analysis returns the annotated tree and list where the program writes into them; it is modelled on values.
- Expr.TypeSound: the checker returns the tree with its operator functions where the program sets them in place.
- IndexSplit.SplitFits: the case that the new slot equals the split slot is stated only for small entries, because the program's accounting does not cover it.
- PageBuffer.Page.AddItem: what an overrun writes over live bytes is not modelled; the outcome is reported with the page as it was, and everything above stops there.
- BTreeIndex.Index.Insert: where the program stops, at an assertion or by an overrun, the chain is stated to be as it was.
- ModifyScan.InsertScan: VALUES lists in which a value of one type lands in a column of another are excluded; analysis accepts one only for a table whose columns share a name but not a type, and there the bytes of one type are then read as the other.
- SortStability.SortStableExactly: with two rows that are the same in every column, keeping the order is not the same as turning a whole number of times; there `SortRuns` is the exact statement.
- HeapFile.Table.Place: the 65536-page limit of tuple ids is a precondition of the heap, not a check of the program; `OutOfPages` reports a table that has reached it.
- Catalog.TableDefs.CreateTable: creating the new table's own file is not part of the catalog model.
