# mini-sql: the b-tree engine, modelled and proved

mini-sql keeps every table as a b-tree of fixed-width rows in one paged file. This project models that engine
in Dafny and proves what it relies on: that inserts and deletes, through any cascade of splits, borrows, merges
and root changes, keep every tree exact; that a planned query returns what a scan of every row would; that
definitions and literals survive being written as SQL and read again; and that a database closed and reopened
is the one that was closed.

## How the model is laid out

* **Pages** (`Pages.dfy`) are structured values: a header, a free page, a blank page, a leaf or an internal node,
  with the fields the C code keeps in each. Byte layout is modelled where arithmetic decides something: the
  capacity of a leaf, the fields of a row, the bytes of an `INT`.
* **The shape of a tree** (`Shape.dfy`, `Fill.dfy`) is a set of facts local to one node. A ghost map gives each
  node page its tree, the interval `(lo, hi]` of keys it owns, and its height. A node's children own exactly the
  intervals between its separators, and a leaf whose interval ends below the largest key holds that end as its
  last key. Separators are therefore exact, not just bounds: `SeparatorsExact` restates this against the rows
  themselves, read in order from the root down, and `InOrderIsRows` and `ChainIsInOrder` tie both the tree and
  the chain of leaves to the same rows. `Valid(pager)` joins shape, fill (at least half full, except the root) and
  the accounting of every page of the file. It holds for every key cap `maxKeys >= 3` and every leaf capacity `>= 3`.
* **Steps that change shape** are proved one by one as facts about pages: `Split`, `Root` (lifting a root's
  content out of its page, and its inverse, collapsing), `Boundary` (moving the one separator that records a leaf's
  largest key) and `Merge` (recutting two siblings, and merging them). The methods of `Insert`, `Cascade`,
  `LeafInsert`, `LeafRemove`, `Rebalance` and `Delete` follow the C functions of the same names, in the same order
  of effects, and are proved against those steps. In the middle of a cascade the parent is short of a child on
  disk; `Insert.Pending` describes it as the complete page it will be (the "virtual" page) with that child dropped.
* **Queries** are `Planner` (key range), `Expression` (evaluation), `Cursor` (descent and leaf chain) and `Executor`.
  `WherePlans` says what a plan reads from the WHERE as it was written.
* **SQL text** is `Tokenizer` and `Parser`, which follow the C code, and beside them what the language itself says:
  `Spelling` writes out how every token is spelled and proves that the tokenizer reads exactly that, whatever the
  blanks, comments and case; `Grammar` and `Sentences` are derivation trees, for a WHERE and for a whole line, and the
  parser accepts exactly what they derive; `Printing` and `LinePrinting` write trees out as SQL, and what is written
  parses back to the tree it was written from; by `Rewriting` every line that parses can be written out so.
  `Lexing` is about single tokens, `LineNames` about names, `Definition` and `Canonical` about CREATE TABLE.
  `Statement` and `Insertion` are the binder. `Statements.True` says what a WHERE means straight from its parse tree,
  by the names of columns; `BindingMeans` ties the bound form, and with it the planner and the executor, to that
  meaning. An INSERT is stated by the rows that could hold its values, a WHERE by the comparisons in it, a CREATE
  TABLE by its rules in numbers: none by the check that decides it.
* **The database** is `Catalog`, `NewTree`, `Database`, `Reopen` and `Session`. `Sessions.Run` is the main result
  about whole runs: its commands are lines of text and reopenings, and each line does what `Sessions.Step` says.
  `Cache` shows that the lazy page cache is invisible: through it the pages look like the one sequence that
  `Pagers.Pager.pages` is. `CachedPager` runs the two side by side: reading, writing, allocating and freeing keep
  them alike, and closing the cache leaves the file that closing the database leaves.

Two comments in the repository are out of date; the code is followed. `src/cursor.c:90-93` says that deletion will
have to keep leaves non-empty: it does, and that is part of what is proved of `leaf_node_delete`.
`README.md:789-790` says that nothing is deleted.

Keys and rows: `table_insert` takes its key from a row's key column, so a table's rows have keys from 0 to
INT32_MAX; the tree itself is proved for every unsigned 32-bit key. Text is a sequence of bytes; the C code's
strings end at a NUL, so a line of SQL, a name or a literal never holds one, and where that matters it is said
(`NulFree`). `INT` fields are stored little-endian, as on the machines the build targets.

## Model

| member | source | states |
|---|---|---|
| NodeCells.InsertCell | src/btree.c:763-770 | shifting the cells up from the end loses none and puts the new one at its place |
| NodeCells.RemoveCell | src/btree.c:753-760 | shifting the cells down removes exactly one |
| NodeCells.SplitCells | src/btree.c:631-656 | the loop that splits in place from the last cell down leaves old[..c] + [new] + old[c..] cut at the left count, for every c, although one node is both source and destination |
| Search.LeafNodeFindCell | src/btree.c:199-216 | the binary search finds the first cell whose key is not below the one sought, or the end |
| Search.InternalNodeFindChild | src/btree.c:291-306 | the binary search finds the first child whose separator is not below the key, or the rightmost child |
| MaxKey.GetNodeMaxKey | src/btree.c:347-356 | the walk down right children ends at the last key of the last leaf under the node, also while a page above is still short of a child |
| Shape.Disjoint | src/btree.c:720-723 | two nodes of one tree at one height own disjoint ranges of keys |
| Shape.SeparatorOnce | src/btree.c:778-793 | each separator value is recorded in one place of its tree only |
| Split.LeafSplitShaped | src/btree.c:613-669 | a leaf cut in two, its parent given the new separator and child, is a well-formed tree again: order, exact separators, parents, leaf chain |
| Split.InnerSplitShaped | src/btree.c:544-584 | the same for an internal node, whose middle separator moves to the parent |
| Root.LiftShaped | src/btree.c:394-415 | copying a root out to a new left child, its page kept, yields a well-formed tree one level higher |
| Root.CollapseShaped | src/btree.c:823-834 | pulling an only child up into the root page yields a well-formed tree one level lower |
| Boundary.LowerShaped | src/btree.c:780-793 | when a leaf's largest key drops, rewriting the one ancestor separator that records it restores exactness at every node, and in the neighbouring leaf's lower bound |
| Merge.LeafRecutShaped | src/btree.c:887-927 | moving cells between sibling leaves and rewriting the separator between them keeps the tree well-formed |
| Merge.InnerRecutShaped | src/btree.c:973-1036 | moving a child between internal siblings through the parent's separator keeps the tree well-formed |
| Merge.MergeShaped | src/btree.c:859-956 | merging two siblings and dropping the right one from their parent keeps the tree well-formed |
| Insert.OldKeyFindsChild | src/btree.c:422-439 | searching a parent for any key its child held before splitting, even one below the recorded separator, finds exactly that child |
| Insert.UpdateInternalNodeKey | src/btree.c:435-439 | only the separator of the child so found changes; the rightmost child, which has none, changes nothing |
| Insert.UpdatedIsPending | src/btree.c:422-439 | the page left by that update is the complete page after the split with the new sibling missing |
| Insert.ReparentChildren | src/btree.c:365-371 | exactly a node's children get it as their parent |
| Insert.RoomRestores | src/btree.c:473-509 | adding the missing child to a node with room restores the whole invariant and every row |
| Cascade.CreateNewRoot | src/btree.c:394-415 | the root's content moves to a fresh left child whose children are reparented; the root page, now internal, holds both halves and the left one's largest key |
| Cascade.InternalNodeInsert | src/btree.c:473-509 | with room, the child lands where the complete page has it; without, the node splits and the whole invariant is restored |
| Cascade.DivideInternal | src/btree.c:544-572 | the two halves of a full node with its new child are those of the complete page cut in two, and both are at least minimally full |
| Cascade.PlaceInHalf | src/btree.c:570-572 | the insert into a half never splits again |
| Cascade.InternalNodeSplitAndInsert | src/btree.c:544-584 | an internal split, and any cascade it starts up to a new root, restores the whole invariant with every row kept; the recursion terminates |
| LeafInsert.LeafNodeSplitAndInsert | src/btree.c:613-669 | inserting into a full leaf adds exactly that row and restores the whole invariant |
| LeafInsert.LeafNodeInsert | src/btree.c:679-700 | inserting at a key's position adds exactly that row to its tree, keeps every other tree, and restores the whole invariant |
| LeafRemove.ChildIndexInParent | src/btree.c:742-750 | the scan finds the child's first position in its parent |
| LeafRemove.LowerAncestorSeparator | src/btree.c:780-793 | the climb from a leaf finds and rewrites the one separator that records its old largest key, or none if the leaf is the tree's last |
| Rebalance.CollapseRoot | src/btree.c:823-834 | a root without separators takes over its only child, whose page is freed; rows and invariant kept |
| Rebalance.BorrowFromLeftLeaf | src/btree.c:887-927 | exactly the left sibling's last cell moves to the front, the separator drops to its new largest key, and the whole invariant holds again |
| Rebalance.BorrowFromRightLeaf | src/btree.c:887-927 | exactly the right sibling's first cell moves to the end, and the separator rises to it |
| Rebalance.LeafNodeMerge | src/btree.c:859-870 | the left leaf takes all the right one's cells and its next leaf; the right page joins the free list |
| Rebalance.InternalNodeMerge | src/btree.c:938-956 | the left node takes the separator and all the right one's children, reparented; the right page joins the free list |
| Rebalance.InternalNodeRemoveChild | src/btree.c:803-814 | the parent loses the right child and the separator before it |
| Rebalance.AfterChildRemoved | src/btree.c:843-852 | after a merge, repair climbs as far as it must: rows kept, whole invariant restored, terminating |
| Rebalance.LeafNodeRebalance | src/btree.c:887-927 | a leaf one cell short is repaired, rows kept and whole invariant restored: a cell comes from the left sibling if it can spare one, or else from the right, and nothing else changes; or else it is merged with the left sibling, or with the right if it is the first child |
| Rebalance.InternalNodeRebalance | src/btree.c:973-1036 | the same for an internal node one separator short, terminating at the root |
| Delete.LeafNodeDelete | src/btree.c:1049-1062 | deleting a cell removes exactly that row, keeps every other tree, and restores the whole invariant |
| InOrder.SeparatorsExact | src/btree.c:720-723 | every separator is the largest key stored under the child on its left, and below every key under the child on its right |
| InOrder.InOrderIsRows | src/btree.c:706-726 | read from the root down and left to right, a tree gives each of its rows once, in ascending order of key |
| InOrder.ChainIsInOrder | src/cursor.c:80-110 | the chain of leaves from the leftmost one gives the same sequence |
| InOrder.LastKeyIsLargest | src/btree.c:347-356 | in a well-formed tree that key is the last, and so the largest, of all under the node |
| InOrder.HeightLogarithmic | src/btree.c:727-734 | a tree of height h >= 1 above its leaves holds at least 2 * ceil(K/2)^(h-1) * ceil(M/2) rows |
| InOrder.FetchesLogarithmic | src/cursor.c:41-45 | a search that fetched d >= 2 pages ran over a tree of at least 2 * ceil(K/2)^(d-2) * ceil(M/2) rows |
| Pagers.Pager.AllocatePage | src/pager.c:134-150 | the page is the head of the free list, or a new last page only when the list is empty; the rest of the list stands |
| Pagers.Pager.FreePage | src/pager.c:156-162 | the page becomes the head of the list, linked to the old one; the list stays free of repeats |
| Pagers.PagesPartitioned | src/pager.c:134-162 | header, free pages and node pages are all the pages of the file, each counted once |
| Fill.RowsElsewhere | src/btree.c:398-400 | an operation on one tree leaves the rows of every other tree unchanged |
| Fill.ValidFullEnough | src/btree.c:727-734 | the law of fill in numbers, for every valid file: no leaf but a root holds fewer cells than half its capacity, no internal node but a root has fewer children than half the cap, no root has one child, and none is overfull |
| Cache.PageCache.GetPage | src/pager.c:92-121 | a fetch returns the database's page wherever it is, and changes nothing but to add a blank page at the end; cached pages stay cached |
| Cache.PageCache.GrowPageCache | src/pager.c:24-37 | growing the cache changes no page |
| Cache.PageCache.AllocatePage | src/pager.c:134-150 | through the cache, allocation does to the pages what it does without it |
| Cache.PageCache.FreePage | src/pager.c:156-162 | through the cache, freeing does to the pages what it does without it |
| Cache.PageCache.Close | src/database.c:128-146 | flushing the cached pages only leaves a file with exactly the database's pages and the free list's head in the header |
| CachedPager.ReadBoth | src/pager.c:92-121 | a page read through the cache is the pager's page, and both go on presenting the same pages |
| CachedPager.SetBoth | src/pager.c:92-121 | so does writing a page |
| CachedPager.AllocateBoth | src/pager.c:134-150 | allocating gives the same page in both, and they stay alike |
| CachedPager.FreeBoth | src/pager.c:156-162 | freeing a page keeps them alike, and puts the page at the head of both lists |
| CachedPager.CloseBoth | src/database.c:128-146 | flushing the cached pages leaves the very file that a closed database is opened from |
| Cursors.Cursor.Find | src/cursor.c:37-59 | the descent lands on the first row of the whole tree whose key is not below the one sought; the end is flagged exactly when there is none |
| Cursors.Cursor.Advance | src/cursor.c:95-110 | advancing lands on the next row of the whole tree, across leaves, or flags the end |
| Cursors.OwnerIsFirst | src/executor.c:20-39 | because separators are exact, the place in the leaf that owns a key is the place in the whole tree |
| Tables.CapacityExact | src/btree.c:140-162 | the row-size limit for n rows is the exact width up to which a leaf holds n cells, and a full leaf fits its page, for n from 1 to 1020 |
| Tables.CapacityLargest | src/btree.c:140-152 | a cell is the key and the row rounded up to 4 bytes, and a leaf holds as many as fit 4096 bytes after a header of 16, and no fewer |
| Tables.TreeInsert | src/table.c:42-60 | inserting a new key adds exactly that row; a taken key changes nothing at all |
| Tables.TreeDelete | src/table.c:67-77 | deleting a key removes exactly its row; an absent key changes nothing at all |
| Tables.Table.Insert | src/table.c:42-60 | the same for a typed row under the value of its key column; every other tree is as it was, and every node is full enough, in numbers |
| Tables.Table.Delete | src/table.c:67-77 | the same for deletion |
| Planner.NarrowByComparison | src/planner.c:40-78 | the range left holds exactly the keys of the old one that satisfy the comparison, either way round, != aside, with 64-bit constants clamped |
| Planner.Narrow | src/planner.c:87-94 | the range left holds exactly the keys that satisfy every such comparison reachable through ANDs |
| Planner.PlanSelect | src/planner.c:102-121 | the plan reads exactly the keys that meet those demands; one key is a point, all keys a scan, none an empty plan, and anything else a range |
| Planner.HoldsDemands | src/planner.c:80-94 | a row that satisfies the WHERE has a key its demands allow |
| Planner.PlanReadsExactly | src/planner.c:40-94 | a plan reads a row exactly if every condition joined by AND that compares the key with an integer, either way round and not by !=, holds of it; nothing else narrows |
| Planner.KeyWhereDecidesPlan | src/planner.c:40-94 | for a WHERE made of such comparisons alone, the plan reads exactly the rows the WHERE accepts |
| Planner.AndPlan | src/planner.c:87-94 | the plan of an AND reads the keys that the plans of all its parts read |
| WherePlans.PlanReadsAsWritten | src/planner.c:102-121 | the same for the WHERE as written: the plan reads a row exactly if its conditions that compare the key column with an integer are true of it |
| Expressions.ExpressionEvaluate | src/expression.c:204-234 | stopping early at AND and OR, evaluation says whether the row satisfies the expression |
| Expressions.CompareTextEqual | src/expression.c:180-197 | text compares equal exactly when its bytes are, and antisymmetrically |
| Expressions.CompareTextTransitive | src/expression.c:180-197 | text comparison is transitive |
| Expressions.CompareTextDecides | src/expression.c:180-197 | the first byte that differs decides a comparison of text, and a text that runs out first comes first |
| Expressions.CompareTextBefore | src/expression.c:180-197 | comparing byte by byte finds the lexicographic order, and only it |
| Executor.VisitMatchingRows | src/executor.c:40-63 | whichever plan was chosen, the rows visited are those a scan with the WHERE would keep, once each, in key order; the rows read are those in the plan's range |
| Executor.ExecuteSelect | src/executor.c:85-86 | a SELECT gives exactly the rows that satisfy its WHERE, in key order, and reads only those of which the WHERE's conditions on the key hold |
| Executor.ExecuteDelete | src/executor.c:119-124 | the two phases leave exactly the old rows minus those that satisfy the WHERE; as many deletions succeed as rows were chosen |
| Executor.DeleteChosen | src/executor.c:120-123 | each of a list of stored keys is found when its turn comes, although earlier deletions reshaped the tree: the number found is the length of the list |
| Tokens.KeywordOrIdentifier | src/tokenizer.c:64-75 | the scan finds the first keyword of the table the word is spelled like, case aside, or a name |
| Tokens.ReadIsValue | src/tokenizer.c:91-119 | digit by digit, a run of any length is flagged exactly when its value exceeds INT64_MAX, and otherwise read exactly |
| Tokens.ReadNumber | src/tokenizer.c:91-119 | the loop reads the whole run, and rejects one that runs into a name |
| Tokens.ReadString | src/tokenizer.c:127-148 | the loop ends the string at the first quote that is not doubled, or rejects it |
| Tokens.Tokenizer.Next | src/tokenizer.c:217-254 | each call gives the next token of the input and leaves the rest |
| Spelling.KeywordExactly | src/tokenizer.c:11-30 | a word is a keyword exactly when it is spelled like it, case aside |
| Spelling.SpelledLexes | src/tokenizer.c:217-254 | whatever is spelled like a token of any kind, and not run on from, is read as that token |
| Spelling.TokensSpelled | src/tokenizer.c:217-254 | every token that is no error is spelled as its kind is, is the whole of what is spelled there, and stands after nothing but blanks and comments |
| Spelling.BlankIgnored | src/tokenizer.c:217-235 | spaces, tabs, line ends and comments before a token change nothing |
| Lexing.DigitsLex | src/tokenizer.c:91-119 | a run of digits before anything but a name is one integer token, flagged exactly when above INT64_MAX |
| Lexing.DigitsIntoName | src/tokenizer.c:107-111 | digits that run into a name are malformed |
| Lexing.QuotedLexes | src/parser.c:154-168 | any text, its quotes doubled, lexes as one string whose unescaped content is that text |
| Parsing.UnescapeString | src/parser.c:154-168 | the loop removes the quotes and halves each doubled one |
| Parsing.Parser.ParseLiteral | src/parser.c:190-217 | a literal is a string, or an integer with an optional sign |
| Parsing.Parser.ParsePrimary | src/parser.c:358-383 | the method finds what its rule finds in the tokens ahead, or fails |
| Parsing.Parser.ParseNot | src/parser.c:390-405 | the same, each NOT counted against the limit on nesting |
| Parsing.Parser.ParseAnd | src/parser.c:413-429 | the loop gathers a chain of ANDs under one node |
| Parsing.Parser.ParseOr | src/parser.c:432-448 | the loop gathers a chain of ORs under one node; the mutual recursion terminates |
| Parsing.Parser.ParseColumnDef | src/parser.c:515-547 | a column is a name, a type and an optional PRIMARY KEY |
| Parsing.Parser.ParseCreate | src/parser.c:555-579 | a CREATE TABLE is a name and its columns |
| Parsing.Parser.ParseInsert | src/parser.c:226-267 | an INSERT is a table, an optional list of columns and one list of values |
| Parsing.Parser.ParseSelect | src/parser.c:455-483 | a SELECT is '*' or a list of columns, a table and an optional WHERE |
| Parsing.Parser.ParseDelete | src/parser.c:491-504 | a DELETE is a table and an optional WHERE, which is kept |
| Parsing.Parser.ParseStatement | src/parser.c:591-639 | a line is nothing or one statement; EXPLAIN goes before a SELECT or a DELETE only; nothing but one ';' may follow |
| Grammar.WhereParsedExactly | src/parser.c:8-30 | the parser finds an expression exactly where the grammar derives one with at most 64 levels of nesting, and the tree it builds is the one the derivation gives |
| Grammar.WhereShallow | src/parser.c:20-28 | however long its chains, the result has at most 2 * 64 + 3 levels |
| Sentences.LineParsedExactly | src/parser.c:591-639 | a line is a statement exactly when the grammar derives it, lists, EXPLAIN and ';' included, with at most 64 levels of nesting in its WHERE; and it is the statement the derivation means |
| Printing.WhereReparses | src/parser.c:8-30 | any WHERE written out as SQL, with its words, operators, brackets, numbers and quoted texts, parses back to itself, nested up to 64 deep |
| LinePrinting.StatementReparses | src/parser.c:591-639 | any INSERT, SELECT, DELETE or CREATE TABLE written out as SQL, with or without EXPLAIN, column list and WHERE, parses back to itself |
| Rewriting.LineRewritten | src/parser.c:591-639 | whatever line held a statement, in whatever case and layout, that statement can be written out, and then parses back to itself; but for a CREATE TABLE with a width past 64 bits, which is refused later |
| LineNames.WhereUsable | src/expression.c:49-56 | every column name in a WHERE parsed from tokens of a line is free of NULs, so the binder can look it up |
| LineNames.LineUsable | src/parser.c:591-639 | so is every name in any statement a line of text parses to, and a CREATE TABLE's widths are in range or flagged as too long |
| Definitions.TextBuffer.Append | src/table_definition.c:32-48 | doubling until the text and its terminator fit, appending adds exactly that text |
| Definitions.CanonicalSql | src/table_definition.c:57-75 | the loop writes the definition's canonical text |
| Definitions.TableDefinitionFromAst | src/table_definition.c:95-187 | a definition is accepted exactly when it meets every rule, and then has these columns, this key and this text |
| Definitions.AcceptedExactly | src/table_definition.c:95-187 | the rules in numbers: a name of at most 64 bytes, different column names, every TEXT at least one byte wide, one INT primary key, three rows to a page, a text of at most 1024 bytes |
| Definitions.AcceptedFits | src/table_definition.c:143-163 | an accepted table's rows fit a leaf at least three times |
| Definitions.DefinitionUnique | src/table_definition.c:165-187 | one CREATE TABLE establishes one definition, column offsets and all |
| Definitions.ColumnsAsDeclared | src/table_definition.c:165-187 | the columns are those declared, in order: an INT takes 4 bytes, a TEXT its width, and the key is the column that says so |
| Canonical.CanonicalReparses | src/table_definition.c:50-75 | canonical text tokenizes and parses back to the very tree it was printed from |
| Canonical.DefinitionSurvives | include/table_definition.h:23-28 | whatever line created a table, the text kept of it is accepted again, defines the same table and fits the catalog |
| Records.SchemaCreate | src/schema.c:18-45 | columns are numbered from 1 and laid end to end |
| Records.FieldsApart | src/schema.c:32-42 | no two fields of a row overlap, and every field lies inside it |
| Records.FindColumnById | src/schema.c:66-73 | the scan finds the column with an id |
| Records.NamesEqual | src/schema.c:81-90 | names are compared byte by byte, letters without regard to case |
| Records.SameNameLetters | src/schema.c:81-90 | names are the same letter for letter, and only ASCII letters have case |
| Records.FindColumnByName | src/schema.c:97-104 | the scan finds the first column of a name |
| Records.IntRoundTrip | src/record.c:34-64 | an INT reads back as it was written |
| Records.LittleEndian | src/record.c:34-64 | an INT is four bytes of two's complement, the least significant first |
| Records.TextRoundTrip | src/record.c:46-77 | NUL-free text that fits its column reads back as it was written |
| Records.RecordSetText | src/record.c:46-51 | text is cut to the field or padded with NULs, and nothing else of the row changes |
| Records.PutElsewhere | src/record.c:34-51 | writing one field leaves every other field as it was |
| Records.TextLength | src/catalog.c:63-74 | a stored text ends at its first NUL or at the width |
| Statements.ExpressionBind | src/expression.c:124-146 | a WHERE is bound node for node, or refused |
| Statements.BindsExactly | src/expression.c:84-117 | what is refused is exactly what names an unknown column, mixes types or holds an integer too long; what is bound can always be evaluated |
| Statements.WhereAccepted | src/expression.c:84-117 | a WHERE is accepted exactly when each comparison in it, however deep, is of two integers in range or of two texts, columns and literals alike |
| Statements.BindingMeans | src/expression.c:124-234 | binding keeps the meaning: evaluating the bound tree on a row says what the parsed tree says of the row's columns by name |
| Insertion.Pigeonhole | src/statement.c:103-127 | different columns of n are at most n, and n of them are all of them |
| Insertion.ListTargets | src/statement.c:108-147 | a column list is accepted exactly when it names every column once; no write goes past the last column |
| Insertion.BindTargets | src/statement.c:103-147 | the targets of the values are a permutation of the columns, or the INSERT is refused |
| Insertion.BindValue | src/statement.c:52-82 | the values a column takes: with InsertAccepted, those some row can hold |
| Insertion.BuildRow | src/statement.c:149-160 | each value written stays in its column while the others are written |
| Insertion.BindInsert | src/statement.c:95-161 | an INSERT is refused exactly when no row of its table could hold what it says, every column the value meant for it; otherwise it is made into such a row |
| Insertion.InsertAccepted | src/statement.c:52-161 | an INSERT is accepted exactly when some row reads back every value, number or text, from the column meant for it under a key that is not negative, in order or by a list that names each column once; and the row made is such a row |
| Insertion.RowReadsBack | src/statement.c:149-160 | every column of the row reads back the value supplied for it, and the key is not negative |
| NewTree.AllocateRootLeaf | src/database.c:39-45 | a new empty tree joins the file and nothing else changes |
| Catalogs.CatalogDefined | include/catalog.h:20-21 | the catalog's own text parses, is accepted, and gives this layout |
| Catalogs.CatalogOpen | src/catalog.c:15-31 | so opening the catalog always succeeds |
| Catalogs.EntryRoundTrip | src/catalog.c:43-106 | a catalog row gives back the entry it was written from |
| Catalogs.CatalogAdd | src/catalog.c:43-56 | recording a table adds exactly its row to the catalog |
| Catalogs.CatalogLoad | src/catalog.c:80-106 | the cursor reads every entry once, in id order |
| Databases.Database.FindTable | src/database.c:149-155 | the search finds the first table of a name, case aside |
| Databases.Database.CreateTable | src/database.c:162-166 | the new table is empty, listed last in the catalog, and every other table keeps its rows |
| Databases.Database.ExecuteCreate | src/statement.c:242-252 | a table is created exactly when its name is free and its definition accepted |
| Databases.Database.InsertRow | src/executor.c:14-18 | one table gains one row, or none if its key is taken; every other table keeps its rows |
| Databases.Database.DeleteRows | src/executor.c:115-125 | one table loses the rows its WHERE chooses; every other table keeps its rows |
| Reopening.DbClose | src/database.c:128-146 | the file holds the database's pages, and page 0 the head of its free list |
| Reopening.LoadTable | src/database.c:59-83 | a stored entry always rebuilds the table it was written for |
| Reopening.EntriesInOrder | src/database.c:55-57 | the catalog's entries are the tables' in the order they were created |
| Reopening.LoadTables | src/database.c:55-87 | every table is rebuilt in order, and the next id is above every stored one |
| Reopening.DbOpen | src/database.c:95-120 | a new file opens empty; a closed database opens with the same tables, definitions, roots, rows, free list and next id |
| Sessions.Perform | src/statement.c:259-285 | a line of text is parsed, bound and carried out as its statement says, or refused without effect; a reopening changes nothing |
| Sessions.Select | src/statement.c:169-209 | a SELECT is refused exactly for an unknown table, an unknown column or a WHERE that does not bind; otherwise it answers exactly the rows its WHERE is true of, in key order, with the ids of its columns; under EXPLAIN, the plan that reads the rows its key conditions are true of |
| Sessions.WhereAlgebra | src/expression.c:204-234 | AND keeps the rows every part keeps, OR those some part keeps, NOT the others |
| Sessions.BindColumns | src/statement.c:173-190 | '*' stands for columns 1 to n; a list has one id for each name, that of the first column so named, and is refused exactly when a name has none |
| Sessions.Delete | src/statement.c:216-237 | a DELETE is refused exactly for an unknown table or a WHERE that does not bind; otherwise exactly the rows its WHERE is true of are gone, or under EXPLAIN nothing is |
| Sessions.ExecuteInsert | src/statement.c:95-161 | an INSERT is refused exactly when its table is unknown or its columns and values do not fit; otherwise its row is stored, or its key is taken and nothing changes |
| Sessions.Execute | src/statement.c:264-282 | each kind of statement does what it says to the table it names and to no other |
| Sessions.CloseAndOpen | src/database.c:95-146 | closing and reopening shows the same tables with the same rows |
| Sessions.Run | src/database.c:55-166 | over any run of lines and reopenings, every step is what its line says and the file stays sound |
| Sessions.EveryPageAccounted | src/pager.c:123-162 | after any such run every page is the header, free or a node of exactly one table or the catalog |

## Left out

- System calls and their failures, out-of-memory, and `exit` on a corrupt file: the disk is a sequence of pages, and a file opened is empty or one this build closed with the same key cap.
- The REPL, meta-commands, timing, the wording of a plan under EXPLAIN, `print_tree`, row printing, and the wording and position of error messages: an error is an `Option` that is `None` or a flag.
- The header's magic, version and page size: the header keeps the catalog's root and the head of the free list.
- The byte layout of node pages, and pointers into them: a page is a value in the pager's sequence that methods replace, so two pointers to one page, and the order of single byte stores inside a page, are not captured; block moves of internal cells are slices, while the leaf's shifting and splitting loops keep their arrays.
- Node-type and bounds checks that only fail on a corrupt page (such as a child index past the last), since the invariant rules those pages out.
- Printing a row's chosen columns: a SELECT answers whole rows and, beside them, the ids of the columns to print.
- 32-bit page numbers running out: `Sessions.Run` stops at the first statement after page or table numbers no longer fit.
- Memory ownership: freeing, copying of names, and growth of lists other than the text buffer and the page cache.
- Cache.PageCache.Close: covers the flushing in `db_close`. The methods on trees reach pages through the pager's sequence; `CachedPager` shows, access by access, that the cache could stand in its place, but they are not run on it.
