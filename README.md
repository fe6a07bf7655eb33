# PyDB row store and catalog, modelled in Dafny

PyDB is a small JSON-backed database written in Python. This project models three parts of it:

- **The current row store, `Table` in app/pydb/table.py.**
  - A table has an ordered column schema.
  - Each column has a type tag and the flags primary key, foreign key, auto-increment and nullable.
  - Rows are positional lists of values.
  - Construction fills in column defaults and then validates the schema: at most one primary key, and every foreign key must point at an existing primary-key column of the same type in a persisted table.
  - Insert synthesises auto-increment values, checks the row's length, checks primary-key uniqueness, and checks nulls and types.
  - Update checks everything first. It then writes the named cells of every row that matches a condition, and returns the number of cell writes and copies of the matched rows.
  - Delete removes rows equal to a value, removing while it iterates.
- **The catalog, `Database` in app/pydb/database.py.**
  - It registers tables by name.
  - Before an insert it looks up each foreign-key value in the parent table.
  - It carries a parent's update or delete into every other registered table whose foreign keys point at it, one level deep.
- **The earlier draft of the row store, `Table` in PyDB/table.py.**
  - Columns keep the caller's dictionary without defaults.
  - Construction checks only foreign keys.
  - Insert checks only lengths and types.
  - `update_row` validates its arguments and changes nothing.
  - `delete_row` has the same remove-while-iterating loop as the current store.

Modules:

| file | module | models |
|---|---|---|
| errors.dfy | `Errors` | `Option`, `Result`, and the kinds of `ValueError` (and crash) the code raises |
| values.dfy | `Values` | cell values and type tags, Python `==` between values, the auto-increment `+ 1` |
| schema.dfy | `Schema` | column definitions, `default_columns`, the validation in `build_table` |
| rows.dfy | `RowOps` | auto-increment synthesis, row filters, `list.remove`, the remove-while-iterating delete loop |
| table.dfy | `RowStore` | `prep_insert_row`, `insert_row`, `update_row`, `delete_row`, as specification functions and as class `Table` |
| propagation.dfy | `Propagation` | what `handle_fk_updates` and `handle_fk_deletes` do to one child table |
| database.dfy | `Catalog` | class `Database` and propagation over all registered tables |
| draft_table.dfy | `DraftTable` | the draft `Table` of PyDB/table.py |

How the model is built:

- **Imperative code becomes methods on classes.** Each method is proved equal to a specification function of the old state.
  - `RowStore.Table` holds `columns` and `data`. Its methods run the source's loops over them.
  - `Catalog.Database` holds its tables in a map. The foreign-key handlers are loops that call the child tables' own methods.
- **Properties are lemmas about the specification functions.**
- **The JSON file is modelled as a map from table names to their columns and rows.** The file is rewritten from `data` after every change, so a registered table's persisted rows are its in-memory rows.

## Model

| member | source | states |
|---|---|---|
| Values.Successor | app/pydb/table.py:175 | The auto-increment `+ 1` is defined exactly on integers and floats and yields the number one greater; on any other stored value the increment fails |
| Values.PyEqSymmetric | app/pydb/table.py:281 | Python `==` between cell values (where `1 == 1.0`) is symmetric |
| Values.PyEqTransitive | app/pydb/table.py:281 | Python `==` between cell values is transitive |
| Schema.ParseAction | app/pydb/table.py:98-103 | An FK action is `cascade` or `set_null` exactly when that string was given; any other string, or none, becomes `do_nothing` |
| Schema.Normalise | app/pydb/table.py:42-63 | A normalised column keeps its name and type; `PK`, `auto_inc` and `nullable` are true only when given as true; `FK` is absent unless given; `temporary` is always false |
| Schema.IndexOf | app/pydb/table.py:266 | The position found for a name is the first column carrying it, and there is none exactly when no column carries it |
| Schema.FkErrorIff | app/pydb/table.py:77-96 | A column passes the four foreign-key checks exactly when its parent table is persisted and has a primary-key column of that name and of the same type |
| Schema.FkCheckFromIff | app/pydb/table.py:77-96 | The loop over columns raises nothing exactly when every remaining foreign key is sound |
| Schema.BuildSchema | app/pydb/table.py:54-103 | Construction succeeds exactly when at most one column is a primary key and every foreign key is sound; several primary keys are reported first; the accepted schema is the normalised one, with distinct names and at most one primary key |
| RowOps.SynthLength | app/pydb/table.py:169-178 | Synthesis adds exactly one value per auto-increment column |
| RowOps.SynthFailsIff | app/pydb/table.py:172-178 | Synthesis fails exactly when some auto-increment column's last-row value has no `+ 1` |
| RowOps.SynthPlaces | app/pydb/table.py:169-178 | Inserting at each auto-increment index in turn leaves the given values in the other columns in their order, and each auto-increment column holds the last row's value plus one, or 0 for an empty table |
| RowOps.SynthesizeAligned | app/pydb/table.py:169-178 | When the given values plus the auto-increment columns number the column count, the synthesised row has that length, its non-auto-increment cells are the given values, and every auto-increment cell is the last row's value plus one, or 0 |
| RowOps.SelectConcat | app/pydb/table.py:281 | Filtering rows on a column value distributes over concatenation |
| RowOps.SelectEmptyIff | app/pydb/table.py:281 | The filter is empty exactly when no row matches |
| RowOps.SelectPartition | app/pydb/table.py:281-282 | The matching and the non-matching rows together number all the rows |
| RowOps.SelectWithin | app/pydb/table.py:281 | Filtering keeps only rows of the table |
| RowOps.IndexOfRow | app/pydb/table.py:360 | `list.remove` picks the first row equal to the given one under Python `==` |
| RowOps.Remove | app/pydb/table.py:360 | Removing a row shortens the list by exactly one |
| RowOps.RemoveKeepsRows | app/pydb/table.py:360 | Removing a row leaves only rows of the table |
| RowOps.RemovedRowMatches | app/pydb/table.py:358-360 | The row `list.remove` takes out lies at or before the visited row and also matches the condition |
| RowOps.RemoveMatching | app/pydb/table.py:358-360 | Removing a matching row lowers the number of matching rows by exactly one |
| RowOps.RemoveKeepsNonMatching | app/pydb/table.py:358-360 | Removing a matching row leaves the non-matching rows as they were, in their order |
| RowOps.ScanLength | app/pydb/table.py:357-363 | After the delete loop the remaining rows plus the counter equal the old row count |
| RowOps.ScanMatchCount | app/pydb/table.py:357-363 | After the delete loop the remaining matches plus the counter equal the old number of matches |
| RowOps.ScanMonotone | app/pydb/table.py:357-363 | The counter never goes down |
| RowOps.ScanProgress | app/pydb/table.py:357-363 | If a row at or after the cursor matches, the loop removes at least one more row |
| RowOps.ScanNoMatch | app/pydb/table.py:357-363 | If no remaining row matches, the loop changes nothing |
| RowOps.ScanKeepsRows | app/pydb/table.py:357-363 | The delete loop leaves only rows that were in the table |
| RowOps.ScanKeepsNonMatching | app/pydb/table.py:357-363 | The delete loop removes only matching rows: every non-matching row survives, in its order |
| RowOps.DeleteMatchingCounts | app/pydb/table.py:357-363 | The delete returns the number of rows it removed; the table shrinks by that number, so do its matches, and at least one row goes when any matches |
| RowOps.DeleteMatchingSingle | app/pydb/table.py:357-363 | When at most one row matches, exactly that row is removed and the count is the number of matches |
| RowOps.DeleteSkipsNeighbour | app/pydb/table.py:358-362 | Two adjacent matching rows lose only the first: removing during iteration skips the row after each removal |
| RowStore.PkCheckFromIff | app/pydb/table.py:200-203 | The primary-key loop passes exactly when no primary-key cell of the row already occurs in that column, and any failure is a duplicate key |
| RowStore.TypeCheckFromIff | app/pydb/table.py:207-213 | The type loop passes exactly when each cell is null in a nullable column or has its column's type |
| RowStore.CheckedIff | app/pydb/table.py:198-216 | The checks after synthesis pass exactly when the row is admissible (fresh primary keys, nulls only where allowed, types right), return the row unchanged, and report a duplicate key before any type error |
| RowStore.PrepInsertOk | app/pydb/table.py:169-216 | A prepared row is admissible; a full-length row comes back unchanged; a short row gets the given values in the non-auto-increment columns and the last row's value plus one (or 0) in each auto-increment column |
| RowStore.PrepInsertRejects | app/pydb/table.py:182-213 | Too many values are rejected; a short row whose given values and auto-increment columns do not add up to the width is rejected; a full-length row that is not admissible is rejected, with a duplicate primary key reported as such |
| RowStore.PrepareTwice | app/pydb/database.py:39-65 | Preparing an already-prepared row again returns the same result, so the catalog's second preparation inside `insert_row` changes nothing |
| RowStore.InsertKeepsKeysUnique | app/pydb/table.py:200-220 | Appending a prepared row keeps every primary-key column free of duplicates |
| RowStore.ResolveComplete | app/pydb/table.py:263-275 | When every name resolves, the index list holds, for each name, the first column of that name |
| RowStore.ResolveShort | app/pydb/table.py:263-275 | An unknown name makes the index list shorter than the name list |
| RowStore.ResolveFullIff | app/pydb/table.py:263-275 | The index list has one entry per name exactly when every name is a column |
| RowStore.FirstPos | app/pydb/table.py:313 | `column_names.index` gives the first position of a name |
| RowStore.UpdateCheck | app/pydb/table.py:251-320 | When the update's checks pass, names and values have equal length, the conditional column exists and every name resolves |
| RowStore.UpdateRejects | app/pydb/table.py:251-320 | An update is refused exactly when one of these holds: unequal counts; more names than the non-auto-increment columns plus the auto-increment columns named; an unknown conditional column; a primary key among the names while several rows match; an unmatched row holding a proposed primary-key value; an unknown name; a null or type mismatch |
| RowStore.ApplyUntouched | app/pydb/table.py:331-332 | A cell that is not written keeps its value |
| RowStore.ApplyLastWrite | app/pydb/table.py:331-332 | A written cell ends with the value of its last write |
| RowStore.UpdateEffect | app/pydb/table.py:322-337 | The update returns matches × names as its counter and copies of the matched rows taken before the change; it keeps the row count and width; unmatched rows and unnamed columns are unchanged; each named column of a matched row holds the value of the name's last occurrence |
| RowStore.ApplyAllFits | app/pydb/table.py:328-334 | The write loop keeps every row at the table's width |
| RowStore.ApplyAllUnnamed | app/pydb/table.py:328-334 | The write loop leaves every unnamed column unchanged |
| RowStore.ApplyAllLastWrite | app/pydb/table.py:328-334 | In every matched row, each named column holds the value of the name's last occurrence |
| RowStore.UpdateNoMatch | app/pydb/table.py:322-337 | An accepted update that matches no row returns `(0, [])` and leaves the data unchanged |
| RowStore.UpdateCanDuplicateKey | app/pydb/table.py:294-300 | The collision check reads proposed values by position in the primary-key list, not in the name list, so an update naming a non-key column first can give a row an existing primary-key value |
| RowStore.DupChecksPass | app/pydb/table.py:251-320 | That update passes every check |
| RowStore.DeleteOkFits | app/pydb/table.py:357-363 | A delete keeps every row at the table's width |
| RowStore.DeleteEffect | app/pydb/table.py:344-363 | A delete is refused exactly for an unknown column, a non-key column outside a foreign-key delete, or a value of another type. Otherwise: the counter is the number of rows removed; the table and its matches shrink by it; every non-matching row survives in order; some row goes whenever one matches; with at most one match exactly that row goes |
| RowStore.ScanKeepsKeysUnique | app/pydb/table.py:357-363 | The delete loop keeps every primary-key column free of duplicates |
| RowStore.RemoveKeepsKeysUnique | app/pydb/table.py:360 | Removing one row keeps every primary-key column free of duplicates |
| RowStore.Table.constructor | app/pydb/table.py:26-34 | A table holds its name, the validated columns and the rows loaded for it |
| RowStore.Table.ColumnContains | app/pydb/table.py:202 | Reports whether the value occurs, under Python `==`, in the given column of some row |
| RowStore.Table.PrepInsertRow | app/pydb/table.py:163-216 | The synthesis and check loops compute exactly the prepared row or the error |
| RowStore.Table.InsertRow | app/pydb/table.py:218-223 | The prepared row is appended at the end and nothing else changes; on an error the data is unchanged and the error is returned instead of raised |
| RowStore.Table.ResolveIndices | app/pydb/table.py:263-275 | The loop over names collects the column indices and the primary-key indices the checks use |
| RowStore.Table.FindPkClash | app/pydb/table.py:294-300 | The loop over rows finds a collision exactly when an unmatched row holds a proposed key value at a key index |
| RowStore.Table.FindMismatch | app/pydb/table.py:309-320 | The loop over names finds a mismatch exactly when some name's first value is null in a non-nullable column or has the wrong type |
| RowStore.Table.WriteCells | app/pydb/table.py:331-333 | The inner loop over one matched row performs the writes `row[idx] = value` in order and counts one per index |
| RowStore.Table.WriteRows | app/pydb/table.py:328-334 | The loop over all rows writes exactly the matched rows, as the write specification says, and its counter is matches × indices |
| RowStore.Table.ApplyWrites | app/pydb/table.py:327-334 | The write loop changes exactly the named cells of matched rows, and its counter is matches × names |
| RowStore.Table.UpdateRow | app/pydb/table.py:225-337 | A refused update changes nothing and returns the error; an accepted one installs the new rows and returns the counter and the pre-images |
| RowStore.Table.DeleteRow | app/pydb/table.py:339-363 | A refused delete changes nothing; an accepted one installs the rows the loop leaves and returns its counter |
| Propagation.Zip3 | app/pydb/database.py:99 | `zip` stops at the shortest list and pairs the t-th name, value and pre-image |
| Propagation.CascadeRow | app/pydb/database.py:99-102 | The zip loop for one snapshot row, each matching triple running the child's one-column update, keeps the child's width |
| Propagation.CascadeSnapshot | app/pydb/database.py:98-102 | The loop over the rows loaded before the cascade of one column keeps the child's width |
| Propagation.CascadeUpdateFrom | app/pydb/database.py:85-102 | The loop over the child's columns, which fails for a gated column the parent lacks, keeps the child's width |
| Propagation.CascadeChildUpdate | app/pydb/database.py:85-102 | A child changed by an update cascade keeps its width |
| Propagation.UpdateWithoutCascade | app/pydb/database.py:93-102 | When no gated child column has `on_update` set to cascade, the child is unchanged, unless the parent lacks a gated column's name, which raises |
| Propagation.UpdateWithoutCascadeFrom | app/pydb/database.py:93-102 | The same, for the loop from any column on |
| Propagation.UpdateReachesOnlyGated | app/pydb/database.py:87-96 | A child column is touched only if its name is among the changed names, its foreign key targets the parent, and its target column has its own name; with no such column the child is unchanged |
| Propagation.DeleteRepeat | app/pydb/database.py:129-132 | One foreign-key delete per matching snapshot row keeps the child's width |
| Propagation.CascadeDeleteFrom | app/pydb/database.py:119-132 | The loop over the child's columns, deleting only for cascading ones, keeps the child's width |
| Propagation.CascadeChildDelete | app/pydb/database.py:119-132 | A child changed by a delete cascade keeps its width |
| Propagation.DeleteWithoutCascade | app/pydb/database.py:121-132 | When no child column targeting the deleted parent column cascades on delete, the child is unchanged |
| Propagation.DeleteWithoutCascadeFrom | app/pydb/database.py:121-132 | The same, for the loop from any column on |
| Propagation.CountMatchesSuffix | app/pydb/database.py:129-130 | The matching snapshot rows from position i on are the matches of that suffix |
| Propagation.DeleteRepeatShrinks | app/pydb/database.py:129-132 | The repeated child deletes only remove rows |
| Propagation.DeleteRepeatCount | app/pydb/database.py:129-132 | Each matching snapshot row triggers one delete that removes at least one match, so the remaining matches drop by at least the number of matching snapshot rows |
| Propagation.CascadeDeleteShrinks | app/pydb/database.py:119-132 | A delete cascade only removes child rows |
| Propagation.CascadeDeleteClearsFrom | app/pydb/database.py:119-132 | After the cascade, no child row keeps the deleted value in a column that cascades deletes from the parent column and carries its name |
| Propagation.DeleteRepeatKeeps | app/pydb/database.py:129-132 | The repeated deletes by the column named like the parent column keep every row not holding the value there, in order, and change nothing when the child lacks that column |
| Propagation.CascadeDeleteKeepsFrom | app/pydb/database.py:119-132 | The same for the loop over the child's columns from any column on |
| Propagation.CascadeDeleteClears | app/pydb/database.py:119-132 | After the cascade no such child row keeps the deleted value; every remaining row was in the child before; the rows not holding the value in the child column of the parent column's name all survive, in order; a child without a column of that name is unchanged |
| Propagation.SingleUpdateChecks | app/pydb/database.py:102 | The one-name update the cascade issues passes the child's checks whenever the named column is a non-key column of the child, the value fits it, the column-count check admits one name, and the conditional column exists |
| Propagation.SingleUpdate | app/pydb/database.py:102 | That update sets the named column to the new value in every row whose conditional column equals the condition value, and leaves the other rows as they were |
| Propagation.SetWhereFits | app/pydb/database.py:102 | Such an update keeps the child's width |
| Propagation.SetWhereSameCondition | app/pydb/database.py:100-102 | Conditions equal under Python `==` update the same rows |
| Propagation.SetWhereIdempotent | app/pydb/database.py:98-102 | Repeating the same one-name update changes nothing more, also when the written column is the conditional column |
| Propagation.SingleRow | app/pydb/database.py:99-102 | For one snapshot row and one triple, the child is updated exactly when the row's foreign key equals the pre-image's parent value, and is otherwise unchanged |
| Propagation.SnapshotAfterSet | app/pydb/database.py:98-102 | Once the matching rows are set, the remaining snapshot rows leave the child as it is |
| Propagation.SnapshotBeforeSet | app/pydb/database.py:98-102 | Over the snapshot the child ends updated when some remaining snapshot row matches, and unchanged when none does |
| Propagation.SnapshotSetsMatching | app/pydb/database.py:98-102 | A snapshot that is the child's own data updates exactly the rows whose foreign key holds the old parent value |
| Propagation.UpdateCascadeSingle | app/pydb/database.py:85-102 | With one pre-image and any changed names and values: for a cascading child column whose name is among the names and is a parent column, when every other child column passes without effect, every child row whose foreign key holds the pre-image's value gets the first new value in the child column called by the first changed name, and every other row stays as it was |
| Propagation.InertSkip | app/pydb/database.py:87-97 | Columns that fail the gate, or pass it without `cascade` on a column the parent has, are skipped without effect |
| Propagation.UpdateCascadePairsFirstName | app/pydb/database.py:99-102 | Updating `x` and `id` of a parent row: the zip pairs `x` with the one pre-image, so the cascading child gets the new `x` and keeps its old foreign-key value |
| Propagation.UpdateCascadeUnknownFirstName | app/pydb/database.py:85-102 | A child holding only the foreign key, under a parent update naming `['x', 'id']`, is refused with `UnknownColumn`, because the zip hands the child the parent's column `x` |
| Propagation.NoTripleSnapshot | app/pydb/database.py:98-102 | With no zipped triples, the loop over the loaded child rows leaves the child's rows exactly as they were |
| Propagation.NoTripleColumns | app/pydb/database.py:85-102 | With no zipped triples, the column loop leaves the child's rows as they were, or fails with `ColumnNotInParent` for a gated column the parent lacks |
| Propagation.NoPreImageNoWrite | app/pydb/database.py:85-102 | When the parent's update matched no row, so that there are no pre-images, the cascade leaves the child's rows as they were or raises the `.index` error `ColumnNotInParent`; it never writes |
| Catalog.Without | app/pydb/database.py:27 | Deleting a name from the registry keeps exactly the other names, and keeps them distinct |
| Catalog.WithoutAbsent | app/pydb/database.py:27 | Deleting a key that is not among the keys leaves the key list unchanged, in its order |
| Catalog.WithoutCut | app/pydb/database.py:27 | Among distinct keys, deleting `n` removes exactly its one entry and keeps the other keys in their order, which is the order the later propagation loops visit |
| Catalog.CascadeRowInto | app/pydb/database.py:99-102 | The zip loop for one snapshot row, calling the child's own update, changes the child exactly as the one-row specification says, or returns its error |
| Catalog.CascadeSnapshotInto | app/pydb/database.py:98-102 | The loop over the loaded rows changes the child exactly as the snapshot specification says, or returns its error |
| Catalog.CascadeUpdateInto | app/pydb/database.py:85-102 | The loop over the child's columns changes the child exactly as the update cascade says, or returns its error |
| Catalog.DeleteRepeatInto | app/pydb/database.py:129-132 | The loop over the loaded rows, calling the child's own delete, changes the child exactly as the repeated-delete specification says, or returns its error |
| Catalog.CascadeDeleteInto | app/pydb/database.py:119-132 | The loop over the child's columns changes the child exactly as the delete cascade says, or returns its error |
| Catalog.ParentsHold | app/pydb/database.py:43-63 | The parent lookup fails only with an unregistered parent or a parent lacking the column, and only when some foreign-key column remains |
| Catalog.ParentsHoldIff | app/pydb/database.py:42-63 | The insert goes ahead exactly when every foreign-key value occurs in the parent's column of the child column's name; it is skipped without an error only at such a missing value; the only errors are an unregistered parent and a parent lacking the column, and with neither the lookup cannot fail |
| Catalog.WithRows | app/pydb/database.py:102 | Replacing one table's rows leaves every other table and every schema as it was |
| Catalog.UpdateChildren | app/pydb/database.py:81-102 | Propagating an update over the registry keeps the set of table names, every schema and every table's width |
| Catalog.DeleteChildren | app/pydb/database.py:115-132 | Propagating a delete over the registry keeps the set of table names, every schema and every table's width |
| Catalog.VisitedStep | app/pydb/database.py:81 | In a registry without repeated names, a name is visited at step i or later exactly when it is at step i or visited later |
| Catalog.UpdateChildrenAt | app/pydb/database.py:81-83 | After the update loop each other table visited holds its own single-level cascade result and every unvisited table, the parent included, is unchanged |
| Catalog.DeleteChildrenAt | app/pydb/database.py:115-117 | After the delete loop each other table visited holds its own single-level cascade result and every unvisited table, the parent included, is unchanged |
| Catalog.UpdateTableSpec | app/pydb/database.py:68-73 | An update of an unregistered table fails; a successful one keeps the set of tables and every width |
| Catalog.UpdatePropagated | app/pydb/database.py:73 | Propagating an accepted update keeps the set of tables and every width |
| Catalog.DeleteTableSpec | app/pydb/database.py:104-107 | A delete from an unregistered table fails; a successful one keeps the set of tables and every width |
| Catalog.UpdateTableEffect | app/pydb/database.py:68-102 | After a successful update the table holds its own update result, each other registered table holds its cascade from the pre-images, and nothing else changes |
| Catalog.UpdateTableRejected | app/pydb/database.py:71 | A refused table update is the catalog's error, and no propagation happens |
| Catalog.DeleteTableEffect | app/pydb/database.py:104-132 | After a successful delete the table holds its own delete result, each other registered table holds its cascade, and nothing else changes. The cascade runs even when no parent row was removed |
| Catalog.DeleteTableRejected | app/pydb/database.py:106 | A refused delete is the catalog's error, and no propagation happens |
| Catalog.Database.constructor | app/pydb/database.py:6-8 | A new catalog registers no table and sees the document at its path |
| Catalog.Database.GetTable | app/pydb/database.py:29-32 | The lookup succeeds exactly for a registered name, returns that table, and otherwise reports no such table |
| Catalog.Database.ListTables | app/pydb/database.py:34-35 | The listed names are exactly the registered ones, each once |
| Catalog.Database.AddTable | app/pydb/database.py:18-22 | A registered name is refused. A schema failing construction is refused with its error. Otherwise the new table is registered last, with the validated columns and the rows the document holds for that name (none for a new name), and no other entry changes. On every refusal nothing changes |
| Catalog.Database.Attach | app/pydb/database.py:21-22 | Registering a built table adds exactly that entry |
| Catalog.Database.RemoveTable | app/pydb/database.py:24-27 | An unregistered name is refused and nothing changes; otherwise exactly that entry is dropped, no other table changes, and the table's rows stay in the document |
| Catalog.Database.InsertIntoTable | app/pydb/database.py:37-65 | An unregistered table fails. A row that fails preparation fails with that error. Otherwise the prepared row is appended only when every foreign-key value occurs in its parent; when one does not, nothing is inserted and no error is raised. No other table changes |
| Catalog.Database.InsertInto | app/pydb/database.py:38-65 | The same for a table already looked up |
| Catalog.Database.Commit | app/pydb/database.py:65 | Inserting an already-prepared row appends it |
| Catalog.Database.CheckParents | app/pydb/database.py:43-63 | The loop over columns computes the parent lookup |
| Catalog.Database.HandleFkUpdates | app/pydb/database.py:75-102 | The loop changes the registered tables exactly as update propagation over the registry does, or returns its first error |
| Catalog.Database.PropagateUpdate | app/pydb/database.py:81-102 | Visiting every registered name in order yields the propagated state or the first error |
| Catalog.Database.UpdateVisit | app/pydb/database.py:81-102 | One visit keeps the remaining propagation's result the same |
| Catalog.Database.HandleFkDeletes | app/pydb/database.py:109-132 | The loop changes the registered tables exactly as delete propagation over the registry does, or returns its first error |
| Catalog.Database.PropagateDelete | app/pydb/database.py:115-132 | Visiting every registered name in order yields the propagated state or the first error |
| Catalog.Database.DeleteVisit | app/pydb/database.py:115-132 | One visit keeps the remaining propagation's result the same |
| Catalog.Database.UpdateTable | app/pydb/database.py:68-73 | The catalog's state becomes the table's update followed by propagation, or the first error is returned; a refused table update changes nothing |
| Catalog.Database.UpdateRegistered | app/pydb/database.py:69-73 | The same for a registered table: its own update, then propagation of the pre-images |
| Catalog.Database.OwnUpdate | app/pydb/database.py:71 | Only the updated table's rows change |
| Catalog.Database.DeleteFromTable | app/pydb/database.py:104-107 | The catalog's state becomes the table's delete followed by propagation, or the first error is returned; a refused delete changes nothing |
| Catalog.Database.DeleteRegistered | app/pydb/database.py:105-107 | The same for a registered table |
| Catalog.Database.OwnDelete | app/pydb/database.py:106 | Only the table deleted from changes |
| Catalog.Database.OnlyOneWritten | app/pydb/database.py:84-102 | When only one registered table's rows changed, and that table is still valid, the catalog stays valid and its view differs only in that table's rows |
| Catalog.Database.OthersStayValid | app/pydb/database.py:84-102 | When only one registered table changed and it is still valid, every registered table is valid |
| Catalog.Database.UpdateOne | app/pydb/database.py:84-102 | Propagating into one child changes only that child's rows |
| Catalog.Database.DeleteOne | app/pydb/database.py:118-132 | Propagating into one child changes only that child's rows |
| DraftTable.RawIndex | PyDB/table.py:182 | The position found for a name is the first column carrying it, and there is none exactly when no column carries it |
| DraftTable.Positions | PyDB/table.py:182 | The index list holds exactly the positions of the columns with that name |
| DraftTable.PositionsDistinct | PyDB/table.py:182-184 | With distinct column names the index list has at most one entry, has one exactly when the column exists, and that entry is its position |
| DraftTable.PositionsIncreasing | PyDB/table.py:182 | The index list is strictly increasing |
| DraftTable.ParentCheckFromIff | PyDB/table.py:54-67 | The loop over columns raises nothing exactly when every foreign key names a persisted table holding a primary-key column of that name and type |
| DraftTable.Build | PyDB/table.py:39-77 | Construction succeeds exactly when every foreign key is sound and any rows already stored for the name fit the columns. The table's data is the stored rows, or none for a new name |
| DraftTable.Persist | PyDB/table.py:69-76 | A new table's name is written with its columns and no rows; existing sections stay as they are |
| DraftTable.BuildReportsFirst | PyDB/table.py:54-67 | The error construction reports is that of the first column with a broken foreign key |
| DraftTable.ParentCheckFirst | PyDB/table.py:54-67 | The loop stops at the first broken foreign key |
| DraftTable.BuildAcceptsTwoKeys | PyDB/table.py:52 | The draft accepts two primary-key columns |
| DraftTable.AutoFlags | PyDB/table.py:102 | A column counts as auto-increment unless its `auto_inc` is false, so a missing key counts |
| DraftTable.Insert | PyDB/table.py:97-131 | An accepted row has the column count and every cell of its column's type |
| DraftTable.InsertOk | PyDB/table.py:99-129 | An accepted row holds no null. A full-length row is accepted as given. A short row gets the given values in the other columns and the last row's value plus one, or 0, in each auto-increment column |
| DraftTable.InsertRejects | PyDB/table.py:109-129 | Too many values are rejected; a short row whose given values and auto-increment columns do not add up is rejected; a full-length row is accepted exactly when every cell has its column's type |
| DraftTable.InsertAcceptsDuplicateKey | PyDB/table.py:123-131 | The draft accepts a row repeating an existing primary-key value |
| DraftTable.UpdateCheckIff | PyDB/table.py:146-161 | The draft update passes exactly when there are no more names than columns and the conditional column exists and is a primary key; too many names and an unknown conditional column are reported as such |
| DraftTable.UpdateIgnoresUnknownNames | PyDB/table.py:146-153 | The draft update accepts a name that is no column |
| DraftTable.DeleteEffect | PyDB/table.py:182-195 | A draft delete is refused exactly for an unknown column, a non-key column or a value of another type; with distinct names it never reports identical columns; otherwise the same counts as the current store hold, every remaining row was in the table, and the non-matching rows all survive in their order |
| DraftTable.DeleteLoopEffect | PyDB/table.py:191-194 | The draft's remove-while-iterating loop on one column removes as many rows as it counts, only matching ones, at least one when any matches and exactly the matching row when at most one does; every row left was in the table and the non-matching rows survive in order |
| DraftTable.Table.constructor | PyDB/table.py:18-27 | A draft table holds its name, its columns and the rows loaded for it |
| DraftTable.Table.Create | PyDB/table.py:26-77 | Construction against the file: a broken foreign key returns the error and leaves the file alone; otherwise a new table with the caller's name and columns holds the rows `Build` finds, the file becomes `Persist`'s, and the table's rows are those the file holds for its name |
| DraftTable.Table.InsertRow | PyDB/table.py:97-132 | The synthesis and check loops compute exactly the draft insert; the row is appended at the end on success and nothing changes on an error |
| DraftTable.Table.UpdateRow | PyDB/table.py:134-168 | The draft update reports exactly the validation's error, or succeeds, and never changes the data |
| DraftTable.Table.DeleteRow | PyDB/table.py:170-195 | A refused delete changes nothing; an accepted one installs the rows the remove-while-iterating loop leaves |

## Left out

- File I/O is not modelled. `open`, `json.load`/`json.dump`, `save_data`, `load_data` and `delete_table` are left out. Each table's rows are rewritten to the file after every change, so the document is a map whose registered sections are the in-memory tables. Creating the file in `Database.__init__` and the module-level rewrite of `db.json` in PyDB/table.py are not modelled either.
- The `print` diagnostics are left out because they have no effect on state.
- Runtime types are a closed tag enum (integer, string, float), compared by equality. The `isinstance` checks against a type sentinel become that comparison, and `bool` being a subclass of `int` is left out.
- Floats are opaque reals compared for equality. Float rounding in `+ 1` is not modelled.
- Python's `==` between an integer and a float (`1 == 1.0`) is kept; that is `PyEq`. Equality of whole rows is element-wise `PyEq`.
- Both insert routines mutate the caller's list in place while synthesising, even when the insert then fails. They are modelled as returning a new row, so the caller's list is left unchanged.
- Exceptions are modelled as `Err` values of a closed `Error` type; messages are dropped.
  - `insert_row` in app/pydb/table.py swallows its error, so `RowStore.Table.InsertRow` returns it with the data unchanged; the return value is the only difference.
  - A raw `KeyError`/`IndexError` also becomes an `Err`:
    - an unknown conditional column at app/pydb/table.py:278 (`UnknownConditionalColumn`);
    - the `.index` lookups at app/pydb/database.py:49 and 96 (`ColumnNotInParent`);
    - an unregistered parent at app/pydb/database.py:49 (`NoSuchTable`);
    - the draft's lookups of a missing `PK` key or an unknown column (`MissingKey`);
    - a non-numeric auto-increment source value (`AutoIncrementNotNumeric`).
- Python dictionaries become types with named fields. A column specification therefore always has a type, and an FK dictionary always has a parent table and column. The falsy-FK check (`if fk_info:`) counts only an absent FK; an empty FK dictionary is left out.
- Catalog.Database.AddTable checks that rows stored earlier under the name fit the new columns, and refuses the table (`StoredRowsDoNotFit`) otherwise. The source accepts such rows. A row longer than the columns never fails, since every row access in the source uses an index below the column count. A shorter row raises `IndexError` only on an access past its end, and synthesis for auto-increment even catches that error and inserts 0 (app/pydb/table.py:176-178). The draft's DraftTable.Build makes the same check.
- Catalog.Database.InsertIntoTable returns `Ok(false)` for the insert that is silently skipped. It returns `Ok(true)` when the row was appended.
- Catalog.Database.UpdateTable and Catalog.Database.DeleteFromTable: when propagation stops with an error, the contract gives only the error, not which children were already changed.
- Propagation.UpdateCascadeSingle: states the update cascade for one pre-image only. It does not state the effect of several pre-images, where the zip pairs the t-th name with the t-th pre-image and the order of the writes matters. It does not state the effect of several cascading gated columns in one child, or of a key or ill-typed first named column, whose update check can refuse. Nor does it state the case where the first changed name is not a column of the child: that child's update check refuses the write with `UnknownColumn` (app/pydb/table.py:304) after the parent's own rows were already rewritten, as `Propagation.UpdateCascadeUnknownFirstName` shows. These cases still run through `Propagation.CascadeChildUpdate`, which follows the source, and the write-free cases are covered by `Propagation.UpdateWithoutCascade`, `Propagation.InertSkip` and, for a parent update that matched no row, `Propagation.NoPreImageNoWrite`.
- `prev_cols` in `handle_fk_updates` is never read, so it is not a parameter.
- Concurrency and several handles on one file are not part of the code's behaviour.
- The demo block at PyDB/table.py:197-273 and the scripts temp.py, temp2.py, test.py and examples/temp2.py only seed data. test.py calls a `select` that does not exist.
- app/Tests/unit_test.py disagrees with the code in three places, and the model follows the code:
  - `insert_row` swallows its errors;
  - `update_row` returns a tuple;
  - `delete_row` returns a count.
