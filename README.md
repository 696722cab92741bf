# A model of a PostgreSQL desktop client's table editor

postgresql-gui is an Electron application for browsing and editing a
PostgreSQL database. A local HTTP service (`src/main/api.ts`) receives the
renderer's requests and turns them into SQL. The renderer has four parts:

- a connection screen that assembles a `postgresql://` URL;
- a database page with a sidebar of schemas and their tables;
- a content view that shows, sorts, edits and deletes rows;
- a structure view that lists a table's columns and adds, edits and drops them.

This project models those parts in Dafny and proves what they promise.

| file | module | models |
|---|---|---|
| `JsText.dfy` | `JsText` | JavaScript values and their truthiness, `String(v)`, ASCII `toLowerCase`/`toUpperCase`, `trim`, `split`, `replace(/c/g, '')` and `parseInt(s, 10)` on integers |
| `UriComponent.dfy` | `UriComponent` | `encodeURIComponent`: UTF-8 and `%XX` escapes, with its decoding as the partner |
| `Api.dfy` | `Api` | the handlers of `/api/connect`, `/api/getTablesAndSchemas`, `/api/getTableStructure`, `/api/addColumn`, `/api/deleteColumn` and `/api/editColumn`; each is modelled by the statements it sends, in order, and its HTTP reply |
| `WelcomePage.dfy` | `WelcomePage` | the Connect button: required fields, URL assembly, the answer |
| `DbPage.dfy` | `DbPage` | the sidebar's open/closed map, the table click, the tabs (class `DbPageState`) |
| `Content.dfy` | `Content` | the row table (class `ContentTable`): the three-state sort, the comparator, the context menu, editing a cell and deleting a row |
| `Structure.dfy` | `Structure` | the column modal (class `ColumnModal`) and the structure page (class `StructurePage`) |

The React state of each component is the state of a Dafny object. Each
`setX` call is an assignment to a field, and each event handler is a
method with a `modifies` clause. Requests to the local service, alerts and
the clipboard are represented by the values the methods return.

The database itself is not modelled: every statement a handler sends is
taken to succeed. How a request to the service ended is a parameter of
the method that handles the answer (`Content.Outcome`).

`localeCompare` is a parameter `lc`. The ghost predicate
`Content.LocaleOrder` states the consistency that ECMA-262 asks of
`String.prototype.localeCompare`. `Array.prototype.sort` is
modelled as a stable insertion sort of the rows, each tagged with its
position.

## Model

| member | source | states |
|---|---|---|
| JsText.ToText | src/main/api.ts:138-146 | the text a template literal gives a value: a string as is, a number in decimal, `undefined` and `null` as those words |
| JsText.IntToDecimal | src/main/api.ts:130 | the decimal text of an integer is its digits, with a `-` before a negative number |
| JsText.DigitsValueOfDecimal | src/main/api.ts:130 | the decimal text of a natural number reads back as that number |
| JsText.ParseIntOfDecimal | src/main/api.ts:130 | `parseInt(String(n), 10)` is `n` for every integer `n` |
| JsText.ParseIntOfDigits | src/main/api.ts:205 | `parseInt` of a non-empty run of digits is their value |
| JsText.ParseIntOfNegatedDigits | src/main/api.ts:205 | `parseInt` of `-` followed by digits is the negated value |
| JsText.DigitPrefix | src/main/api.ts:130 | `parseInt` reads the longest run of leading digits: the run is followed by a non-digit or the end of the text, and it is all of the text when that is all digits |
| JsText.ToLowerFacts | src/main/api.ts:129 | the lower-cased type has no capital letter, lower-casing it again changes nothing, and a type without capitals is compared as typed |
| JsText.ToUpperFacts | src/main/api.ts:207 | the upper-cased type has no small letter, upper-casing it again changes nothing, and a type without small letters is sent as typed |
| JsText.CaseMapsAgree | src/main/api.ts:204-210 | the type's upper and lower case agree: lower-casing the upper-cased type gives the lower-cased type, and the other way round |
| JsText.TrimStart | src/renderer/component/DB/Structure.jsx:30 | the result is a suffix of the input that does not begin with white space, and every character removed before it is white space |
| JsText.TrimEnd | src/renderer/component/DB/Structure.jsx:30 | the result is a prefix of the input that does not end with white space, and every character removed after it is white space |
| JsText.TrimEmptyIffBlank | src/renderer/component/DB/Structure.jsx:30 | `name.trim()` is empty exactly when every character of the name is white space |
| JsText.RemoveAll | src/renderer/component/DB/Structure.jsx:126 | `replace(/"/g, '')` leaves no `"`, never lengthens the text and leaves a text without `"` unchanged |
| JsText.RemoveAllAppend | src/renderer/component/DB/Content.jsx:25 | removing a character from two joined texts removes it from each part |
| JsText.Split | src/renderer/component/DB/Structure.jsx:125 | `split` gives at least one part, and no part contains the separator |
| JsText.JoinSplit | src/renderer/component/DB/Structure.jsx:125 | joining the parts of a split with the separator gives the text back |
| JsText.SplitSinglePart | src/renderer/component/DB/Structure.jsx:125 | the split has one part exactly when the separator does not occur |
| JsText.SplitHead | src/renderer/component/DB/Content.jsx:26 | the first part is the whole text when there is no separator; otherwise the first two parts with the separator between them begin the text |
| JsText.SplitRest | src/renderer/component/DB/Structure.jsx:125 | after the first separator come the later parts joined again; that is the second part alone when there are two parts, and the second part followed by a separator otherwise |
| JsText.SplitSecondEnds | src/renderer/component/DB/Content.jsx:26 | the second part ends at the end of the text or at the second separator |
| JsText.SplitKeepsAbsent | src/renderer/component/DB/Content.jsx:25-26 | a character the text does not contain is in none of its parts, so removing the quotes before splitting leaves every part free of them |
| JsText.SplitAfterFirst | src/renderer/component/DB/Structure.jsx:125 | the text up to the first separator is the first part; the rest splits as before |
| UriComponent.Utf8 | src/renderer/pages/WelcomePage.jsx:25 | a character becomes one to four bytes, and one byte exactly for ASCII, that byte being the code |
| UriComponent.Utf8WellFormed | src/renderer/pages/WelcomePage.jsx:25 | the bytes have the UTF-8 lead and continuation patterns and decode back to the code point |
| UriComponent.HexRoundTrip | src/renderer/pages/WelcomePage.jsx:25 | an upper-case hex digit reads back as its value |
| UriComponent.PercentBytes | src/renderer/pages/WelcomePage.jsx:25 | each byte becomes three characters: `%` and two upper-case hex digits |
| UriComponent.Encode | src/renderer/pages/WelcomePage.jsx:25 | the output holds only unreserved characters and `%`; a text of unreserved characters is left unchanged |
| UriComponent.EncodedHasNoDelimiter | src/renderer/pages/WelcomePage.jsx:25 | an encoded text contains no `:`, `@` or `/`, so it cannot break the URL apart |
| UriComponent.DecodePercentBytes | src/renderer/pages/WelcomePage.jsx:25 | `%XX` escapes decode back to their bytes |
| UriComponent.DecodeEncode | src/renderer/pages/WelcomePage.jsx:25 | percent-decoding an encoded text gives the UTF-8 bytes of the original |
| Api.Connect | src/main/api.ts:12-29 | 400 "connectionString is required" exactly for a falsy connection string; otherwise one `SELECT NOW()` and 200 |
| Api.GetTableStructure | src/main/api.ts:67-108 | the first missing field of connectionString, schema, table is named in a 400; a complete request binds the query to `[schema, table]` |
| Api.GroupRows | src/main/api.ts:51-57 | the grouped listing has exactly the schemas of the rows, and each schema maps to its tables in row order |
| Api.GroupStep | src/main/api.ts:52-55 | one step of the reduce adds the row's schema and appends the row's table to that schema only |
| Api.TablesOfPrefix | src/main/api.ts:51-57 | the tables grouped from a prefix of the rows are a prefix of the full group |
| Api.GroupedRowPosition | src/main/api.ts:51-57 | every row's table is in its schema's list, at the position given by the earlier rows of that schema |
| Api.GroupedPositionsIncrease | src/main/api.ts:51-57 | two rows of one schema are listed in the order of the query result |
| Api.GetTablesAndSchemas | src/main/api.ts:31-65 | 400 exactly for a falsy connection string; otherwise 200 with the grouped listing of the query's rows |
| Api.GroupedAsWritten | src/main/api.ts:51-57 | grouping into `{}` fails exactly when some schema name is a key inherited from `Object.prototype` |
| Api.PrototypeSchemaBreaksListing | src/main/api.ts:51-57 | a database whose only schema is named `constructor` gets no listing, though it should show `users` |
| Api.AddColumnType | src/main/api.ts:128-131 | `VARCHAR(n)` for a varchar type of any case with a truthy max length; otherwise the type as given |
| Api.EditColumnType | src/main/api.ts:203-208 | `VARCHAR(n)` in the same case; otherwise the type upper-cased |
| Api.VarcharOfNumber | src/main/api.ts:130 | a non-zero numeric max length `n` gives `VARCHAR(n)` |
| Api.VarcharOfDigits | src/main/api.ts:130 | a max length given as a digit string gives `VARCHAR` of its value |
| Api.NullClause | src/main/api.ts:133 | `NULL` exactly for a truthy allowNull, `NOT NULL` exactly for a falsy one |
| Api.DefaultLiteral | src/main/api.ts:136-141 | no default exactly for `undefined` or `''`; text, varchar and char defaults are single-quoted, others are not |
| Api.DefaultClause | src/main/api.ts:135-142 | the clause is empty exactly for `undefined` or `''`, and otherwise `DEFAULT` and the literal |
| Api.QuotedPieces | src/main/api.ts:144-147 | splitting a statement at `"` recovers the pieces between its double quotes |
| Api.AddColumn | src/main/api.ts:118-157 | 400 exactly when a required field is falsy; 500 with the TypeError when the type is not a string; a complete request with a string type gets 200 "Column added successfully" and one `ALTER TABLE … ADD COLUMN` with the type, nullability and default clauses |
| Api.AddColumnNamesItsTarget | src/main/api.ts:144-147 | for names without `"`, the quoted names of the statement are the schema, the table and the column, in that order |
| Api.DeleteColumn | src/main/api.ts:159-182 | 400 exactly when a required field is falsy; otherwise one `DROP COLUMN` and the message naming the column and `schema.table` |
| Api.TypeChangeOf | src/main/api.ts:203-221 | the boolean conversion exactly for the boolean type (any case), otherwise `TYPE` with the edit's column type, always on the new name |
| Api.NullabilityOf | src/main/api.ts:223-233 | `DROP NOT NULL` exactly for a truthy allowNull, on the new name |
| Api.DefaultChangeOf | src/main/api.ts:235-249 | `DROP DEFAULT` exactly when there is no default literal, otherwise `SET DEFAULT` with it, on the new name |
| Api.EditColumn | src/main/api.ts:184-260 | 400 exactly when a required field is falsy; 500 exactly when the type is not a string; 200 "Column edited successfully" for a complete request with a string type; the statements sent are the rendered edit plan |
| Api.ColumnChanges | src/main/api.ts:203-249 | the three ALTER COLUMN statements of an edit, in the order type, nullability, default |
| Api.EditPlanOrder | src/main/api.ts:193-251 | a successful edit is BEGIN, a RENAME exactly when the names differ, type, nullability, default, COMMIT |
| Api.EditPlanCounts | src/main/api.ts:193-251 | a successful edit changes type, nullability and default exactly once each, renames at most once, and has one BEGIN and one COMMIT |
| Api.KindCounts | src/main/api.ts:193-251 | the count of each kind of statement in that sequence |
| Api.EditAbortRollsBack | src/main/api.ts:203-204 | a type that is not a string ends the transaction with ROLLBACK after at most the rename; no COMMIT is sent |
| Api.EditPlanContents | src/main/api.ts:196-249 | the rename goes from the old name to the new one, each change follows its field, and every change after the rename targets the new name |
| Api.EditWithoutRenameHasNoRename | src/main/api.ts:196-201 | equal old and new names issue no RENAME |
| Api.AlterColumnNamesItsTarget | src/main/api.ts:211-248 | for names without `"`, each ALTER COLUMN statement quotes the schema, the table and the new column name |
| Api.QuotedTarget | src/main/api.ts:211-248 | the split of a statement with three quoted names recovers those names |
| Api.AddAndEditAgreeOnDefault | src/main/api.ts:135-142 | add and edit decide the default the same way, with the same literal |
| WelcomePage.ConnectionUrl | src/renderer/pages/WelcomePage.jsx:25 | the assembled URL begins with `postgresql://` |
| WelcomePage.ConnectAttempt | src/renderer/pages/WelcomePage.jsx:18-40 | an alert exactly when the active tab's required fields are missing; otherwise the assembled URL or the typed URL is posted |
| WelcomePage.FormAfterAttempt | src/renderer/pages/WelcomePage.jsx:26 | a complete standard form stores the assembled URL in the URL tab's field; nothing else changes |
| WelcomePage.StartQueryNotRequired | src/renderer/pages/WelcomePage.jsx:21 | the start query does not affect the attempt |
| WelcomePage.UrlTabRepeatsStandardAttempt | src/renderer/pages/WelcomePage.jsx:26-32 | after a standard attempt, switching to the URL tab and connecting posts the same URL |
| WelcomePage.UrlAfterScheme | src/renderer/pages/WelcomePage.jsx:25 | after the scheme the URL is the user info, `@` and the host part |
| WelcomePage.UserInfoDelimiters | src/renderer/pages/WelcomePage.jsx:25 | the user info holds no `@`, and it splits at `:` into the two encoded fields |
| WelcomePage.UserInfoSplitsBack | src/renderer/pages/WelcomePage.jsx:25 | whatever the user name and password hold, the URL split at its FIRST `@` and then at `:` gives them back, decoded to their UTF-8 bytes (a split at the last `@` is not covered, see Left out) |
| WelcomePage.PostedUrlPassesValidation | src/renderer/pages/WelcomePage.jsx:18-40 | a posted connection string is never refused by the connect handler's 400 check |
| WelcomePage.OnResponse | src/renderer/pages/WelcomePage.jsx:42-54 | save the URL and navigate exactly on an ok answer; otherwise an alert with the answer's error or the exception's message |
| DbPage.Toggled | src/renderer/pages/DB.jsx:61-66 | toggling flips exactly that schema (a missing key reads as closed) and keeps every other entry |
| DbPage.ToggleTwice | src/renderer/pages/DB.jsx:61-66 | toggling twice opens the same schemas as before, and restores the map itself when the schema was loaded |
| DbPage.ToggleIsolated | src/renderer/pages/DB.jsx:61-66 | toggling one schema does not open or close another |
| DbPage.QualifiedName | src/renderer/pages/DB.jsx:69 | the qualified name is the schema, `."`, the table and `"` |
| DbPage.ExactlyOnePanel | src/renderer/pages/DB.jsx:103-137 | exactly one panel is shown, that of the active tab |
| DbPage.DbPageState.AllClosed | src/renderer/pages/DB.jsx:44-47 | the map has the schemas of the answer as keys, all closed |
| DbPage.DbPageState.LoadSchemas | src/renderer/pages/DB.jsx:41-48 | the listing replaces the schemas and every schema starts closed |
| DbPage.DbPageState.ToggleSchema | src/renderer/pages/DB.jsx:61-66 | the open map becomes the toggled map; nothing else changes |
| DbPage.DbPageState.ToggleTable | src/renderer/pages/DB.jsx:68-72 | as corrected (see Findings): the selection is the clicked table's qualified name and the Structure tab is shown; the sidebar is unchanged |
| DbPage.SelectionForgetsTable | src/renderer/pages/DB.jsx:68-72 | as written, the selection after a click is never the clicked table's qualified name, and is the same whichever table was clicked |
| DbPage.DbPageState.SelectTab | src/renderer/pages/DB.jsx:103-114 | the clicked tab becomes active; nothing else changes |
| Content.NextSort | src/renderer/component/DB/Content.jsx:147-152 | ascending on the same column becomes descending, descending becomes unsorted, anything else becomes ascending on the column |
| Content.ThreeClicks | src/renderer/component/DB/Content.jsx:147-152 | three clicks on a new column go ascending, descending, unsorted |
| Content.CompareCells | src/renderer/component/DB/Content.jsx:156-163 | a null first cell sorts after, a null second cell before; numbers compare by value in the sort's direction; any other pair by `localeCompare` of their texts, with the arguments swapped for a descending sort |
| Content.CompareFlip | src/renderer/component/DB/Content.jsx:159-162 | for non-null cells, swapping the arguments flips the sign: positive becomes negative, negative becomes positive, and zero stays zero |
| Content.CompareChain | src/renderer/component/DB/Content.jsx:159-162 | for non-null cells of one kind, the comparator is transitive |
| Content.MixedColumnHasCycle | src/renderer/component/DB/Content.jsx:161-162 | numbers mixed with text can compare in a cycle, so such a column has no consistent order |
| Content.Tagged | src/renderer/component/DB/Content.jsx:154 | the copy `[...rows]` tagged with positions: dropping the tags gives `rows` back, and no two entries share a position |
| Content.InsertPermutes | src/renderer/component/DB/Content.jsx:156 | one insertion step adds exactly the inserted entry |
| Content.SortPermutes | src/renderer/component/DB/Content.jsx:156 | sorting rearranges the entries without adding or losing any |
| Content.SortKeepsRows | src/renderer/component/DB/Content.jsx:156 | sorting rearranges the rows without adding or losing any |
| Content.SortedRows | src/renderer/component/DB/Content.jsx:154-164 | sortedRows shows one row per stored row, and is `rows` itself when no sort is active |
| Content.SortedRowsPermutes | src/renderer/component/DB/Content.jsx:154-164 | sortedRows is `rows` when no sort is active, always a permutation of `rows`, and each shown row is the row at its recorded position |
| Content.SortNullsLast | src/renderer/component/DB/Content.jsx:159-160 | after sorting, no null cell of the key column comes before a non-null one |
| Content.SortOrdered | src/renderer/component/DB/Content.jsx:156-163 | on a column of one kind, the sorted non-null cells are in comparator order |
| Content.SortedRowsNullsLast | src/renderer/component/DB/Content.jsx:154-164 | with a sort active, the shown rows have null cells of the sort column last |
| Content.SortedRowsKeepNullOrder | src/renderer/component/DB/Content.jsx:156-159 | with a sort active, rows whose sorted cell is null are shown in the order they are stored, since a null first cell never moves before another row |
| Content.SortedRowsOrdered | src/renderer/component/DB/Content.jsx:154-164 | with a sort active on a column of one kind, the shown rows are in comparator order |
| Content.WithCell | src/renderer/component/DB/Content.jsx:106-108 | the updated rows differ from the old ones in exactly one cell, which holds the new value |
| Content.RemoveAt | src/renderer/component/DB/Content.jsx:138 | the row at the position is removed, the others keep their order, and an absent position removes nothing |
| Content.RemoveAtInverse | src/renderer/component/DB/Content.jsx:138 | putting the removed row back at its position restores the rows |
| Content.ParseTableName | src/renderer/component/DB/Content.jsx:25-26 | after removing every `"`: the schema is the text before the first `.`; the table is undefined exactly when there is no `.`, and otherwise the text up to the next `.` (a longer name is cut there); neither part holds `.` or `"` |
| Content.ParseQualifiedName | src/renderer/component/DB/Content.jsx:25-26 | a name in the `schema."table"` format of DB.jsx:69 parses back into its schema and table |
| Content.UnquoteQualifiedName | src/renderer/component/DB/Content.jsx:25 | removing the quotes from the qualified name gives `schema.table` |
| Content.FailureAlert | src/renderer/component/DB/Content.jsx:102-113 | no alert exactly on success; a refusal alerts `Error: ` with the answer's error, or `Error: Unknown error` when that is falsy; an exception alerts `Fetch error: ` with its message |
| Content.ContentTable.constructor | src/renderer/component/DB/Content.jsx:5-11 | the initial state: no connection, no rows, menu hidden, unsorted, modal closed |
| Content.ContentTable.OnLoadData | src/renderer/component/DB/Content.jsx:15-17 | a truthy saved URL becomes the connection string; nothing else changes |
| Content.ContentTable.RowsRequest | src/renderer/component/DB/Content.jsx:23-31 | no request without a connection string or a table; otherwise the parsed schema and table |
| Content.ContentTable.OnRows | src/renderer/component/DB/Content.jsx:33-45 | the answer's rows replace the rows; a failure keeps them |
| Content.ContentTable.HandleSort | src/renderer/component/DB/Content.jsx:147-152 | the sort becomes the next state of the cycle; nothing else changes |
| Content.ContentTable.SortedRowsNow | src/renderer/component/DB/Content.jsx:154-164 | the insertion loop computes the sorted rows |
| Content.ContentTable.HandleRightClick | src/renderer/component/DB/Content.jsx:48-58 | the menu opens on the clicked cell's value and records the clicked row's position in `rows` (corrected, see Findings) |
| Content.ContentTable.HandleCopy | src/renderer/component/DB/Content.jsx:60-63 | the menu's value is copied and the menu hides |
| Content.ContentTable.HandleOpenEditModal | src/renderer/component/DB/Content.jsx:65-73 | the modal opens on the menu's cell, with `''` for a null or undefined value, and the menu hides |
| Content.ContentTable.HandleCancelEdit | src/renderer/component/DB/Content.jsx:75-77 | the modal closes and is cleared |
| Content.ContentTable.HandleChangeEditValue | src/renderer/component/DB/Content.jsx:79-81 | only the modal's new value changes |
| Content.ContentTable.HandleClickOutside | src/renderer/component/DB/Content.jsx:166-170 | the menu hides; nothing else changes |
| Content.ContentTable.HandleSaveEdit | src/renderer/component/DB/Content.jsx:83-115 | nothing without a row at the modal's position; otherwise the row's id and the new value are sent, exactly that cell changes only on success, and the modal closes unless the answer was a refusal |
| Content.ContentTable.HandleDeleteRow | src/renderer/component/DB/Content.jsx:117-145 | nothing without a row at the menu's position; otherwise the row's id is sent, exactly that row is removed only on success, and the menu hides unless the answer was a refusal |
| Content.DisplayIndexMismatch | src/renderer/component/DB/Content.jsx:193-196 | as written, with rows sorted, deleting the first shown row removes a different row |
| Content.MenuTargetsDisplayedRow | src/renderer/component/DB/Content.jsx:193-196 | as corrected, the recorded position holds the row that was shown at the clicked place |
| Structure.OrText | src/renderer/component/DB/Structure.jsx:15-17 | `text \|\| fallback` for strings: the text unless it is empty |
| Structure.OrValue | src/renderer/component/DB/Structure.jsx:18 | `value \|\| fallback`: the value unless it is falsy |
| Structure.ResetForm | src/renderer/component/DB/Structure.jsx:13-27 | without initial data the empty form; with it each field, or its default when the field is falsy |
| Structure.ResetFormSettles | src/renderer/component/DB/Structure.jsx:13-27 | resetting to the empty form is resetting to nothing, and a reset form resets to itself |
| Structure.EditFormFor | src/renderer/component/DB/Structure.jsx:262-269 | the edit form takes the listed name and type, allows null exactly for `YES`, has no default, and keeps a truthy max length |
| Structure.EditFormShownAsListed | src/renderer/component/DB/Structure.jsx:262-269 | the modal shows the edit form as built, except that an empty type shows as `text` |
| Structure.ParseStructureTable | src/renderer/component/DB/Structure.jsx:125-126 | no result exactly when the name has no `.`, since `rawTable` is then undefined and `replace` throws; otherwise the schema is the text before the first `.`, kept as it is, and the table is the text from there up to the next `.` or the end, with every `"` removed |
| Structure.ParseStructureQualifiedName | src/renderer/component/DB/Structure.jsx:125-126 | a name in the `schema."table"` format of DB.jsx:69 parses back into its schema and table |
| Structure.StructureAndContentAgree | src/renderer/component/DB/Structure.jsx:125-126 | the structure and content views read the same schema and table from a name in the `schema."table"` format of DB.jsx:69 |
| Structure.UnquoteSchema | src/renderer/component/DB/Content.jsx:25 | the content view removes the quotes around a quoted schema |
| Structure.QuotedSchemaKeepsQuotes | src/renderer/component/DB/Structure.jsx:125-126 | the structure view keeps the quotes around a quoted schema, where the content view removes them |
| Structure.AddRequestFor | src/renderer/component/DB/Structure.jsx:155-164 | the add request carries the form's fields and the parsed schema and table |
| Structure.EditRequestFor | src/renderer/component/DB/Structure.jsx:185-195 | the edit request carries the old name (null when none) and the form's fields |
| Structure.SavedAddAccepted | src/renderer/component/DB/Structure.jsx:148-165 | a saved add form is accepted by the add handler with 200 |
| Structure.SavedEditKeepsName | src/renderer/component/DB/Structure.jsx:178-196 | a saved edit passes the edit handler's checks and renames nothing |
| Structure.ColumnModal.constructor | src/renderer/component/DB/Structure.jsx:7-11 | the modal starts with the empty form |
| Structure.ColumnModal.Reset | src/renderer/component/DB/Structure.jsx:13-27 | the form becomes the reset of the new initial data |
| Structure.ColumnModal.ChangeName | src/renderer/component/DB/Structure.jsx:48-55 | the name changes only when adding; the input is disabled when editing |
| Structure.ColumnModal.ChangeType | src/renderer/component/DB/Structure.jsx:58-69 | the type becomes the chosen option; nothing else changes |
| Structure.ColumnModal.ChangeDefaultValue | src/renderer/component/DB/Structure.jsx:71-77 | only the default changes |
| Structure.ColumnModal.ChangeMaxLength | src/renderer/component/DB/Structure.jsx:78-86 | the max length changes only for varchar; the input is disabled otherwise |
| Structure.ColumnModal.ChangeAllowNull | src/renderer/component/DB/Structure.jsx:87-94 | only allowNull changes |
| Structure.ColumnModal.HandleSave | src/renderer/component/DB/Structure.jsx:29-35 | the form is saved exactly when the name is not blank; otherwise the "Name is required" alert |
| Structure.StructurePage.constructor | src/renderer/component/DB/Structure.jsx:105-111 | the initial state: no connection, no columns, modal closed, nothing being edited |
| Structure.StructurePage.OnLoadData | src/renderer/component/DB/Structure.jsx:113-121 | a truthy saved URL becomes the connection string; nothing else changes |
| Structure.StructurePage.FetchStructure | src/renderer/component/DB/Structure.jsx:123-132 | nothing without a connection or a table; a crash when the name has no `.`; otherwise the parsed request, and loading starts |
| Structure.StructurePage.OnStructure | src/renderer/component/DB/Structure.jsx:133-141 | the answer's columns, or none after a failure; loading ends |
| Structure.StructurePage.OpenEdit | src/renderer/component/DB/Structure.jsx:262-272 | the column's edit form and old name are recorded and the modal opens on that form |
| Structure.StructurePage.OpenAdd | src/renderer/component/DB/Structure.jsx:278-282 | nothing is being edited and the modal opens; a draft add form is kept |
| Structure.StructurePage.CloseModal | src/renderer/component/DB/Structure.jsx:289-293 | the modal closes (Cancel, the close button or the overlay) and nothing is being edited |
| Structure.StructurePage.Save | src/renderer/component/DB/Structure.jsx:148-209 | a blank name is refused; otherwise an edit is sent exactly when a column is being edited, with its old name, or else an add; success refetches and closes the modal, and after an edit clears it |
| Structure.StructurePage.DeleteColumn | src/renderer/component/DB/Structure.jsx:211-234 | the drop request for the column is sent unless the name has no `.`; success refetches; failure alerts |
| Structure.FetchedStructureChecks | src/main/api.ts:67-78 | a structure request from a qualified name is refused only for an empty schema or table, and otherwise bound to both |

## Left out

- The text of the two introspection queries (src/main/api.ts:41-47 and 83-106) is not reproduced. The query's result is a parameter: the rows of the listing, or the column list.
- The database is not modelled: a failed connection, a refused statement and the resulting 500 replies are not covered. The pg `Pool` and `pool.end()` are left out too.
- Api.Connect: the server time in the reply is not modelled, because it comes from the database.
- JsText.ToUpper: maps ASCII letters only, because full Unicode case mapping is not available. The lower-case comparisons are exact, because no non-ASCII character lower-cases into the ASCII letters of `varchar`, `boolean`, `text` or `char`.
- JsText.ParseInt: reads integers only. Floating-point numbers, `NaN` and exponent notation are not modelled, because values are integers here.
- Cells and request fields that are JSON objects or arrays are not modelled.
- A structure answer that is not an array is not modelled.
- Content.SortedRows: modelled as a stable insertion sort that moves a row left while `compare(row, previous) < 0`, the test of V8's binary insertion sort, because ECMA-262 leaves the algorithm open; rows with null cells and rows that compare equal keep their stored order, as in V8. Binary search and linear insertion agree for a consistent comparator only. With an inconsistent comparator (a mixed column, see Content.MixedColumnHasCycle) the engine may order rows differently.
- Content.ContentTable.HandleSaveEdit: the copy `[...rows]` shares row objects with `rows`, so the source mutates the old row as well. The model uses values, so this aliasing is not captured.
- Mouse coordinates of the context menu, the loading and error texts, the `show` flag's rendering, the modal's title and every other piece of presentation are left out.
- `JSON.stringify` dropping `undefined` fields is not modelled: an undefined field is kept as `Undefined`.
- Lone surrogates in `encodeURIComponent` (a URIError) cannot occur: Dafny's `char` is a Unicode scalar value.
- I/O is left out: `fetch`, the IPC messages `load-data` and `save-data`, the clipboard, `alert`, navigation and `console` output. They appear only as returned values and parameters.
- WelcomePage: an active tab other than the two named ones is not modelled, and neither is the `connectOnStart` checkbox, because it has no effect on the connection.
- DbPage.DbPageState: the saved connection string and the `fetchSchemas` request are not modelled. LoadSchemas stands for a successful answer; a failed one changes nothing.
- The `loading` and `error` state of the content view is not modelled, because it only selects the text shown.
- Api.GroupRows and Api.GetTablesAndSchemas: the listing is a `map`, which has no order. In the reply, the keys follow insertion order after `ORDER BY table_schema` (src/main/api.ts:46), with integer-like names such as `2024` first, and the sidebar lists the schemas in that order (src/renderer/pages/DB.jsx:78). The model keeps the order of the tables within a schema, but not the order of the schemas.
- Content.ContentTable.HandleSaveEdit and Content.ContentTable.HandleDeleteRow: each is one atomic step. In the source, the new rows are built from the `rows` captured before the `await` (src/renderer/component/DB/Content.jsx:90 and 123). A change to `rows` while the request is in flight (a reload, another delete) is overwritten when the answer arrives. The model applies the change to the rows as they are at that moment, so it does not capture this lost update.
- WelcomePage.UserInfoSplitsBack: the guarantee is for a split at the first `@`. Host, port and database are not encoded (src/renderer/pages/WelcomePage.jsx:25), so an `@` typed there moves the last `@`, where URL parsers end the user info. That case is not covered.

## Findings

| source | as written | input that shows it | evidently intended | confidence | as-written member | corrected member |
|---|---|---|---|---|---|---|
| src/renderer/component/DB/Content.jsx:193-196 | the context menu records the row's position among the sorted rows, and delete (line 138) and save (line 107) apply that position to the unsorted `rows` | rows `[{id: 2}, {id: 1}]` sorted ascending by `id`; Delete Row on the first row shown (`{id: 1}`) removes `{id: 2}` | act on the row that was clicked | not executed | Content.MenuRowAsWritten, Content.DisplayIndexMismatch | Content.ContentTable.HandleRightClick, Content.MenuTargetsDisplayedRow |
| src/main/api.ts:51-57 | the listing groups into `{}`, where `acc[schema]` already holds an inherited value for names such as `constructor`, `toString` or `__proto__`, so `push` throws and the reply is a 500 | a database whose schema is named `constructor` with a table `users` | a listing `{constructor: ['users']}` | not executed | Api.GroupedAsWritten, Api.PrototypeSchemaBreaksListing | Api.GroupRows, Api.GetTablesAndSchemas |
| src/renderer/pages/DB.jsx:68-72 | a table click stores the qualified name and at once overwrites it with `'structure'`, so the clicked table is lost | any click, such as `public`/`users`: the selection ends as `structure`, not `public."users"` | store the qualified name and show the Structure tab (`setActiveTab('structure')`) | not executed | DbPage.SelectionAsWritten, DbPage.SelectionForgetsTable | DbPage.DbPageState.ToggleTable, Content.ParseQualifiedName |
