# EAV storage engine: a Dafny model

The repository stores arbitrary records (Go structs and dynamic maps) in
SQLite tables of one fixed, vertical shape. Each row holds
`(Id, ObjId, Attr, Val, Typ)`:

- `Id` is an AUTOINCREMENT surrogate key.
- `ObjId` is the logical record.
- `Attr` is the field or key name.
- `Val` is the value's `%v` text.
- `Typ` is a type tag.

`UNIQUE(ObjId, Attr)` holds. The engine in `database/` creates such tables,
allocates record ids (`MaxId`, `NextId`) and writes records. It writes:

- structs field by field (`Insert`, `Update`);
- dynamic maps key by key (`MapInsert`, `MapAryInsert`, `MapUpdate`).

It reads records back by decoding every row under its tag (`Get` for one
record; `Gets` and `GetsByFilter` for many, grouped by `ObjId`). It deletes
records (`Del`, `DelsBy`). And it applies two policies, "insert or edit" and
"insert if not exists", built from those operations.

The model has five modules:

- `Values` (values.dfy) is the value codec. It holds `strconv.Atoi` exactly
  (syntax errors, 64-bit range clamping, the error flag) and the `%v` text of
  integers. It also holds the `" +0000 UTC"` removal done before the time
  parse, the tags the write paths store, and the decode switch of the read
  paths.
- `Rows` (rows.dfy) is the row store behind SQL:
  - a `Table` is its rows in storage order plus the AUTOINCREMENT counter;
  - `TableValid` is the uniqueness constraint plus ascending surrogate keys;
  - every statement the engine issues is a function on tables (selections,
    deletes, `ORDER BY ObjId`, accepted inserts, `UPDATE ... SET Val`);
  - the read loops are folds: `Collect` for `Get`, and `Runs` with `Build` for
    `Gets` and `GetsByFilter`.
- `Database` (database.dfy) is the class `Db`. Its mutable field `tables` maps
  table names to tables. Its methods are the table-level operations, and every
  method that writes keeps `Valid()`.
- `MapStore` (mapstore.dfy) and `StructStore` (structstore.dfy) are the write
  paths and policies, as methods on a `Db`.

Each write method states the whole new state as a function of the old one.
Lemmas beside it state what the new state means: which cells hold what, which
records are untouched, and what reading the record back returns.

Where the code and its comments differ, the model follows the code:

- `Gets` and `GetsByFilter` parse only the tag `Time` as a time, while `Get`
  also accepts `time.Time`.
- `GetsByFilter` with no matching row returns one empty record, not an empty
  list.
- `Update` rejects only the id 0. Negative ids from a struct are written.
- `InsOrEdit` and `MapInsOrEdit` insert under a fresh `ObjId`, even when the
  caller supplied an id that names no record.

## Model

| member | source | states |
|---|---|---|
| Values.Atoi | database/database.go:112-114 | The parsed value always lies within 64 bits; when an error is reported the value is 0, the largest int64 only for text not led by '-', or the smallest int64 only for text led by '-' |
| Values.AtoiClamp | database/database.go:112-114 | The decimal text of a value above the int64 range parses to the largest int64, and with a leading '-' to the smallest, each with an error |
| Values.IntToText | database/struct.go:111 | The `%v` text of an integer is non-empty and starts with a digit, or with `-` for a negative number |
| Values.AtoiIntToText | database/struct.go:110-115 | The text of every 64-bit integer parses back to that integer with no error, so `getId` reads an int field exactly |
| Values.ScanRejectsNonDigit | database/struct.go:111-114 | Digits followed anywhere by a non-digit never scan as a number |
| Values.AtoiNonNumeric | database/struct.go:111-114 | Non-numeric text is a syntax error with value 0, so `getId` yields 0: the empty text, a lone sign, and any text with a non-digit among the first 19 characters after an optional sign (a leading letter or blank included) |
| Values.RemoveAll | database/database.go:120 | Removing the zone suffix never makes the text longer |
| Values.RemoveAllAbsent | database/database.go:120 | Text that does not contain the suffix is passed to the time parse unchanged |
| Values.RemoveAllTrailing | database/database.go:120 | A trailing occurrence of the pattern is removed, and nothing else, when no occurrence starts before it |
| Values.StripUtcSuffix | database/database.go:120 | Time text that ends in `" +0000 UTC"` once reaches the time parse without that suffix (text without the suffix is covered by `RemoveAllAbsent`) |
| Values.InsertTag | database/map.go:18-25 | The insert tag is `int` exactly for `float64`, `int64`, `json.Number` and `int`; every other type name is stored verbatim |
| Values.UpdateTag | database/map.go:81-84 | The update tag is `int` exactly for `json.Number` and `int`; `float64` and `int64` keep their own names |
| Values.DecodeTable | database/database.go:111-130 | An attribute is dropped exactly when its tag is a time tag and its text, without the zone suffix, fails to parse; a parsed time is kept as that time. Integer tags yield Atoi's value, within 64 bits, and 0 on non-numeric text; `bool` is equality with `true`; every other tag keeps the raw text |
| Values.QualifiedTimeTag | database/database.go:174-184 | `time.Time` is kept as raw text by the list readers, and parsed as a time by the single-record reader exactly as `Time` is |
| Values.DecodeFormat | database/map.go:17-25 | Writing an int, bool or string with `%v` and its type name, under either tag rule, and decoding it with either reader returns the same value |
| Rows.MaxObjId | database/database.go:71-88 | 0 for an empty table; otherwise an ObjId that occurs and is at least every stored ObjId |
| Rows.ObjRowsMembers | database/database.go:99 | `WHERE ObjId = id` selects exactly the rows of record id |
| Rows.Where | database/database.go:198 | A selection keeps exactly the rows satisfying its condition, never more rows than the table has |
| Rows.CellAt | database/map.go:75-80 | The probe finds no cell exactly when the record has no row for the attribute |
| Rows.CellAtRow | database/map.go:75-76 | Under UNIQUE(ObjId, Attr) the probe of (id, attr) finds the text and tag of the row storing them |
| Rows.NoObjRows | database/database.go:106-108 | A record with no row reads as an empty selection |
| Rows.HasObjectObjRows | database/database.go:106 | A record exists exactly when its selection is non-empty |
| Rows.UniqueKeysObjRows | database/database.go:61 | Under UNIQUE(ObjId, Attr) the rows of one record carry distinct attributes |
| Rows.DropObjsSpec | database/database.go:248-250 | Deleting records by id removes all rows of those records and leaves every other record's rows, in order |
| Rows.DropRangeSpec | database/database.go:261-263 | Deleting an ObjId range removes all rows of the records in the range and leaves every other record's rows, in order |
| Rows.KeepObjsSpec | database/database.go:198 | `ObjId IN (...)` keeps a chosen record with all its rows and nothing of the others |
| Rows.KeepMatching | database/database.go:198-199 | The filtered read selects exactly the records with a matching row, each with all its rows; nothing when no row matches |
| Rows.WhereValid | database/database.go:61 | Any selection of a valid table is valid |
| Rows.DropObjsValid | database/database.go:249-250 | Deleting records keeps the table valid |
| Rows.DropRangeValid | database/database.go:262-268 | Deleting an ObjId range keeps the table valid |
| Rows.InsertByObjId | database/database.go:141 | One insertion step of the sort adds exactly that row (multiset) |
| Rows.InsertSorted | database/database.go:141 | Inserting into rows sorted by ObjId leaves them sorted |
| Rows.SortByObjId | database/database.go:141 | `ORDER BY ObjId` returns a permutation of the rows, sorted by ObjId |
| Rows.ObjRowsSort | database/database.go:141 | Sorting keeps each record's rows in their storage order |
| Rows.Runs | database/database.go:154-161 | The grouping has a group exactly when there are rows, and no group is empty |
| Rows.RunsOfSorted | database/database.go:152-187 | On rows sorted by ObjId, the groups are exactly the records: one per distinct ObjId, ascending, each with all of that record's rows |
| Rows.ObjIdsSpec | database/database.go:141-187 | A full sorted scan yields the table's distinct ObjIds in strictly ascending order, and the k-th group is all rows of the k-th id |
| Rows.AssembledNew | database/database.go:155-161 | A row with a new ObjId finishes the current record and starts the next one from "Id" |
| Rows.AssembledSame | database/database.go:162-185 | A row with the current ObjId folds into the current record |
| Rows.CollectSpec | database/database.go:109-131 | An attribute is in the read record exactly when it was there before or a row carrying it decodes; it then holds that row's value; other entries are kept |
| Rows.BuildSpec | database/database.go:152-186 | In the list readers, "Id" is always present and holds the ObjId unless the last row is a decodable "Id" attribute; every other attribute is present exactly when a row carrying it decodes, and holds that value |
| Rows.GetRecordSpec | database/database.go:96-133 | Get is empty exactly when the record has no row; otherwise it holds "Id" plus every decodable attribute with its value, and "Id" is the ObjId unless a stored "Id" decodes |
| Rows.GetRecordEmpty | database/database.go:106-108 | Get is empty exactly when the record has no row, on any table |
| Rows.CollectKeeps | database/database.go:109-131 | The fold never removes an attribute already in the record |
| Rows.CollectSkipsId | database/database.go:109 | Rows that are not "Id" leave the synthesised "Id" alone |
| Rows.BuildIsCollect | database/database.go:165 | Without a stored "Id", resetting "Id" before each row equals setting it once, as Get does |
| Rows.CollectSameFlag | database/database.go:119 | Without `time.Time` tags the two readers decode alike |
| Rows.ReadersAgree | database/database.go:94-96 | On a record with no stored "Id" and no `time.Time` tag, Get equals the list readers' record for that ObjId |
| Rows.AppendedValid | database/database.go:61 | An accepted INSERT keeps UNIQUE(ObjId, Attr) and the ascending AUTOINCREMENT keys |
| Rows.AppendedTwice | database/map.go:41-58 | Two accepted inserts store what one insert of both tuple lists stores |
| Rows.FreshInsertable | database/map.go:12-29 | The tuples of an unused ObjId with distinct attributes are accepted |
| Rows.InsertedObjRows | database/map.go:29-30 | After inserting a fresh record, its rows are exactly the new rows, in tuple order |
| Rows.AppendedOthers | database/map.go:29 | An insert leaves the rows of every record it does not write |
| Rows.InsertedRecord | database/map.go:29-31 | Reading back a freshly inserted record gives "Id" plus every key whose text decodes under its tag, with its value |
| Rows.NewRecord | database/database.go:109-131 | The fold of a new record's rows, started from "Id" := id, satisfies the read-back description |
| Rows.SetValValid | database/map.go:89-92 | `UPDATE ... SET Val` keeps the table valid |
| Rows.CellAtSetVal | database/map.go:89-90 | `UPDATE ... SET Val` changes the text of that one cell only and keeps its tag; an absent cell stays absent |
| Rows.SetValObjRows | database/map.go:89-90 | `UPDATE ... SET Val` leaves other records' rows alone |
| Rows.UpsertOneCells | database/map.go:73-92 | One probe-then-write step sets at most its own cell: a missing cell is created with the given text and tag, an existing one gets the new text under its old tag, and an existing cell under a key naming an integer column (`Id`, `ObjId`, or the rowid aliases `rowid`, `oid`, `_rowid_`) is kept; every other cell is unchanged |
| Rows.UpsertOneValid | database/map.go:85-92 | One probe-then-write step keeps the table valid |
| Rows.UpsertAllValid | database/map.go:73-93 | A whole update keeps the table valid |
| Rows.UpsertAllCells | database/map.go:73-93 | After an update with distinct keys, every written cell is what one step makes of the cell before the update, and every unwritten cell is unchanged |
| Rows.UpsertAllOthers | database/map.go:73-93 | An update leaves the rows of every other record unchanged, in content and order |
| Rows.TextLeTotalOrder | database/database.go:265 | The TEXT comparison `DelsBy` uses is a total order |
| Rows.TextOrderIsNotNumeric | database/database.go:265 | The TEXT comparison puts "10" before "9", so an attribute range is not a numeric range |
| Database.Db.ExecInsert | database/map.go:29 | A multi-row INSERT is accepted exactly when the table exists, the VALUES list is non-empty and no (ObjId, Attr) collides; then the rows are appended, otherwise nothing changes |
| Database.Db.ExecSetVal | database/map.go:89-92 | `UPDATE ... SET Val` succeeds exactly when the table exists and rewrites that cell's text |
| Database.Db.CreateTb | database/database.go:52-69 | Afterwards the table exists. With dropFirst it is empty; without it an existing table keeps its rows; other tables are unchanged; no error |
| Database.Db.MaxId | database/database.go:71-88 | -1 for a missing table, 0 for an empty one, otherwise the largest ObjId |
| Database.Db.NextId | database/database.go:90-92 | MaxId + 1: 0 for a missing table, 1 for an empty one, and never the ObjId of a stored row |
| Database.Db.Get | database/database.go:96-133 | The single-record read equals GetRecord; empty for a missing table |
| Database.Db.Assemble | database/database.go:152-188 | One record per group of consecutive equal ObjIds, each the list readers' fold of its group; `[{}]` for no rows |
| Database.Db.Gets | database/database.go:138-189 | Fails exactly for a missing table. Otherwise one record per distinct ObjId, ascending, each the fold of all that record's rows; none for an empty table |
| Database.Db.GetsByFilter | database/database.go:196-244 | Fails exactly for a missing table. Otherwise one record per ObjId with a matching row, ascending, each the fold of all that record's rows; `[{}]` when nothing matches |
| Database.Db.Del | database/database.go:248-257 | Removes every row of the record and nothing else; fails only for a missing table |
| Database.Db.DelsBy | database/database.go:259-275 | For "Id" or "ObjId", removes the records in [min, max]. For any other field, removes the records having that attribute with text between min and max as text. Fails only for a missing table |
| Database.Db.Upsert | database/map.go:73-92 | One key of an update: when the probe finds the row, its text is overwritten; otherwise the tuple is inserted, and that INSERT is rejected when the row exists. The probe never finds the row of a key naming the `Id` or `ObjId` column or a rowid alias (`rowid`, `oid`, `_rowid_`), in any letter case |
| MapStore.MapGetIdSpec | database/map.go:140-145 | The id is -1 without an "Id" key and the int under "Id" otherwise |
| MapStore.MapInsert | database/map.go:11-32 | All keys are appended as record MaxObjId + 1 with the insert tags, and the result is that record read back; an empty map or a missing table changes nothing and reads back empty; the error is nil |
| MapStore.MapInsertRecord | database/map.go:11-32 | The new ObjId belonged to no record, and the read-back holds "Id" and every key that decodes, with its value |
| MapStore.LeadingNonEmpty | database/map.go:41-58 | The number of maps before the first empty one; every earlier map is non-empty |
| MapStore.AryInsertedValid | database/map.go:35-62 | Inserting the maps one after another keeps the table valid and uses no ObjId beyond MaxId + number of maps |
| MapStore.AryBound | database/map.go:36-42 | After the inserts every ObjId is at most MaxId + number of maps |
| MapStore.AryOldRecords | database/map.go:35-62 | Records outside the new id range keep their rows |
| MapStore.AryNewRecord | database/map.go:41-58 | Record MaxId + k + 1 holds exactly the rows of the k-th map, in order, tagged `string` |
| MapStore.MapAryInsert | database/map.go:35-62 | The maps before the first empty one are stored as consecutive new records; the call completes exactly when no map is empty (and fails at once on a missing table unless there are no maps) |
| MapStore.MapUpdate | database/map.go:64-95 | An id <= 0 is an error with no change. Otherwise every key, "Id" included, is upserted in order with the update tag |
| MapStore.MapUpdateCells | database/map.go:73-93 | After MapUpdate each key's cell holds the new text, with its old tag or the update tag; a key naming an integer column (`Id`, `ObjId`, `rowid`, `oid` or `_rowid_`, in any letter case) only creates a missing cell and keeps a stored one; other cells and other records are unchanged |
| MapStore.MapInsOrEdit | database/map.go:100-121 | An id > 0 naming a stored record is updated and re-read; otherwise the map is inserted as a new record and read back |
| MapStore.MapInsIfNotExist | database/map.go:125-137 | Inserts only when the id is > 0 and names no record; otherwise nothing changes and the result is empty |
| StructStore.GetIdSpec | database/struct.go:104-119 | 0 without an "Id" field; otherwise the parsed text of the "Id" field, 0 when it does not parse |
| StructStore.GetIdOfInt | database/struct.go:104-119 | An "Id" field holding an int yields exactly that int |
| StructStore.Insert | database/struct.go:10-29 | Every field is appended as record MaxObjId + 1 under its type name, and the result is that record read back; a struct with no fields or a missing table changes nothing and reads back empty; the error is nil |
| StructStore.InsertRecord | database/struct.go:10-29 | The new ObjId belonged to no record, and the read-back holds "Id" and every field that decodes under its type name |
| StructStore.Update | database/struct.go:31-60 | An error exactly when the id is 0, with no change. Otherwise every field is upserted in order under its type name |
| StructStore.UpdateCells | database/struct.go:41-58 | After Update each field's cell holds the new text, with its old tag or the field's type name; a field naming an integer column (`Id`, `ObjId`, `rowid`, `oid` or `_rowid_`, in any letter case) only creates a missing cell and keeps a stored one; other cells and other records are unchanged |
| StructStore.InsOrEdit | database/struct.go:65-86 | An id > 0 naming a stored record is updated and re-read; otherwise the struct is inserted as a new record and read back |
| StructStore.InsIfNotExist | database/struct.go:90-102 | Inserts only when the id is > 0 and names no record; otherwise nothing changes and the result is empty |

## Left out

- SQL text is not modelled: statement building, quoting, `TrimRight` of the trailing comma, and injection through names, keys or values. Each statement is modelled by its effect on the row store.
- A text containing a double quote, which would break the generated statement, is not modelled.
- DelsBy: the attribute is matched as `Attr = field`. In SQLite a double-quoted name that matches a column (`"Val"`, `"Attr"`) or a rowid alias (`"rowid"`, `"oid"`, `"_rowid_"`, which name the `Id` column) refers to that column instead; this resolution is not modelled.
- Database.Db.Upsert, MapStore.MapUpdate, StructStore.Update: the probe and the `UPDATE` compare `Attr="key"`, and SQLite reads a double-quoted name that matches a column as that column. Only keys naming `Id`, `ObjId` or a rowid alias (`rowid`, `oid`, `_rowid_`, which name the `Id` column) are modelled, as a probe that never finds the key's own row. A key `Attr` (which matches every row of the record), `Val` or `Typ` (which match rows whose attribute equals that column), a numeric attribute text that equals the row's `Id` or `ObjId`, and a value text that names a column in `Set Val="..."` are not modelled.
- Database.Db.NextId, MapStore.MapAryInsert: ObjIds are unbounded integers. Go's `MaxId(tb) + 1` and `objId + 1` wrap to -9223372036854775808 after 9223372036854775807, a value a struct `Update` with that Id can store. The model does not capture the wrap-around, and does not capture the failure of the AUTOINCREMENT `Id` once it reaches the 64-bit maximum.
- GetsByFilter: the filter is an arbitrary predicate on rows. SQL filter text with a syntax error (which makes the call print and return nil) is not modelled.
- The time parse (`time.Parse` with a fixed layout) is a partial function given to `Db`. Only whether it succeeds, and with what instant, is represented.
- Reflection and `%v` are inputs: a struct is its fields' names, `%v` texts and type names; a map is its entries' keys, texts and type names. Go's map iteration order is modelled by letting the entries arrive in any order.
- Rows of one record are read in storage order, and `ORDER BY ObjId` is modelled as a stable sort. SQLite does not promise either order; apart from the order of "Id" relative to a stored "Id" attribute, the read records do not depend on it.
- MapStore.MapGetIdSpec: when "Id" holds a non-int the Go type assertion panics. The model requires the "Id" entry to be an int (`IdIsInt`) on every map operation that reads it.
- MapStore.MapAryInsert: `MustExec` panics on a failing statement. This is modelled as the call returning `false`, with the maps before it stored. The transaction `tx` is never used, so statements are not rolled back, and the model does not roll them back either. The `check` argument is unused.
- Concurrency is not modelled, including the race between `NextId` and the insert.
- Logging through `fmt.Printf` is not modelled.
- The difference between nil and an empty slice is not modelled: a failed list read is `ok == false`, with an empty result.
- Errors of `CreateTb` other than "already exists" (a malformed name, an I/O failure) are not modelled, nor errors of `Exec` beyond a missing table, an empty VALUES list and a uniqueness violation.
- `Insert` and `MapInsert` always return a nil error, so the `err != nil` branches of the policies are never taken. The model leaves them out.
- `Connect`, `String`, `main.go`, the `Examples` directory and the `time` package are not part of this model.
