/** Storing structs as EAV rows: one row per field, in declaration order. A
    struct is given as its fields, each with the field's name, the textual
    form of its value and the name of its type; field names are distinct. */
module StructStore {
  import opened Values
  import opened Rows
  import opened Database

  datatype Field = Field(name: string, text: string, typeName: string)

  predicate DistinctNames(fields: seq<Field>)
  {
    forall i, j :: 0 <= i < j < |fields| ==> fields[i].name != fields[j].name
  }

  /** getId: the integer parsed from the field named "Id"; 0 when there is
      no such field or its text does not parse. */
  function GetId(fields: seq<Field>): int
  {
    if fields == [] then 0
    else if fields[0].name == "Id" then
      var a := Atoi(fields[0].text);
      if !a.ok then 0 else a.n
    else GetId(fields[1..])
  }

  /** GetId is 0 without an "Id" field and the parsed text of the "Id" field
      otherwise, 0 when it does not parse. */
  lemma {:induction false} GetIdSpec(fields: seq<Field>)
    ensures (forall i :: 0 <= i < |fields| ==> fields[i].name != "Id") ==> GetId(fields) == 0
    ensures forall i :: 0 <= i < |fields| && fields[i].name == "Id" && DistinctNames(fields) ==>
              GetId(fields) == if Atoi(fields[i].text).ok then Atoi(fields[i].text).n else 0
  {
    if fields != [] && fields[0].name != "Id" {
      GetIdSpec(fields[1..]);
      assert forall i :: 1 <= i < |fields| ==> fields[i] == fields[1..][i - 1];
    }
  }

  /** An int field's id is read back exactly; a field whose text is not a
      number yields 0. */
  lemma GetIdOfInt(fields: seq<Field>, i: nat, n: int)
    requires DistinctNames(fields) && i < |fields| && fields[i].name == "Id"
    requires MinInt64 <= n <= MaxInt64 && fields[i].text == IntToText(n)
    ensures GetId(fields) == n
  {
    AtoiIntToText(n);
    GetIdSpec(fields);
  }

  /** The tuples of Insert and the writes of Update for record `id`: the
      field's type name is stored verbatim. */
  function FieldTuples(id: int, fields: seq<Field>): (xs: seq<Tuple>)
    ensures |xs| == |fields|
    ensures forall k :: 0 <= k < |xs| ==> xs[k] == Tuple(id, fields[k].name, fields[k].text, fields[k].typeName)
  {
    seq(|fields|, k requires 0 <= k < |fields| => Tuple(id, fields[k].name, fields[k].text, fields[k].typeName))
  }

  /** The outcome of inserting the struct into table tb: its fields appended
      as record MaxObjId + 1, and `rec` that record read back. */
  ghost predicate Inserted(before: map<string, Table>, after: map<string, Table>, tb: string, fields: seq<Field>, rec: Record, parseTime: string -> Option<Timestamp>)
    requires tb in before
  {
    && after == before[tb := Appended(before[tb], FieldTuples(MaxObjId(before[tb].rows) + 1, fields))]
    && rec == GetRecord(after[tb].rows, MaxObjId(before[tb].rows) + 1, parseTime)
  }

  /** The outcome of writing the struct over record GetId(fields) of table
      tb: every field upserted in order, and `rec` that record read back. */
  ghost predicate Edited(before: map<string, Table>, after: map<string, Table>, tb: string, fields: seq<Field>, rec: Record, parseTime: string -> Option<Timestamp>)
    requires tb in before
  {
    && after == before[tb := UpsertAll(before[tb], FieldTuples(GetId(fields), fields))]
    && rec == GetRecord(after[tb].rows, GetId(fields), parseTime)
  }

  /** Insert: every field becomes a row of the record NextId(tb), tagged with
      its type name; the statement's error is ignored and the result is Get
      of that record, with a nil error. */
  method Insert(db: Db, tb: string, fields: seq<Field>) returns (rec: Record, err: bool)
    requires db.Valid() && DistinctNames(fields)
    modifies db
    ensures db.Valid() && !err
    ensures tb !in old(db.tables) ==> db.tables == old(db.tables) && rec == map[]
    ensures tb in old(db.tables) ==> Inserted(old(db.tables), db.tables, tb, fields, rec, db.parseTime)
    ensures fields == [] ==> db.tables == old(db.tables) && rec == map[]
  {
    var objId := db.NextId(tb);
    var tuples: seq<Tuple> := [];
    for i := 0 to |fields|
      invariant tuples == FieldTuples(objId, fields[..i])
    {
      var f := fields[i];
      tuples := tuples + [Tuple(objId, f.name, f.text, f.typeName)];
    }
    assert fields[..|fields|] == fields;
    if tb in db.tables {
      var t := db.tables[tb];
      FreshInsertable(t.rows, tuples, objId);
      if fields == [] {
        assert Appended(t, tuples) == t;
        NoObjRows(t.rows, objId);
      }
    }
    var _ := db.ExecInsert(tb, tuples);
    rec := db.Get(tb, objId);
    err := false;
  }

  /** What Insert reads back from a struct with fields: "Id" and every field
      whose text decodes under its type name, with the decoded value; "Id"
      is the new ObjId unless the struct's own "Id" field decodes. */
  lemma InsertRecord(t: Table, fields: seq<Field>, id: int, parseTime: string -> Option<Timestamp>)
    requires DistinctNames(fields) && fields != [] && id == MaxObjId(t.rows) + 1
    ensures !HasObject(t.rows, id)
    ensures ReadBack(GetRecord(Appended(t, FieldTuples(id, fields)).rows, id, parseTime), FieldTuples(id, fields), id, parseTime)
  {
    InsertedRecord(t, FieldTuples(id, fields), id, parseTime);
  }

  /** Update: rejects only the id 0 (negative ids are written); otherwise
      every field is written to the record in turn (Db.Upsert): an existing
      cell gets the new text and keeps its tag, a missing one is inserted
      with the field's type name, and a stored "Id" cell is kept. Statement
      errors are ignored. */
  method Update(db: Db, tb: string, fields: seq<Field>) returns (err: bool)
    requires db.Valid()
    modifies db
    ensures db.Valid()
    ensures err <==> GetId(fields) == 0
    ensures err || tb !in old(db.tables) ==> db.tables == old(db.tables)
    ensures !err && tb in old(db.tables) ==>
      db.tables == old(db.tables)[tb := UpsertAll(old(db.tables)[tb], FieldTuples(GetId(fields), fields))]
  {
    var objId := GetId(fields);
    if objId == 0 {
      return true;
    }
    ghost var xs := FieldTuples(objId, fields);
    ghost var present := tb in db.tables;
    ghost var t0 := if present then db.tables[tb] else Table([], 0);
    for i := 0 to |fields|
      invariant db.Valid()
      invariant present ==> db.tables == old(db.tables)[tb := UpsertAll(t0, xs[..i])]
      invariant !present ==> db.tables == old(db.tables)
    {
      var f := fields[i];
      UpsertAllSnoc(t0, xs, i);
      db.Upsert(tb, Tuple(objId, f.name, f.text, f.typeName));
      if present {
        MapOverwrite(old(db.tables), tb, UpsertAll(t0, xs[..i]), UpsertAll(t0, xs[..i + 1]));
      }
    }
    assert xs[..|fields|] == xs;
    err := false;
  }

  /** The cells after Update of record id: each field's cell holds the new
      text, with its old tag if it existed and the field's type name
      otherwise; a field naming an integer column ("Id" or a rowid alias) only
      creates a missing cell and leaves a stored one as it was; every other
      cell of the record, and every row of every other record, is
      unchanged. */
  lemma UpdateCells(t: Table, id: int, fields: seq<Field>, attr: string, o: int)
    requires DistinctNames(fields)
    ensures forall k :: 0 <= k < |fields| && !NamesIntColumn(fields[k].name) ==>
              CellAt(UpsertAll(t, FieldTuples(id, fields)).rows, id, fields[k].name) ==
                Some(Cell(fields[k].text, match CellAt(t.rows, id, fields[k].name)
                                          case Some(c) => c.typ
                                          case None => fields[k].typeName))
    ensures forall k :: 0 <= k < |fields| && NamesIntColumn(fields[k].name) ==>
              CellAt(UpsertAll(t, FieldTuples(id, fields)).rows, id, fields[k].name) ==
                if CellAt(t.rows, id, fields[k].name).Some? then CellAt(t.rows, id, fields[k].name)
                else Some(Cell(fields[k].text, fields[k].typeName))
    ensures (forall k :: 0 <= k < |fields| ==> fields[k].name != attr) ==>
              CellAt(UpsertAll(t, FieldTuples(id, fields)).rows, id, attr) == CellAt(t.rows, id, attr)
    ensures o != id ==> ObjRows(UpsertAll(t, FieldTuples(id, fields)).rows, o) == ObjRows(t.rows, o)
  {
    var xs := FieldTuples(id, fields);
    forall k | 0 <= k < |fields|
      ensures CellAt(UpsertAll(t, xs).rows, id, fields[k].name) == WrittenCell(CellAt(t.rows, id, fields[k].name), xs[k])
    {
      UpsertAllCells(t, xs, id, fields[k].name);
    }
    UpsertAllCells(t, xs, id, attr);
    if o != id {
      UpsertAllOthers(t, xs, o);
    }
  }

  /** InsOrEdit: an id > 0 naming a stored record is updated and re-read;
      in every other case the struct is inserted under a fresh ObjId. */
  method InsOrEdit(db: Db, tb: string, fields: seq<Field>) returns (rec: Record)
    requires db.Valid() && DistinctNames(fields)
    modifies db
    ensures db.Valid()
    ensures tb !in old(db.tables) ==> db.tables == old(db.tables) && rec == map[]
    ensures tb in old(db.tables) && GetId(fields) > 0 && HasObject(old(db.tables)[tb].rows, GetId(fields)) ==>
      Edited(old(db.tables), db.tables, tb, fields, rec, db.parseTime)
    ensures tb in old(db.tables) && !(GetId(fields) > 0 && HasObject(old(db.tables)[tb].rows, GetId(fields))) ==>
      Inserted(old(db.tables), db.tables, tb, fields, rec, db.parseTime)
  {
    var id := GetId(fields);
    if tb in db.tables {
      GetRecordEmpty(db.tables[tb].rows, id, db.parseTime);
    }
    if id > 0 {
      var item := db.Get(tb, id);
      if |item| == 0 {
        var err;
        rec, err := Insert(db, tb, fields);
      } else {
        var _ := Update(db, tb, fields);
        rec := db.Get(tb, id);
      }
    } else {
      var err;
      rec, err := Insert(db, tb, fields);
    }
  }

  /** InsIfNotExist: inserts the struct as a new record only when its id is
      > 0 and names no stored record; otherwise nothing changes and the
      result is empty. */
  method InsIfNotExist(db: Db, tb: string, fields: seq<Field>) returns (rec: Record)
    requires db.Valid() && DistinctNames(fields)
    modifies db
    ensures db.Valid()
    ensures tb in old(db.tables) && GetId(fields) > 0 && !HasObject(old(db.tables)[tb].rows, GetId(fields)) ==>
      Inserted(old(db.tables), db.tables, tb, fields, rec, db.parseTime)
    ensures !(tb in old(db.tables) && GetId(fields) > 0 && !HasObject(old(db.tables)[tb].rows, GetId(fields))) ==>
      db.tables == old(db.tables) && rec == map[]
  {
    rec := map[];
    var id := GetId(fields);
    if tb in db.tables {
      GetRecordEmpty(db.tables[tb].rows, id, db.parseTime);
    }
    if id > 0 {
      var item := db.Get(tb, id);
      if |item| == 0 {
        var err;
        rec, err := Insert(db, tb, fields);
      }
    }
  }
}
