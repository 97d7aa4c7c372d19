/** Storing dynamic maps (such as decoded JSON objects) as EAV rows: one row
    per key. A map is given as its entries, each with the key, the textual
    form of the value and the name of the value's dynamic type; the keys of
    a map are distinct and its iteration order is arbitrary, so the entries
    may come in any order. */
module MapStore {
  import opened Values
  import opened Rows
  import opened Database

  datatype Entry = Entry(key: string, text: string, typeName: string)

  predicate DistinctKeys(input: seq<Entry>)
  {
    forall i, j :: 0 <= i < j < |input| ==> input[i].key != input[j].key
  }

  /** The "Id" entry, when present, holds an int; any other dynamic type
      makes the lookup's type assertion panic. */
  predicate IdIsInt(input: seq<Entry>)
  {
    forall i :: 0 <= i < |input| && input[i].key == "Id" ==>
      input[i].typeName == "int" && Atoi(input[i].text).ok
  }

  /** The caller's id: the int under "Id", or -1 when there is no such key. */
  function MapGetId(input: seq<Entry>): int
    requires IdIsInt(input)
  {
    if input == [] then -1
    else if input[0].key == "Id" then Atoi(input[0].text).n
    else MapGetId(input[1..])
  }

  /** MapGetId is -1 without an "Id" key and the parsed int of the "Id"
      entry otherwise. */
  lemma {:induction false} MapGetIdSpec(input: seq<Entry>)
    requires IdIsInt(input)
    ensures (forall i :: 0 <= i < |input| ==> input[i].key != "Id") ==> MapGetId(input) == -1
    ensures forall i :: 0 <= i < |input| && input[i].key == "Id" && DistinctKeys(input) ==>
              MapGetId(input) == Atoi(input[i].text).n
  {
    if input != [] && input[0].key != "Id" {
      MapGetIdSpec(input[1..]);
      assert forall i :: 1 <= i < |input| ==> input[i] == input[1..][i - 1];
    }
  }

  /** The VALUES tuples of MapInsert for record `id`. */
  function InsertTuples(id: int, input: seq<Entry>): (xs: seq<Tuple>)
    ensures |xs| == |input|
    ensures forall k :: 0 <= k < |xs| ==> xs[k] == Tuple(id, input[k].key, input[k].text, InsertTag(input[k].typeName))
  {
    seq(|input|, k requires 0 <= k < |input| => Tuple(id, input[k].key, input[k].text, InsertTag(input[k].typeName)))
  }

  /** The per-key writes of MapUpdate on record `id`. */
  function UpdateTuples(id: int, input: seq<Entry>): (xs: seq<Tuple>)
    ensures |xs| == |input|
    ensures forall k :: 0 <= k < |xs| ==> xs[k] == Tuple(id, input[k].key, input[k].text, UpdateTag(input[k].typeName))
  {
    seq(|input|, k requires 0 <= k < |input| => Tuple(id, input[k].key, input[k].text, UpdateTag(input[k].typeName)))
  }

  // ---------------------------------------------------------------------------
  // MapInsert
  // ---------------------------------------------------------------------------

  /** The outcome of inserting the map into table tb: its entries appended
      as record MaxObjId + 1, and `rec` that record read back. */
  ghost predicate MapInserted(before: map<string, Table>, after: map<string, Table>, tb: string, input: seq<Entry>, rec: Record, parseTime: string -> Option<Timestamp>)
    requires tb in before
  {
    && after == before[tb := Appended(before[tb], InsertTuples(MaxObjId(before[tb].rows) + 1, input))]
    && rec == GetRecord(after[tb].rows, MaxObjId(before[tb].rows) + 1, parseTime)
  }

  /** The outcome of writing the map over record MapGetId(input) of table tb:
      every entry upserted in order, and `rec` that record read back. */
  ghost predicate MapEdited(before: map<string, Table>, after: map<string, Table>, tb: string, input: seq<Entry>, rec: Record, parseTime: string -> Option<Timestamp>)
    requires tb in before && IdIsInt(input)
  {
    && after == before[tb := UpsertAll(before[tb], UpdateTuples(MapGetId(input), input))]
    && rec == GetRecord(after[tb].rows, MapGetId(input), parseTime)
  }

  /** MapInsert: all keys become rows of the record NextId(tb), in one
      statement whose error is ignored; the result is Get of that record and
      the error is always nil. An empty map adds no rows (the statement is
      malformed) and reads back empty. */
  method MapInsert(db: Db, tb: string, input: seq<Entry>) returns (rec: Record, err: bool)
    requires db.Valid() && DistinctKeys(input)
    modifies db
    ensures db.Valid() && !err
    ensures tb !in old(db.tables) ==> db.tables == old(db.tables) && rec == map[]
    ensures tb in old(db.tables) ==> MapInserted(old(db.tables), db.tables, tb, input, rec, db.parseTime)
    ensures input == [] ==> db.tables == old(db.tables) && rec == map[]
  {
    var objId := db.NextId(tb);
    var tuples: seq<Tuple> := [];
    for i := 0 to |input|
      invariant |tuples| == i
      invariant forall k :: 0 <= k < i ==>
                  tuples[k] == Tuple(objId, input[k].key, input[k].text, InsertTag(input[k].typeName))
    {
      var e := input[i];
      var typ := e.typeName;
      if typ == "float64" || typ == "int64" || typ == "json.Number" {
        typ := "int";
      }
      tuples := tuples + [Tuple(objId, e.key, e.text, typ)];
    }
    assert tuples == InsertTuples(objId, input);
    ghost var before := db.tables;
    if tb in db.tables {
      var t := db.tables[tb];
      FreshInsertable(t.rows, tuples, objId);
      if input == [] {
        assert Appended(t, tuples) == t;
        NoObjRows(t.rows, objId);
      }
    }
    var _ := db.ExecInsert(tb, tuples);
    rec := db.Get(tb, objId);
    err := false;
    if tb in before {
      assert db.tables == before[tb := Appended(before[tb], tuples)];
      assert MapInserted(before, db.tables, tb, input, rec, db.parseTime);
    }
  }

  /** What MapInsert reads back from a non-empty map: "Id" and every key whose
      text decodes under its insert tag, with the decoded value; "Id" is the
      new ObjId unless the map's own "Id" entry decodes. The new ObjId
      belonged to no record before. */
  lemma MapInsertRecord(t: Table, input: seq<Entry>, id: int, parseTime: string -> Option<Timestamp>)
    requires DistinctKeys(input) && input != [] && id == MaxObjId(t.rows) + 1
    ensures !HasObject(t.rows, id)
    ensures ReadBack(GetRecord(Appended(t, InsertTuples(id, input)).rows, id, parseTime), InsertTuples(id, input), id, parseTime)
  {
    InsertedRecord(t, InsertTuples(id, input), id, parseTime);
  }

  // ---------------------------------------------------------------------------
  // MapAryInsert
  // ---------------------------------------------------------------------------

  /** The VALUES tuples of one map of string values: every row is tagged
      "string", the name of the values' type. */
  function StrTuples(id: int, m: seq<(string, string)>): (xs: seq<Tuple>)
    ensures |xs| == |m|
    ensures forall k :: 0 <= k < |xs| ==> xs[k] == Tuple(id, m[k].0, m[k].1, "string")
  {
    seq(|m|, k requires 0 <= k < |m| => Tuple(id, m[k].0, m[k].1, "string"))
  }

  predicate DistinctStrKeys(m: seq<(string, string)>)
  {
    forall i, j :: 0 <= i < j < |m| ==> m[i].0 != m[j].0
  }

  /** The table after the maps of `data` were inserted, the k-th (0-based)
      as record base + k + 1. */
  function AryInserted(t: Table, base: int, data: seq<seq<(string, string)>>): Table
  {
    if data == [] then t
    else Appended(AryInserted(t, base, data[..|data| - 1]), StrTuples(base + |data|, data[|data| - 1]))
  }

  lemma AryInsertedSnoc(t: Table, base: int, data: seq<seq<(string, string)>>, i: nat)
    requires i < |data|
    ensures AryInserted(t, base, data[..i + 1]) == Appended(AryInserted(t, base, data[..i]), StrTuples(base + i + 1, data[i]))
  {
    assert data[..i + 1][..i] == data[..i];
  }

  /** One more accepted insert extends the table by the next map. */
  lemma AryMapStep(m: map<string, Table>, tb: string, t0: Table, base: int, data: seq<seq<(string, string)>>, i: nat, tuples: seq<Tuple>)
    requires i < |data| && tuples == StrTuples(base + i + 1, data[i])
    ensures m[tb := AryInserted(t0, base, data[..i])][tb := Appended(m[tb := AryInserted(t0, base, data[..i])][tb], tuples)] ==
            m[tb := AryInserted(t0, base, data[..i + 1])]
  {
    AryInsertedSnoc(t0, base, data, i);
    MapOverwrite(m, tb, AryInserted(t0, base, data[..i]), AryInserted(t0, base, data[..i + 1]));
  }

  /** How many maps precede the first empty one. */
  function LeadingNonEmpty(data: seq<seq<(string, string)>>): (n: nat)
    ensures n <= |data|
    ensures forall j :: 0 <= j < n ==> data[j] != []
    ensures n < |data| ==> data[n] == []
  {
    if data == [] || data[0] == [] then 0
    else
      var n := LeadingNonEmpty(data[1..]);
      assert forall j :: 1 <= j <= n ==> data[j] == data[1..][j - 1];
      1 + n
  }

  /** Inserting the maps one after the other keeps the table valid, and every
      ObjId then stored is at most base + |data|. */
  lemma {:induction false} AryInsertedValid(t: Table, base: int, data: seq<seq<(string, string)>>)
    requires TableValid(t)
    requires forall i :: 0 <= i < |t.rows| ==> t.rows[i].objId <= base
    requires forall k :: 0 <= k < |data| ==> DistinctStrKeys(data[k])
    ensures TableValid(AryInserted(t, base, data))
    ensures forall i :: 0 <= i < |AryInserted(t, base, data).rows| ==> AryInserted(t, base, data).rows[i].objId <= base + |data|
  {
    if data != [] {
      var p := data[..|data| - 1];
      var id := base + |data|;
      var xs := StrTuples(id, data[|data| - 1]);
      assert forall k :: 0 <= k < |p| ==> p[k] == data[k];
      AryInsertedValid(t, base, p);
      var u := AryInserted(t, base, p);
      AryStepInsertable(u, id, data[|data| - 1]);
      AppendedValid(u, xs);
    }
  }

  lemma AryStepInsertable(u: Table, id: int, m: seq<(string, string)>)
    requires forall i :: 0 <= i < |u.rows| ==> u.rows[i].objId < id
    requires DistinctStrKeys(m)
    ensures Insertable(u.rows, StrTuples(id, m))
    ensures !HasObject(u.rows, id)
    ensures forall i :: 0 <= i < |Appended(u, StrTuples(id, m)).rows| ==> Appended(u, StrTuples(id, m)).rows[i].objId <= id
  {
    FreshInsertable(u.rows, StrTuples(id, m), id);
  }

  /** The records stored before the inserts are untouched, and no ObjId past
      the last map's is used. */
  lemma {:induction false} AryOldRecords(t: Table, base: int, data: seq<seq<(string, string)>>, y: int)
    requires y <= base || y > base + |data|
    ensures ObjRows(AryInserted(t, base, data).rows, y) == ObjRows(t.rows, y)
  {
    if data != [] {
      AryOldRecords(t, base, data[..|data| - 1], y);
      AppendedOthers(AryInserted(t, base, data[..|data| - 1]), StrTuples(base + |data|, data[|data| - 1]), y);
    }
  }

  /** Record base + k + 1 holds exactly the rows of the k-th map, in order
      (each tagged "string"). */
  lemma {:induction false} AryNewRecord(t: Table, base: int, data: seq<seq<(string, string)>>, k: nat)
    requires forall i :: 0 <= i < |t.rows| ==> t.rows[i].objId <= base
    requires k < |data|
    ensures ObjRows(AryInserted(t, base, data).rows, base + k + 1) ==
            NewRows(AryInserted(t, base, data[..k]).seqNo, StrTuples(base + k + 1, data[k]))
  {
    var p := data[..|data| - 1];
    if k == |data| - 1 {
      assert data[..k] == p;
      AryNewLast(t, base, data);
    } else {
      var u := AryInserted(t, base, p);
      var xs := StrTuples(base + |data|, data[|data| - 1]);
      assert AryInserted(t, base, data) == Appended(u, xs);
      assert p[..k] == data[..k] && p[k] == data[k];
      AryNewRecord(t, base, p, k);
      AppendedOthers(u, xs, base + k + 1);
      assert ObjRows(AryInserted(t, base, data).rows, base + k + 1) == ObjRows(u.rows, base + k + 1);
    }
  }

  lemma AryNewLast(t: Table, base: int, data: seq<seq<(string, string)>>)
    requires forall i :: 0 <= i < |t.rows| ==> t.rows[i].objId <= base
    requires data != []
    ensures ObjRows(AryInserted(t, base, data).rows, base + |data|) ==
            NewRows(AryInserted(t, base, data[..|data| - 1]).seqNo, StrTuples(base + |data|, data[|data| - 1]))
  {
    var p := data[..|data| - 1];
    var u := AryInserted(t, base, p);
    var xs := StrTuples(base + |data|, data[|data| - 1]);
    assert AryInserted(t, base, data) == Appended(u, xs);
    AryFresh(t, base, p);
    assert forall k :: 0 <= k < |xs| ==> xs[k].objId == base + |data|;
    InsertedObjRows(u, xs, base + |data|);
    assert ObjRows(AryInserted(t, base, data).rows, base + |data|) == ObjRows(Appended(u, xs).rows, base + |data|);
  }

  /** No row carries the ObjId the next map would get. */
  lemma AryFresh(t: Table, base: int, data: seq<seq<(string, string)>>)
    requires forall i :: 0 <= i < |t.rows| ==> t.rows[i].objId <= base
    ensures !HasObject(AryInserted(t, base, data).rows, base + |data| + 1)
  {
    AryBound(t, base, data);
  }

  /** Every ObjId after the inserts is at most base + |data|. */
  lemma {:induction false} AryBound(t: Table, base: int, data: seq<seq<(string, string)>>)
    requires forall i :: 0 <= i < |t.rows| ==> t.rows[i].objId <= base
    ensures forall i :: 0 <= i < |AryInserted(t, base, data).rows| ==> AryInserted(t, base, data).rows[i].objId <= base + |data|
  {
    if data != [] {
      AryBound(t, base, data[..|data| - 1]);
    }
  }

  /** MapAryInsert: the i-th map (0-based) becomes record MaxId + i + 1, one
      statement per map. A failing statement panics, which ends the call
      (modelled as ok == false) with the maps before it stored: this happens
      at the first empty map, or at the first map when the table does not
      exist. The `check` argument is unused. */
  method MapAryInsert(db: Db, tb: string, data: seq<seq<(string, string)>>, check: bool) returns (ok: bool)
    requires db.Valid()
    requires forall k :: 0 <= k < |data| ==> DistinctStrKeys(data[k])
    modifies db
    ensures db.Valid()
    ensures tb !in old(db.tables) ==> db.tables == old(db.tables) && (ok <==> data == [])
    ensures tb in old(db.tables) ==>
      && (ok <==> LeadingNonEmpty(data) == |data|)
      && db.tables == old(db.tables)[tb := AryInserted(old(db.tables)[tb], MaxObjId(old(db.tables)[tb].rows), data[..LeadingNonEmpty(data)])]
  {
    var objId := db.MaxId(tb);
    ghost var base := objId;
    ghost var present := tb in db.tables;
    ghost var t0 := if present then db.tables[tb] else Table([], 0);
    for i := 0 to |data|
      invariant objId == base + i
      invariant present ==> base == MaxObjId(t0.rows)
      invariant present ==> db.tables == old(db.tables)[tb := AryInserted(t0, base, data[..i])]
      invariant present ==> i <= LeadingNonEmpty(data)
      invariant !present ==> db.tables == old(db.tables) && i == 0
      invariant db.Valid()
    {
      objId := objId + 1;
      var input := data[i];
      var tuples: seq<Tuple> := [];
      for j := 0 to |input|
        invariant |tuples| == j
        invariant forall k :: 0 <= k < j ==> tuples[k] == Tuple(objId, input[k].0, input[k].1, "string")
      {
        tuples := tuples + [Tuple(objId, input[j].0, input[j].1, "string")];
      }
      assert tuples == StrTuples(objId, input);
      if present {
        AryBound(t0, base, data[..i]);
        AryStepInsertable(AryInserted(t0, base, data[..i]), objId, input);
      }
      var done := db.ExecInsert(tb, tuples);
      if !done {
        assert present ==> input == [];
        return false;
      }
      if present {
        AryMapStep(old(db.tables), tb, t0, base, data, i, tuples);
      }
    }
    assert data[..|data|] == data;
    ok := true;
  }

  // ---------------------------------------------------------------------------
  // MapUpdate
  // ---------------------------------------------------------------------------

  /** MapUpdate: with an id <= 0 an error and no change; otherwise every key,
      "Id" included, is written to the record in turn (Db.Upsert): an
      existing cell gets the new text and keeps its tag, a missing one is
      inserted (only json.Number tagged "int"), and a stored "Id" cell is
      kept. Statement errors are ignored. */
  method MapUpdate(db: Db, tb: string, input: seq<Entry>) returns (err: bool)
    requires db.Valid() && IdIsInt(input)
    modifies db
    ensures db.Valid()
    ensures err <==> MapGetId(input) <= 0
    ensures err || tb !in old(db.tables) ==> db.tables == old(db.tables)
    ensures !err && tb in old(db.tables) ==>
      db.tables == old(db.tables)[tb := UpsertAll(old(db.tables)[tb], UpdateTuples(MapGetId(input), input))]
  {
    var objId := MapGetId(input);
    if objId <= 0 {
      return true;
    }
    ghost var xs := UpdateTuples(objId, input);
    ghost var present := tb in db.tables;
    ghost var t0 := if present then db.tables[tb] else Table([], 0);
    for i := 0 to |input|
      invariant db.Valid()
      invariant present ==> db.tables == old(db.tables)[tb := UpsertAll(t0, xs[..i])]
      invariant !present ==> db.tables == old(db.tables)
    {
      var e := input[i];
      var typ := e.typeName;
      if typ == "json.Number" {
        typ := "int";
      }
      UpsertAllSnoc(t0, xs, i);
      assert xs[i] == Tuple(objId, e.key, e.text, typ);
      db.Upsert(tb, Tuple(objId, e.key, e.text, typ));
      if present {
        MapOverwrite(old(db.tables), tb, UpsertAll(t0, xs[..i]), UpsertAll(t0, xs[..i + 1]));
      }
    }
    assert xs[..|input|] == xs;
    err := false;
  }

  /** The cells after MapUpdate of record id: each key's cell holds the new
      text, with its old tag if it existed and the update tag otherwise;
      a key naming an integer column ("Id" or a rowid alias) only creates a
      missing cell and leaves a stored one as it was; every other cell of
      the record, and every row of every other record, is unchanged. */
  lemma MapUpdateCells(t: Table, id: int, input: seq<Entry>, attr: string, o: int)
    requires DistinctKeys(input)
    ensures var u := UpsertAll(t, UpdateTuples(id, input));
      && (forall k :: 0 <= k < |input| && !NamesIntColumn(input[k].key) ==>
            CellAt(u.rows, id, input[k].key) ==
              Some(Cell(input[k].text, match CellAt(t.rows, id, input[k].key)
                                        case Some(c) => c.typ
                                        case None => UpdateTag(input[k].typeName))))
      && (forall k :: 0 <= k < |input| && NamesIntColumn(input[k].key) ==>
            CellAt(u.rows, id, input[k].key) ==
              if CellAt(t.rows, id, input[k].key).Some? then CellAt(t.rows, id, input[k].key)
              else Some(Cell(input[k].text, UpdateTag(input[k].typeName))))
      && ((forall k :: 0 <= k < |input| ==> input[k].key != attr) ==> CellAt(u.rows, id, attr) == CellAt(t.rows, id, attr))
      && (o != id ==> ObjRows(u.rows, o) == ObjRows(t.rows, o))
  {
    var xs := UpdateTuples(id, input);
    forall k | 0 <= k < |input|
      ensures CellAt(UpsertAll(t, xs).rows, id, input[k].key) == WrittenCell(CellAt(t.rows, id, input[k].key), xs[k])
    {
      UpsertAllCells(t, xs, id, input[k].key);
    }
    UpsertAllCells(t, xs, id, attr);
    if o != id {
      UpsertAllOthers(t, xs, o);
    }
  }

  // ---------------------------------------------------------------------------
  // Policies
  // ---------------------------------------------------------------------------

  /** MapInsOrEdit: an id > 0 naming a stored record is updated and re-read;
      in every other case the map is inserted as a new record under a fresh
      ObjId (the caller's id is not used as the ObjId). */
  method MapInsOrEdit(db: Db, tb: string, input: seq<Entry>) returns (rec: Record)
    requires db.Valid() && IdIsInt(input) && DistinctKeys(input)
    modifies db
    ensures db.Valid()
    ensures tb !in old(db.tables) ==> db.tables == old(db.tables) && rec == map[]
    ensures tb in old(db.tables) && MapGetId(input) > 0 && HasObject(old(db.tables)[tb].rows, MapGetId(input)) ==>
      MapEdited(old(db.tables), db.tables, tb, input, rec, db.parseTime)
    ensures tb in old(db.tables) && !(MapGetId(input) > 0 && HasObject(old(db.tables)[tb].rows, MapGetId(input))) ==>
      MapInserted(old(db.tables), db.tables, tb, input, rec, db.parseTime)
  {
    var id := MapGetId(input);
    if tb in db.tables {
      GetRecordEmpty(db.tables[tb].rows, id, db.parseTime);
    }
    if id > 0 {
      var item := db.Get(tb, id);
      if |item| == 0 {
        var err;
        rec, err := MapInsert(db, tb, input);
      } else {
        var _ := MapUpdate(db, tb, input);
        rec := db.Get(tb, id);
      }
    } else {
      var err;
      rec, err := MapInsert(db, tb, input);
    }
  }

  /** MapInsIfNotExist: inserts the map as a new record only when its id is
      > 0 and names no stored record; otherwise nothing changes and the
      result is empty. */
  method MapInsIfNotExist(db: Db, tb: string, input: seq<Entry>) returns (rec: Record)
    requires db.Valid() && IdIsInt(input) && DistinctKeys(input)
    modifies db
    ensures db.Valid()
    ensures tb in old(db.tables) && MapGetId(input) > 0 && !HasObject(old(db.tables)[tb].rows, MapGetId(input)) ==>
      MapInserted(old(db.tables), db.tables, tb, input, rec, db.parseTime)
    ensures !(tb in old(db.tables) && MapGetId(input) > 0 && !HasObject(old(db.tables)[tb].rows, MapGetId(input))) ==>
      db.tables == old(db.tables) && rec == map[]
  {
    rec := map[];
    var id := MapGetId(input);
    if tb in db.tables {
      GetRecordEmpty(db.tables[tb].rows, id, db.parseTime);
    }
    if id > 0 {
      var item := db.Get(tb, id);
      if |item| == 0 {
        var err;
        rec, err := MapInsert(db, tb, input);
      }
    }
  }
}
