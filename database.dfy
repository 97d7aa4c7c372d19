/** The storage handle of the EAV engine and its table-level operations:
    table creation, id allocation, the three readers and the two deletes.
    A table is an abstract row store (module Rows); the SQL statements the
    engine sends become the row-store operations they denote. */
module Database {
  import opened Values
  import opened Rows

  class Db {
    /** Every table of the database, by name. */
    var tables: map<string, Table>
    /** The time parse the readers apply, with its fixed layout: an opaque
        partial function. */
    const parseTime: string -> Option<Timestamp>

    ghost predicate Valid()
      reads this
    {
      forall tb {:trigger TableValid(tables[tb])} :: tb in tables ==> TableValid(tables[tb])
    }

    constructor (parseTime: string -> Option<Timestamp>)
      ensures Valid() && tables == map[] && this.parseTime == parseTime
    {
      tables := map[];
      this.parseTime := parseTime;
    }

    // -------------------------------------------------------------------------
    // Statements
    // -------------------------------------------------------------------------

    /** A multi-row INSERT: rejected as a whole when the table is missing, the
        VALUES list is empty (a syntax error) or a tuple breaks the
        uniqueness of (ObjId, Attr). */
    method ExecInsert(tb: string, tuples: seq<Tuple>) returns (ok: bool)
      requires Valid()
      modifies this
      ensures Valid()
      ensures ok <==> tb in old(tables) && tuples != [] && Insertable(old(tables)[tb].rows, tuples)
      ensures ok ==> tables == old(tables)[tb := Appended(old(tables)[tb], tuples)]
      ensures !ok ==> tables == old(tables)
    {
      if tb !in tables || tuples == [] || !Insertable(tables[tb].rows, tuples) {
        return false;
      }
      AppendedValid(tables[tb], tuples);
      tables := tables[tb := Appended(tables[tb], tuples)];
      ok := true;
    }

    /** UPDATE tb SET Val = val WHERE ObjId = id AND Attr = attr. */
    method ExecSetVal(tb: string, id: int, attr: string, val: string) returns (ok: bool)
      requires Valid()
      modifies this
      ensures Valid()
      ensures ok <==> tb in old(tables)
      ensures ok ==> tables == old(tables)[tb := Table(SetVal(old(tables)[tb].rows, id, attr, val), old(tables)[tb].seqNo)]
      ensures !ok ==> tables == old(tables)
    {
      if tb !in tables {
        return false;
      }
      SetValValid(tables[tb], id, attr, val);
      tables := tables[tb := Table(SetVal(tables[tb].rows, id, attr, val), tables[tb].seqNo)];
      ok := true;
    }

    // -------------------------------------------------------------------------
    // Table bootstrap and id allocation
    // -------------------------------------------------------------------------

    /** CreateTb: with dropFirst the table is dropped (if it exists) and
        created empty; without it an existing table is kept with its rows
        ("already exists" is not an error) and a missing one is created. */
    method CreateTb(tb: string, dropFirst: bool) returns (err: bool)
      requires Valid()
      modifies this
      ensures Valid() && !err
      ensures tb in tables && forall t :: t != tb ==> (t in tables <==> t in old(tables))
      ensures forall t :: t in tables && t != tb ==> tables[t] == old(tables)[t]
      ensures dropFirst || tb !in old(tables) ==> tables[tb] == Table([], 0)
      ensures !dropFirst && tb in old(tables) ==> tables == old(tables)
    {
      if dropFirst {
        tables := map t | t in tables && t != tb :: tables[t];
      }
      if tb !in tables {
        tables := tables[tb := Table([], 0)];
      }
      err := false;
    }

    /** MaxId: -1 when the query fails (no such table), 0 for an empty table,
        the largest ObjId otherwise. */
    method MaxId(tb: string) returns (m: int)
      ensures tb !in tables ==> m == -1
      ensures tb in tables && tables[tb].rows == [] ==> m == 0
      ensures tb in tables && tables[tb].rows != [] ==>
                HasObject(tables[tb].rows, m) &&
                forall i :: 0 <= i < |tables[tb].rows| ==> tables[tb].rows[i].objId <= m
      ensures tb in tables ==> m == MaxObjId(tables[tb].rows)
    {
      if tb !in tables {
        return -1;
      }
      var count := |tables[tb].rows|;
      m := 0;
      if count > 0 {
        m := MaxObjId(tables[tb].rows);
      }
    }

    /** NextId: MaxId + 1, hence 1 for an empty table, 0 when the query fails,
        and otherwise an ObjId no stored row carries. */
    method NextId(tb: string) returns (n: int)
      ensures tb !in tables ==> n == 0
      ensures tb in tables && tables[tb].rows == [] ==> n == 1
      ensures tb in tables ==> n == MaxObjId(tables[tb].rows) + 1 && !HasObject(tables[tb].rows, n)
    {
      var m := MaxId(tb);
      n := m + 1;
    }

    // -------------------------------------------------------------------------
    // Readers
    // -------------------------------------------------------------------------

    /** Get: the record with ObjId = id. Empty when the table is missing or the
        record has no rows; otherwise "Id" set to the ObjId, then each row
        decoded under its attribute ("Time" and "time.Time" both parsed as
        time). */
    method Get(tb: string, id: int) returns (res: Record)
      ensures tb !in tables ==> res == map[]
      ensures tb in tables ==> res == GetRecord(tables[tb].rows, id, parseTime)
    {
      res := map[];
      if tb !in tables {
        return;
      }
      var data := ObjRows(tables[tb].rows, id);
      if |data| == 0 {
        return;
      }
      ObjRowsMembers(tables[tb].rows, id);
      assert data[0] in data;
      res := res["Id" := IntV(data[0].objId)];
      for i := 0 to |data|
        invariant res == Collect(map["Id" := IntV(id)], data[..i], true, parseTime)
      {
        var d := data[i];
        assert data[..i + 1] == data[..i] + [d];
        CollectSnoc(map["Id" := IntV(id)], data[..i], d, true, parseTime);
        match DecodeRow(d, true, parseTime)
        case Some(v) =>
          res := res[d.attr := v];
        case None =>
      }
      assert data[..|data|] == data;
    }

    /** The row assembler shared by Gets and GetsByFilter: a new record is
        started whenever the ObjId changes and the current one is not empty;
        every row sets "Id" to its ObjId and then its decoded value ("Time"
        only is parsed as time). The last record is always appended, so an
        empty input yields one empty record. */
    method Assemble(data: seq<Row>) returns (res: seq<Record>)
      ensures data == [] ==> res == [map[]]
      ensures data != [] ==>
                && |res| == |Runs(data)|
                && forall k :: 0 <= k < |res| ==> res[k] == Build(Runs(data)[k], parseTime)
    {
      res := [];
      var r: Record := map[];
      var oid := 0;
      for i := 0 to |data|
        invariant i == 0 ==> res == [] && r == map[] && oid == 0
        invariant i > 0 ==> oid == data[i - 1].objId && "Id" in r && Assembled(Runs(data[..i]), res, r, parseTime)
      {
        var d := data[i];
        ghost var p := data[..i];
        assert data[..i + 1] == p + [d];
        if d.objId != oid {
          if |r| > 0 {
            AssembledNew(p, res, r, d, parseTime);
            res := res + [r];
            r := map[];
            oid := d.objId;
          }
        } else if i > 0 {
          AssembledSame(p, res, r, d, parseTime);
        }
        if oid == 0 {
          oid := d.objId;
        }
        if i == 0 {
          assert p + [d] == [d];
          AssembledFirst(d, parseTime);
        }
        r := Apply(r["Id" := IntV(d.objId)], d, false, parseTime);
        assert Assembled(Runs(p + [d]), res, r, parseTime);
      }
      res := res + [r];
      assert data != [] ==> data[..|data|] == data;
    }

    /** Gets: every record of the table, ordered by ObjId; one record per
        distinct ObjId, each the fold of all that record's rows. An empty
        table yields no records; a missing one is a query failure. */
    method Gets(tb: string) returns (res: seq<Record>, ok: bool)
      ensures ok <==> tb in tables
      ensures !ok ==> res == []
      ensures ok ==>
        var rows := tables[tb].rows;
        var ids := ObjIds(rows);
        && StrictlyAscending(ids)
        && (forall y :: y in ids <==> HasObject(rows, y))
        && |res| == |ids|
        && forall k :: 0 <= k < |res| ==> res[k] == Build(ObjRows(rows, ids[k]), parseTime)
    {
      if tb !in tables {
        return [], false;
      }
      var rows := tables[tb].rows;
      var data := SortByObjId(rows);
      ObjIdsSpec(rows);
      ok := true;
      res := [];
      if |data| == 0 {
        return;
      }
      res := Assemble(data);
    }

    /** GetsByFilter: the records some row of which satisfies the filter, each
        with all its rows, ordered by ObjId; with no matching row the result
        is one empty record. */
    method GetsByFilter(tb: string, filter: Row -> bool) returns (res: seq<Record>, ok: bool)
      ensures ok <==> tb in tables
      ensures !ok ==> res == []
      ensures ok && Matching(tables[tb].rows, filter) == {} ==> res == [map[]]
      ensures ok && Matching(tables[tb].rows, filter) != {} ==>
        var rows := tables[tb].rows;
        var ids := ObjIds(KeepObjs(rows, Matching(rows, filter)));
        && StrictlyAscending(ids)
        && (forall y :: y in ids <==> y in Matching(rows, filter))
        && |res| == |ids|
        && forall k :: 0 <= k < |res| ==> res[k] == Build(ObjRows(rows, ids[k]), parseTime)
    {
      if tb !in tables {
        return [], false;
      }
      var rows := tables[tb].rows;
      var matched := Matching(rows, filter);
      var kept := KeepObjs(rows, matched);
      var data := SortByObjId(kept);
      ok := true;
      ObjIdsSpec(kept);
      KeepMatching(rows, filter);
      res := Assemble(data);
    }

    // -------------------------------------------------------------------------
    // Deletes
    // -------------------------------------------------------------------------

    /** Del: removes every row of record id and nothing else. */
    method Del(tb: string, id: int) returns (err: bool)
      requires Valid()
      modifies this
      ensures Valid()
      ensures err <==> tb !in old(tables)
      ensures err ==> tables == old(tables)
      ensures !err ==> tables == old(tables)[tb := Table(DropObjs(old(tables)[tb].rows, {id}), old(tables)[tb].seqNo)]
    {
      if tb !in tables {
        return true;
      }
      DropObjsValid(tables[tb], {id});
      tables := tables[tb := Table(DropObjs(tables[tb].rows, {id}), tables[tb].seqNo)];
      err := false;
    }

    /** DelsBy: for the field "Id" or "ObjId", removes the records whose ObjId
        lies in [min, max]; for any other field, removes every record that has
        a row with that attribute whose text lies between the texts of min
        and max. */
    method DelsBy(tb: string, field: string, min: int, max: int) returns (err: bool)
      requires Valid()
      modifies this
      ensures Valid()
      ensures err <==> tb !in old(tables)
      ensures err ==> tables == old(tables)
      ensures !err && (field == "Id" || field == "ObjId") ==>
        tables == old(tables)[tb := Table(DropRange(old(tables)[tb].rows, min, max), old(tables)[tb].seqNo)]
      ensures !err && field != "Id" && field != "ObjId" ==>
        var rows := old(tables)[tb].rows;
        tables == old(tables)[tb := Table(DropObjs(rows, InTextRange(rows, field, min, max)), old(tables)[tb].seqNo)]
    {
      if tb !in tables {
        return true;
      }
      var t := tables[tb];
      if field == "Id" || field == "ObjId" {
        DropRangeValid(t, min, max);
        tables := tables[tb := Table(DropRange(t.rows, min, max), t.seqNo)];
      } else {
        var ids := InTextRange(t.rows, field, min, max);
        DropObjsValid(t, ids);
        tables := tables[tb := Table(DropObjs(t.rows, ids), t.seqNo)];
      }
      err := false;
    }

    // -------------------------------------------------------------------------
    // The per-attribute write of the updaters
    // -------------------------------------------------------------------------

    /** One step of MapUpdate and Update: probe whether the (ObjId, Attr) row
        exists; overwrite its text if so, insert the tuple otherwise. A key
        naming an integer column never finds its row, so its INSERT is
        rejected when the row exists. The statement's error is ignored. */
    method Upsert(tb: string, x: Tuple)
      requires Valid()
      modifies this
      ensures Valid()
      ensures tb in old(tables) ==> tables == old(tables)[tb := UpsertOne(old(tables)[tb], x)]
      ensures tb !in old(tables) ==> tables == old(tables)
    {
      var present := tb in tables && Probe(tables[tb].rows, x.objId, x.attr);
      if !present {
        if tb in tables && HasRow(tables[tb].rows, x.objId, x.attr) {
          HasRowRejects(tables[tb].rows, x);
        }
        var _ := ExecInsert(tb, [x]);
      } else {
        var _ := ExecSetVal(tb, x.objId, x.attr, x.val);
      }
    }
  }
}
