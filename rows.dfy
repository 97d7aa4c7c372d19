/** The abstract row store behind the EAV engine: one table holds every
    record as (ObjId, Attr, Val, Typ) rows, with (ObjId, Attr) unique.
    The functions here give the meaning of the SQL statements the engine
    issues; the folds at the end give the meaning of its read loops. */
module Rows {
  import opened Values

  /** One stored row: surrogate key, record id, attribute, text, type tag. */
  datatype Row = Row(id: int, objId: int, attr: string, val: string, typ: string)

  /** One VALUES tuple of an INSERT statement (the surrogate key is assigned
      by the table). */
  datatype Tuple = Tuple(objId: int, attr: string, val: string, typ: string)

  /** A table: its rows in storage order and the AUTOINCREMENT counter. */
  datatype Table = Table(rows: seq<Row>, seqNo: int)

  /** The stored text and tag of one attribute. */
  datatype Cell = Cell(val: string, typ: string)

  // ---------------------------------------------------------------------------
  // The table invariant
  // ---------------------------------------------------------------------------

  /** The UNIQUE(ObjId, Attr) constraint. */
  predicate UniqueKeys(rows: seq<Row>)
  {
    forall i, j :: 0 <= i < j < |rows| ==> rows[i].objId != rows[j].objId || rows[i].attr != rows[j].attr
  }

  /** Surrogate keys are positive, increase in storage order and never exceed
      the AUTOINCREMENT counter. */
  predicate IdsAscending(rows: seq<Row>, seqNo: int)
  {
    && seqNo >= 0
    && (forall i :: 0 <= i < |rows| ==> 1 <= rows[i].id <= seqNo)
    && (forall i, j :: 0 <= i < j < |rows| ==> rows[i].id < rows[j].id)
  }

  predicate TableValid(t: Table)
  {
    UniqueKeys(t.rows) && IdsAscending(t.rows, t.seqNo)
  }

  predicate HasObject(rows: seq<Row>, id: int)
  {
    exists i :: 0 <= i < |rows| && rows[i].objId == id
  }

  predicate HasRow(rows: seq<Row>, id: int, attr: string)
  {
    exists i :: 0 <= i < |rows| && rows[i].objId == id && rows[i].attr == attr
  }

  /** No two rows share an attribute name. */
  predicate DistinctAttrs(s: seq<Row>)
  {
    forall i, j :: 0 <= i < j < |s| ==> s[i].attr != s[j].attr
  }

  // ---------------------------------------------------------------------------
  // Aggregates and selections
  // ---------------------------------------------------------------------------

  /** SELECT MAX(ObjId), with 0 for an empty table (the engine counts first). */
  function MaxObjId(rows: seq<Row>): (m: int)
    ensures rows == [] ==> m == 0
    ensures rows != [] ==> HasObject(rows, m)
    ensures forall i :: 0 <= i < |rows| ==> rows[i].objId <= m
  {
    if rows == [] then 0
    else if |rows| == 1 then rows[0].objId
    else
      var m := MaxObjId(rows[1..]);
      assert forall i :: 1 <= i < |rows| ==> rows[i] == rows[1..][i - 1];
      if rows[0].objId > m then rows[0].objId else m
  }

  /** The rows of one record, in storage order (WHERE ObjId = id). */
  function ObjRows(rows: seq<Row>, id: int): (r: seq<Row>)
    ensures |r| <= |rows|
  {
    if rows == [] then []
    else (if rows[0].objId == id then [rows[0]] else []) + ObjRows(rows[1..], id)
  }

  /** ObjRows keeps exactly the rows of record id. */
  lemma {:induction false} ObjRowsMembers(rows: seq<Row>, id: int)
    ensures forall x :: x in ObjRows(rows, id) <==> x in rows && x.objId == id
  {
    if rows != [] {
      ObjRowsMembers(rows[1..], id);
      assert rows == [rows[0]] + rows[1..];
    }
  }

  /** The rows satisfying `p`, in storage order. */
  function Where(rows: seq<Row>, p: Row -> bool): (r: seq<Row>)
    ensures forall x :: x in r <==> x in rows && p(x)
    ensures |r| <= |rows|
  {
    if rows == [] then []
    else (if p(rows[0]) then [rows[0]] else []) + Where(rows[1..], p)
  }

  /** WHERE ObjId IN ids. */
  function KeepObjs(rows: seq<Row>, ids: set<int>): seq<Row>
  {
    Where(rows, (r: Row) => r.objId in ids)
  }

  /** DELETE ... WHERE ObjId IN ids. */
  function DropObjs(rows: seq<Row>, ids: set<int>): seq<Row>
  {
    Where(rows, (r: Row) => r.objId !in ids)
  }

  /** DELETE ... WHERE lo <= ObjId AND ObjId <= hi. */
  function DropRange(rows: seq<Row>, lo: int, hi: int): seq<Row>
  {
    Where(rows, (r: Row) => !(lo <= r.objId <= hi))
  }

  /** The stored cell of (id, attr), if any. */
  function CellAt(rows: seq<Row>, id: int, attr: string): (c: Option<Cell>)
    ensures c.None? <==> !HasRow(rows, id, attr)
  {
    if rows == [] then None
    else if rows[0].objId == id && rows[0].attr == attr then Some(Cell(rows[0].val, rows[0].typ))
    else
      var c := CellAt(rows[1..], id, attr);
      assert forall i :: 1 <= i < |rows| ==> rows[i] == rows[1..][i - 1];
      assert HasRow(rows[1..], id, attr) ==> HasRow(rows, id, attr);
      c
  }

  /** Under UNIQUE(ObjId, Attr) the probe finds the text and tag of the one
      row storing (id, attr). */
  lemma {:induction false} CellAtRow(rows: seq<Row>, i: nat)
    requires UniqueKeys(rows) && i < |rows|
    ensures CellAt(rows, rows[i].objId, rows[i].attr) == Some(Cell(rows[i].val, rows[i].typ))
  {
    if i > 0 {
      assert rows[0].objId != rows[i].objId || rows[0].attr != rows[i].attr;
      assert rows[1..][i - 1] == rows[i];
      CellAtRow(rows[1..], i - 1);
    }
  }

  // ---------------------------------------------------------------------------
  // Lemmas about selections
  // ---------------------------------------------------------------------------

  lemma {:induction false} ObjRowsAppend(a: seq<Row>, b: seq<Row>, id: int)
    ensures ObjRows(a + b, id) == ObjRows(a, id) + ObjRows(b, id)
  {
    if a == [] {
      assert a + b == b;
    } else {
      var h := if a[0].objId == id then [a[0]] else [];
      assert (a + b)[0] == a[0];
      assert (a + b)[1..] == a[1..] + b;
      assert ObjRows(a + b, id) == h + ObjRows(a[1..] + b, id);
      ObjRowsAppend(a[1..], b, id);
      assert ObjRows(a, id) == h + ObjRows(a[1..], id);
      assert h + (ObjRows(a[1..], id) + ObjRows(b, id)) == (h + ObjRows(a[1..], id)) + ObjRows(b, id);
    }
  }

  lemma ObjRowsSnoc(a: seq<Row>, x: Row, id: int)
    ensures ObjRows(a + [x], id) == ObjRows(a, id) + (if x.objId == id then [x] else [])
  {
    ObjRowsAppend(a, [x], id);
    assert ObjRows([x], id) == (if x.objId == id then [x] else []) + ObjRows([], id);
  }

  /** A selection keeps every row of a record it keeps entirely, and drops
      every row of a record it drops entirely. */
  lemma {:induction false} WhereObjRows(rows: seq<Row>, p: Row -> bool, id: int)
    ensures (forall r: Row :: r.objId == id ==> p(r)) ==> ObjRows(Where(rows, p), id) == ObjRows(rows, id)
    ensures (forall r: Row :: r.objId == id ==> !p(r)) ==> ObjRows(Where(rows, p), id) == []
  {
    if rows != [] {
      WhereObjRows(rows[1..], p, id);
      var head := if p(rows[0]) then [rows[0]] else [];
      ObjRowsAppend(head, Where(rows[1..], p), id);
    }
  }

  /** DELETE ... WHERE ObjId IN ids removes exactly the rows of those
      records and leaves every other record's rows as they were. */
  lemma DropObjsSpec(rows: seq<Row>, ids: set<int>, o: int)
    ensures ObjRows(DropObjs(rows, ids), o) == if o in ids then [] else ObjRows(rows, o)
  {
    WhereObjRows(rows, (r: Row) => r.objId !in ids, o);
  }

  /** DELETE ... WHERE lo <= ObjId <= hi removes exactly the rows of the
      records in the range and leaves every other record's rows as they
      were. */
  lemma DropRangeSpec(rows: seq<Row>, lo: int, hi: int, o: int)
    ensures ObjRows(DropRange(rows, lo, hi), o) == if lo <= o <= hi then [] else ObjRows(rows, o)
  {
    WhereObjRows(rows, (r: Row) => !(lo <= r.objId <= hi), o);
  }

  /** WHERE ObjId IN ids keeps a record's rows entirely when its id is in the
      set and drops them otherwise. */
  lemma KeepObjsSpec(rows: seq<Row>, ids: set<int>, o: int)
    ensures ObjRows(KeepObjs(rows, ids), o) == if o in ids then ObjRows(rows, o) else []
    ensures HasObject(KeepObjs(rows, ids), o) <==> o in ids && HasObject(rows, o)
  {
    WhereObjRows(rows, (r: Row) => r.objId in ids, o);
    HasObjectObjRows(rows, o);
    HasObjectObjRows(KeepObjs(rows, ids), o);
  }

  lemma HasObjectObjRows(rows: seq<Row>, o: int)
    ensures HasObject(rows, o) <==> ObjRows(rows, o) != []
  {
    ObjRowsMembers(rows, o);
    if HasObject(rows, o) {
      var i :| 0 <= i < |rows| && rows[i].objId == o;
      assert rows[i] in ObjRows(rows, o);
    } else {
      NoObjRows(rows, o);
    }
  }

  /** The records some row of which satisfies the filter. */
  function Matching(rows: seq<Row>, filter: Row -> bool): set<int>
  {
    set i | 0 <= i < |rows| && filter(rows[i]) :: rows[i].objId
  }

  /** The rows the filtered read selects: exactly the records that have a
      matching row, each with all its rows. */
  lemma KeepMatching(rows: seq<Row>, filter: Row -> bool)
    ensures var kept := KeepObjs(rows, Matching(rows, filter));
      && (forall y :: HasObject(kept, y) <==> y in Matching(rows, filter))
      && (forall y :: ObjRows(kept, y) == if y in Matching(rows, filter) then ObjRows(rows, y) else [])
      && (Matching(rows, filter) == {} <==> kept == [])
  {
    var m := Matching(rows, filter);
    var kept := KeepObjs(rows, m);
    forall y ensures (HasObject(kept, y) <==> y in m) && ObjRows(kept, y) == if y in m then ObjRows(rows, y) else [] {
      KeepObjsSpec(rows, m, y);
      if y in m {
        var i :| 0 <= i < |rows| && filter(rows[i]) && rows[i].objId == y;
        assert HasObject(rows, y);
      }
    }
    if kept != [] {
      assert HasObject(kept, kept[0].objId);
    }
    if m != {} {
      var y :| y in m;
      assert HasObject(kept, y);
    }
  }

  /** Dropping the first row keeps a table valid, and that row precedes
      every later one. */
  lemma TailValid(rows: seq<Row>, n: int)
    requires rows != [] && TableValid(Table(rows, n))
    ensures TableValid(Table(rows[1..], n))
    ensures forall x :: x in rows[1..] ==> rows[0].id < x.id && (rows[0].objId != x.objId || rows[0].attr != x.attr)
  {
    var tail := rows[1..];
    assert forall i :: 0 <= i < |tail| ==> tail[i] == rows[i + 1];
    forall x | x in tail
      ensures rows[0].id < x.id && (rows[0].objId != x.objId || rows[0].attr != x.attr)
    {
      var k :| 0 <= k < |tail| && tail[k] == x;
      assert rows[k + 1] == x;
    }
  }

  /** A row that precedes every row of a valid table may be put in front. */
  lemma ConsValid(x: Row, rest: seq<Row>, n: int)
    requires TableValid(Table(rest, n)) && 1 <= x.id <= n
    requires forall y :: y in rest ==> x.id < y.id && (x.objId != y.objId || x.attr != y.attr)
    ensures TableValid(Table([x] + rest, n))
  {
    var r := [x] + rest;
    assert forall k :: 1 <= k < |r| ==> r[k] == rest[k - 1];
    forall j | 1 <= j < |r|
      ensures x.id < r[j].id && (x.objId != r[j].objId || x.attr != r[j].attr)
    {
      assert r[j] in rest;
    }
  }

  /** Every selection of a valid table is valid (a subsequence keeps the
      uniqueness constraint and the ascending surrogate keys). */
  lemma {:induction false} WhereValid(rows: seq<Row>, p: Row -> bool, n: int)
    requires TableValid(Table(rows, n))
    ensures TableValid(Table(Where(rows, p), n))
  {
    if rows != [] {
      TailValid(rows, n);
      WhereValid(rows[1..], p, n);
      var rest := Where(rows[1..], p);
      if p(rows[0]) {
        assert Where(rows, p) == [rows[0]] + rest;
        ConsValid(rows[0], rest, n);
      } else {
        assert Where(rows, p) == rest;
      }
    }
  }

  /** Deleting records keeps a table valid. */
  lemma DropObjsValid(t: Table, ids: set<int>)
    requires TableValid(t)
    ensures TableValid(Table(DropObjs(t.rows, ids), t.seqNo))
  {
    WhereValid(t.rows, (r: Row) => r.objId !in ids, t.seqNo);
  }

  lemma DropRangeValid(t: Table, lo: int, hi: int)
    requires TableValid(t)
    ensures TableValid(Table(DropRange(t.rows, lo, hi), t.seqNo))
  {
    WhereValid(t.rows, (r: Row) => !(lo <= r.objId <= hi), t.seqNo);
  }

  lemma UniqueKeysObjRows(rows: seq<Row>, id: int)
    requires UniqueKeys(rows)
    ensures DistinctAttrs(ObjRows(rows, id))
  {
    if rows != [] {
      assert forall i :: 1 <= i < |rows| ==> rows[i] == rows[1..][i - 1];
      UniqueKeysObjRows(rows[1..], id);
      ObjRowsMembers(rows[1..], id);
      var rest := ObjRows(rows[1..], id);
      if rows[0].objId == id {
        var r := [rows[0]] + rest;
        forall j | 0 < j < |r|
          ensures r[0].attr != r[j].attr
        {
          assert r[j] in rows[1..];
          var k :| 1 <= k < |rows| && rows[k] == r[j];
        }
      }
    }
  }

  lemma NoObjRows(rows: seq<Row>, id: int)
    requires !HasObject(rows, id)
    ensures ObjRows(rows, id) == []
  {
    ObjRowsMembers(rows, id);
    if ObjRows(rows, id) != [] {
      assert ObjRows(rows, id)[0] in ObjRows(rows, id);
    }
  }

  // ---------------------------------------------------------------------------
  // ORDER BY ObjId: a stable sort
  // ---------------------------------------------------------------------------

  predicate SortedByObjId(s: seq<Row>)
  {
    forall i, j :: 0 <= i < j < |s| ==> s[i].objId <= s[j].objId
  }

  /** Places `x` before the first row whose ObjId is not smaller. */
  function InsertByObjId(x: Row, s: seq<Row>): (r: seq<Row>)
    ensures multiset(r) == multiset(s) + multiset{x}
    ensures |r| == |s| + 1
  {
    if s == [] then [x]
    else if x.objId <= s[0].objId then [x] + s
    else
      assert s == [s[0]] + s[1..];
      [s[0]] + InsertByObjId(x, s[1..])
  }

  /** Inserting a row no smaller than a bound keeps every row at or above it. */
  lemma {:induction false} InsertLowerBound(x: Row, s: seq<Row>, b: int)
    requires x.objId >= b
    requires forall i :: 0 <= i < |s| ==> s[i].objId >= b
    ensures forall i :: 0 <= i < |InsertByObjId(x, s)| ==> InsertByObjId(x, s)[i].objId >= b
  {
    if s != [] && x.objId > s[0].objId {
      InsertLowerBound(x, s[1..], b);
      var t := InsertByObjId(x, s[1..]);
      assert InsertByObjId(x, s) == [s[0]] + t;
    }
  }

  lemma {:induction false} InsertSorted(x: Row, s: seq<Row>)
    requires SortedByObjId(s)
    ensures SortedByObjId(InsertByObjId(x, s))
  {
    if s == [] {
    } else if x.objId <= s[0].objId {
      var r := [x] + s;
      forall i, j | 0 <= i < j < |r| ensures r[i].objId <= r[j].objId {
        if i == 0 {
          assert r[j] == s[j - 1];
        } else {
          assert r[i] == s[i - 1] && r[j] == s[j - 1];
        }
      }
    } else {
      InsertSorted(x, s[1..]);
      var t := InsertByObjId(x, s[1..]);
      InsertLowerBound(x, s[1..], s[0].objId);
      var r := [s[0]] + t;
      assert InsertByObjId(x, s) == r;
      forall i, j | 0 <= i < j < |r| ensures r[i].objId <= r[j].objId {
        if i == 0 {
          assert r[j] == t[j - 1];
        } else {
          assert r[i] == t[i - 1] && r[j] == t[j - 1];
        }
      }
    }
  }

  /** The row order SELECT ... ORDER BY ObjId produces: rows sorted by ObjId,
      rows of one record kept in storage order. */
  function SortByObjId(s: seq<Row>): (r: seq<Row>)
    ensures multiset(r) == multiset(s)
    ensures SortedByObjId(r)
  {
    if s == [] then []
    else
      assert s == [s[0]] + s[1..];
      InsertSorted(s[0], SortByObjId(s[1..]));
      InsertByObjId(s[0], SortByObjId(s[1..]))
  }

  lemma ObjRowsCons(x: Row, s: seq<Row>, id: int)
    ensures ObjRows([x] + s, id) == (if x.objId == id then [x] else []) + ObjRows(s, id)
  {
    assert ([x] + s)[0] == x && ([x] + s)[1..] == s;
  }

  /** Inserting a row puts it before every row of its own record. */
  lemma {:induction false} ObjRowsInsert(x: Row, s: seq<Row>, id: int)
    ensures ObjRows(InsertByObjId(x, s), id) == (if x.objId == id then [x] else []) + ObjRows(s, id)
  {
    if s == [] {
      ObjRowsCons(x, [], id);
      assert [x] + [] == [x];
    } else if x.objId <= s[0].objId {
      ObjRowsCons(x, s, id);
    } else {
      var t := InsertByObjId(x, s[1..]);
      assert InsertByObjId(x, s) == [s[0]] + t;
      ObjRowsInsert(x, s[1..], id);
      ObjRowsCons(s[0], t, id);
      ObjRowsCons(s[0], s[1..], id);
      assert [s[0]] + s[1..] == s;
      var rest := ObjRows(s[1..], id);
      if s[0].objId == id {
        assert x.objId != id;
        assert ObjRows(t, id) == rest;
      } else {
        assert ObjRows(s, id) == rest;
      }
    }
  }

  /** Sorting keeps each record's rows in storage order. */
  lemma {:induction false} ObjRowsSort(s: seq<Row>, id: int)
    ensures ObjRows(SortByObjId(s), id) == ObjRows(s, id)
  {
    if s != [] {
      ObjRowsSort(s[1..], id);
      ObjRowsInsert(s[0], SortByObjId(s[1..]), id);
    }
  }

  // ---------------------------------------------------------------------------
  // Runs: the grouping the read loops perform
  // ---------------------------------------------------------------------------

  /** The maximal runs of consecutive rows with equal ObjId. */
  function Runs(s: seq<Row>): (runs: seq<seq<Row>>)
    ensures |runs| > 0 <==> |s| > 0
    ensures forall k :: 0 <= k < |runs| ==> runs[k] != []
  {
    if s == [] then []
    else
      var p := s[..|s| - 1];
      var x := s[|s| - 1];
      var rp := Runs(p);
      if p != [] && p[|p| - 1].objId == x.objId then rp[..|rp| - 1] + [rp[|rp| - 1] + [x]]
      else rp + [[x]]
  }

  /** One more row either extends the last run or starts a new one. */
  lemma RunsSnoc(p: seq<Row>, x: Row)
    ensures p != [] && p[|p| - 1].objId == x.objId ==>
              Runs(p + [x]) == Runs(p)[..|Runs(p)| - 1] + [Runs(p)[|Runs(p)| - 1] + [x]]
    ensures !(p != [] && p[|p| - 1].objId == x.objId) ==> Runs(p + [x]) == Runs(p) + [[x]]
  {
    assert (p + [x])[..|p|] == p;
  }

  /** The ObjId of each run. */
  function RunIds(s: seq<Row>): (ids: seq<int>)
    ensures |ids| == |Runs(s)|
  {
    if s == [] then []
    else
      var p := s[..|s| - 1];
      var x := s[|s| - 1];
      if p != [] && p[|p| - 1].objId == x.objId then RunIds(p) else RunIds(p) + [x.objId]
  }

  predicate StrictlyAscending(ids: seq<int>)
  {
    forall k, l :: 0 <= k < l < |ids| ==> ids[k] < ids[l]
  }

  lemma HasObjectSnoc(p: seq<Row>, x: Row, y: int)
    ensures HasObject(p + [x], y) <==> HasObject(p, y) || x.objId == y
  {
    var s := p + [x];
    if HasObject(s, y) {
      var i :| 0 <= i < |s| && s[i].objId == y;
      if i < |p| { assert p[i] == s[i]; }
    }
    if HasObject(p, y) {
      var i :| 0 <= i < |p| && p[i].objId == y;
      assert s[i] == p[i];
    }
    assert s[|p|] == x;
  }

  /** The grouping facts RunsOfSorted establishes. */
  ghost predicate RunsAreRecords(s: seq<Row>)
  {
    && StrictlyAscending(RunIds(s))
    && (forall k :: 0 <= k < |Runs(s)| ==> Runs(s)[k] == ObjRows(s, RunIds(s)[k]))
    && (forall y :: y in RunIds(s) <==> HasObject(s, y))
    && (s != [] ==> RunIds(s)[|RunIds(s)| - 1] == s[|s| - 1].objId)
  }

  lemma RunIdsSnoc(p: seq<Row>, x: Row)
    ensures p != [] && p[|p| - 1].objId == x.objId ==> RunIds(p + [x]) == RunIds(p)
    ensures !(p != [] && p[|p| - 1].objId == x.objId) ==> RunIds(p + [x]) == RunIds(p) + [x.objId]
  {
    assert (p + [x])[..|p|] == p;
  }

  lemma ObjectsSnoc(p: seq<Row>, x: Row, ids: seq<int>)
    requires forall y :: y in RunIds(p) <==> HasObject(p, y)
    requires ids == RunIds(p) || ids == RunIds(p) + [x.objId]
    requires ids == RunIds(p) ==> x.objId in RunIds(p)
    ensures forall y :: y in ids <==> HasObject(p + [x], y)
  {
    forall y ensures y in ids <==> HasObject(p + [x], y) {
      HasObjectSnoc(p, x, y);
    }
  }

  /** A row with the ObjId of the last run extends that run. */
  lemma RunsExtend(p: seq<Row>, x: Row)
    requires p != [] && p[|p| - 1].objId == x.objId
    requires RunsAreRecords(p)
    ensures RunsAreRecords(p + [x])
  {
    var s := p + [x];
    RunsSnoc(p, x);
    RunIdsSnoc(p, x);
    var rp, ip := Runs(p), RunIds(p);
    var n := |ip| - 1;
    assert Runs(s) == rp[..n] + [rp[n] + [x]];
    forall k | 0 <= k < |ip|
      ensures Runs(s)[k] == ObjRows(s, ip[k])
    {
      ObjRowsSnoc(p, x, ip[k]);
      if k < n {
        assert ip[k] < ip[n];
        assert Runs(s)[k] == rp[k];
      } else {
        assert Runs(s)[k] == rp[n] + [x];
      }
    }
    ObjectsSnoc(p, x, ip);
    assert RunIds(s) == ip;
  }

  /** A row with a larger ObjId than every earlier row starts a new run. */
  lemma RunsStart(p: seq<Row>, x: Row)
    requires forall i :: 0 <= i < |p| ==> p[i].objId < x.objId
    requires RunsAreRecords(p)
    ensures RunsAreRecords(p + [x])
  {
    var s := p + [x];
    RunsSnoc(p, x);
    RunIdsSnoc(p, x);
    var rp, ip := Runs(p), RunIds(p);
    var ids := ip + [x.objId];
    forall k | 0 <= k < |ip| ensures ip[k] < x.objId {
      assert ip[k] in ip;
    }
    AscendingSnoc(ip, x.objId);
    RunsStartRecords(p, x);
    ObjectsSnoc(p, x, ids);
  }

  lemma AscendingSnoc(ids: seq<int>, v: int)
    requires StrictlyAscending(ids)
    requires forall k :: 0 <= k < |ids| ==> ids[k] < v
    ensures StrictlyAscending(ids + [v])
  {
    var r := ids + [v];
    forall k, l | 0 <= k < l < |r| ensures r[k] < r[l] {
      assert r[k] == ids[k];
    }
  }

  lemma RunsStartRecords(p: seq<Row>, x: Row)
    requires forall i :: 0 <= i < |p| ==> p[i].objId < x.objId
    requires forall k :: 0 <= k < |Runs(p)| ==> Runs(p)[k] == ObjRows(p, RunIds(p)[k])
    requires forall y :: y in RunIds(p) ==> HasObject(p, y)
    requires Runs(p + [x]) == Runs(p) + [[x]]
    requires RunIds(p + [x]) == RunIds(p) + [x.objId]
    ensures forall k :: 0 <= k < |Runs(p + [x])| ==> Runs(p + [x])[k] == ObjRows(p + [x], RunIds(p + [x])[k])
  {
    var s := p + [x];
    var rp, ip := Runs(p), RunIds(p);
    assert !HasObject(p, x.objId);
    NoObjRows(p, x.objId);
    ObjRowsSnoc(p, x, x.objId);
    forall k | 0 <= k < |ip|
      ensures Runs(s)[k] == ObjRows(s, RunIds(s)[k])
    {
      assert ip[k] in ip;
      ObjRowsSnoc(p, x, ip[k]);
      assert Runs(s)[k] == rp[k] && RunIds(s)[k] == ip[k];
    }
  }

  /** On rows sorted by ObjId, the runs are exactly the records: one run per
      distinct ObjId, in ascending order, each holding all rows of that
      record. */
  lemma {:induction false} RunsOfSorted(s: seq<Row>)
    requires SortedByObjId(s)
    ensures StrictlyAscending(RunIds(s))
    ensures forall k :: 0 <= k < |Runs(s)| ==> Runs(s)[k] == ObjRows(s, RunIds(s)[k])
    ensures forall y :: y in RunIds(s) <==> HasObject(s, y)
  {
    RunsSorted(s);
  }

  lemma {:induction false} RunsSorted(s: seq<Row>)
    requires SortedByObjId(s)
    ensures RunsAreRecords(s)
  {
    if s != [] {
      var p, x := s[..|s| - 1], s[|s| - 1];
      assert s == p + [x];
      assert forall i :: 0 <= i < |p| ==> p[i] == s[i];
      RunsSorted(p);
      if p != [] && p[|p| - 1].objId == x.objId {
        RunsExtend(p, x);
      } else {
        assert forall i :: 0 <= i < |p| ==> p[i].objId <= p[|p| - 1].objId;
        RunsStart(p, x);
      }
    }
  }

  /** The distinct ObjIds of a table in ascending order: the records a full
      scan ordered by ObjId yields. */
  function ObjIds(rows: seq<Row>): seq<int>
  {
    RunIds(SortByObjId(rows))
  }

  lemma ObjIdsSpec(rows: seq<Row>)
    ensures StrictlyAscending(ObjIds(rows))
    ensures forall y :: y in ObjIds(rows) <==> HasObject(rows, y)
    ensures |Runs(SortByObjId(rows))| == |ObjIds(rows)|
    ensures forall k :: 0 <= k < |ObjIds(rows)| ==>
              Runs(SortByObjId(rows))[k] == ObjRows(rows, ObjIds(rows)[k])
  {
    var s := SortByObjId(rows);
    RunsOfSorted(s);
    forall k | 0 <= k < |ObjIds(rows)|
      ensures Runs(s)[k] == ObjRows(rows, ObjIds(rows)[k])
    {
      ObjRowsSort(rows, ObjIds(rows)[k]);
    }
    forall y ensures HasObject(s, y) <==> HasObject(rows, y) {
      if HasObject(s, y) {
        var i :| 0 <= i < |s| && s[i].objId == y;
        assert s[i] in multiset(rows);
        var j :| 0 <= j < |rows| && rows[j] == s[i];
      }
      if HasObject(rows, y) {
        var i :| 0 <= i < |rows| && rows[i].objId == y;
        assert rows[i] in multiset(s);
        var j :| 0 <= j < |s| && s[j] == rows[i];
      }
    }
  }

  // ---------------------------------------------------------------------------
  // Folding rows into records
  // ---------------------------------------------------------------------------

  function DecodeRow(d: Row, qualified: bool, parseTime: string -> Option<Timestamp>): Option<Value>
  {
    Decode(d.val, d.typ, qualified, parseTime)
  }

  /** Sets the row's decoded value under its attribute, or leaves the record
      as it is when the value does not decode. */
  function Apply(r: Record, d: Row, qualified: bool, parseTime: string -> Option<Timestamp>): (res: Record)
    ensures r.Keys <= res.Keys
  {
    match DecodeRow(d, qualified, parseTime)
    case Some(v) => r[d.attr := v]
    case None => r
  }

  /** Some row of `s` carries attribute `a` with a value that decodes. */
  predicate Decodable(s: seq<Row>, a: string, qualified: bool, parseTime: string -> Option<Timestamp>)
  {
    exists i :: 0 <= i < |s| && s[i].attr == a && DecodeRow(s[i], qualified, parseTime).Some?
  }

  /** The single-record read loop: every row applied in order. */
  function Collect(r: Record, s: seq<Row>, qualified: bool, parseTime: string -> Option<Timestamp>): Record
  {
    if s == [] then r
    else Apply(Collect(r, s[..|s| - 1], qualified, parseTime), s[|s| - 1], qualified, parseTime)
  }

  /** The many-record read loop on one run: "Id" set to the row's ObjId
      before each row is applied; "time.Time" is not a time tag here. */
  function Build(run: seq<Row>, parseTime: string -> Option<Timestamp>): Record
  {
    if run == [] then map[]
    else
      var x := run[|run| - 1];
      Apply(Build(run[..|run| - 1], parseTime)["Id" := IntV(x.objId)], x, false, parseTime)
  }

  /** One more row extends the fold. */
  lemma CollectSnoc(r: Record, p: seq<Row>, x: Row, q: bool, parseTime: string -> Option<Timestamp>)
    ensures Collect(r, p + [x], q, parseTime) == Apply(Collect(r, p, q, parseTime), x, q, parseTime)
  {
    assert (p + [x])[..|p|] == p;
  }

  lemma BuildSnoc(p: seq<Row>, x: Row, parseTime: string -> Option<Timestamp>)
    ensures Build(p + [x], parseTime) == Apply(Build(p, parseTime)["Id" := IntV(x.objId)], x, false, parseTime)
  {
    assert (p + [x])[..|p|] == p;
  }

  /** The state of the many-record read loop after a prefix whose runs are
      `runs`: one finished record per run but the last, and `r` the record of
      the last run so far. */
  predicate Assembled(runs: seq<seq<Row>>, res: seq<Record>, r: Record, parseTime: string -> Option<Timestamp>)
  {
    && |runs| > 0
    && |res| == |runs| - 1
    && (forall k :: 0 <= k < |res| ==> res[k] == Build(runs[k], parseTime))
    && r == Build(runs[|runs| - 1], parseTime)
  }

  lemma AssembledFirst(d: Row, parseTime: string -> Option<Timestamp>)
    ensures Assembled(Runs([d]), [], Apply(map["Id" := IntV(d.objId)], d, false, parseTime), parseTime)
  {
    BuildSnoc([], d, parseTime);
    assert [] + [d] == [d];
    RunsSnoc([], d);
  }

  lemma AssembledPush(runs: seq<seq<Row>>, res: seq<Record>, r: Record, d: Row, parseTime: string -> Option<Timestamp>)
    requires Assembled(runs, res, r, parseTime)
    ensures Assembled(runs + [[d]], res + [r], Apply(map["Id" := IntV(d.objId)], d, false, parseTime), parseTime)
  {
    BuildSnoc([], d, parseTime);
    assert [] + [d] == [d];
  }

  /** A row with a new ObjId finishes the current record and starts one. */
  lemma AssembledNew(p: seq<Row>, res: seq<Record>, r: Record, d: Row, parseTime: string -> Option<Timestamp>)
    requires p != [] && p[|p| - 1].objId != d.objId
    requires Assembled(Runs(p), res, r, parseTime)
    ensures Assembled(Runs(p + [d]), res + [r], Apply(map["Id" := IntV(d.objId)], d, false, parseTime), parseTime)
  {
    RunsSnoc(p, d);
    AssembledPush(Runs(p), res, r, d, parseTime);
  }

  /** A row with the current ObjId extends the current record. */
  lemma AssembledSame(p: seq<Row>, res: seq<Record>, r: Record, d: Row, parseTime: string -> Option<Timestamp>)
    requires p != [] && p[|p| - 1].objId == d.objId
    requires Assembled(Runs(p), res, r, parseTime)
    ensures Assembled(Runs(p + [d]), res, Apply(r["Id" := IntV(d.objId)], d, false, parseTime), parseTime)
  {
    RunsSnoc(p, d);
    var runs := Runs(p);
    BuildSnoc(runs[|runs| - 1], d, parseTime);
  }

  /** What the single-record read returns for record `id`. */
  function GetRecord(rows: seq<Row>, id: int, parseTime: string -> Option<Timestamp>): Record
  {
    var own := ObjRows(rows, id);
    if own == [] then map[] else Collect(map["Id" := IntV(id)], own, true, parseTime)
  }

  lemma SnocDecodable(p: seq<Row>, x: Row, a: string, q: bool, parseTime: string -> Option<Timestamp>)
    ensures Decodable(p + [x], a, q, parseTime) <==>
            Decodable(p, a, q, parseTime) || (x.attr == a && DecodeRow(x, q, parseTime).Some?)
  {
    var s := p + [x];
    if Decodable(s, a, q, parseTime) {
      var i :| 0 <= i < |s| && s[i].attr == a && DecodeRow(s[i], q, parseTime).Some?;
      if i < |p| { assert s[i] == p[i]; }
    }
    if Decodable(p, a, q, parseTime) {
      var i :| 0 <= i < |p| && p[i].attr == a && DecodeRow(p[i], q, parseTime).Some?;
      assert s[i] == p[i];
    }
    assert s[|p|] == x;
  }

  /** The single-record fold: an attribute ends up in the record exactly when
      it was there before or some row carries it with a value that decodes;
      each such row's decoded value is what the record holds, and every
      other entry keeps its earlier value. */
  lemma {:induction false} CollectSpec(r: Record, s: seq<Row>, q: bool, parseTime: string -> Option<Timestamp>)
    requires DistinctAttrs(s)
    ensures forall a :: a in Collect(r, s, q, parseTime) <==> a in r || Decodable(s, a, q, parseTime)
    ensures forall i :: 0 <= i < |s| && DecodeRow(s[i], q, parseTime).Some? ==>
              s[i].attr in Collect(r, s, q, parseTime) &&
              Collect(r, s, q, parseTime)[s[i].attr] == DecodeRow(s[i], q, parseTime).value
    ensures forall a :: a in r && !Decodable(s, a, q, parseTime) ==> Collect(r, s, q, parseTime)[a] == r[a]
  {
    CollectFacts(r, s, q, parseTime);
  }

  /** The three facts CollectSpec states, about a record c folded from r over s. */
  ghost predicate Collected(r: Record, s: seq<Row>, c: Record, q: bool, parseTime: string -> Option<Timestamp>)
  {
    && (forall a :: a in c <==> a in r || Decodable(s, a, q, parseTime))
    && (forall i :: 0 <= i < |s| && DecodeRow(s[i], q, parseTime).Some? ==>
          s[i].attr in c && c[s[i].attr] == DecodeRow(s[i], q, parseTime).value)
    && (forall a :: a in r && !Decodable(s, a, q, parseTime) ==> c[a] == r[a])
  }

  lemma {:induction false} CollectFacts(r: Record, s: seq<Row>, q: bool, parseTime: string -> Option<Timestamp>)
    requires DistinctAttrs(s)
    ensures Collected(r, s, Collect(r, s, q, parseTime), q, parseTime)
  {
    if s == [] {
    } else {
      var p, x := s[..|s| - 1], s[|s| - 1];
      assert s == p + [x];
      assert forall i :: 0 <= i < |p| ==> p[i] == s[i];
      CollectFacts(r, p, q, parseTime);
      forall i | 0 <= i < |p| ensures p[i].attr != x.attr {
        assert s[i].attr != s[|s| - 1].attr;
      }
      CollectedSnoc(r, p, x, Collect(r, p, q, parseTime), q, parseTime);
    }
  }

  lemma CollectedSnoc(r: Record, p: seq<Row>, x: Row, c: Record, q: bool, parseTime: string -> Option<Timestamp>)
    requires Collected(r, p, c, q, parseTime)
    requires forall i :: 0 <= i < |p| ==> p[i].attr != x.attr
    ensures Collected(r, p + [x], Apply(c, x, q, parseTime), q, parseTime)
  {
    var s := p + [x];
    forall a ensures Decodable(s, a, q, parseTime) <==>
                     Decodable(p, a, q, parseTime) || (x.attr == a && DecodeRow(x, q, parseTime).Some?) {
      SnocDecodable(p, x, a, q, parseTime);
    }
    assert forall i :: 0 <= i < |p| ==> s[i] == p[i];
    assert s[|p|] == x;
    match DecodeRow(x, q, parseTime)
    case None =>
      assert Apply(c, x, q, parseTime) == c;
      assert forall a :: Decodable(s, a, q, parseTime) <==> Decodable(p, a, q, parseTime);
    case Some(v) =>
      var c' := c[x.attr := v];
      assert Apply(c, x, q, parseTime) == c';
      forall i | 0 <= i < |s| && DecodeRow(s[i], q, parseTime).Some?
        ensures s[i].attr in c' && c'[s[i].attr] == DecodeRow(s[i], q, parseTime).value
      {
        if i < |p| {
          assert s[i].attr != x.attr;
        }
      }
  }


  /** The facts BuildSpec states about the many-record fold of one run. */
  ghost predicate BuildFacts(run: seq<Row>, id: int, parseTime: string -> Option<Timestamp>)
    requires run != []
  {
    var b := Build(run, parseTime);
    var x := run[|run| - 1];
    && "Id" in b
    && (forall a :: a != "Id" ==> (a in b <==> Decodable(run, a, false, parseTime)))
    && (forall i :: 0 <= i < |run| && run[i].attr != "Id" && DecodeRow(run[i], false, parseTime).Some? ==>
          run[i].attr in b && b[run[i].attr] == DecodeRow(run[i], false, parseTime).value)
    && b["Id"] == if x.attr == "Id" && DecodeRow(x, false, parseTime).Some? then DecodeRow(x, false, parseTime).value
                  else IntV(id)
  }

  lemma BuildStep(p: seq<Row>, x: Row, id: int, parseTime: string -> Option<Timestamp>)
    requires p != [] ==> BuildFacts(p, id, parseTime)
    requires x.objId == id
    requires forall i :: 0 <= i < |p| ==> p[i].attr != x.attr
    ensures BuildFacts(p + [x], id, parseTime)
  {
    var run := p + [x];
    assert run[..|run| - 1] == p;
    assert run[|run| - 1] == x;
    var b0 := Build(p, parseTime);
    var b := Build(run, parseTime);
    assert b == Apply(b0["Id" := IntV(id)], x, false, parseTime);
    forall a ensures Decodable(run, a, false, parseTime) <==>
                     Decodable(p, a, false, parseTime) || (x.attr == a && DecodeRow(x, false, parseTime).Some?) {
      SnocDecodable(p, x, a, false, parseTime);
    }
    if p == [] {
      assert forall a :: !Decodable(p, a, false, parseTime);
    }
    forall i | 0 <= i < |run| && run[i].attr != "Id" && DecodeRow(run[i], false, parseTime).Some?
      ensures run[i].attr in b && b[run[i].attr] == DecodeRow(run[i], false, parseTime).value
    {
      if i < |p| {
        assert run[i] == p[i];
      }
    }
  }

  /** The many-record fold on one record's rows: "Id" is always present and
      holds the ObjId unless the last row is a decodable "Id" attribute;
      every other attribute is present exactly when some row carries it with
      a value that decodes, and then holds that value. */
  lemma {:induction false} BuildSpec(run: seq<Row>, id: int, parseTime: string -> Option<Timestamp>)
    requires run != [] && DistinctAttrs(run)
    requires forall i :: 0 <= i < |run| ==> run[i].objId == id
    ensures BuildFacts(run, id, parseTime)
  {
    var p, x := run[..|run| - 1], run[|run| - 1];
    assert run == p + [x];
    assert forall i :: 0 <= i < |p| ==> p[i] == run[i];
    if p != [] {
      BuildSpec(p, id, parseTime);
    }
    BuildStep(p, x, id, parseTime);
  }

  /** What the single-record read returns: the empty map exactly when the
      record has no rows; otherwise "Id" plus every attribute whose value
      decodes, each holding its decoded value, with "Id" holding the ObjId
      unless a stored "Id" attribute decodes and replaces it. */
  lemma GetRecordSpec(rows: seq<Row>, id: int, parseTime: string -> Option<Timestamp>)
    requires UniqueKeys(rows)
    ensures GetRecord(rows, id, parseTime) == map[] <==> !HasObject(rows, id)
    ensures HasObject(rows, id) ==>
      var g := GetRecord(rows, id, parseTime);
      var own := ObjRows(rows, id);
      && (forall a :: a in g <==> a == "Id" || Decodable(own, a, true, parseTime))
      && (forall i :: 0 <= i < |own| && DecodeRow(own[i], true, parseTime).Some? ==>
            own[i].attr in g && g[own[i].attr] == DecodeRow(own[i], true, parseTime).value)
      && (!Decodable(own, "Id", true, parseTime) ==> g["Id"] == IntV(id))
  {
    var own := ObjRows(rows, id);
    ObjRowsMembers(rows, id);
    if HasObject(rows, id) {
      var i :| 0 <= i < |rows| && rows[i].objId == id;
      assert rows[i] in own;
      UniqueKeysObjRows(rows, id);
      CollectSpec(map["Id" := IntV(id)], own, true, parseTime);
      assert "Id" in GetRecord(rows, id, parseTime);
    } else {
      NoObjRows(rows, id);
    }
  }

  /** The single-record read is empty exactly when the record has no row. */
  lemma GetRecordEmpty(rows: seq<Row>, id: int, parseTime: string -> Option<Timestamp>)
    ensures GetRecord(rows, id, parseTime) == map[] <==> !HasObject(rows, id)
  {
    var own := ObjRows(rows, id);
    ObjRowsMembers(rows, id);
    if HasObject(rows, id) {
      var i :| 0 <= i < |rows| && rows[i].objId == id;
      assert rows[i] in own;
      CollectKeeps(map["Id" := IntV(id)], own, true, parseTime);
      assert "Id" in GetRecord(rows, id, parseTime);
    } else {
      NoObjRows(rows, id);
    }
  }

  /** The single-record fold never removes an attribute. */
  lemma {:induction false} CollectKeeps(r: Record, s: seq<Row>, q: bool, parseTime: string -> Option<Timestamp>)
    ensures r.Keys <= Collect(r, s, q, parseTime).Keys
  {
    if s != [] {
      CollectKeeps(r, s[..|s| - 1], q, parseTime);
    }
  }

  lemma {:induction false} CollectSkipsId(r: Record, s: seq<Row>, q: bool, parseTime: string -> Option<Timestamp>)
    requires forall i :: 0 <= i < |s| ==> s[i].attr != "Id"
    ensures ("Id" in Collect(r, s, q, parseTime)) == ("Id" in r)
    ensures "Id" in r ==> Collect(r, s, q, parseTime)["Id"] == r["Id"]
  {
    if s != [] {
      CollectSkipsId(r, s[..|s| - 1], q, parseTime);
    }
  }

  /** When every row of a run carries an attribute other than "Id", the
      many-record fold is the single-record fold started from the
      synthesised "Id". */
  lemma {:induction false} BuildIsCollect(run: seq<Row>, id: int, parseTime: string -> Option<Timestamp>)
    requires run != []
    requires forall i :: 0 <= i < |run| ==> run[i].objId == id && run[i].attr != "Id"
    ensures Build(run, parseTime) == Collect(map["Id" := IntV(id)], run, false, parseTime)
  {
    var p, x := run[..|run| - 1], run[|run| - 1];
    var c := Collect(map["Id" := IntV(id)], p, false, parseTime);
    if p == [] {
      assert map["Id" := IntV(id)] == map[]["Id" := IntV(id)];
    } else {
      BuildIsCollect(p, id, parseTime);
      CollectSkipsId(map["Id" := IntV(id)], p, false, parseTime);
      assert c["Id" := IntV(id)] == c;
    }
  }

  /** The two readers agree on a record that stores no "Id" attribute and no
      "time.Time" tag: the many-record read yields what the single-record
      read yields. */
  lemma ReadersAgree(rows: seq<Row>, id: int, parseTime: string -> Option<Timestamp>)
    requires HasObject(rows, id)
    requires forall i :: 0 <= i < |rows| && rows[i].objId == id ==>
               rows[i].attr != "Id" && rows[i].typ != "time.Time"
    ensures Build(ObjRows(rows, id), parseTime) == GetRecord(rows, id, parseTime)
  {
    var own := ObjRows(rows, id);
    ObjRowsMembers(rows, id);
    var i :| 0 <= i < |rows| && rows[i].objId == id;
    assert rows[i] in own;
    forall j | 0 <= j < |own| ensures own[j].objId == id && own[j].attr != "Id" && own[j].typ != "time.Time" {
      assert own[j] in rows;
    }
    BuildIsCollect(own, id, parseTime);
    CollectSameFlag(map["Id" := IntV(id)], own, parseTime);
  }

  lemma {:induction false} CollectSameFlag(r: Record, s: seq<Row>, parseTime: string -> Option<Timestamp>)
    requires forall i :: 0 <= i < |s| ==> s[i].typ != "time.Time"
    ensures Collect(r, s, false, parseTime) == Collect(r, s, true, parseTime)
  {
    if s != [] {
      CollectSameFlag(r, s[..|s| - 1], parseTime);
    }
  }

  // ---------------------------------------------------------------------------
  // Writes: INSERT with the uniqueness constraint, UPDATE of one cell
  // ---------------------------------------------------------------------------

  /** An INSERT of `tuples` is accepted: no tuple collides with a stored row
      or with another tuple on (ObjId, Attr). */
  predicate Insertable(rows: seq<Row>, tuples: seq<Tuple>)
  {
    && (forall k, i :: 0 <= k < |tuples| && 0 <= i < |rows| ==>
          rows[i].objId != tuples[k].objId || rows[i].attr != tuples[k].attr)
    && (forall k, l :: 0 <= k < l < |tuples| ==>
          tuples[k].objId != tuples[l].objId || tuples[k].attr != tuples[l].attr)
  }

  function NewRow(seqNo: int, k: nat, x: Tuple): Row
  {
    Row(seqNo + k + 1, x.objId, x.attr, x.val, x.typ)
  }

  /** The rows an accepted INSERT adds, with consecutive surrogate keys. */
  function NewRows(seqNo: int, tuples: seq<Tuple>): (r: seq<Row>)
    ensures |r| == |tuples|
    ensures forall k :: 0 <= k < |r| ==> r[k] == NewRow(seqNo, k, tuples[k])
  {
    seq(|tuples|, k requires 0 <= k < |tuples| => NewRow(seqNo, k, tuples[k]))
  }

  function Appended(t: Table, tuples: seq<Tuple>): Table
  {
    Table(t.rows + NewRows(t.seqNo, tuples), t.seqNo + |tuples|)
  }

  lemma AppendedValid(t: Table, tuples: seq<Tuple>)
    requires TableValid(t) && Insertable(t.rows, tuples)
    ensures TableValid(Appended(t, tuples))
  {
    var r := Appended(t, tuples).rows;
    var n := |t.rows|;
    forall i | 0 <= i < |r| ensures 1 <= r[i].id <= t.seqNo + |tuples| && (i >= n ==> r[i].id == t.seqNo + i - n + 1) {
      if i >= n {
        assert r[i] == NewRow(t.seqNo, i - n, tuples[i - n]);
      }
    }
    forall i, j | 0 <= i < j < |r| ensures r[i].objId != r[j].objId || r[i].attr != r[j].attr {
      if j >= n {
        if i >= n {
          assert r[i] == NewRow(t.seqNo, i - n, tuples[i - n]);
        }
        assert r[j] == NewRow(t.seqNo, j - n, tuples[j - n]);
      }
    }
  }

  /** Two accepted inserts, one after the other, store what one insert of
      both tuple lists does: the rows and surrogate keys are the same. */
  lemma AppendedTwice(t: Table, a: seq<Tuple>, b: seq<Tuple>)
    ensures Appended(Appended(t, a), b) == Appended(t, a + b)
  {
    var lhs := Appended(Appended(t, a), b).rows;
    var rhs := Appended(t, a + b).rows;
    assert |lhs| == |rhs|;
    forall i | 0 <= i < |lhs| ensures lhs[i] == rhs[i] {
      var n := |t.rows|;
      if i >= n + |a| {
        assert (a + b)[i - n] == b[i - n - |a|];
      } else if i >= n {
        assert (a + b)[i - n] == a[i - n];
      }
    }
  }

  /** The tuples of a record no stored row belongs to, with distinct
      attributes, are always accepted. */
  lemma FreshInsertable(rows: seq<Row>, tuples: seq<Tuple>, id: int)
    requires !HasObject(rows, id)
    requires forall k :: 0 <= k < |tuples| ==> tuples[k].objId == id
    requires forall k, l :: 0 <= k < l < |tuples| ==> tuples[k].attr != tuples[l].attr
    ensures Insertable(rows, tuples)
  {
    assert forall i :: 0 <= i < |rows| ==> rows[i].objId != id;
  }

  lemma {:induction false} ObjRowsAll(s: seq<Row>, id: int)
    requires forall i :: 0 <= i < |s| ==> s[i].objId == id
    ensures ObjRows(s, id) == s
  {
    if s != [] {
      ObjRowsAll(s[1..], id);
    }
  }

  /** After an accepted insert of the tuples of a fresh record id, the
      record's rows are exactly the new rows, in tuple order. */
  lemma InsertedObjRows(t: Table, tuples: seq<Tuple>, id: int)
    requires !HasObject(t.rows, id)
    requires forall k :: 0 <= k < |tuples| ==> tuples[k].objId == id
    ensures ObjRows(Appended(t, tuples).rows, id) == NewRows(t.seqNo, tuples)
  {
    ObjRowsAppend(t.rows, NewRows(t.seqNo, tuples), id);
    NoObjRows(t.rows, id);
    ObjRowsAll(NewRows(t.seqNo, tuples), id);
  }

  /** An insert leaves the rows of every record it does not write alone. */
  lemma AppendedOthers(t: Table, tuples: seq<Tuple>, y: int)
    requires forall k :: 0 <= k < |tuples| ==> tuples[k].objId != y
    ensures ObjRows(Appended(t, tuples).rows, y) == ObjRows(t.rows, y)
  {
    var nr := NewRows(t.seqNo, tuples);
    ObjRowsAppend(t.rows, nr, y);
    assert !HasObject(nr, y);
    NoObjRows(nr, y);
  }

  /** The record read back for a freshly inserted record id with these
      tuples: "Id" plus every attribute whose text decodes under its tag,
      each with its decoded value; "Id" is the record's ObjId unless a tuple
      itself supplies a decodable "Id". */
  ghost predicate ReadBack(g: Record, tuples: seq<Tuple>, id: int, parseTime: string -> Option<Timestamp>)
  {
    && (forall a :: a in g <==>
          (a == "Id" || exists k :: 0 <= k < |tuples| && tuples[k].attr == a && Decode(tuples[k].val, tuples[k].typ, true, parseTime).Some?))
    && (forall k :: 0 <= k < |tuples| && Decode(tuples[k].val, tuples[k].typ, true, parseTime).Some? ==>
          tuples[k].attr in g && g[tuples[k].attr] == Decode(tuples[k].val, tuples[k].typ, true, parseTime).value)
    && ((forall k :: 0 <= k < |tuples| && tuples[k].attr == "Id" ==> Decode(tuples[k].val, tuples[k].typ, true, parseTime).None?) ==>
          "Id" in g && g["Id"] == IntV(id))
  }

  /** Inserting a fresh record and reading it back yields ReadBack. */
  lemma InsertedRecord(t: Table, tuples: seq<Tuple>, id: int, parseTime: string -> Option<Timestamp>)
    requires !HasObject(t.rows, id) && tuples != []
    requires forall k :: 0 <= k < |tuples| ==> tuples[k].objId == id
    requires forall k, l :: 0 <= k < l < |tuples| ==> tuples[k].attr != tuples[l].attr
    ensures ReadBack(GetRecord(Appended(t, tuples).rows, id, parseTime), tuples, id, parseTime)
  {
    InsertedGet(t, tuples, id, parseTime);
    NewRecord(t.seqNo, tuples, id, parseTime);
  }

  lemma InsertedGet(t: Table, tuples: seq<Tuple>, id: int, parseTime: string -> Option<Timestamp>)
    requires !HasObject(t.rows, id) && tuples != []
    requires forall k :: 0 <= k < |tuples| ==> tuples[k].objId == id
    ensures GetRecord(Appended(t, tuples).rows, id, parseTime) ==
            Collect(map["Id" := IntV(id)], NewRows(t.seqNo, tuples), true, parseTime)
  {
    InsertedObjRows(t, tuples, id);
  }

  /** The fold of a new record's rows, started with "Id" := id. */
  lemma NewRecord(seqNo: int, tuples: seq<Tuple>, id: int, parseTime: string -> Option<Timestamp>)
    requires forall k, l :: 0 <= k < l < |tuples| ==> tuples[k].attr != tuples[l].attr
    ensures ReadBack(Collect(map["Id" := IntV(id)], NewRows(seqNo, tuples), true, parseTime), tuples, id, parseTime)
  {
    assert DistinctAttrs(NewRows(seqNo, tuples));
    CollectFacts(map["Id" := IntV(id)], NewRows(seqNo, tuples), true, parseTime);
    CollectedReadBack(seqNo, tuples, id, Collect(map["Id" := IntV(id)], NewRows(seqNo, tuples), true, parseTime), parseTime);
  }

  lemma CollectedReadBack(seqNo: int, tuples: seq<Tuple>, id: int, c: Record, parseTime: string -> Option<Timestamp>)
    requires Collected(map["Id" := IntV(id)], NewRows(seqNo, tuples), c, true, parseTime)
    ensures ReadBack(c, tuples, id, parseTime)
  {
    CollectedKeys(seqNo, tuples, id, c, parseTime);
    CollectedValues(seqNo, tuples, id, c, parseTime);
    CollectedId(seqNo, tuples, id, c, parseTime);
  }

  lemma CollectedId(seqNo: int, tuples: seq<Tuple>, id: int, c: Record, parseTime: string -> Option<Timestamp>)
    requires Collected(map["Id" := IntV(id)], NewRows(seqNo, tuples), c, true, parseTime)
    ensures (forall k :: 0 <= k < |tuples| && tuples[k].attr == "Id" ==> Decode(tuples[k].val, tuples[k].typ, true, parseTime).None?) ==>
      "Id" in c && c["Id"] == IntV(id)
  {
    NewRowsDecodable(seqNo, tuples, "Id", true, parseTime);
  }

  lemma CollectedKeys(seqNo: int, tuples: seq<Tuple>, id: int, c: Record, parseTime: string -> Option<Timestamp>)
    requires Collected(map["Id" := IntV(id)], NewRows(seqNo, tuples), c, true, parseTime)
    ensures forall a :: a in c <==>
      (a == "Id" || exists k :: 0 <= k < |tuples| && tuples[k].attr == a && Decode(tuples[k].val, tuples[k].typ, true, parseTime).Some?)
  {
    forall a ensures a in c <==>
        (a == "Id" || exists k :: 0 <= k < |tuples| && tuples[k].attr == a && Decode(tuples[k].val, tuples[k].typ, true, parseTime).Some?)
    {
      NewRowsDecodable(seqNo, tuples, a, true, parseTime);
    }
  }

  lemma CollectedValues(seqNo: int, tuples: seq<Tuple>, id: int, c: Record, parseTime: string -> Option<Timestamp>)
    requires Collected(map["Id" := IntV(id)], NewRows(seqNo, tuples), c, true, parseTime)
    ensures forall k :: 0 <= k < |tuples| && Decode(tuples[k].val, tuples[k].typ, true, parseTime).Some? ==>
      tuples[k].attr in c && c[tuples[k].attr] == Decode(tuples[k].val, tuples[k].typ, true, parseTime).value
  {
    var own := NewRows(seqNo, tuples);
    forall k | 0 <= k < |tuples| && Decode(tuples[k].val, tuples[k].typ, true, parseTime).Some?
      ensures tuples[k].attr in c && c[tuples[k].attr] == Decode(tuples[k].val, tuples[k].typ, true, parseTime).value
    {
      assert DecodeRow(own[k], true, parseTime) == Decode(tuples[k].val, tuples[k].typ, true, parseTime);
    }
  }

  lemma NewRowsDecodable(seqNo: int, tuples: seq<Tuple>, a: string, q: bool, parseTime: string -> Option<Timestamp>)
    ensures Decodable(NewRows(seqNo, tuples), a, q, parseTime) <==>
      exists k :: 0 <= k < |tuples| && tuples[k].attr == a && Decode(tuples[k].val, tuples[k].typ, q, parseTime).Some?
  {
    var own := NewRows(seqNo, tuples);
    if Decodable(own, a, q, parseTime) {
      var i :| 0 <= i < |own| && own[i].attr == a && DecodeRow(own[i], q, parseTime).Some?;
      assert tuples[i].attr == a;
    }
    if exists k :: 0 <= k < |tuples| && tuples[k].attr == a && Decode(tuples[k].val, tuples[k].typ, q, parseTime).Some? {
      var k :| 0 <= k < |tuples| && tuples[k].attr == a && Decode(tuples[k].val, tuples[k].typ, q, parseTime).Some?;
      assert own[k].attr == a && DecodeRow(own[k], q, parseTime).Some?;
    }
  }

  /** UPDATE ... SET Val = val WHERE ObjId = id AND Attr = attr. */
  function SetVal(rows: seq<Row>, id: int, attr: string, val: string): (r: seq<Row>)
    ensures |r| == |rows|
    ensures forall i :: 0 <= i < |r| ==>
              r[i] == if rows[i].objId == id && rows[i].attr == attr then rows[i].(val := val) else rows[i]
  {
    seq(|rows|, i requires 0 <= i < |rows| =>
      if rows[i].objId == id && rows[i].attr == attr then rows[i].(val := val) else rows[i])
  }

  lemma SetValValid(t: Table, id: int, attr: string, val: string)
    requires TableValid(t)
    ensures TableValid(Table(SetVal(t.rows, id, attr, val), t.seqNo))
  {
  }

  lemma {:induction false} CellAtAppend(a: seq<Row>, b: seq<Row>, id: int, attr: string)
    ensures CellAt(a + b, id, attr) == if CellAt(a, id, attr).Some? then CellAt(a, id, attr) else CellAt(b, id, attr)
  {
    if a == [] {
      assert a + b == b;
    } else {
      assert (a + b)[0] == a[0];
      assert (a + b)[1..] == a[1..] + b;
      CellAtAppend(a[1..], b, id, attr);
    }
  }

  lemma {:induction false} CellAtSetVal(rows: seq<Row>, id: int, attr: string, val: string, id2: int, attr2: string)
    ensures CellAt(SetVal(rows, id, attr, val), id2, attr2) ==
      if id2 == id && attr2 == attr then
        (match CellAt(rows, id, attr) case Some(c) => Some(Cell(val, c.typ)) case None => None)
      else CellAt(rows, id2, attr2)
  {
    if rows != [] {
      assert SetVal(rows, id, attr, val)[1..] == SetVal(rows[1..], id, attr, val);
      CellAtSetVal(rows[1..], id, attr, val, id2, attr2);
    }
  }

  /** ASCII case folding, as SQLite matches identifiers. */
  function LowerAscii(c: char): char
  {
    if 'A' <= c <= 'Z' then (c as int + 32) as char else c
  }

  predicate SameIdentifier(a: string, b: string)
  {
    |a| == |b| && forall i :: 0 <= i < |a| ==> LowerAscii(a[i]) == LowerAscii(b[i])
  }

  /** A key that names one of the table's integer columns: `Id`, `ObjId`, or
      one of the names SQLite gives the rowid (`rowid`, `oid`, `_rowid_`),
      which the `Id INTEGER PRIMARY KEY` column aliases. In the probe's
      `Attr = "key"` SQLite resolves such a double-quoted name to that column,
      so the row storing the key as its attribute name is never found. */
  predicate NamesIntColumn(attr: string)
  {
    || SameIdentifier(attr, "Id") || SameIdentifier(attr, "ObjId")
    || SameIdentifier(attr, "rowid") || SameIdentifier(attr, "oid") || SameIdentifier(attr, "_rowid_")
  }

  /** Whether the probe of an update finds the (ObjId, Attr) row. */
  predicate Probe(rows: seq<Row>, id: int, attr: string)
  {
    !NamesIntColumn(attr) && HasRow(rows, id, attr)
  }

  /** One per-attribute write of an update: when the probe finds the cell,
      its text is overwritten (its tag is kept); otherwise the tuple is
      inserted, and that INSERT is rejected by UNIQUE(ObjId, Attr) when the
      probe missed a cell that exists. */
  function UpsertOne(t: Table, x: Tuple): Table
  {
    if Probe(t.rows, x.objId, x.attr) then Table(SetVal(t.rows, x.objId, x.attr, x.val), t.seqNo)
    else if HasRow(t.rows, x.objId, x.attr) then t
    else Appended(t, [x])
  }

  /** The per-attribute writes of an update, in order. */
  function UpsertAll(t: Table, xs: seq<Tuple>): Table
  {
    if xs == [] then t else UpsertOne(UpsertAll(t, xs[..|xs| - 1]), xs[|xs| - 1])
  }

  lemma MapOverwrite<K, V>(m: map<K, V>, k: K, a: V, b: V)
    ensures m[k := a][k := b] == m[k := b]
  {
  }

  lemma UpsertAllSnoc(t: Table, xs: seq<Tuple>, i: nat)
    requires i < |xs|
    ensures UpsertAll(t, xs[..i + 1]) == UpsertOne(UpsertAll(t, xs[..i]), xs[i])
  {
    assert xs[..i + 1][..i] == xs[..i];
  }

  lemma UpsertOneValid(t: Table, x: Tuple)
    requires TableValid(t)
    ensures TableValid(UpsertOne(t, x))
  {
    if Probe(t.rows, x.objId, x.attr) {
      SetValValid(t, x.objId, x.attr, x.val);
    } else if !HasRow(t.rows, x.objId, x.attr) {
      AppendedValid(t, [x]);
    }
  }

  lemma {:induction false} UpsertAllValid(t: Table, xs: seq<Tuple>)
    requires TableValid(t)
    ensures TableValid(UpsertAll(t, xs))
  {
    if xs != [] {
      UpsertAllValid(t, xs[..|xs| - 1]);
      UpsertOneValid(UpsertAll(t, xs[..|xs| - 1]), xs[|xs| - 1]);
    }
  }

  /** An INSERT of a tuple whose (ObjId, Attr) row exists is rejected. */
  lemma HasRowRejects(rows: seq<Row>, x: Tuple)
    requires HasRow(rows, x.objId, x.attr)
    ensures !Insertable(rows, [x])
  {
    var i :| 0 <= i < |rows| && rows[i].objId == x.objId && rows[i].attr == x.attr;
    assert [x][0] == x;
  }

  /** The cell one write of an update leaves, from the cell before it: a
      missing cell is created with the tuple's text and tag; an existing one
      gets the new text under its old tag, except under a key naming an
      integer column, whose cell is kept as it was. */
  function WrittenCell(before: Option<Cell>, x: Tuple): (r: Option<Cell>)
    ensures r.Some?
  {
    match before
    case None => Some(Cell(x.val, x.typ))
    case Some(c) => if NamesIntColumn(x.attr) then Some(c) else Some(Cell(x.val, c.typ))
  }

  /** One write sets at most its own cell, as WrittenCell says; every other
      cell is unchanged. */
  lemma UpsertOneCells(t: Table, x: Tuple, id: int, attr: string)
    ensures CellAt(UpsertOne(t, x).rows, id, attr) ==
      if id == x.objId && attr == x.attr then WrittenCell(CellAt(t.rows, id, attr), x)
      else CellAt(t.rows, id, attr)
  {
    if Probe(t.rows, x.objId, x.attr) {
      CellAtSetVal(t.rows, x.objId, x.attr, x.val, id, attr);
    } else if !HasRow(t.rows, x.objId, x.attr) {
      CellAtAppend(t.rows, NewRows(t.seqNo, [x]), id, attr);
      var nr := NewRows(t.seqNo, [x]);
      assert nr[1..] == [];
    }
  }

  /** Key of the per-attribute writes an update performs. */
  predicate Writes(xs: seq<Tuple>, id: int, attr: string)
  {
    exists k :: 0 <= k < |xs| && xs[k].objId == id && xs[k].attr == attr
  }

  /** The whole update, cell by cell: each written cell is the WrittenCell of
      the cell before the update and every cell not written is unchanged.
      The written keys must be distinct, as they are for a map's keys or a
      struct's fields. */
  lemma {:induction false} UpsertAllCells(t: Table, xs: seq<Tuple>, id: int, attr: string)
    requires forall k, l :: 0 <= k < l < |xs| ==> xs[k].objId != xs[l].objId || xs[k].attr != xs[l].attr
    ensures !Writes(xs, id, attr) ==> CellAt(UpsertAll(t, xs).rows, id, attr) == CellAt(t.rows, id, attr)
    ensures forall k :: 0 <= k < |xs| && xs[k].objId == id && xs[k].attr == attr ==>
      CellAt(UpsertAll(t, xs).rows, id, attr) == WrittenCell(CellAt(t.rows, id, attr), xs[k])
  {
    if xs != [] {
      var p, x := xs[..|xs| - 1], xs[|xs| - 1];
      assert forall k :: 0 <= k < |p| ==> p[k] == xs[k];
      UpsertAllCells(t, p, id, attr);
      UpsertOneCells(UpsertAll(t, p), x, id, attr);
      if x.objId == id && x.attr == attr {
        assert !Writes(p, id, attr);
      }
      assert Writes(p, id, attr) ==> Writes(xs, id, attr);
    }
  }

  /** Rows of records an update does not write are untouched, in content and
      in order. */
  lemma {:induction false} UpsertAllOthers(t: Table, xs: seq<Tuple>, o: int)
    requires forall k :: 0 <= k < |xs| ==> xs[k].objId != o
    ensures ObjRows(UpsertAll(t, xs).rows, o) == ObjRows(t.rows, o)
  {
    if xs != [] {
      var p, x := xs[..|xs| - 1], xs[|xs| - 1];
      UpsertAllOthers(t, p, o);
      var u := UpsertAll(t, p);
      if Probe(u.rows, x.objId, x.attr) {
        SetValObjRows(u.rows, x.objId, x.attr, x.val, o);
      } else if !HasRow(u.rows, x.objId, x.attr) {
        ObjRowsAppend(u.rows, NewRows(u.seqNo, [x]), o);
        assert NewRows(u.seqNo, [x])[1..] == [];
      }
    }
  }

  lemma {:induction false} SetValObjRows(rows: seq<Row>, id: int, attr: string, val: string, o: int)
    requires o != id
    ensures ObjRows(SetVal(rows, id, attr, val), o) == ObjRows(rows, o)
  {
    if rows != [] {
      assert SetVal(rows, id, attr, val)[1..] == SetVal(rows[1..], id, attr, val);
      SetValObjRows(rows[1..], id, attr, val, o);
    }
  }

  // ---------------------------------------------------------------------------
  // Text comparison of the range delete
  // ---------------------------------------------------------------------------

  /** Comparison of two TEXT values under the BINARY collation: character by
      character, a proper prefix first. */
  predicate TextLe(a: string, b: string)
  {
    if a == [] then true
    else if b == [] then false
    else if a[0] != b[0] then a[0] < b[0]
    else TextLe(a[1..], b[1..])
  }

  /** TextLe is a total order on texts. */
  lemma {:induction false} TextLeTotalOrder(a: string, b: string, c: string)
    ensures TextLe(a, a)
    ensures TextLe(a, b) || TextLe(b, a)
    ensures TextLe(a, b) && TextLe(b, a) ==> a == b
    ensures TextLe(a, b) && TextLe(b, c) ==> TextLe(a, c)
  {
    if a != [] && b != [] && c != [] {
      TextLeTotalOrder(a[1..], b[1..], c[1..]);
      if a[0] == b[0] {
        assert a == [a[0]] + a[1..] && b == [b[0]] + b[1..];
      }
    } else if a != [] && b != [] {
      TextLeTotalOrder(a[1..], b[1..], c);
      if a[0] == b[0] {
        assert a == [a[0]] + a[1..] && b == [b[0]] + b[1..];
      }
    } else if a != [] {
      TextLeReflexive(a);
    } else if b != [] {
      TextLeReflexive(b);
    }
  }

  lemma {:induction false} TextLeReflexive(a: string)
    ensures TextLe(a, a)
  {
    if a != [] {
      TextLeReflexive(a[1..]);
    }
  }

  /** Numbers compared as text do not follow numeric order. */
  lemma TextOrderIsNotNumeric()
    ensures TextLe(IntToText(10), IntToText(9)) && !TextLe(IntToText(9), IntToText(10))
  {
    assert IntToText(10) == "10" by {
      assert NatToText(10) == NatToText(1) + [DigitChar(0)];
    }
    assert IntToText(9) == "9";
  }

  /** The records the attribute-range delete removes: those with a row whose
      attribute is `field` and whose text lies between the texts of `lo`
      and `hi`. */
  function InTextRange(rows: seq<Row>, field: string, lo: int, hi: int): set<int>
  {
    set i | 0 <= i < |rows| && rows[i].attr == field &&
            TextLe(IntToText(lo), rows[i].val) && TextLe(rows[i].val, IntToText(hi)) :: rows[i].objId
  }
}
