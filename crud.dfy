/**
 * createCrudController(tableName) of utils/crudController.js: the five
 * handlers every generic table route binds (index, store, show, update,
 * destroy), over one table held as a map from id to record.
 *
 * The SQL text the handlers build is not modelled, only its effect:
 * `INSERT INTO t (k1,..) VALUES (?,..)` fills the named columns and leaves
 * every other column at its DEFAULT; `UPDATE t SET k1 = ?,.. WHERE id = ?`
 * overwrites the named columns of one row. A key that is not a column of
 * the table, and an UPDATE with no SET list, are SQL errors. Other
 * constraint failures (NOT NULL, UNIQUE on a non-id column) are the
 * database's verdict, passed in as `accepted`.
 */
module Crud {
  import opened Wrappers

  /** An SQLite value as the handlers see it. */
  datatype Value = Null | Int(i: int) | Text(s: string)

  /** A row: column name to value, `id` included. */
  type Record = map<string, Value>

  datatype CrudBody =
    | Rows(rows: seq<Record>)
    | Row(row: Record)
    | NoRow                     // `res.json(undefined)`: the re-read found no row
    | Error(error: string)
    | Message(message: string)

  datatype CrudResponse = CrudResponse(status: int, body: CrudBody)

  const EMPTY_BODY: string := "Request body cannot be empty"
  const CREATE_FAILED: string := "Failed to create record"
  const UPDATE_FAILED: string := "Failed to update record"

  /** `m` is the smallest element of `s`. */
  predicate IsLeast(m: int, s: set<int>) {
    m in s && forall x :: x in s ==> m <= x
  }

  /** Some element of a non-empty set. */
  lemma Pick(s: set<int>) returns (x: int)
    requires s != {}
    ensures x in s
  {
    // The solver needs an explicit witness that s has an element before the such-that.
    if forall y :: y !in s {
      assert false;
    }
    x :| x in s;
  }

  /** A non-empty set of ids has a smallest element. */
  lemma {:induction false} HasMinimum(s: set<int>)
    requires s != {}
    ensures exists m :: IsLeast(m, s)
    decreases |s|
  {
    var x := Pick(s);
    if s == {x} {
      assert IsLeast(x, s);
    } else {
      assert s - {x} != {};
      HasMinimum(s - {x});
      var m :| IsLeast(m, s - {x});
      var least := if x < m then x else m;
      forall z | z in s ensures least <= z {
        if z != x {
          assert z in s - {x};
        }
      }
      assert IsLeast(least, s);
    }
  }

  /** The smallest id of a non-empty set. */
  function Least(s: set<int>): (m: int)
    requires s != {}
    ensures IsLeast(m, s)
  {
    HasMinimum(s);
    var m :| IsLeast(m, s);
    m
  }

  /** The ids in ascending order: the rowid order of `SELECT * FROM t`. */
  function SortedIds(s: set<int>): (ids: seq<int>)
    ensures AscendingOver(ids, s)
    decreases |s|
  {
    if s == {} then []
    else
      var m := Least(s);
      assert |s - {m}| == |s| - 1;
      var rest := SortedIds(s - {m});
      LeastThenAscending(s, m, rest);
      [m] + rest
  }

  /** `ids` lists the elements of `s`, each once, in ascending order. */
  ghost predicate AscendingOver(ids: seq<int>, s: set<int>) {
    && |ids| == |s|
    && (forall k :: k in ids <==> k in s)
    && (forall i, j :: 0 <= i < j < |ids| ==> ids[i] < ids[j])
  }

  /** The least element followed by the ascending rest is the ascending whole. */
  lemma LeastThenAscending(s: set<int>, m: int, rest: seq<int>)
    requires IsLeast(m, s) && AscendingOver(rest, s - {m})
    ensures AscendingOver([m] + rest, s)
  {
    var ids := [m] + rest;
    forall k ensures k in ids <==> k in s {
      assert k in ids <==> k == m || k in rest;
    }
    forall i, j | 0 <= i < j < |ids| ensures ids[i] < ids[j] {
      assert ids[j] == rest[j - 1] && ids[j] in s - {m};
      if i > 0 {
        assert ids[i] == rest[i - 1];
      }
    }
  }

  /** The rows of `m` under `ids`, in that order. */
  function Listed(m: map<int, Record>, ids: seq<int>): (r: seq<Record>)
    requires forall i :: 0 <= i < |ids| ==> ids[i] in m
    ensures |r| == |ids| && forall i :: 0 <= i < |ids| ==> r[i] == m[ids[i]]
  {
    if ids == [] then [] else [m[ids[0]]] + Listed(m, ids[1..])
  }

  /** Every row keyed by its own id. */
  ghost predicate KeyedById(m: map<int, Record>) {
    forall k :: k in m ==> "id" in m[k] && m[k]["id"] == Int(k)
  }

  /**
   * `SELECT * FROM t`: the rows in ascending id order, each once; with
   * SortedIds' contract, every row of the table appears exactly once.
   */
  function Listing(m: map<int, Record>): (r: seq<Record>)
    requires KeyedById(m)
    ensures |r| == |m|
    ensures forall i :: 0 <= i < |r| ==> SortedIds(m.Keys)[i] in m && r[i] == m[SortedIds(m.Keys)[i]]
    ensures forall i :: 0 <= i < |r| ==> "id" in r[i] && r[i]["id"] == Int(SortedIds(m.Keys)[i])
    ensures forall i, j :: 0 <= i < j < |r| ==> r[i]["id"].i < r[j]["id"].i
  {
    var ids := SortedIds(m.Keys);
    assert forall i :: 0 <= i < |ids| ==> ids[i] in m;
    var r := Listed(m, ids);
    assert |m.Keys| == |m|;
    r
  }

  /** The listing holds every row of the table. */
  lemma ListingComplete(m: map<int, Record>, k: int)
    requires KeyedById(m) && k in m
    ensures exists i :: 0 <= i < |Listing(m)| && Listing(m)[i] == m[k]
  {
    var ids := SortedIds(m.Keys);
    assert k in ids;
    var i :| 0 <= i < |ids| && ids[i] == k;
    assert Listing(m)[i] == m[k];
  }

  /**
   * The row an INSERT of `body` creates under `id`: the body's values in
   * its columns, the DEFAULT in every other column.
   */
  function Inserted(columns: map<string, Value>, body: Record, id: int): (row: Record)
    ensures row.Keys == columns.Keys + body.Keys + {"id"}
    ensures row["id"] == Int(id)
    ensures forall c :: c in body && c != "id" ==> row[c] == body[c]
    ensures forall c :: c in columns && c !in body && c != "id" ==> row[c] == columns[c]
  {
    (columns + body)["id" := Int(id)]
  }

  /** The row an UPDATE with SET list `body` leaves: the body's values where named, the old ones elsewhere. */
  function Updated(row: Record, body: Record): (r: Record)
    ensures r.Keys == row.Keys + body.Keys
    ensures forall c :: c in body ==> r[c] == body[c]
    ensures forall c :: c in row && c !in body ==> r[c] == row[c]
  {
    row + body
  }

  /** The largest id of a non-empty set: the last of the ascending ids. */
  function Largest(s: set<int>): (m: int)
    requires s != {}
    ensures m in s && forall x :: x in s ==> x <= m
  {
    var ids := SortedIds(s);
    var m := ids[|ids| - 1];
    forall x | x in s ensures x <= m {
      var i :| 0 <= i < |ids| && ids[i] == x;
      assert i < |ids| - 1 ==> ids[i] < m;
    }
    m
  }

  /**
   * The rowid AUTOINCREMENT chooses: one more than the largest id present
   * (1 for an empty table), raised to one more than `seq`, the largest id
   * ever inserted, when that is higher. It is the least id above both.
   */
  function AutoId(keys: set<int>, sequence: int): (id: int)
    ensures id > sequence && forall k :: k in keys ==> id > k
    ensures id == sequence + 1 || (keys == {} && id == 1) || id - 1 in keys
  {
    var fromTable := if keys == {} then 1 else Largest(keys) + 1;
    if fromTable < sequence + 1 then sequence + 1 else fromTable
  }

  /**
   * The id a successful INSERT gives its row: an integer `id` in the body
   * is taken as is, a missing or NULL one lets AUTOINCREMENT choose, any
   * other value is a datatype mismatch.
   */
  function InsertId(body: Record, keys: set<int>, sequence: int): (r: Option<int>)
    ensures ("id" !in body || body["id"] == Null) ==> r == Some(AutoId(keys, sequence)) && r.value !in keys && r.value > sequence
    ensures r.Some? ==> ("id" in body && body["id"] != Null ==> body["id"] == Int(r.value))
    ensures r.None? <==> "id" in body && body["id"].Text?
  {
    if "id" !in body then Some(AutoId(keys, sequence))
    else match body["id"]
      case Null => Some(AutoId(keys, sequence))
      case Int(k) => Some(k)
      case Text(_) => None
  }

  /** The largest id ever inserted after an INSERT under `id`: `sqlite_sequence` keeps the larger. */
  function SequenceAfterInsert(sequence: int, id: int): (r: int)
    ensures r >= sequence && r >= id && (r == sequence || r == id)
  {
    if sequence < id then id else sequence
  }

  /** Every row is keyed by its own id and has exactly the table's columns. */
  ghost predicate TableShape(columns: map<string, Value>, rows: map<int, Record>) {
    && "id" !in columns
    && KeyedById(rows)
    && forall k :: k in rows ==>
         && rows[k].Keys == columns.Keys + {"id"}
         && rows[k]["id"] == Int(k)
  }

  /** Inserting a row with the table's columns under its own id keeps the table's shape. */
  lemma InsertKeepsShape(columns: map<string, Value>, rows: map<int, Record>, id: int, row: Record)
    requires TableShape(columns, rows)
    requires row.Keys == columns.Keys + {"id"} && row["id"] == Int(id)
    ensures TableShape(columns, rows[id := row])
  {
  }

  class CrudController {
    const tableName: string
    /** Every column but `id`, with its DEFAULT (Null when it has none). */
    const columns: map<string, Value>
    var rows: map<int, Record>
    /**
     * The table's `sqlite_sequence` entry: the largest id any INSERT has
     * given a row (0 before the first). An UPDATE that changes an id does
     * not touch it.
     */
    var sequence: int

    /** Every row is keyed by its own id and has exactly the table's columns. */
    ghost predicate Valid()
      reads this
    {
      TableShape(columns, rows)
    }

    function NotFound(): string
      reads this
    {
      tableName + " not found"
    }

    /** The table named `tableName`, holding `initial`. */
    constructor (tableName: string, columns: map<string, Value>, initial: map<int, Record>, sequence: int)
      requires "id" !in columns
      requires forall k :: k in initial ==>
                 initial[k].Keys == columns.Keys + {"id"} && initial[k]["id"] == Int(k)
      ensures Valid()
      ensures this.tableName == tableName && this.columns == columns && rows == initial && this.sequence == sequence
    {
      this.tableName := tableName;
      this.columns := columns;
      rows := initial;
      this.sequence := sequence;
    }

    /** GET /: the whole table; nothing changes. */
    function Index(): (resp: CrudResponse)
      requires Valid()
      reads this
      ensures resp.status == 200 && resp.body.Rows? && |resp.body.rows| == |rows|
      ensures forall i :: 0 <= i < |resp.body.rows| ==> resp.body.rows[i] in rows.Values
      ensures forall k :: k in rows ==> rows[k] in resp.body.rows
    {
      var listing := Listing(rows);
      assert forall k :: k in rows ==> rows[k] in listing by {
        forall k | k in rows ensures rows[k] in listing {
          ListingComplete(rows, k);
        }
      }
      CrudResponse(200, Rows(listing))
    }

    /** GET /:id: the row with that id, or 404 "<table> not found". */
    function Show(id: int): (resp: CrudResponse)
      requires Valid()
      reads this
      ensures resp.status == 200 <==> id in rows
      ensures resp.status == 200 ==> resp.body.Row? && resp.body.row == rows[id] && resp.body.row["id"] == Int(id)
      ensures resp.status != 200 ==> resp == CrudResponse(404, Message(NotFound()))
    {
      if id in rows then CrudResponse(200, Row(rows[id])) else CrudResponse(404, Message(NotFound()))
    }

    /**
     * POST /: an empty body is 400. Otherwise the row is inserted with the
     * body's values, the defaults elsewhere and its new id, and answered 201
     * as re-read; a key that is no column, a taken or mistyped id, or a
     * constraint the database rejects is 500 and inserts nothing.
     */
    method Store(body: Record, accepted: bool) returns (resp: CrudResponse)
      requires Valid()
      modifies this
      ensures Valid()
      ensures |body| == 0 ==> resp == CrudResponse(400, Error(EMPTY_BODY))
      ensures resp.status == 201 <==>
                |body| > 0 && body.Keys <= columns.Keys + {"id"} && accepted
                && InsertId(body, old(rows).Keys, old(sequence)).Some? && InsertId(body, old(rows).Keys, old(sequence)).value !in old(rows)
      ensures resp.status != 201 ==> rows == old(rows) && sequence == old(sequence)
      ensures resp.status != 201 && |body| > 0 ==> resp == CrudResponse(500, Error(CREATE_FAILED))
      ensures resp.status == 201 ==>
                var id := InsertId(body, old(rows).Keys, old(sequence)).value;
                id !in old(rows) && id in rows && rows == old(rows)[id := rows[id]]
      ensures resp.status == 201 ==>
                var id := InsertId(body, old(rows).Keys, old(sequence)).value;
                && rows[id]["id"] == Int(id)
                && (forall c :: c in body && c != "id" ==> rows[id][c] == body[c])
                && (forall c :: c in columns && c !in body ==> rows[id][c] == columns[c])
      ensures resp.status == 201 ==>
                var id := InsertId(body, old(rows).Keys, old(sequence)).value;
                resp.body == Row(rows[id]) && Show(id) == CrudResponse(200, resp.body)
      ensures resp.status == 201 ==>
                var id := InsertId(body, old(rows).Keys, old(sequence)).value;
                sequence == SequenceAfterInsert(old(sequence), id)
    {
      if |body| == 0 {
        return CrudResponse(400, Error(EMPTY_BODY));
      }
      var id := InsertId(body, rows.Keys, sequence);
      if !(body.Keys <= columns.Keys + {"id"}) || id.None? || id.value in rows || !accepted {
        return CrudResponse(500, Error(CREATE_FAILED));
      }
      var row := Inserted(columns, body, id.value);
      InsertKeepsShape(columns, rows, id.value, row);
      rows := rows[id.value := row];
      sequence := SequenceAfterInsert(sequence, id.value);
      resp := CrudResponse(201, Row(row));
      assert rows[id.value] == row;
    }

    /**
     * PUT or PATCH /:id: 404 for an absent row. Otherwise the body's columns
     * are overwritten and everything else is kept; the answer is the row
     * re-read under the requested id (none, if the body moved it to another
     * id). An empty body, a key that is no column, a taken or non-integer
     * new id, or a rejected constraint is 500 and changes nothing.
     */
    method Update(id: int, body: Record, accepted: bool) returns (resp: CrudResponse)
      requires Valid()
      modifies this
      ensures Valid()
      ensures id !in old(rows) ==> resp == CrudResponse(404, Message(NotFound())) && rows == old(rows)
      ensures sequence == old(sequence)
      ensures resp.status != 200 ==> rows == old(rows)
      ensures id in old(rows) && resp.status != 200 ==> resp == CrudResponse(500, Error(UPDATE_FAILED))
      ensures id in old(rows) && (|body| == 0 || !(body.Keys <= columns.Keys + {"id"})) ==>
                resp == CrudResponse(500, Error(UPDATE_FAILED))
      ensures resp.status == 200 && "id" !in body ==>
                && rows.Keys == old(rows).Keys
                && (forall k :: k in rows && k != id ==> rows[k] == old(rows)[k])
                && (forall c :: c in body ==> rows[id][c] == body[c])
                && (forall c :: c in old(rows)[id] && c !in body ==> rows[id][c] == old(rows)[id][c])
                && resp.body == Row(rows[id])
                && Show(id) == CrudResponse(200, resp.body)
      ensures resp.status == 200 && "id" in body && body["id"].Int? ==>
                var target := body["id"].i;
                && rows == (old(rows) - {id})[target := old(rows)[id] + body]
                && resp.body == (if target == id then Row(rows[id]) else NoRow)
      ensures resp.status == 200 <==>
                id in old(rows) && |body| > 0 && body.Keys <= columns.Keys + {"id"} && accepted
                && ("id" in body ==> body["id"].Int? && (body["id"].i == id || body["id"].i !in old(rows)))
    {
      if id !in rows {
        return CrudResponse(404, Message(NotFound()));
      }
      if |body| == 0 || !(body.Keys <= columns.Keys + {"id"}) {
        return CrudResponse(500, Error(UPDATE_FAILED));
      }
      var target := id;
      if "id" in body {
        if !body["id"].Int? || (body["id"].i != id && body["id"].i in rows) {
          return CrudResponse(500, Error(UPDATE_FAILED));
        }
        target := body["id"].i;
      }
      if !accepted {
        return CrudResponse(500, Error(UPDATE_FAILED));
      }
      var row := Updated(rows[id], body);
      rows := (rows - {id})[target := row];
      if id in rows {
        resp := CrudResponse(200, Row(rows[id]));
      } else {
        resp := CrudResponse(200, NoRow);
      }
    }

    /** DELETE /:id: 404 for an absent row; otherwise only that row goes. */
    method Destroy(id: int) returns (resp: CrudResponse)
      requires Valid()
      modifies this
      ensures Valid() && sequence == old(sequence)
      ensures id !in old(rows) ==> resp == CrudResponse(404, Message(NotFound())) && rows == old(rows)
      ensures id in old(rows) ==>
                && rows.Keys == old(rows).Keys - {id}
                && (forall k :: k in rows ==> rows[k] == old(rows)[k])
                && resp == CrudResponse(200, Message(tableName + " deleted successfully"))
                && Show(id) == CrudResponse(404, Message(NotFound()))
    {
      if id !in rows {
        return CrudResponse(404, Message(NotFound()));
      }
      rows := rows - {id};
      resp := CrudResponse(200, Message(tableName + " deleted successfully"));
    }
  }
}
