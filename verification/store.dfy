/** The `commands` table: an id-keyed sequence of records standing in for the SQLite table,
    with the AUTOINCREMENT counter that hands out ids. */
module Store {
  import opened Options

  /** One row: `id INTEGER PRIMARY KEY AUTOINCREMENT, tags, description, command`. */
  datatype Command = Command(id: int, tags: string, desc: string, cmd: string)

  /** The rows in storage order, and the largest id ever handed out
      (SQLite keeps it in `sqlite_sequence`; it starts at 0). */
  datatype Table = Table(rows: seq<Command>, lastId: int)

  /** The table as `init_db` leaves it on first run. */
  const Empty := Table([], 0)

  /** Ids appear in strictly ascending order: they are unique, and a scan is assumed to
      return rows in the order they were inserted (SQLite's usual rowid scan order, which
      it does not guarantee). */
  predicate AscendingIds(rows: seq<Command>) {
    forall i, j :: 0 <= i < j < |rows| ==> rows[i].id < rows[j].id
  }

  /** Every id was handed out by the counter: positive and at most `lastId`. */
  predicate Valid(t: Table) {
    && 0 <= t.lastId
    && AscendingIds(t.rows)
    && forall i :: 0 <= i < |t.rows| ==> 1 <= t.rows[i].id <= t.lastId
  }

  predicate HasId(rows: seq<Command>, cid: int) {
    exists i :: 0 <= i < |rows| && rows[i].id == cid
  }

  /** `fetch_commands` filtered on the id, taking the first match as `next(...)` does;
      `None` where `next` would raise StopIteration. */
  function Find(rows: seq<Command>, cid: int): (r: Option<Command>)
    ensures r.Some? <==> HasId(rows, cid)
    ensures r.Some? ==> r.value in rows && r.value.id == cid
  {
    if rows == [] then None
    else if rows[0].id == cid then Some(rows[0])
    else
      assert HasId(rows, cid) <==> HasId(rows[1..], cid) by {
        if HasId(rows[1..], cid) {
          var i :| 0 <= i < |rows[1..]| && rows[1..][i].id == cid;
          assert rows[i + 1].id == cid;
        }
        if HasId(rows, cid) {
          var i :| 0 <= i < |rows| && rows[i].id == cid;
          assert rows[1..][i - 1].id == cid;
        }
      }
      Find(rows[1..], cid)
  }

  /** `next(...)` returns the first row carrying the id: no earlier row carries it. */
  lemma {:induction false} FindFirst(rows: seq<Command>, cid: int)
    requires HasId(rows, cid)
    ensures exists i :: 0 <= i < |rows| && rows[i] == Find(rows, cid).value
                        && forall k :: 0 <= k < i ==> rows[k].id != cid
  {
    if rows[0].id != cid {
      FindFirst(rows[1..], cid);
      var i :| 0 <= i < |rows[1..]| && rows[1..][i] == Find(rows[1..], cid).value
               && forall k :: 0 <= k < i ==> rows[1..][k].id != cid;
      assert rows[i + 1] == Find(rows, cid).value;
      forall k | 0 <= k < i + 1 ensures rows[k].id != cid {
        if k > 0 { assert rows[k] == rows[1..][k - 1]; }
      }
    } else {
      assert rows[0] == Find(rows, cid).value;
    }
  }

  /** `insert_command`: append a row under the next counter value. */
  function Insert(t: Table, tags: string, desc: string, cmd: string): (r: Table)
    ensures |r.rows| == |t.rows| + 1 && r.rows[..|t.rows|] == t.rows
    ensures r.rows[|t.rows|].tags == tags && r.rows[|t.rows|].desc == desc && r.rows[|t.rows|].cmd == cmd
    ensures Valid(t) ==> Valid(r) && !HasId(t.rows, r.rows[|t.rows|].id)
    ensures r.lastId > t.lastId
  {
    var id := t.lastId + 1;
    Table(t.rows + [Command(id, tags, desc, cmd)], id)
  }

  /** `update_command`: every row whose id is `cid` takes the new fields; all other rows,
      the order and the counter stay as they were. */
  function Update(t: Table, cid: int, tags: string, desc: string, cmd: string): (r: Table)
    ensures r.lastId == t.lastId && |r.rows| == |t.rows|
    ensures forall i :: 0 <= i < |t.rows| && t.rows[i].id != cid ==> r.rows[i] == t.rows[i]
    ensures forall i :: 0 <= i < |t.rows| && t.rows[i].id == cid ==> r.rows[i] == Command(cid, tags, desc, cmd)
  {
    Table(UpdateRows(t.rows, cid, tags, desc, cmd), t.lastId)
  }

  function UpdateRows(rows: seq<Command>, cid: int, tags: string, desc: string, cmd: string): (r: seq<Command>)
    ensures |r| == |rows|
    ensures forall i :: 0 <= i < |rows| ==> r[i].id == rows[i].id
    ensures forall i :: 0 <= i < |rows| && rows[i].id != cid ==> r[i] == rows[i]
    ensures forall i :: 0 <= i < |rows| && rows[i].id == cid ==> r[i] == Command(cid, tags, desc, cmd)
  {
    if rows == [] then []
    else
      var head := if rows[0].id == cid then Command(cid, tags, desc, cmd) else rows[0];
      [head] + UpdateRows(rows[1..], cid, tags, desc, cmd)
  }

  /** `delete_command`: drop the rows whose id is `cid`, keeping the others in order. */
  function Delete(t: Table, cid: int): (r: Table)
    ensures r.lastId == t.lastId
    ensures !HasId(r.rows, cid)
    ensures forall c :: c in t.rows && c.id != cid ==> c in r.rows
    ensures forall c :: c in r.rows ==> c in t.rows
  {
    Table(DeleteRows(t.rows, cid), t.lastId)
  }

  function DeleteRows(rows: seq<Command>, cid: int): (r: seq<Command>)
    ensures |r| <= |rows|
    ensures forall i :: 0 <= i < |r| ==> r[i].id != cid
    ensures forall c :: c in rows && c.id != cid ==> c in r
    ensures forall c :: c in r ==> c in rows
  {
    if rows == [] then []
    else
      var rest := DeleteRows(rows[1..], cid);
      assert forall c :: c in rows ==> c == rows[0] || c in rows[1..];
      if rows[0].id == cid then rest else [rows[0]] + rest
  }

  /** Deleting rows keeps the survivors in their storage order. */
  lemma {:induction false} DeleteRowsAscending(rows: seq<Command>, cid: int)
    requires AscendingIds(rows)
    ensures AscendingIds(DeleteRows(rows, cid))
  {
    if rows != [] {
      var rest := DeleteRows(rows[1..], cid);
      DeleteRowsAscending(rows[1..], cid);
      if rows[0].id != cid {
        forall k | 0 <= k < |rest| ensures rows[0].id < rest[k].id {
          var m :| 0 <= m < |rows[1..]| && rows[1..][m] == rest[k];
          assert rows[m + 1] == rest[k];
        }
        AscendingCons(rows[0], rest);
      }
    }
  }

  /** A row with a smaller id than all of an ascending sequence may be put in front of it. */
  lemma {:induction false} AscendingCons(c: Command, rest: seq<Command>)
    requires AscendingIds(rest)
    requires forall k :: 0 <= k < |rest| ==> c.id < rest[k].id
    ensures AscendingIds([c] + rest)
  {
    var s := [c] + rest;
    forall i, j | 0 <= i < j < |s| ensures s[i].id < s[j].id {
      assert s[j] == rest[j - 1];
      if i > 0 { assert s[i] == rest[i - 1]; }
    }
  }

  /** A row stays findable under its id until it is deleted: the id is not reused. */
  lemma {:induction false} FindAfterInsert(t: Table, tags: string, desc: string, cmd: string)
    requires Valid(t)
    ensures var r := Insert(t, tags, desc, cmd);
            && Find(r.rows, r.lastId) == Some(Command(r.lastId, tags, desc, cmd))
            && forall cid :: cid != r.lastId ==> Find(r.rows, cid) == Find(t.rows, cid)
  {
    var r := Insert(t, tags, desc, cmd);
    forall cid | cid != r.lastId
      ensures Find(r.rows, cid) == Find(t.rows, cid)
    {
      FindAppend(t.rows, Command(r.lastId, tags, desc, cmd), cid);
    }
    FindAppend(t.rows, Command(r.lastId, tags, desc, cmd), r.lastId);
  }

  /** Looking up an id in rows with one more row appended at the end. */
  lemma {:induction false} FindAppend(rows: seq<Command>, c: Command, cid: int)
    ensures Find(rows + [c], cid) == if HasId(rows, cid) then Find(rows, cid)
                                     else if c.id == cid then Some(c) else None
  {
    if rows != [] {
      assert (rows + [c])[1..] == rows[1..] + [c];
      FindAppend(rows[1..], c, cid);
    }
  }

  /** After `update_command(cid, ...)` the id finds the new fields, and every other id
      finds what it found before. */
  lemma {:induction false} FindAfterUpdate(t: Table, cid: int, tags: string, desc: string, cmd: string, other: int)
    ensures Find(Update(t, cid, tags, desc, cmd).rows, cid)
            == if HasId(t.rows, cid) then Some(Command(cid, tags, desc, cmd)) else None
    ensures other != cid ==> Find(Update(t, cid, tags, desc, cmd).rows, other) == Find(t.rows, other)
  {
    FindUpdateRows(t.rows, cid, tags, desc, cmd, cid);
    FindUpdateRows(t.rows, cid, tags, desc, cmd, other);
  }

  lemma {:induction false} FindUpdateRows(rows: seq<Command>, cid: int, tags: string, desc: string, cmd: string, k: int)
    ensures Find(UpdateRows(rows, cid, tags, desc, cmd), k)
            == if k == cid then (if HasId(rows, cid) then Some(Command(cid, tags, desc, cmd)) else None)
               else Find(rows, k)
  {
    if rows != [] {
      var r := UpdateRows(rows, cid, tags, desc, cmd);
      assert r[1..] == UpdateRows(rows[1..], cid, tags, desc, cmd);
      FindUpdateRows(rows[1..], cid, tags, desc, cmd, k);
    }
  }

  /** After `delete_command(cid)` the id finds nothing, and every other id finds
      what it found before. */
  lemma {:induction false} FindAfterDelete(t: Table, cid: int, other: int)
    ensures Find(Delete(t, cid).rows, cid) == None
    ensures other != cid ==> Find(Delete(t, cid).rows, other) == Find(t.rows, other)
  {
    FindDeleteRows(t.rows, cid, other);
  }

  lemma {:induction false} FindDeleteRows(rows: seq<Command>, cid: int, k: int)
    ensures k != cid ==> Find(DeleteRows(rows, cid), k) == Find(rows, k)
  {
    if rows != [] {
      FindDeleteRows(rows[1..], cid, k);
      if rows[0].id != cid {
        assert ([rows[0]] + DeleteRows(rows[1..], cid))[1..] == DeleteRows(rows[1..], cid);
      }
    }
  }

  /** Every table operation keeps the id invariant. */
  lemma {:induction false} UpdateDeleteKeepValid(t: Table, cid: int, tags: string, desc: string, cmd: string)
    requires Valid(t)
    ensures Valid(Update(t, cid, tags, desc, cmd))
    ensures Valid(Delete(t, cid))
  {
    var d := Delete(t, cid);
    DeleteRowsAscending(t.rows, cid);
    forall i | 0 <= i < |d.rows| ensures 1 <= d.rows[i].id <= d.lastId {
      assert d.rows[i] in t.rows;
    }
  }
}
