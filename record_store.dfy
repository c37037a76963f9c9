/**
 * The row store behind the controller, together with the transaction
 * boundary around it. Each primitive is independently durable; a rollback
 * puts back the rows as they were when the transaction began.
 */
module RecordStore {
  import opened Wrappers
  import opened Curriculum

  /** A mutating call made on the store, in the order it was made. */
  datatype Call = InsertCall(entry: Entry) | UpdateCall(entry: Entry) | DeleteCall(id: int)

  class Store {
    /** The stored rows, by id. */
    var rows: Rows
    /** The id the next insert is given (an auto-increment column). */
    var nextId: int
    /** The rows as they were when the open transaction began. */
    var snapshot: Rows
    var inTransaction: bool
    /** Every mutating call made so far, successful or not. */
    ghost var log: seq<Call>

    ghost predicate Valid()
      reads this
    {
      WellKeyed(rows) && WellKeyed(snapshot) &&
      (forall id :: id in rows ==> id < nextId) &&
      (forall id :: id in snapshot ==> id < nextId)
    }

    constructor ()
      ensures Valid() && !inTransaction
      ensures rows == map[] && log == []
    {
      rows := map[];
      nextId := 1;
      snapshot := map[];
      inTransaction := false;
      log := [];
    }

    /** Opens a transaction: remembers the current rows. */
    method Begin()
      requires Valid() && !inTransaction
      modifies this`snapshot, this`inTransaction
      ensures Valid() && inTransaction
      ensures snapshot == rows
    {
      snapshot := rows;
      inTransaction := true;
    }

    /** Closes the transaction, keeping every change made in it. */
    method Commit()
      requires Valid() && inTransaction
      modifies this`inTransaction
      ensures Valid() && !inTransaction
    {
      inTransaction := false;
    }

    /** Closes the transaction, undoing every change made in it. */
    method Rollback()
      requires Valid() && inTransaction
      modifies this`rows, this`inTransaction
      ensures Valid() && !inTransaction
      ensures rows == old(snapshot)
    {
      rows := snapshot;
      inTransaction := false;
    }

    /** Reads the whole table; `None` when the store cannot produce a list. */
    method QueryAll() returns (r: Option<seq<Entry>>)
      ensures r == None || r == Some(Listing(rows))
    {
      var loaded: bool :| true;
      r := if loaded then Some(Listing(rows)) else None;
    }

    /** Reads the entries upcoming from (period, week); `None` when the store cannot produce a list. */
    method QueryUpcoming(period: int, week: int) returns (r: Option<seq<Entry>>)
      ensures r == None || r == Some(Listing(UpcomingRows(rows, period, week)))
    {
      var loaded: bool :| true;
      r := if loaded then Some(Listing(UpcomingRows(rows, period, week))) else None;
    }

    /** The entry stored under `id`, or `None` (null) when there is none. */
    method QueryById(id: int) returns (r: Option<Entry>)
      ensures r.Some? <==> id in rows
      ensures r.Some? ==> r.value == rows[id]
    {
      r := if id in rows then Some(rows[id]) else None;
    }

    /** An entry occupying slot `key`, or `None` (null) when the slot is free. */
    method QueryByTime(key: TimeKey) returns (r: Option<Entry>)
      ensures r.Some? <==> SlotTaken(rows, key)
      ensures r.Some? ==> r.value in rows.Values && KeyOf(r.value) == key
    {
      if SlotTaken(rows, key) {
        var id :| id in rows && KeyOf(rows[id]) == key;
        r := Some(rows[id]);
      } else {
        r := None;
      }
    }

    /**
     * Inserts `e` under a newly assigned id (the id `e` carries is ignored).
     * The store may refuse; a refused insert changes no row.
     */
    method Insert(e: Entry) returns (ok: bool)
      requires Valid()
      modifies this`rows, this`nextId, this`log
      ensures Valid()
      ensures log == old(log) + [InsertCall(e)]
      ensures ok ==> rows == old(rows)[old(nextId) := e.(id := old(nextId))] && nextId == old(nextId) + 1
      ensures !ok ==> rows == old(rows) && nextId == old(nextId)
    {
      log := log + [InsertCall(e)];
      ok :| true;
      if ok {
        rows := rows[nextId := e.(id := nextId)];
        nextId := nextId + 1;
      }
    }

    /**
     * Overwrites the row stored under `e.id` with `e`. An update that matches
     * no row reports false; the store may also refuse one that does.
     */
    method Update(e: Entry) returns (ok: bool)
      requires Valid()
      modifies this`rows, this`log
      ensures Valid()
      ensures log == old(log) + [UpdateCall(e)]
      ensures ok ==> e.id in old(rows) && rows == old(rows)[e.id := e]
      ensures !ok ==> rows == old(rows)
    {
      log := log + [UpdateCall(e)];
      ok :| ok ==> e.id in rows;
      if ok {
        rows := rows[e.id := e];
      }
    }

    /**
     * Deletes the row stored under `id`. A delete that matches no row reports
     * false; the store may also refuse one that does.
     */
    method DeleteById(id: int) returns (ok: bool)
      requires Valid()
      modifies this`rows, this`log
      ensures Valid()
      ensures log == old(log) + [DeleteCall(id)]
      ensures ok ==> id in old(rows) && rows == old(rows) - {id}
      ensures !ok ==> rows == old(rows)
    {
      log := log + [DeleteCall(id)];
      ok :| ok ==> id in rows;
      if ok {
        rows := rows - {id};
      }
    }
  }

}
