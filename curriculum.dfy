/**
 * The curriculum push-queue entity, its time key, and the properties of a
 * keyed collection of entries that the controller's operations are stated in.
 */
module Curriculum {

  /** One queued course push (the CurriculumData record). */
  datatype Entry = Entry(
    id: int,
    courseName: string,
    period: int,   // week of the academic term (curriculumPeriod)
    week: int,     // day of the week (curriculumWeek)
    section: int,  // class section within the day (curriculumSection)
    details: string // every other descriptive column; opaque to the controller
  )

  /** The (period, week, section) slot an entry occupies: the only conflict axis. */
  datatype TimeKey = TimeKey(period: int, week: int, section: int)

  function KeyOf(e: Entry): TimeKey {
    TimeKey(e.period, e.week, e.section)
  }

  /** The stored table: each id maps to the row stored under it. */
  type Rows = map<int, Entry>

  /** Every row is filed under its own id. */
  ghost predicate WellKeyed(rows: Rows) {
    forall id :: id in rows ==> rows[id].id == id
  }

  /** Some stored entry already occupies the slot `key`. */
  predicate SlotTaken(rows: Rows, key: TimeKey) {
    exists id :: id in rows && KeyOf(rows[id]) == key
  }

  /** The queue invariant: no two entries share a time key. */
  ghost predicate UniqueTimeKeys(rows: Rows) {
    forall i, j :: i in rows && j in rows && i != j ==> KeyOf(rows[i]) != KeyOf(rows[j])
  }

  /**
   * Adding an entry under a fresh id keeps the time keys unique exactly when
   * they were unique before and the new entry's slot was free.
   */
  lemma AddKeepsUniqueTimeKeys(rows: Rows, newId: int, e: Entry)
    requires newId !in rows
    ensures UniqueTimeKeys(rows[newId := e]) <==> UniqueTimeKeys(rows) && !SlotTaken(rows, KeyOf(e))
  {
    var after := rows[newId := e];
    if UniqueTimeKeys(after) {
      forall i, j | i in rows && j in rows && i != j
        ensures KeyOf(rows[i]) != KeyOf(rows[j])
      {
        assert after[i] == rows[i] && after[j] == rows[j];
      }
      forall id | id in rows
        ensures KeyOf(rows[id]) != KeyOf(e)
      {
        assert after[id] == rows[id] && after[newId] == e;
      }
    }
  }

  /**
   * Adding an entry with a free slot under a fresh id grows the table by one,
   * and afterwards exactly that one entry holds the slot.
   */
  lemma AddFillsFreeSlot(rows: Rows, newId: int, e: Entry)
    requires newId !in rows && !SlotTaken(rows, KeyOf(e))
    ensures var after := rows[newId := e];
            |after| == |rows| + 1 &&
            forall id :: id in after ==> (KeyOf(after[id]) == KeyOf(e) <==> id == newId)
  {
    var after := rows[newId := e];
    assert after.Keys == rows.Keys + {newId};
  }

  /**
   * Replacing the entry stored under `e.id` (what an update does, with no
   * time-key check) keeps the keys unique exactly when no OTHER entry holds
   * the slot of `e`.
   */
  lemma UpdateKeepsUniqueTimeKeys(rows: Rows, e: Entry)
    requires e.id in rows && UniqueTimeKeys(rows)
    ensures UniqueTimeKeys(rows[e.id := e]) <==>
            (forall j :: j in rows && j != e.id ==> KeyOf(rows[j]) != KeyOf(e))
  {
    var after := rows[e.id := e];
    if UniqueTimeKeys(after) {
      forall j | j in rows && j != e.id
        ensures KeyOf(rows[j]) != KeyOf(e)
      {
        assert after[j] == rows[j] && after[e.id] == e;
      }
    }
  }

  /**
   * An update can give two entries the same time key: two entries in
   * different slots, and an update moving the second into the first's slot.
   */
  lemma UpdateCanDuplicateTimeKey()
    ensures exists rows: Rows, e: Entry ::
              WellKeyed(rows) && UniqueTimeKeys(rows) && e.id in rows &&
              !UniqueTimeKeys(rows[e.id := e])
  {
    var a := Entry(1, "A", 1, 2, 3, "");
    var b := Entry(2, "B", 1, 2, 4, "");
    var rows := map[1 := a, 2 := b];
    var moved := b.(section := 3);
    UpdateKeepsUniqueTimeKeys(rows, moved);
    assert rows[1] == a && KeyOf(a) == KeyOf(moved);
  }

  /** The least id of a non-empty set. */
  function MinId(ids: set<int>): (m: int)
    requires ids != {}
    ensures m in ids && forall i :: i in ids ==> m <= i
  {
    assert LeastOf(ids) in ids;
    var m :| m in ids && forall i :: i in ids ==> m <= i;
    m
  }

  lemma HasElement(ids: set<int>)
    requires ids != {}
    ensures exists x :: x in ids
  {
    if forall x :: x !in ids {
      assert false;
    }
  }

  /** A least element, found by taking elements out one at a time. */
  ghost function LeastOf(ids: set<int>): (m: int)
    requires ids != {}
    ensures m in ids && forall i :: i in ids ==> m <= i
    decreases |ids|
  {
    HasElement(ids);
    var x :| x in ids;
    var rest := ids - {x};
    assert forall i :: i in ids ==> i == x || i in rest;
    if rest == {} then x
    else
      var m := LeastOf(rest);
      if x < m then x else m
  }

  /** The ids of a set in ascending order, each once. */
  function AscendingIds(ids: set<int>): (s: seq<int>)
    ensures |s| == |ids|
    ensures forall i :: i in s <==> i in ids
    ensures forall a, b :: 0 <= a < b < |s| ==> s[a] < s[b]
    decreases |ids|
  {
    if ids == {} then []
    else
      var m := MinId(ids);
      [m] + AscendingIds(ids - {m})
  }

  /** A full-table read: every stored entry once, in ascending id order (primary-key order). */
  function Listing(rows: Rows): seq<Entry>
  {
    var ids := AscendingIds(rows.Keys);
    seq(|ids|, k requires 0 <= k < |ids| => rows[ids[k]])
  }

  /** What a full-table read returns: exactly the stored entries, none twice, by ascending id. */
  lemma ListingIsTable(rows: Rows)
    requires WellKeyed(rows)
    ensures |Listing(rows)| == |rows|
    ensures forall e :: e in Listing(rows) <==> e in rows.Values
    ensures forall a, b :: 0 <= a < b < |Listing(rows)| ==> Listing(rows)[a].id < Listing(rows)[b].id
  {
    var ids := AscendingIds(rows.Keys);
    var list := Listing(rows);
    assert |list| == |ids| == |rows.Keys| == |rows|;
    forall k | 0 <= k < |list|
      ensures list[k] == rows[ids[k]] && list[k].id == ids[k]
    {
    }
    forall e
      ensures e in list <==> e in rows.Values
    {
      ListedValue(rows, e);
    }
  }

  /** One stored entry is in the full-table read, and nothing else is. */
  lemma ListedValue(rows: Rows, e: Entry)
    ensures e in Listing(rows) <==> e in rows.Values
  {
    var ids := AscendingIds(rows.Keys);
    var list := Listing(rows);
    if e in list {
      var k :| 0 <= k < |list| && list[k] == e;
      assert ids[k] in rows && rows[ids[k]] == e;
    }
    if e in rows.Values {
      StoredUnderSomeId(rows, e);
      var id :| id in rows && rows[id] == e;
      assert id in ids;
      var k :| 0 <= k < |ids| && ids[k] == id;
      assert list[k] == e;
    }
  }

  /**
   * An entry is upcoming from (period, week) when its (period, week) pair is
   * not before that one in lexicographic order; the section is not compared.
   */
  predicate IsUpcoming(e: Entry, period: int, week: int) {
    e.period > period || (e.period == period && e.week >= week)
  }

  /** The part of the table that is upcoming from (period, week). */
  function UpcomingRows(rows: Rows, period: int, week: int): Rows
  {
    map id | id in rows && IsUpcoming(rows[id], period, week) :: rows[id]
  }

  lemma StoredUnderSomeId(rows: Rows, e: Entry)
    requires e in rows.Values
    ensures exists id :: id in rows && rows[id] == e
  {
    if forall id :: id in rows ==> rows[id] != e {
      assert false;
    }
  }

  /** An entry is in the upcoming part exactly when it is stored and upcoming. */
  lemma UpcomingValue(rows: Rows, period: int, week: int, e: Entry)
    ensures e in UpcomingRows(rows, period, week).Values <==> e in rows.Values && IsUpcoming(e, period, week)
  {
    var upcoming := UpcomingRows(rows, period, week);
    if e in rows.Values && IsUpcoming(e, period, week) {
      StoredUnderSomeId(rows, e);
      var id :| id in rows && rows[id] == e;
      assert id in upcoming && upcoming[id] == e;
    }
    if e in upcoming.Values {
      var id :| id in upcoming && upcoming[id] == e;
      assert id in rows && rows[id] == e;
    }
  }

  /**
   * The upcoming part of a table is a part of it, filed the same way, and it
   * only shrinks as the (period, week) pair moves later.
   */
  lemma UpcomingRowsNarrow(rows: Rows, p1: int, w1: int, p2: int, w2: int)
    requires WellKeyed(rows)
    requires p1 < p2 || (p1 == p2 && w1 <= w2)
    ensures WellKeyed(UpcomingRows(rows, p2, w2))
    ensures forall id :: id in UpcomingRows(rows, p2, w2) ==> id in rows && UpcomingRows(rows, p2, w2)[id] == rows[id]
    ensures forall id :: id in UpcomingRows(rows, p2, w2) ==> id in UpcomingRows(rows, p1, w1)
  {
  }

}
