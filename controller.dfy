/**
 * The curriculum push-queue controller: list all, list upcoming, batch
 * delete, add with a time-slot check, and update by id. Every mutating
 * operation opens a transaction on the store, runs its checks and store
 * calls, then either commits or rolls back.
 */
module Controller {
  import opened Wrappers
  import opened JavaText
  import opened Curriculum
  import opened Envelope
  import opened RecordStore

  // ----- Batch delete: what the two phases compute -----

  function IdSet(ids: seq<int>): set<int> {
    set id | id in ids
  }

  predicate NoDuplicates(ids: seq<int>) {
    forall a, b :: 0 <= a < b < |ids| ==> ids[a] != ids[b]
  }

  /** The ids in `ids` that have no row, in input order, repeats kept. */
  function MissingIds(ids: seq<int>, rows: Rows): (missing: seq<int>)
    ensures |missing| <= |ids|
  {
    if ids == [] then []
    else
      var last := ids[|ids| - 1];
      MissingIds(ids[..|ids| - 1], rows) + (if last in rows then [] else [last])
  }

  /** An id is reported exactly when it is in the list and has no row. */
  lemma {:induction false} MissingIdsMembers(ids: seq<int>, rows: Rows)
    ensures forall id :: id in MissingIds(ids, rows) <==> id in ids && id !in rows
  {
    if ids != [] {
      var init := ids[..|ids| - 1];
      assert ids == init + [ids[|ids| - 1]];
      MissingIdsMembers(init, rows);
    }
  }

  /** Reporting the missing ids of a list is reporting those of each part, one part after the other. */
  lemma {:induction false} MissingIdsConcat(a: seq<int>, b: seq<int>, rows: Rows)
    ensures MissingIds(a + b, rows) == MissingIds(a, rows) + MissingIds(b, rows)
    decreases |b|
  {
    if b == [] {
      assert a + b == a;
    } else {
      var init := b[..|b| - 1];
      assert (a + b)[..|a + b| - 1] == a + init;
      assert (a + b)[|a + b| - 1] == b[|b| - 1];
      MissingIdsConcat(a, init, rows);
    }
  }

  /** A missing id is reported as many times as it occurs; a present id never. */
  lemma {:induction false} MissingIdsMultiplicity(ids: seq<int>, rows: Rows, x: int)
    ensures multiset(MissingIds(ids, rows))[x] == if x in rows then 0 else multiset(ids)[x]
  {
    if ids != [] {
      var init := ids[..|ids| - 1];
      assert ids == init + [ids[|ids| - 1]];
      MissingIdsMultiplicity(init, rows, x);
    }
  }

  /** The delete calls made for `ids`, one per id, in order. */
  function DeleteCalls(ids: seq<int>): (calls: seq<Call>)
    ensures |calls| == |ids|
    ensures forall k :: 0 <= k < |ids| ==> calls[k] == DeleteCall(ids[k])
  {
    if ids == [] then [] else DeleteCalls(ids[..|ids| - 1]) + [DeleteCall(ids[|ids| - 1])]
  }

  /** One more step of either phase extends what the earlier steps computed. */
  lemma PrefixStep(ids: seq<int>, i: nat, rows: Rows)
    requires i < |ids|
    ensures DeleteCalls(ids[..i + 1]) == DeleteCalls(ids[..i]) + [DeleteCall(ids[i])]
    ensures MissingIds(ids[..i + 1], rows) ==
            MissingIds(ids[..i], rows) + (if ids[i] in rows then [] else [ids[i]])
    ensures IdSet(ids[..i + 1]) == IdSet(ids[..i]) + {ids[i]}
  {
    assert ids[..i + 1][..i] == ids[..i];
  }

  /** Deleting one more id, present and not yet deleted, keeps the deleted prefix free of repeats. */
  lemma DeleteStep(rows: Rows, ids: seq<int>, i: nat)
    requires i < |ids| && NoDuplicates(ids[..i])
    requires ids[i] in rows - IdSet(ids[..i])
    ensures NoDuplicates(ids[..i + 1])
    ensures (rows - IdSet(ids[..i])) - {ids[i]} == rows - IdSet(ids[..i + 1])
  {
    PrefixStep(ids, i, rows);
    var done, next := ids[..i], ids[..i + 1];
    forall a, b | 0 <= a < b < |next|
      ensures next[a] != next[b]
    {
      if b == i {
        assert next[a] == done[a] && done[a] in IdSet(done);
      } else {
        assert next[a] == done[a] && next[b] == done[b];
      }
    }
  }

  // ----- Messages and result envelopes -----

  function MissingRecordText(id: int): string {
    "ID为" + IntToDecimal(id) + "的课程推送队列数据删除失败,数据不存在，请刷新页面"
  }

  /** One failure line per missing id, in the order of `missing`. */
  function MissingRecords(missing: seq<int>): (lines: seq<string>)
    ensures |lines| == |missing|
  {
    seq(|missing|, k requires 0 <= k < |missing| => MissingRecordText(missing[k]))
  }

  /** A failure line for one more missing id goes after the earlier ones. */
  lemma MissingRecordsSnoc(missing: seq<int>, id: int)
    ensures MissingRecords(missing + [id]) == MissingRecords(missing) + [MissingRecordText(id)]
  {
    var lhs, rhs := MissingRecords(missing + [id]), MissingRecords(missing) + [MissingRecordText(id)];
    forall k | 0 <= k < |lhs|
      ensures lhs[k] == rhs[k]
    {
      if k < |missing| {
        assert (missing + [id])[k] == missing[k];
      }
    }
  }

  function LoadFailed(): Result {
    Result(Failure, "课程推送队列数据加载失败", None, None)
  }

  function Loaded(list: seq<Entry>): Result {
    Result(Success, "课程推送队列数据加载成功", None, Some(Payload("curriculumDataList", list)))
  }

  function DeleteMissingResult(failedRecord: seq<string>): Result {
    Result(Failure, "删除课程推送队列数据失败", Some(ListText(failedRecord)), None)
  }

  function DeleteRefusedResult(id: int): Result {
    Result(Failure, "删除失败", Some("序列ID为" + IntToDecimal(id) + "的课程推送队列数据删除失败"), None)
  }

  function DeletedResult(count: int): Result {
    Result(Success, "删除成功", Some(IntToDecimal(count) + "条课程推送队列数据被删除"), None)
  }

  /** A refused-delete description names its id: different ids give different envelopes. */
  lemma DeleteRefusedNamesId(a: int, b: int)
    requires DeleteRefusedResult(a) == DeleteRefusedResult(b)
    ensures a == b
  {
    var prefix, suffix := "序列ID为", "的课程推送队列数据删除失败";
    var ta, tb := IntToDecimal(a), IntToDecimal(b);
    var da := prefix + ta + suffix;
    assert da == prefix + tb + suffix;
    assert |ta| == |tb|;
    assert ta == da[|prefix|..|prefix| + |ta|];
    assert tb == (prefix + tb + suffix)[|prefix|..|prefix| + |tb|];
    IntDecimalInjective(a, b);
  }

  function TimeConflictResult(): Result {
    Result(Failure, "新增失败", Some("新增的课程推送队列数据与已有数据存在推送时间冲突"), None)
  }

  function AddedResult(courseName: string): Result {
    Result(Success, "新增课程推送队列数据成功", Some("课程名称为" + courseName + "的课程推送队列数据新增成功"), None)
  }

  /** The insert-failure envelope: a failure message under a success status, as the controller returns it. */
  function InsertRefusedResult(courseName: string): Result {
    Result(Success, "新增课程推送队列数据失败", Some("课程名称为" + courseName + "的课程推送队列数据新增失败"), None)
  }

  function UpdateMissingResult(id: int): Result {
    Result(Failure, "更新课程推送队列数据失败", Some("序列ID为" + IntToDecimal(id) + "的课程推送队列数据更新失败,数据不存在"), None)
  }

  function UpdatedResult(id: int): Result {
    Result(Success, "修改课程推送队列数据成功", Some("序列ID为 " + IntToDecimal(id) + " 的课程推送队列数据被修改"), None)
  }

  function UpdateRefusedResult(id: int): Result {
    Result(Failure, "修改课程推送队列数据失败", Some("序列ID为" + IntToDecimal(id) + "的课程推送队列数据修改失败"), None)
  }

  // ----- The controller -----

  class CurriculumDataController {
    const store: Store

    constructor (store: Store)
      ensures this.store == store
    {
      this.store := store;
    }

    /** Lists every queued entry. */
    method QueryAllCurriculumData() returns (r: Result)
      requires store.Valid()
      ensures r == LoadFailed() || r == Loaded(Listing(store.rows))
      ensures r.status == Success ==>
                r.data.Some? && r.data.value.name == "curriculumDataList" &&
                |r.data.value.entries| == |store.rows| &&
                forall e :: e in r.data.value.entries <==> e in store.rows.Values
    {
      var list := store.QueryAll();
      if list.None? {
        return LoadFailed();
      }
      ListingIsTable(store.rows);
      r := Loaded(list.value);
    }

    /**
     * Not an endpoint of the controller: a stated property of list-all.
     * With no change in between, two listings that both load agree.
     */
    method QueryAllIsRepeatable() returns (first: Result, second: Result)
      requires store.Valid()
      ensures first.status == Success && second.status == Success ==> first == second
      ensures first.status == Success ==> first.data.Some? && forall e :: e in first.data.value.entries <==> e in store.rows.Values
    {
      first := QueryAllCurriculumData();
      second := QueryAllCurriculumData();
    }

    /** Lists the entries from (period, week) on, the pair the date service gives for today. */
    method GetAllNowCurriculumData(period: int, week: int) returns (r: Result)
      requires store.Valid()
      ensures r == LoadFailed() || r == Loaded(Listing(UpcomingRows(store.rows, period, week)))
      ensures r.status == Success ==>
                r.data.Some? && r.data.value.name == "curriculumDataList" &&
                forall e :: e in r.data.value.entries <==> e in store.rows.Values && IsUpcoming(e, period, week)
    {
      var list := store.QueryUpcoming(period, week);
      if list.None? {
        return LoadFailed();
      }
      var rows := store.rows;
      var upcoming := UpcomingRows(rows, period, week);
      UpcomingRowsNarrow(rows, period, week, period, week);
      ListingIsTable(upcoming);
      forall e
        ensures e in upcoming.Values <==> e in rows.Values && IsUpcoming(e, period, week)
      {
        UpcomingValue(rows, period, week, e);
      }
      r := Loaded(list.value);
    }

    /**
     * Deletes every id of `curriculumIdList`, or none of them. Phase one
     * looks every id up and collects those that are missing; any missing id
     * aborts the batch. Phase two deletes in input order and aborts at the
     * first delete the store refuses, rolling back the deletes before it.
     */
    method DeleteCurriculumData(curriculumIdList: seq<int>) returns (r: Result)
      requires store.Valid() && !store.inTransaction
      modifies store
      ensures store.Valid() && !store.inTransaction
      ensures store.nextId == old(store.nextId)
      // some id has no row: nothing is deleted, every missing id is reported in input order
      ensures MissingIds(curriculumIdList, old(store.rows)) != [] ==>
                store.rows == old(store.rows) && store.log == old(store.log) &&
                r == DeleteMissingResult(MissingRecords(MissingIds(curriculumIdList, old(store.rows))))
      // every id has a row: either all of them are deleted, or the first refused delete undoes the batch
      ensures MissingIds(curriculumIdList, old(store.rows)) == [] ==>
                (r == DeletedResult(|curriculumIdList|) &&
                 NoDuplicates(curriculumIdList) &&
                 store.rows == old(store.rows) - IdSet(curriculumIdList) &&
                 store.log == old(store.log) + DeleteCalls(curriculumIdList)) ||
                (exists k :: 0 <= k < |curriculumIdList| &&
                   r == DeleteRefusedResult(curriculumIdList[k]) &&
                   store.rows == old(store.rows) &&
                   store.log == old(store.log) + DeleteCalls(curriculumIdList[..k + 1]))
      ensures r.status == Success ==> store.rows == old(store.rows) - IdSet(curriculumIdList)
      ensures r.status == Failure ==> store.rows == old(store.rows)
    {
      var ids := curriculumIdList;
      store.Begin();
      var failedRecord := CheckAllExist(ids);
      if |failedRecord| != 0 {
        store.Rollback();
        return DeleteMissingResult(failedRecord);
      }
      var refused := DeleteInOrder(ids);
      if refused.Some? {
        store.Rollback();
        return DeleteRefusedResult(ids[refused.value]);
      }
      store.Commit();
      r := DeletedResult(|ids|);
    }

    /** Batch delete, phase one: a failure line for each id of `ids` that has no row, in input order. */
    method CheckAllExist(ids: seq<int>) returns (failedRecord: seq<string>)
      ensures failedRecord == MissingRecords(MissingIds(ids, store.rows))
      ensures failedRecord == [] <==> MissingIds(ids, store.rows) == []
    {
      failedRecord := [];
      var i := 0;
      while i < |ids|
        invariant 0 <= i <= |ids|
        invariant failedRecord == MissingRecords(MissingIds(ids[..i], store.rows))
      {
        var found := store.QueryById(ids[i]);
        PrefixStep(ids, i, store.rows);
        if found.None? {
          MissingRecordsSnoc(MissingIds(ids[..i], store.rows), ids[i]);
          failedRecord := failedRecord + [MissingRecordText(ids[i])];
        }
        i := i + 1;
      }
      assert ids[..i] == ids;
    }

    /**
     * Batch delete, phase two: deletes the ids in input order and stops at
     * the first delete the store refuses, returning its position.
     */
    method DeleteInOrder(ids: seq<int>) returns (refused: Option<nat>)
      requires store.Valid() && store.inTransaction
      modifies store
      ensures store.Valid() && store.inTransaction
      ensures store.snapshot == old(store.snapshot) && store.nextId == old(store.nextId)
      ensures refused.None? ==>
                NoDuplicates(ids) &&
                store.rows == old(store.rows) - IdSet(ids) &&
                store.log == old(store.log) + DeleteCalls(ids)
      // a refusal at position k: the deletes of ids[..k] all went through, nothing after k was tried
      ensures refused.Some? ==>
                refused.value < |ids| &&
                NoDuplicates(ids[..refused.value]) &&
                store.rows == old(store.rows) - IdSet(ids[..refused.value]) &&
                store.log == old(store.log) + DeleteCalls(ids[..refused.value + 1])
    {
      var i := 0;
      while i < |ids|
        invariant 0 <= i <= |ids|
        invariant store.Valid() && store.inTransaction
        invariant store.snapshot == old(store.snapshot) && store.nextId == old(store.nextId)
        invariant store.rows == old(store.rows) - IdSet(ids[..i])
        invariant NoDuplicates(ids[..i])
        invariant store.log == old(store.log) + DeleteCalls(ids[..i])
      {
        ghost var before := store.rows;
        var deleted := store.DeleteById(ids[i]);
        PrefixStep(ids, i, old(store.rows));
        if !deleted {
          return Some(i);
        }
        DeleteStep(old(store.rows), ids, i);
        assert store.rows == before - {ids[i]};
        i := i + 1;
      }
      assert ids[..i] == ids;
      refused := None;
    }

    /**
     * Adds `entry` unless an entry already occupies its (period, week,
     * section) slot. A refused insert is rolled back but still answered
     * with status success.
     */
    method AddCurriculumData(entry: Entry) returns (r: Result)
      requires store.Valid() && !store.inTransaction
      modifies store
      ensures store.Valid() && !store.inTransaction
      // an occupied slot: no store call, nothing changes
      ensures SlotTaken(old(store.rows), KeyOf(entry)) ==>
                store.rows == old(store.rows) && store.log == old(store.log) && r == TimeConflictResult()
      // a free slot: one insert call; it adds exactly one entry, or changes nothing
      ensures !SlotTaken(old(store.rows), KeyOf(entry)) ==>
                store.log == old(store.log) + [InsertCall(entry)] &&
                ((r == AddedResult(entry.courseName) &&
                  old(store.nextId) !in old(store.rows) &&
                  store.rows == old(store.rows)[old(store.nextId) := entry.(id := old(store.nextId))]) ||
                 (r == InsertRefusedResult(entry.courseName) && store.rows == old(store.rows)))
      // an added entry is the only one in its slot, and the queue grew by one
      ensures r == AddedResult(entry.courseName) ==>
                |store.rows| == |old(store.rows)| + 1 &&
                forall id :: id in store.rows ==> (KeyOf(store.rows[id]) == KeyOf(entry) <==> id == old(store.nextId))
      ensures r.status == Failure <==> SlotTaken(old(store.rows), KeyOf(entry))
      ensures UniqueTimeKeys(old(store.rows)) ==> UniqueTimeKeys(store.rows)
    {
      store.Begin();
      var existing := store.QueryByTime(KeyOf(entry));
      if existing.Some? {
        store.Rollback();
        return TimeConflictResult();
      }
      ghost var before := store.rows;
      ghost var newId := store.nextId;
      var inserted := store.Insert(entry);
      if inserted {
        AddKeepsUniqueTimeKeys(before, newId, entry.(id := newId));
        AddFillsFreeSlot(before, newId, entry.(id := newId));
        store.Commit();
        return AddedResult(entry.courseName);
      }
      store.Rollback();
      r := InsertRefusedResult(entry.courseName);
    }

    /**
     * Overwrites the entry stored under `entry.id`. The new time key is not
     * checked against the other entries.
     */
    method UpdateCurriculumData(entry: Entry) returns (r: Result)
      requires store.Valid() && !store.inTransaction
      modifies store
      ensures store.Valid() && !store.inTransaction
      ensures store.nextId == old(store.nextId)
      // no row under that id: no update call, nothing changes
      ensures entry.id !in old(store.rows) ==>
                store.rows == old(store.rows) && store.log == old(store.log) &&
                r == UpdateMissingResult(entry.id)
      // a row under that id: one update call; it replaces that row, or changes nothing
      ensures entry.id in old(store.rows) ==>
                store.log == old(store.log) + [UpdateCall(entry)] &&
                ((r == UpdatedResult(entry.id) && store.rows == old(store.rows)[entry.id := entry]) ||
                 (r == UpdateRefusedResult(entry.id) && store.rows == old(store.rows)))
      // a success replaced the row whatever its new time key; a failure changed nothing
      ensures r.status == Success ==> entry.id in old(store.rows) && store.rows == old(store.rows)[entry.id := entry]
      ensures r.status == Failure ==> store.rows == old(store.rows)
    {
      store.Begin();
      var existing := store.QueryById(entry.id);
      if existing.None? {
        store.Rollback();
        return UpdateMissingResult(entry.id);
      }
      var updated := store.Update(entry);
      if updated {
        store.Commit();
        return UpdatedResult(entry.id);
      }
      store.Rollback();
      r := UpdateRefusedResult(entry.id);
    }
  }

}
