# Curriculum push queue: a verified model of its controller

The system keeps a queue of scheduled course pushes. Each entry names a
course and the slot it occupies: the week of the term (`period`), the day of
the week (`week`) and the class section (`section`). This triple is the
entry's time key. A Spring controller exposes five operations on the queue:

- list all
- list upcoming
- batch delete
- add, which first checks the time slot
- update by id

Each mutating operation opens a transaction and runs its checks and store
calls. Then it either commits or rolls back.

The model is written in Dafny and is split into these modules:

- `Wrappers`: `Option`, which stands in for a nullable reference.
- `JavaText`: Java's decimal printing of an `int` and `List.toString()`. The
  controller's messages are built from these. It also proves that an id's
  printed text determines the id.
- `Curriculum`: the entry and its time key, and the queue invariant "no two
  entries share a time key". It proves how adding and updating affect that
  invariant. It also defines the full-table listing (ascending id order) and
  the "upcoming" filter.
- `Envelope`: the result envelope returned to callers, with status,
  message, optional description and optional named data.
- `RecordStore`: class `Store`. Its fields are:
  - the rows, keyed by id
  - the auto-increment counter
  - the snapshot taken when a transaction begins
  - a transaction flag
  - a ghost log of every mutating call

  `Begin`, `Commit` and `Rollback` form the transaction boundary; `Rollback`
  restores the snapshot. The primitives are get-all, get-upcoming,
  get-by-id, get-by-time-key, insert, update and delete-by-id. The two list
  reads may fail to produce a list (null), and insert, update and delete may
  refuse, each nondeterministically, so every failure and rollback path is
  verified. Get-by-id and get-by-time-key always answer from the current
  rows. An update or delete that matches no row always reports `false`, as a
  "rows affected > 0" boolean does.
- `Controller`: class `CurriculumDataController` with the five operations.
  Batch delete keeps its two phases: an existence check over the whole list,
  then deletion in input order. Alongside it are the functions that say what
  the phases compute: `MissingIds`, `MissingRecords` and `DeleteCalls`.

The clock-derived `(period, week)` pair used by "list upcoming" is a
parameter of that operation.

## Model

| member | source | states |
|---|---|---|
| `Controller.CurriculumDataController.QueryAllCurriculumData` | src/main/java/com/enterprise/controller/data/CurriculumDataController.java:60-71 | The result is either the "load failed" failure or a success. A success carries the payload `curriculumDataList`, which holds exactly the stored entries, each once (the length equals the number of rows). |
| `Controller.CurriculumDataController.QueryAllIsRepeatable` | src/main/java/com/enterprise/controller/data/CurriculumDataController.java:60-71 | If nothing changes in between, two list-all calls that both load return the same result. That result holds exactly the stored entries. |
| `Controller.CurriculumDataController.GetAllNowCurriculumData` | src/main/java/com/enterprise/controller/data/CurriculumDataController.java:98-113 | The result is either the "load failed" failure or a success. A success lists exactly the stored entries whose (period, week) is not before the given pair. |
| `Controller.CurriculumDataController.DeleteCurriculumData` | src/main/java/com/enterprise/controller/data/CurriculumDataController.java:115-156 | If any id is missing, nothing changes and no delete is called. The description then lists every missing id in input order. If all ids exist, there are two outcomes. (1) Every listed id is removed, all other rows are unchanged, and the count reported is the list's size; this is only possible when the list has no repeats. (2) At the first refused position k, deletes were called for exactly ids[0..k]. The rollback restores the rows as they were before the call, including rows deleted earlier in the loop. |
| `Controller.CurriculumDataController.CheckAllExist` | src/main/java/com/enterprise/controller/data/CurriculumDataController.java:125-130 | Phase one returns one "does not exist, refresh" line per missing id, in input order. The list is empty exactly when no id is missing. |
| `Controller.CurriculumDataController.DeleteInOrder` | src/main/java/com/enterprise/controller/data/CurriculumDataController.java:139-148 | Phase two deletes in input order and stops at the first refusal, which it reports by position k. The deletes of ids[..k] all succeeded: those ids had no repeats and exactly they are gone. No id after k is attempted. On completion the ids had no repeats and none of them remains. |
| `Controller.CurriculumDataController.AddCurriculumData` | src/main/java/com/enterprise/controller/data/CurriculumDataController.java:166-199 | If the slot is occupied, the result is a time-conflict failure, no insert is called and nothing changes. If the slot is free, exactly one insert is called. Either the queue grows by one entry, which is then the only holder of that slot, or nothing changes and the result has status success with a failure message. Status is failure iff the slot was taken. The operation preserves unique time keys. |
| `Controller.CurriculumDataController.UpdateCurriculumData` | src/main/java/com/enterprise/controller/data/CurriculumDataController.java:209-240 | If the id has no row, no update is called, nothing changes and the result is a not-found failure. Otherwise exactly one update is called. On success the row under that id is replaced, with no time-key check. On failure nothing changes. |
| `Controller.MissingIdsMembers` | src/main/java/com/enterprise/controller/data/CurriculumDataController.java:125-130 | An id is reported iff it occurs in the list and has no row. |
| `Controller.MissingIdsConcat` | src/main/java/com/enterprise/controller/data/CurriculumDataController.java:125-130 | Missing ids are reported in input order: the report for a + b is the report for a followed by the report for b. |
| `Controller.MissingIdsMultiplicity` | src/main/java/com/enterprise/controller/data/CurriculumDataController.java:125-130 | A missing id is reported as many times as it occurs in the list. A present id is never reported. |
| `Controller.MissingRecordsSnoc` | src/main/java/com/enterprise/controller/data/CurriculumDataController.java:126-129 | The failure lines follow the missing ids: the line for a further missing id goes after the lines for the earlier ones. |
| `Controller.DeleteCalls` | src/main/java/com/enterprise/controller/data/CurriculumDataController.java:139-140 | There is one delete call per id, at the same position, in input order. |
| `Curriculum.AddKeepsUniqueTimeKeys` | src/main/java/com/enterprise/controller/data/CurriculumDataController.java:173-191 | Storing an entry under a fresh id keeps time keys unique iff they were unique before and the entry's slot was free. |
| `Curriculum.AddFillsFreeSlot` | src/main/java/com/enterprise/controller/data/CurriculumDataController.java:184-191 | Inserting into a free slot grows the table by one. Afterwards exactly the new entry holds that slot. |
| `Curriculum.UpdateKeepsUniqueTimeKeys` | src/main/java/com/enterprise/controller/data/CurriculumDataController.java:225-233 | Replacing the row under an id keeps unique time keys iff no other entry holds the new slot. |
| `Curriculum.UpdateCanDuplicateTimeKey` | src/main/java/com/enterprise/controller/data/CurriculumDataController.java:225-233 | Some table with unique time keys and some update of one of its rows give two entries the same slot. |
| `Curriculum.ListingIsTable` | src/main/java/com/enterprise/controller/data/CurriculumDataController.java:63 | A full-table read holds exactly the stored entries, none twice, by ascending id. |
| `Curriculum.AscendingIds` | src/main/java/com/enterprise/controller/data/CurriculumDataController.java:63 | The ids are listed in ascending order, each once, and all of them. |
| `Curriculum.UpcomingRowsNarrow` | src/main/java/com/enterprise/controller/data/CurriculumDataController.java:106 | The upcoming part of a table is a sub-map of it, filed under the same ids; moving the (period, week) pair later never adds an id. |
| `RecordStore.Store.QueryAll` | src/main/java/com/enterprise/controller/data/CurriculumDataController.java:63 | A full read yields no list (null) or the full listing. |
| `RecordStore.Store.QueryUpcoming` | src/main/java/com/enterprise/controller/data/CurriculumDataController.java:106 | An upcoming read yields no list (null) or the listing of the upcoming rows. |
| `RecordStore.Store.QueryById` | src/main/java/com/enterprise/controller/data/CurriculumDataController.java:126 | The lookup returns a row iff one is stored under the id, and it returns that row. |
| `RecordStore.Store.QueryByTime` | src/main/java/com/enterprise/controller/data/CurriculumDataController.java:173 | The lookup returns an entry iff the slot is taken, and the entry it returns is a stored entry in that slot. |
| `RecordStore.Store.Insert` | src/main/java/com/enterprise/controller/data/CurriculumDataController.java:184 | The call is logged. On success the entry is stored under the next auto-increment id. On refusal nothing changes. |
| `RecordStore.Store.Update` | src/main/java/com/enterprise/controller/data/CurriculumDataController.java:225 | The call is logged. Success means the id had a row, which is now the entry. On refusal nothing changes. |
| `RecordStore.Store.DeleteById` | src/main/java/com/enterprise/controller/data/CurriculumDataController.java:140 | The call is logged. Success means the id had a row, which is now gone. On refusal nothing changes. |
| `RecordStore.Store.Begin` | src/main/java/com/enterprise/controller/data/CurriculumDataController.java:119 | Opening a transaction snapshots the current rows. |
| `RecordStore.Store.Commit` | src/main/java/com/enterprise/controller/data/CurriculumDataController.java:153 | Committing closes the transaction and keeps every change. |
| `RecordStore.Store.Rollback` | src/main/java/com/enterprise/controller/data/CurriculumDataController.java:135 | Rolling back closes the transaction and restores the rows snapshotted at its start. |
| `JavaText.IntDecimalRoundTrip` | src/main/java/com/enterprise/controller/data/CurriculumDataController.java:145 | An id's decimal text, as concatenated into a message, reads back as that id. Distinct ids therefore print differently. |
| `JavaText.ListText` | src/main/java/com/enterprise/controller/data/CurriculumDataController.java:136 | `List.toString()` is bracketed; an empty list prints as `[]` and a one-item list as `[item]`. |
| `JavaText.ListTextSnoc` | src/main/java/com/enterprise/controller/data/CurriculumDataController.java:136 | Printing a list with one more item gives the earlier text with `, item` inserted before the closing bracket, so the items appear in order, separated by `, `. |
| `Controller.DeleteRefusedNamesId` | src/main/java/com/enterprise/controller/data/CurriculumDataController.java:145 | Two refused-delete envelopes are equal only for the same id: the description identifies the refused id. |

## Left out

- `resetCurriculumData` (lines 80-89) delegates to `CurriculumDataUtil`, which is not part of this model.
- `DateUtil.getW` and `DateUtil.getPeriod` are not modelled. Their results are the `period` and `week` parameters of `GetAllNowCurriculumData`.
- The SQL behind the service queries is not part of this model. Five behaviours are assumed:
  - The full listing comes in ascending id order.
  - "Upcoming" means (period, week) is not before the given pair in lexicographic order; the section is not compared.
  - An update or delete that matches no row returns `false`.
  - An insert ignores the id the entry carries; the row gets the next auto-increment id.
  - An update overwrites the whole row, time key included. `Curriculum.UpdateCanDuplicateTimeKey` depends on this; an update that set only some columns would behave differently.
- Exceptions the store might throw are not modelled; every store failure is a `false` or null result. For example, a time-key lookup matching several rows would fail in a `selectOne` mapper, but here it returns one of them.
- `LogUtil` logging is not modelled. The `record` list in the delete operation only feeds the log, so it is left out too.
- `RecordStore.Store.Rollback`: only the rows are restored. Spring's transaction manager (propagation, isolation, connection handling) is not modelled, and the auto-increment counter is not rewound, as in MySQL.
- `Controller.CurriculumDataController.DeleteInOrder` reports the refused position, and the caller then rolls back. The source rolls back inside its second loop; the effect on the store and the result are the same.
- Null elements in the id list, a null entry id and a null course name are not modelled, because Dafny values cannot be null. In the source the first two raise a `NullPointerException` and the last prints as "null".
- Ids are unbounded integers. The source's ids are 32-bit `int`s, but the model does no arithmetic on them; `size()` is printed as is.
- Concurrency, including the race between the slot check and the insert in add, is not modelled.
- The `Result` class is not part of this model. Only status, message, description and named data are kept.
- An insert failure is answered with status success and a failure message (line 197); the model keeps this.
- The slot check of add runs inside the transaction, which is rolled back on a conflict (lines 170-180); the model keeps this order.
