# Review ORM model

This project models `lib/review.py`, a small active-record class `Review`
backed by an SQLite table `reviews` and a process-wide identity map
`Review.all`. The model keeps the file's imperative form:

- `Review` is a Dafny class with the fields `id`, `year`, `summary` and
  `employeeId`, and setter methods that modify one field each.
- `ReviewStore` is a class that owns three pieces of state: the table, as
  a map from row id to `Row`; the identity map `all`, from row id to the
  live `Review`; and `nextRowId`, the id that `lastrowid` reports after an
  INSERT.
- The Employee lookup used by the `employee_id` setter is a set
  `employees` of the values for which it finds a record. Every operation
  that sets `employee_id` takes this set as a parameter.

The Python values passed to the setters are the datatype `Validation.Value`.
`Int` is the exact `int` type only, so `True` (a `bool`) is a separate case
and is refused by the year check. `str.strip()` is modelled with the full set
of characters for which `str.isspace()` holds.

Three invariants appear in many contracts:

- `ReviewStore.Valid`: the allocator is ahead of every row id.
- `ReviewStore.Coherent`: every cached instance carries the id it is cached
  under, and every cached id has a row.
- `ReviewStore.AllValid`: every cached instance holds a year and summary its
  setters accepted (`Review.Valid`). The setters keep `Review.Valid`, and so
  every operation that hydrates, saves or evicts instances keeps `AllValid`.

Not every call sequence keeps `Coherent`. Saving an already-saved instance
breaks it, and so does hydrating a row id that is not in the table.
Contracts therefore say when each operation preserves it.

In three places the code does something a reader might not expect, and the
model follows the code:

- `instance_from_db` refreshes a cached instance by running the three
  setters in turn. It is not atomic: a setter that raises leaves the earlier
  assignments in place (`Refresh`, `Rehydrate`).
- `update` on an instance with no id, or with a deleted id, runs an UPDATE
  that matches no row. It is a no-op, not an error (`Update`).
- `delete` runs the DELETE before `del Review.all[self.id]`. On an instance
  whose id is not cached, the row is gone anyway, then `KeyError` is raised
  and `id` stays as it was (`Delete`).

## Model

| member | source | states |
|---|---|---|
| Validation.TrimStartIsSuffix | lib/review.py:55 | `lstrip` returns the suffix of its input that starts at the first non-whitespace character; everything it cuts is whitespace |
| Validation.TrimEndIsPrefix | lib/review.py:55 | `rstrip` returns the prefix of its input that ends at the last non-whitespace character; everything it cuts is whitespace |
| Validation.StripBlankIff | lib/review.py:55 | `s.strip()` is empty exactly when every character of `s` is whitespace; otherwise it starts and ends with a non-whitespace character |
| Validation.YearAccepted | lib/review.py:45 | the year check passes exactly for an exact `int` of at least 2000; a bool, a str or any other object raises the year error |
| Validation.SummaryAccepted | lib/review.py:55-56 | the summary check passes exactly for a `str` with a non-whitespace character; anything else raises the summary error |
| Validation.CheckFields | lib/review.py:8-12 | the setters, run in `__init__` order, succeed exactly when all three checks pass, and then keep the values unchanged; otherwise the result is the error of the first check that fails |
| Validation.StoredFieldsRevalidate | lib/review.py:96-103 | attributes a live review holds pass the checks again when read back from their stored row; only a vanished employee can make them fail |
| ReviewOrm.ListedRowsCoverTable | lib/review.py:116-117 | when the retrieved ids cover the table, "every retrieved row passes" is the same as "every stored row passes" |
| ReviewOrm.Review.constructor | lib/review.py:8-12 | an object built from accepted attributes holds exactly them and the given id |
| ReviewOrm.Review.New | lib/review.py:8-12 | construction returns a new, valid instance with the given id and the checked attributes when all setters accept, and the first setter's error otherwise |
| ReviewOrm.Review.SetYear | lib/review.py:43-47 | the result is the year check; on success `year` becomes the value, on failure it is unchanged; nothing else is written |
| ReviewOrm.Review.SetSummary | lib/review.py:53-57 | the result is the summary check; on success `summary` becomes the string, on failure it is unchanged; nothing else is written |
| ReviewOrm.Review.SetEmployeeId | lib/review.py:63-68 | the result is the Employee lookup; on success `employee_id` becomes the value, on failure it is unchanged; nothing else is written |
| ReviewOrm.Review.Refresh | lib/review.py:98-100 | the refresh succeeds exactly when the row passes and then holds the row's values; a failing setter leaves the assignments of the setters before it in place; a valid instance stays valid |
| ReviewOrm.Review.Save | lib/review.py:74-84 | the table gains the current attributes under a fresh id; the instance takes that id and is cached under it; the same instance is returned; the allocator invariant holds; coherence is kept for an instance that was unsaved; the cache stays valid for a valid instance |
| ReviewOrm.Review.Update | lib/review.py:119-126 | only the row keyed by the instance's id is rewritten, with the current attributes; with no id, or no such row, the table is unchanged; the key set, the allocator invariant, coherence and cache validity are kept |
| ReviewOrm.Review.Delete | lib/review.py:128-133 | the row keyed by the id is removed; eviction succeeds exactly when the id is a cache key, and then the entry is gone and `id` is None, and under coherence the instance is no longer cached; otherwise `KeyError` with cache and id unchanged; coherence and cache validity are kept |
| ReviewOrm.ReviewStore.CachedOnce | lib/review.py:83 | under coherence no instance is cached under two ids |
| ReviewOrm.ReviewStore.constructor | lib/review.py:6 | an empty table and an empty identity map, satisfying all three invariants |
| ReviewOrm.ReviewStore.Create | lib/review.py:86-90 | on accepted values, a new instance with those attributes is saved under the next id, is cached, and is returned; on a rejected value, that setter's error is returned and nothing changes; coherence and cache validity are kept |
| ReviewOrm.ReviewStore.InstanceFromDb | lib/review.py:92-105 | success exactly when the row passes, with the row's values; a cached id gets its own instance back, refreshed in place and possibly partially; an uncached id gets a new instance with that id, cached only on success; no other cache entry changes; a returned instance is valid, a valid cached instance stays valid, and so does the cache |
| ReviewOrm.ReviewStore.Rehydrate | lib/review.py:96-100 | a refresh of the cached instance keeps its id and the same cache, with the partial-update behaviour of the setters; a valid instance stays valid |
| ReviewOrm.ReviewStore.Register | lib/review.py:101-103 | a new, valid instance with the row id, cached only when all setters accept; cache validity is kept |
| ReviewOrm.ReviewStore.FindById | lib/review.py:107-112 | None when no row has the id, with the cache and the instance cached under the id untouched; otherwise the hydrated instance, the same object when already cached and new otherwise, with the error of the first failing setter on failure; the found instance is valid, a valid cached instance stays valid even when a setter raises, and coherence and cache validity are kept |
| ReviewOrm.ReviewStore.HydrateRow | lib/review.py:117 | hydrating a stored row passes exactly when the row passes; the cache entry is then the result, the old instance if there was one; under coherence the result carries the row's id and values |
| ReviewOrm.ReviewStore.HydrateNext | lib/review.py:117 | one step of the list comprehension extends what the earlier steps established by the next row, or reports that row as failing; only that row's cache entry changes, and under coherence no instance cached under an unlisted id changes |
| ReviewOrm.ReviewStore.HydrateAll | lib/review.py:117 | on failure some listed row fails after every row before it passed; on success it has established every step for every listed row; cache entries of unlisted ids are kept, and under coherence their instances too |
| ReviewOrm.ReviewStore.CachedResultsDistinct | lib/review.py:114-117 | under coherence the cache entries for distinct ids carry those ids and are distinct objects |
| ReviewOrm.ReviewStore.GetAll | lib/review.py:114-117 | success exactly when every retrieved row passes, and on failure some row fails after every row before it passed; on success one result per row in retrieval order, each the cache entry for its id, reused when cached and new otherwise; under coherence, coherence is kept and the results are distinct and hold their rows' ids and values; entries for ids not listed are kept, and under coherence their instances are unchanged; cache validity is kept; when the ids cover the table, success is exactly every stored row passing |
| ReviewScenarios.CreateThenFind | lib/review.py:86-112 | `find_by_id` on a just-created review returns that very instance, with its attributes as created |
| ReviewScenarios.FindTwice | lib/review.py:107-112 | two lookups of one id give the same outcome, and the same object when a review is found |
| ReviewScenarios.DeleteThenFind | lib/review.py:107-133 | after deleting a persisted review its id is None, it is not cached, and looking up its old id finds nothing |
| ReviewScenarios.UpdateThenFind | lib/review.py:119-126 | after setting the year and updating, the lookup returns the same instance with the new year, failing only when its employee is gone |
| ReviewScenarios.FindKeepsValid | lib/review.py:92-112 | looking up a live, valid review keeps it valid, even when a setter raises during the refresh, and returns it when found |
| ReviewScenarios.GetAllKeepsUnlisted | lib/review.py:114-117 | `get_all` over rows that exclude a live review leaves it cached under its id with its attributes unchanged |

## Left out

- The SQL text, `CURSOR.execute` and `CONN.commit()` are not modelled (lines 76-81, 109, 116, 120-126 and 129-130). They are database I/O. The table is an in-memory map.
- `create_table` and `drop_table` are not modelled (lines 18-33). They are DDL. The store starts with an empty table, as after `create_table`.
- `__repr__` is not modelled (lines 14-15). It formats a string and has no contract.
- `Employee.find_by_id` is not part of this model (lines 2, 65). Its source is not available. It is a given set of the values it finds.
- Foreign-key enforcement, column type affinity and transactions are not modelled. A row keeps the Python values that were written to it.
- Database errors are not modelled. Connection and constraint failures, which propagate unchanged in the source, do not arise.
- ReviewOrm.Review.Save: an `int` year or employee id outside SQLite's 64-bit INTEGER range makes the INSERT raise `OverflowError` (lines 76-79). The model accepts any integer, since the table is a map of unbounded values.
- ReviewOrm.Review.Update: the UPDATE raises `OverflowError` in the same way for an `int` outside the 64-bit range (lines 120-124); the model accepts any integer.
- ReviewOrm.ReviewStore.FindById: the SELECT raises `OverflowError` for an id outside the 64-bit range (line 109); the model returns None for it, as for any id with no row.
- `lastrowid` is a counter that never hands out an id twice. SQLite may reuse the largest id after the row holding it is deleted; this model does not.
- The retrieval order of `SELECT * FROM reviews` is not modelled. `GetAll` takes the list of row ids as a parameter.
- ReviewOrm.ReviewStore.GetAll: the ids it takes must be distinct ids of stored rows. That they cover the table is not a precondition; when they do, its contract says success means every stored row passes.
- ReviewOrm.ReviewStore.GetAll: on failure it states that a row fails after all rows before it passed, plus coherence, cache validity and the frame on unlisted ids. It does not say that the rows before the failing one stay hydrated, nor that the error is that row's setter error.
- ReviewOrm.ReviewStore.HydrateAll: on failure it states the same as `GetAll`, and does not say which rows before the failing one were hydrated.
- ReviewOrm.ReviewStore.FindById: on failure of a cached row it does not restate the partial refresh; `InstanceFromDb` states it.
- ReviewScenarios.UpdateThenFind: the instance's fields are stated only when the lookup succeeds.
- The getters are field reads. `Review.Attributes` returns the three attributes.
- `id` is `Option<int>`, as the source only ever stores `None` or a row id in it. `find_by_id` takes an `int`.
- `Review.all` is process-global in the source. Here it is a field of an explicit store object.
