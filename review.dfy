/**
 * The Review entity of lib/review.py and its identity map.
 *
 * The `reviews` table is the map `ReviewStore.table` from row id to row, and
 * `ReviewStore.nextRowId` hands out the id that `CURSOR.lastrowid` reports
 * after an insert. The class-level dict `Review.all` is the map
 * `ReviewStore.all` from row id to the live instance. The Employee lookup is
 * the set `employees` of values for which it finds a record, passed to every
 * operation that sets `employee_id`, so that it is consulted afresh each time.
 */
module ReviewOrm {
  import opened Validation

  /** A row of the `reviews` table without its key, as the database returns it. */
  datatype Row = Row(year: Value, summary: Value, employeeId: Value)

  /** The row an INSERT or UPDATE writes for the given attributes. */
  function RowOf(f: Fields): Row
  {
    Row(Int(f.year), Str(f.summary), f.employeeId)
  }

  /** Whether hydrating `row` gets past all three setters. */
  predicate RowOk(row: Row, employees: set<Value>)
  {
    YearOk(row.year) && SummaryOk(row.summary) && row.employeeId in employees
  }

  /** When `order` lists every stored row, a condition on the listed rows
      is the same condition on the whole table. */
  lemma ListedRowsCoverTable(table: map<int, Row>, order: seq<int>, employees: set<Value>)
    requires forall j :: 0 <= j < |order| ==> order[j] in table
    requires forall k :: k in table ==> k in order
    ensures (forall j :: 0 <= j < |order| ==> RowOk(table[order[j]], employees))
            <==> (forall k :: k in table ==> RowOk(table[k], employees))
  {
    if forall j :: 0 <= j < |order| ==> RowOk(table[order[j]], employees) {
      forall k | k in table ensures RowOk(table[k], employees) {
        var j :| 0 <= j < |order| && order[j] == k;
      }
    } else {
      var j :| 0 <= j < |order| && !RowOk(table[order[j]], employees);
      var k := order[j];
      assert k in table && !RowOk(table[k], employees);
    }
  }

  /** Row `order[i]` fails after all rows before it passed: it is the
      first listed row that fails. */
  lemma FirstFailing(order: seq<int>, i: int, employees: set<Value>, table: map<int, Row>)
    requires 0 <= i < |order| && forall j :: 0 <= j < |order| ==> order[j] in table
    requires forall l :: 0 <= l < i ==> RowOk(table[order[l]], employees)
    requires !RowOk(table[order[i]], employees)
    ensures exists j :: 0 <= j < |order| && !RowOk(table[order[j]], employees)
                        && forall l :: 0 <= l < j ==> RowOk(table[order[l]], employees)
  {
  }

  class Review {
    var id: Option<int>
    var year: int
    var summary: string
    var employeeId: Value

    /** The attributes as the three getters return them. */
    function Attributes(): Fields
      reads this
    {
      Fields(year, summary, employeeId)
    }

    /** What the year and summary setters guarantee of every instance. */
    ghost predicate Valid()
      reads this
    {
      WellFormed(Attributes())
    }

    /** The object `__init__` builds once all three setters have accepted `f`. */
    constructor (f: Fields, id: Option<int>)
      requires WellFormed(f)
      ensures Valid() && this.id == id && Attributes() == f
    {
      this.id := id;
      year, summary, employeeId := f.year, f.summary, f.employeeId;
    }

    /** `Review(year, summary, employee_id, id)`: a new, unregistered instance
        when the setters, run in order, accept every value; otherwise the
        error of the first one that raises, and no instance at all. */
    static method New(year: Value, summary: Value, employeeId: Value, id: Option<int>, employees: set<Value>)
      returns (res: Result<Review>)
      ensures match CheckFields(year, summary, employeeId, employees)
              case Failure(e) => res == Failure(e)
              case Success(f) =>
                res.Success? && fresh(res.value) && res.value.Valid()
                && res.value.id == id && res.value.Attributes() == f
    {
      match CheckFields(year, summary, employeeId, employees)
      case Failure(e) =>
        res := Failure(e);
      case Success(f) =>
        var r := new Review(f, id);
        res := Success(r);
    }

    /** The `year` setter: stores `v` when it is an exact int of at least
        2000, otherwise raises and leaves the year as it was. */
    method SetYear(v: Value) returns (o: Outcome)
      modifies this`year
      ensures o == CheckYear(v)
      ensures year == if o.Pass? then v.i else old(year)
      ensures old(Valid()) ==> Valid()
    {
      o := CheckYear(v);
      if o.Pass? {
        year := v.i;
      }
    }

    /** The `summary` setter: stores `v` when it is a string that is not
        blank, otherwise raises and leaves the summary as it was. */
    method SetSummary(v: Value) returns (o: Outcome)
      modifies this`summary
      ensures o == CheckSummary(v)
      ensures summary == if o.Pass? then v.s else old(summary)
      ensures old(Valid()) ==> Valid()
    {
      o := CheckSummary(v);
      if o.Pass? {
        summary := v.s;
      }
    }

    /** The `employee_id` setter: stores `v` when the Employee lookup finds
        it, otherwise raises and leaves the employee id as it was. */
    method SetEmployeeId(v: Value, employees: set<Value>) returns (o: Outcome)
      modifies this`employeeId
      ensures o == CheckEmployee(v, employees)
      ensures employeeId == if o.Pass? then v else old(employeeId)
      ensures old(Valid()) ==> Valid()
    {
      o := CheckEmployee(v, employees);
      if o.Pass? {
        employeeId := v;
      }
    }

    /** Lines 98-100 of `instance_from_db`: the three setters run on this
        instance one after another, and the first that raises stops the
        rest, so the assignments made before it stay in place. */
    method Refresh(row: Row, employees: set<Value>) returns (o: Outcome)
      modifies this`year, this`summary, this`employeeId
      ensures var c := CheckFields(row.year, row.summary, row.employeeId, employees);
              && (o.Pass? <==> c.Success?)
              && (o.Fail? ==> o.error == c.error)
              && (o.Pass? ==> Attributes() == c.value)
      ensures year == if YearOk(row.year) then row.year.i else old(year)
      ensures summary == if YearOk(row.year) && SummaryOk(row.summary)
                         then row.summary.s else old(summary)
      ensures employeeId == if RowOk(row, employees) then row.employeeId else old(employeeId)
      ensures old(Valid()) ==> Valid()
    {
      o := SetYear(row.year);
      if o.Fail? {
        return;
      }
      o := SetSummary(row.summary);
      if o.Fail? {
        return;
      }
      o := SetEmployeeId(row.employeeId, employees);
    }

    /** `save`: inserts the current attributes under a fresh row id, records
        that id on the instance and registers the instance under it, then
        returns the instance itself. Saving an instance that is already
        persisted inserts a second row and leaves its old cache entry behind,
        so the identity map stays coherent only for an unpersisted instance. */
    method Save(store: ReviewStore) returns (self: Review)
      requires store.Valid()
      modifies this`id, store
      ensures self == this && store.Valid()
      ensures var k := old(store.nextRowId);
              && k !in old(store.table)
              && store.table == old(store.table)[k := RowOf(Attributes())]
              && id == Some(k)
              && store.all == old(store.all)[k := this]
      ensures store.Persisted(this)
      ensures old(store.Coherent()) && old(id) == None ==> store.Coherent()
      ensures old(store.AllValid()) && Valid() ==> store.AllValid()
    {
      var k := store.nextRowId;
      store.table := store.table[k := RowOf(Attributes())];
      store.nextRowId := k + 1;
      id := Some(k);
      store.all := store.all[k := this];
      self := this;
    }

    /** `update`: rewrites the row keyed by the instance's id with its current
        attributes. An UPDATE that matches no row (no id, or a deleted one)
        changes nothing. The identity map is not touched. */
    method Update(store: ReviewStore)
      modifies store`table
      ensures store.table ==
              if id.Some? && id.value in old(store.table)
              then old(store.table)[id.value := RowOf(Attributes())]
              else old(store.table)
      ensures store.table.Keys == old(store.table.Keys)
      ensures old(store.Valid()) ==> store.Valid()
      ensures old(store.Coherent()) ==> store.Coherent()
      ensures old(store.AllValid()) ==> store.AllValid()
    {
      if id.Some? && id.value in store.table {
        store.table := store.table[id.value := RowOf(Attributes())];
      }
    }

    /** `delete`: the DELETE runs first, so the row keyed by the id is gone in
        every case. Then the id is evicted from the identity map and reset to
        None; when the id is not a cache key, `del` raises a KeyError and the
        id is kept. */
    method Delete(store: ReviewStore) returns (o: Outcome)
      modifies this`id, store`table, store`all
      ensures store.table ==
              if old(id).Some? then old(store.table) - {old(id).value} else old(store.table)
      ensures o.Pass? <==> old(id).Some? && old(id).value in old(store.all)
      ensures o.Pass? ==> store.all == old(store.all) - {old(id).value} && id == None
      ensures o.Fail? ==> o == Fail(KeyMissing) && store.all == old(store.all) && id == old(id)
      ensures old(store.Valid()) ==> store.Valid()
      ensures old(store.Coherent()) ==> store.Coherent()
      ensures old(store.Coherent()) && o.Pass? ==> this !in store.all.Values
      ensures old(store.AllValid()) ==> store.AllValid()
    {
      if id.Some? {
        store.table := store.table - {id.value};
      }
      if id.Some? && id.value in store.all {
        var k := id.value;
        store.all := store.all - {k};
        id := None;
        o := Pass;
        if old(store.Coherent()) {
          forall j | j in store.all ensures store.all[j] != this {
            assert old(store.all[j].id) == Some(j) != Some(k);
          }
        }
      } else {
        o := Fail(KeyMissing);
      }
    }
  }

  class ReviewStore {
    var table: map<int, Row>
    var all: map<int, Review>
    var nextRowId: int

    /** The id allocator is ahead of every row id, so the next insert gets a fresh one. */
    ghost predicate Valid()
      reads this
    {
      forall k :: k in table ==> k < nextRowId
    }

    /** The identity-map invariant: every cached instance carries the id it
        is cached under (so no instance is cached twice), and every cached id
        has its row. */
    ghost predicate Coherent()
      reads this, all.Values
    {
      && all.Keys <= table.Keys
      && forall k :: k in all ==> all[k].id == Some(k)
    }

    /** Every live instance holds attributes its setters accepted. */
    ghost predicate AllValid()
      reads this, all.Values
    {
      forall k :: k in all ==> all[k].Valid()
    }

    /** `r` is the live instance for its id. */
    ghost predicate Persisted(r: Review)
      reads this, r
    {
      r.id.Some? && r.id.value in all && all[r.id.value] == r
    }

    /** Under the identity-map invariant no instance is cached under two
        ids, so each id has at most one live instance and each instance at
        most one id. */
    lemma CachedOnce()
      requires Coherent()
      ensures forall j, k :: j in all && k in all && all[j] == all[k] ==> j == k
    {
    }

    /** The instance hydration may overwrite for row id `k`. */
    function Cached(k: int): set<Review>
      reads this
    {
      if k in all then {all[k]} else {}
    }

    /** An empty table and an empty identity map, as at process start. */
    constructor ()
      ensures Valid() && Coherent() && AllValid()
      ensures table == map[] && all == map[]
    {
      table, all, nextRowId := map[], map[], 1;
    }

    /** `create`: construct, then save. */
    method Create(year: Value, summary: Value, employeeId: Value, employees: set<Value>)
      returns (res: Result<Review>)
      requires Valid()
      modifies this
      ensures Valid()
      ensures match CheckFields(year, summary, employeeId, employees)
              case Failure(e) => res == Failure(e) && unchanged(this)
              case Success(f) =>
                var k := old(nextRowId);
                && res.Success? && fresh(res.value) && res.value.Valid()
                && res.value.Attributes() == f && res.value.id == Some(k)
                && k !in old(table)
                && table == old(table)[k := RowOf(f)]
                && all == old(all)[k := res.value]
      ensures old(Coherent()) ==> Coherent()
      ensures old(AllValid()) ==> AllValid()
    {
      var r := Review.New(year, summary, employeeId, None, employees);
      if r.Failure? {
        return Failure(r.error);
      }
      var saved := r.value.Save(this);
      res := Success(saved);
    }

    /** `instance_from_db`: a cached id reuses its instance and runs the
        three setters on it one after another, so a setter that raises
        leaves the earlier ones' assignments in place; an uncached id gets a
        new instance, registered only if construction succeeds. Either way
        the result is the cache entry for the id, and no other entry, no
        other instance and no row changes. */
    method InstanceFromDb(rowId: int, row: Row, employees: set<Value>) returns (res: Result<Review>)
      modifies this`all, Cached(rowId)
      ensures var c := CheckFields(row.year, row.summary, row.employeeId, employees);
              && (res.Success? <==> c.Success?)
              && (res.Failure? ==> res.error == c.error)
              && (res.Success? ==> res.value.Attributes() == c.value && RowOf(c.value) == row)
      ensures res.Success? ==> all == old(all)[rowId := res.value]
      ensures rowId in old(all) ==>
                var r := old(all)[rowId];
                && all == old(all)
                && r.id == old(r.id)
                && r.year == (if YearOk(row.year) then row.year.i else old(r.year))
                && r.summary == (if YearOk(row.year) && SummaryOk(row.summary)
                                 then row.summary.s else old(r.summary))
                && r.employeeId == (if RowOk(row, employees) then row.employeeId
                                    else old(r.employeeId))
                && (res.Success? ==> res.value == r)
      ensures rowId !in old(all) ==>
                (res.Success? ==> fresh(res.value) && res.value.id == Some(rowId))
                && (res.Failure? ==> all == old(all))
      ensures res.Success? ==> res.value.Valid()
      ensures rowId in old(all) && old(all[rowId].Valid()) ==> old(all)[rowId].Valid()
      ensures old(AllValid()) ==> AllValid()
      ensures old(Coherent()) && rowId in table ==> Coherent()
    {
      if rowId in all {
        res := Rehydrate(rowId, row, employees);
      } else {
        res := Register(rowId, row, employees);
      }
    }

    /** The cached branch of `instance_from_db` (lines 96-100). */
    method Rehydrate(rowId: int, row: Row, employees: set<Value>) returns (res: Result<Review>)
      requires rowId in all
      modifies all[rowId]
      ensures var c := CheckFields(row.year, row.summary, row.employeeId, employees);
              && (res.Success? <==> c.Success?)
              && (res.Failure? ==> res.error == c.error)
              && (res.Success? ==> res.value == all[rowId] && res.value.Attributes() == c.value)
      ensures var r := all[rowId];
              && r.id == old(r.id)
              && r.year == (if YearOk(row.year) then row.year.i else old(r.year))
              && r.summary == (if YearOk(row.year) && SummaryOk(row.summary)
                               then row.summary.s else old(r.summary))
              && r.employeeId == (if RowOk(row, employees) then row.employeeId
                                  else old(r.employeeId))
      ensures old(all[rowId].Valid()) ==> all[rowId].Valid()
      ensures old(AllValid()) ==> AllValid()
      ensures old(Coherent()) ==> Coherent()
    {
      var r := all[rowId];
      var o := r.Refresh(row, employees);
      res := if o.Pass? then Success(r) else Failure(o.error);
      if old(Coherent()) {
        forall k | k in all ensures all[k].id == Some(k) {
          assert all[k].id == old(all[k].id);
        }
      }
    }

    /** The uncached branch of `instance_from_db` (lines 102-103). */
    method Register(rowId: int, row: Row, employees: set<Value>) returns (res: Result<Review>)
      requires rowId !in all
      modifies this`all
      ensures var c := CheckFields(row.year, row.summary, row.employeeId, employees);
              && (res.Success? <==> c.Success?)
              && (res.Failure? ==> res.error == c.error && all == old(all))
              && (res.Success? ==>
                    && fresh(res.value) && res.value.Valid()
                    && res.value.id == Some(rowId) && res.value.Attributes() == c.value
                    && all == old(all)[rowId := res.value])
      ensures old(AllValid()) ==> AllValid()
      ensures old(Coherent()) && rowId in table ==> Coherent()
    {
      res := Review.New(row.year, row.summary, row.employeeId, Some(rowId), employees);
      if res.Success? {
        all := all[rowId := res.value];
        if old(Coherent()) {
          forall k | k in all ensures all[k].id == Some(k) {
            if k != rowId {
              assert all[k].id == old(all[k].id);
            }
          }
        }
      }
    }

    /** `find_by_id`: no row means None; otherwise the row is hydrated, and
        the live instance for the id is returned. */
    method FindById(id: int, employees: set<Value>) returns (res: Result<Option<Review>>)
      modifies this`all, Cached(id)
      ensures id !in old(table) ==> res == Success(None) && all == old(all)
      ensures id !in old(table) && id in old(all) ==> unchanged(old(all[id]))
      ensures id in old(table) ==>
                var row := old(table)[id];
                var c := CheckFields(row.year, row.summary, row.employeeId, employees);
                && (res.Success? <==> c.Success?)
                && (res.Failure? ==> res.error == c.error)
                && (res.Success? ==>
                      && res.value.Some?
                      && res.value.value.Attributes() == c.value
                      && all == old(all)[id := res.value.value]
                      && (id in old(all) ==> res.value.value == old(all)[id])
                      && (id !in old(all) ==> fresh(res.value.value)))
      ensures res.Failure? ==> all == old(all)
      ensures res.Success? && res.value.Some? ==> res.value.value.Valid()
      ensures id in old(all) && old(all[id].Valid()) ==> old(all)[id].Valid()
      ensures old(AllValid()) ==> AllValid()
      ensures old(Coherent()) ==> Coherent()
      ensures old(Coherent()) && res.Success? && res.value.Some? ==> res.value.value.id == Some(id)
    {
      if id !in table {
        return Success(None);
      }
      var r := InstanceFromDb(id, table[id], employees);
      match r
      case Failure(e) =>
        res := Failure(e);
      case Success(review) =>
        res := Success(Some(review));
    }

    /** `instance_from_db` on the stored row of id `k`, as `get_all` runs it:
        it passes exactly when the row does, and then the entry for `k` is
        the result, the same instance as before if `k` was cached. */
    method HydrateRow(k: int, employees: set<Value>) returns (res: Result<Review>)
      requires k in table
      modifies this`all, Cached(k)
      ensures res.Success? <==> RowOk(table[k], employees)
      ensures res.Success? ==> all == old(all)[k := res.value]
      ensures res.Success? && k in old(all) ==> res.value == old(all)[k]
      ensures res.Success? && k !in old(all) ==> fresh(res.value)
      ensures res.Failure? ==> all == old(all)
      ensures old(AllValid()) ==> AllValid()
      ensures old(Coherent()) ==> Coherent()
      ensures old(Coherent()) && res.Success? ==>
                res.value.id == Some(k) && RowOf(res.value.Attributes()) == table[k]
    {
      res := InstanceFromDb(k, table[k], employees);
    }

    /** What the first `i` steps of `get_all` have established: rows
        `order[..i]` passed and are cached as `out`, later rows are cached as
        they were in `all0`, and, when the identity map started coherent
        (`coh0`), it still is and each instance holds its row's values. */
    ghost predicate HydratedUpTo(order: seq<int>, i: int, out: seq<Review>, all0: map<int, Review>,
                                 coh0: bool, employees: set<Value>)
      reads this, all.Values, out
    {
      && 0 <= i <= |order| && |out| == i
      && (forall j :: 0 <= j < |order| ==> order[j] in table)
      && (forall j :: 0 <= j < i ==> RowOk(table[order[j]], employees))
      && (forall j :: i <= j < |order| ==>
            && (order[j] in all <==> order[j] in all0)
            && (order[j] in all ==> all[order[j]] == all0[order[j]]))
      && (forall j :: 0 <= j < i ==> order[j] in all && all[order[j]] == out[j])
      && (forall j :: 0 <= j < i && order[j] in all0 ==> out[j] == all0[order[j]])
      && (coh0 ==> Coherent())
      && (coh0 ==> forall j :: 0 <= j < i ==> RowOf(out[j].Attributes()) == table[order[j]])
    }

    /** What hydrating the rows `order` lists leaves alone: the cache entries
        for other ids are those of `all0`, and, when the identity map started
        coherent, the instances in `outside` belong to ids outside `order`. */
    ghost predicate KeptOutside(order: seq<int>, all0: map<int, Review>, coh0: bool, outside: set<Review>)
      reads this, outside
    {
      && (forall k :: k !in order ==> (k in all <==> k in all0) && (k in all ==> all[k] == all0[k]))
      && (coh0 ==> forall r :: r in outside ==> r.id.Some? && r.id.value !in order)
    }

    /** One step of `get_all`: `instance_from_db` on row `order[i]`. */
    method HydrateNext(order: seq<int>, i: int, out: seq<Review>, employees: set<Value>,
                       ghost all0: map<int, Review>, ghost coh0: bool, ghost outside: set<Review>)
      returns (res: Result<Review>)
      requires forall i, j :: 0 <= i < j < |order| ==> order[i] != order[j]
      requires HydratedUpTo(order, i, out, all0, coh0, employees) && i < |order|
      requires KeptOutside(order, all0, coh0, outside)
      modifies this`all, Cached(order[i])
      ensures res.Failure? ==> !RowOk(table[order[i]], employees) && (coh0 ==> Coherent())
      ensures res.Success? ==> HydratedUpTo(order, i + 1, out + [res.value], all0, coh0, employees)
      ensures res.Success? && order[i] !in old(all) ==> fresh(res.value)
      ensures all == if res.Success? then old(all)[order[i] := res.value] else old(all)
      ensures old(AllValid()) ==> AllValid()
      ensures coh0 ==> unchanged(outside)
      ensures KeptOutside(order, all0, coh0, outside)
    {
      var k := order[i];
      if coh0 && k in all {
        assert all[k].id == Some(k);
      }
      res := HydrateRow(k, employees);
      if res.Success? && coh0 {
        forall j | 0 <= j < i ensures out[j].Attributes() == old(out[j].Attributes()) {
          assert out[j] !in old(Cached(k));
        }
      }
      if res.Success? {
        var out' := out + [res.value];
        assert forall j :: 0 <= j < i ==> out'[j] == out[j];
      }
    }

    /** Under the identity-map invariant, the cache entries for distinct ids
        carry those ids and are distinct objects. */
    lemma CachedResultsDistinct(order: seq<int>, out: seq<Review>)
      requires Coherent() && |out| == |order|
      requires forall i, j :: 0 <= i < j < |order| ==> order[i] != order[j]
      requires forall i :: 0 <= i < |order| ==> order[i] in all && all[order[i]] == out[i]
      ensures forall i :: 0 <= i < |order| ==> out[i].id == Some(order[i])
      ensures forall i, j :: 0 <= i < j < |order| ==> out[i] != out[j]
    {
      forall i | 0 <= i < |order| ensures out[i].id == Some(order[i]) {
        var k := order[i];
        assert k in all;
        assert all[k].id == Some(k);
      }
      forall i, j | 0 <= i < j < |order| ensures out[i] != out[j] {
        assert out[i].id != out[j].id;
      }
    }

    /** The list comprehension of `get_all`: `instance_from_db` on each row
        `order` lists, in turn, until one fails. `all0` and `coh0` are the
        identity map and its coherence on entry, `outside` the instances
        cached under ids that `order` does not list. */
    method HydrateAll(order: seq<int>, employees: set<Value>, ghost all0: map<int, Review>,
                      ghost coh0: bool, ghost outside: set<Review>)
      returns (res: Result<seq<Review>>)
      requires forall i, j :: 0 <= i < j < |order| ==> order[i] != order[j]
      requires HydratedUpTo(order, 0, [], all0, coh0, employees)
      requires KeptOutside(order, all0, coh0, outside)
      modifies this`all, all.Values
      ensures res.Failure? ==>
                exists j :: 0 <= j < |order| && !RowOk(table[order[j]], employees)
                            && forall l :: 0 <= l < j ==> RowOk(table[order[l]], employees)
      ensures res.Success? ==> HydratedUpTo(order, |order|, res.value, all0, coh0, employees)
      ensures res.Success? ==>
                forall j :: 0 <= j < |order| && order[j] !in old(all) ==> fresh(res.value[j])
      ensures coh0 ==> Coherent() && unchanged(outside)
      ensures KeptOutside(order, all0, coh0, outside)
      ensures old(AllValid()) ==> AllValid()
    {
      ghost var valid0 := AllValid();
      var out: seq<Review> := [];
      var i := 0;
      while i < |order|
        invariant HydratedUpTo(order, i, out, all0, coh0, employees)
        invariant forall j :: 0 <= j < i && order[j] !in old(all) ==> fresh(out[j])
        invariant KeptOutside(order, all0, coh0, outside)
        invariant coh0 ==> unchanged(outside)
        invariant valid0 ==> AllValid()
      {
        var r := HydrateNext(order, i, out, employees, all0, coh0, outside);
        if r.Failure? {
          FirstFailing(order, i, employees, table);
          return Failure(r.error);
        }
        out := out + [r.value];
        i := i + 1;
      }
      res := Success(out);
    }

    /** `get_all`: hydrates every row, in the order the database returns
        them, which `order` lists (distinct ids of stored rows). It succeeds
        exactly when every listed row passes the setters; then the i-th
        result is the live instance for the i-th row id, reused when it was
        cached and new otherwise. When the identity map was coherent, it
        stays so and the results are pairwise distinct and hold their rows'
        ids and values. A row that fails stops the list comprehension, and
        the rows before it stay hydrated. Cache entries for ids `order` does
        not list are kept, and under coherence so are their instances. When
        `order` covers the table, success means every stored row passes. */
    method GetAll(order: seq<int>, employees: set<Value>) returns (res: Result<seq<Review>>)
      requires forall j :: 0 <= j < |order| ==> order[j] in table
      requires forall i, j :: 0 <= i < j < |order| ==> order[i] != order[j]
      modifies this`all, all.Values
      ensures res.Success? <==> forall j :: 0 <= j < |order| ==> RowOk(table[order[j]], employees)
      ensures res.Failure? ==>
                exists j :: 0 <= j < |order| && !RowOk(table[order[j]], employees)
                            && forall l :: 0 <= l < j ==> RowOk(table[order[l]], employees)
      ensures res.Success? ==> |res.value| == |order|
      ensures res.Success? ==>
                forall i :: 0 <= i < |order| ==> order[i] in all && all[order[i]] == res.value[i]
      ensures res.Success? ==>
                forall i :: 0 <= i < |order| && order[i] in old(all) ==> res.value[i] == old(all)[order[i]]
      ensures res.Success? ==>
                forall i :: 0 <= i < |order| && order[i] !in old(all) ==> fresh(res.value[i])
      ensures old(Coherent()) ==> Coherent()
      ensures old(Coherent()) && res.Success? ==>
                forall i :: 0 <= i < |order| ==>
                  res.value[i].id == Some(order[i]) && RowOf(res.value[i].Attributes()) == table[order[i]]
      ensures old(Coherent()) && res.Success? ==>
                forall i, j :: 0 <= i < j < |order| ==> res.value[i] != res.value[j]
      ensures forall k :: k !in order ==> (k in all <==> k in old(all)) && (k in all ==> all[k] == old(all)[k])
      ensures old(Coherent()) ==> forall k :: k in old(all) && k !in order ==> unchanged(old(all)[k])
      ensures old(AllValid()) ==> AllValid()
      ensures (forall k :: k in table ==> k in order) ==>
                (res.Success? <==> forall k :: k in table ==> RowOk(table[k], employees))
    {
      ghost var all0, coh0 := all, Coherent();
      ghost var outside := set k | k in all && k !in order :: all[k];
      res := HydrateAll(order, employees, all0, coh0, outside);
      if res.Success? && coh0 {
        CachedResultsDistinct(order, res.value);
      }
      if coh0 {
        forall k | k in all0 && k !in order ensures unchanged(all0[k]) {
          assert all0[k] in outside;
        }
      }
      if forall k :: k in table ==> k in order {
        ListedRowsCoverTable(table, order, employees);
      }
    }
  }
}
