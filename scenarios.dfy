/**
 * Sequences of Review operations as a program using lib/review.py runs
 * them, and what the identity map guarantees across the calls.
 */
module ReviewScenarios {
  import opened Validation
  import opened ReviewOrm

  /** `Review.create(...)` followed by `Review.find_by_id(review.id)`: the
      lookup hands back the very instance that was created, still holding
      the values it was created with, as long as its employee still exists.
      When creation fails nothing is looked up and `found` is None. */
  method CreateThenFind(store: ReviewStore, year: Value, summary: Value, employeeId: Value,
                        employees: set<Value>)
    returns (created: Result<Review>, found: Result<Option<Review>>)
    requires store.Valid() && store.Coherent()
    modifies store
    ensures created.Success? <==> CheckFields(year, summary, employeeId, employees).Success?
    ensures created.Success? ==>
              && found == Success(Some(created.value))
              && created.value.Attributes() == CheckFields(year, summary, employeeId, employees).value
              && store.Persisted(created.value)
    ensures created.Failure? ==> found == Success(None)
    ensures store.Valid() && store.Coherent()
  {
    created := store.Create(year, summary, employeeId, employees);
    if created.Failure? {
      return created, Success(None);
    }
    var r := created.value;
    var k := r.id.value;
    StoredFieldsRevalidate(r.Attributes(), employees);
    found := store.FindById(k, employees);
  }

  /** Two `find_by_id` calls with the same id, nothing in between: the same
      outcome both times, and the same object when a review is found. */
  method FindTwice(store: ReviewStore, id: int, employees: set<Value>)
    returns (first: Result<Option<Review>>, second: Result<Option<Review>>)
    modifies store, store.all.Values
    ensures first.Success? <==> second.Success?
    ensures first.Success? && first.value.Some? ==> second == first
    ensures first == Success(None) ==> second == Success(None)
    ensures first.Failure? ==> second == first
  {
    first := store.FindById(id, employees);
    second := store.FindById(id, employees);
  }

  /** `review.delete()` on a persisted instance, then `find_by_id` with its
      old id: the delete succeeds, the instance is unregistered and has no
      id, and the lookup finds nothing. */
  method DeleteThenFind(store: ReviewStore, r: Review, employees: set<Value>)
    returns (o: Outcome, found: Result<Option<Review>>)
    requires store.Valid() && store.Coherent() && store.Persisted(r)
    modifies r, store
    ensures o == Pass && r.id == None && r !in store.all.Values
    ensures found == Success(None)
    ensures store.Valid() && store.Coherent()
  {
    var k := r.id.value;
    o := r.Delete(store);
    found := store.FindById(k, employees);
  }

  /** `review.year = v`, `review.update()`, then `find_by_id(review.id)` on a
      persisted, valid instance: the lookup fails only if the review's
      employee has disappeared, and otherwise returns the same instance,
      under the same id, with the year the setter accepted (or the old one
      if it raised) and its other attributes as they were. */
  method UpdateThenFind(store: ReviewStore, r: Review, v: Value, employees: set<Value>)
    returns (o: Outcome, found: Result<Option<Review>>)
    requires store.Valid() && store.Coherent() && store.Persisted(r) && r.Valid()
    modifies r, store
    ensures o == CheckYear(v)
    ensures found == if old(r.employeeId) in employees then Success(Some(r)) else Failure(EmployeeMissing)
    ensures found.Success? ==>
              && r.year == (if o.Pass? then v.i else old(r.year))
              && r.summary == old(r.summary) && r.employeeId == old(r.employeeId)
              && r.id == old(r.id)
    ensures store.Valid() && store.Coherent()
  {
    o := r.SetYear(v);
    r.Update(store);
    var k := r.id.value;
    StoredFieldsRevalidate(r.Attributes(), employees);
    found := store.FindById(k, employees);
  }

  /** `find_by_id` on the id of a live, valid review keeps it valid,
      whether the refresh succeeds or a setter raises part-way. */
  method FindKeepsValid(store: ReviewStore, r: Review, employees: set<Value>)
    returns (found: Result<Option<Review>>)
    requires store.Coherent() && store.AllValid() && store.Persisted(r) && r.Valid()
    modifies store, store.all.Values
    ensures r.Valid() && store.AllValid() && store.Coherent()
    ensures found.Success? ==> found == Success(Some(r))
  {
    found := store.FindById(r.id.value, employees);
  }

  /** `get_all` over rows that do not include a live review's: that review
      stays the cache entry for its id, with its attributes as they were. */
  method GetAllKeepsUnlisted(store: ReviewStore, r: Review, order: seq<int>, employees: set<Value>)
    returns (res: Result<seq<Review>>)
    requires store.Coherent() && store.Persisted(r) && r.id.value !in order
    requires forall j :: 0 <= j < |order| ==> order[j] in store.table
    requires forall i, j :: 0 <= i < j < |order| ==> order[i] != order[j]
    modifies store, store.all.Values
    ensures store.Persisted(r)
    ensures r.Attributes() == old(r.Attributes())
  {
    var k := r.id.value;
    assert k in store.all && store.all[k] == r;
    res := store.GetAll(order, employees);
    assert k in old(store.all) && k !in order;
    assert unchanged(old(store.all)[k]);
  }
}
