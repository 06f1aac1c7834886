/**
 * The attribute checks of a Review: the `year`, `summary` and `employee_id`
 * setters of lib/review.py, together with the pieces of Python they rely on
 * (dynamic values and `str.strip()`).
 */
module Validation {

  /** A Python value as the setters see it. `type(v) is int` holds only of
      `Int`: a `bool` is its own case, as `type(True) is bool` in Python. */
  datatype Value =
    | Int(i: int)
    | Bool(b: bool)
    | Str(s: string)
    | NoneValue
    | Other   // any other Python object (float, list, an int or str subclass, ...)

  /** The single kind of failure the ORM raises, one case per message,
      plus the `KeyError` of `del` on a missing cache key. */
  datatype Error =
    | YearInvalid        // "Year must be an integer >= 2000"
    | SummaryInvalid     // "Summary must be a non-empty string"
    | EmployeeMissing    // "Employee must exist before using its id"
    | KeyMissing         // KeyError from `del Review.all[self.id]`

  datatype Option<+T> = None | Some(value: T)

  /** What a setter does: return normally, or raise. */
  datatype Outcome = Pass | Fail(error: Error)

  /** An operation that returns a value or raises. */
  datatype Result<+T> = Success(value: T) | Failure(error: Error)

  /** The three validated attributes of a Review. */
  datatype Fields = Fields(year: int, summary: string, employeeId: Value)

  const MinYear: int := 2000

  /** The characters Python's `str.strip()` (no argument) removes: those for
      which `str.isspace()` holds. */
  predicate IsSpace(c: char)
  {
    || ('\t' <= c <= '\r')                // \t \n \x0b \x0c \r
    || ('\U{1C}' <= c <= '\U{1F}')        // file, group, record and unit separators
    || c == ' '
    || c == '\U{85}' || c == '\U{A0}' || c == '\U{1680}'
    || ('\U{2000}' <= c <= '\U{200A}')
    || c == '\U{2028}' || c == '\U{2029}' || c == '\U{202F}'
    || c == '\U{205F}' || c == '\U{3000}'
  }

  /** Python's `s.lstrip()`: drops the leading whitespace of `s`. */
  function TrimStart(s: string): string
  {
    if s != [] && IsSpace(s[0]) then TrimStart(s[1..]) else s
  }

  /** Python's `s.rstrip()`: drops the trailing whitespace of `s`. */
  function TrimEnd(s: string): string
  {
    if s != [] && IsSpace(s[|s| - 1]) then TrimEnd(s[..|s| - 1]) else s
  }

  /** Python's `s.strip()`. */
  function Strip(s: string): string
  {
    TrimEnd(TrimStart(s))
  }

  /** `TrimStart(s)` is the suffix of `s` that starts at its first
      non-whitespace character: all that is cut off is whitespace. */
  lemma {:induction false} TrimStartIsSuffix(s: string)
    ensures var r := TrimStart(s);
            && |r| <= |s| && r == s[|s| - |r|..]
            && (forall i :: 0 <= i < |s| - |r| ==> IsSpace(s[i]))
            && (r != [] ==> !IsSpace(r[0]))
  {
    if s != [] && IsSpace(s[0]) {
      var t := s[1..];
      TrimStartIsSuffix(t);
      var r := TrimStart(t);
      assert TrimStart(s) == r;
      assert t[|t| - |r|..] == s[|s| - |r|..];
      forall i | 0 <= i < |s| - |r| ensures IsSpace(s[i]) {
        if i > 0 {
          assert s[i] == t[i - 1];
        }
      }
    }
  }

  /** `TrimEnd(s)` is the prefix of `s` that ends at its last non-whitespace
      character: all that is cut off is whitespace. */
  lemma {:induction false} TrimEndIsPrefix(s: string)
    ensures var r := TrimEnd(s);
            && |r| <= |s| && r == s[..|r|]
            && (forall i :: |r| <= i < |s| ==> IsSpace(s[i]))
            && (r != [] ==> !IsSpace(r[|r| - 1]))
  {
    if s != [] && IsSpace(s[|s| - 1]) {
      var t := s[..|s| - 1];
      TrimEndIsPrefix(t);
      var r := TrimEnd(t);
      assert TrimEnd(s) == r;
      assert t[..|r|] == s[..|r|];
      forall i | |r| <= i < |s| ensures IsSpace(s[i]) {
        if i < |t| {
          assert s[i] == t[i];
        }
      }
    }
  }

  /** `s.strip()` is empty exactly when every character of `s` is
      whitespace; otherwise it is a piece of `s` that starts and ends with a
      non-whitespace character. */
  lemma StripBlankIff(s: string)
    ensures var r := Strip(s);
            && |r| <= |s|
            && (r == [] <==> forall i :: 0 <= i < |s| ==> IsSpace(s[i]))
            && (r != [] ==> !IsSpace(r[0]) && !IsSpace(r[|r| - 1]))
  {
    var t := TrimStart(s);
    TrimStartIsSuffix(s);
    TrimEndIsPrefix(t);
    var r := TrimEnd(t);
    if r == [] {
      assert t == [];
    } else {
      assert r[0] == t[0];
    }
  }

  /** The test on line 45 of lib/review.py, negated: an exact `int`, at least 2000. */
  predicate YearOk(v: Value)
  {
    v.Int? && v.i >= MinYear
  }

  /** The test on line 55, negated: a `str` whose strip is non-empty. */
  predicate SummaryOk(v: Value)
  {
    v.Str? && Strip(v.s) != []
  }

  /** What the `year` setter decides about `v`. */
  function CheckYear(v: Value): Outcome
  {
    if YearOk(v) then Pass else Fail(YearInvalid)
  }

  /** What the `summary` setter decides about `v`. */
  function CheckSummary(v: Value): Outcome
  {
    if SummaryOk(v) then Pass else Fail(SummaryInvalid)
  }

  /** What the `employee_id` setter decides, given the set of values for
      which the Employee lookup finds a record. */
  function CheckEmployee(v: Value, employees: set<Value>): Outcome
  {
    if v in employees then Pass else Fail(EmployeeMissing)
  }

  /** The year setter accepts exactly the exact ints from 2000 on: a bool,
      a string or any other object is refused whatever it holds. This only
      unfolds `CheckYear` and `YearOk`; it pins `MinYear` to the literal of
      line 45 and records the error on the non-int cases. */
  lemma YearAccepted(v: Value)
    ensures CheckYear(v) == Pass <==> v.Int? && v.i >= 2000
    ensures !v.Int? ==> CheckYear(v) == Fail(YearInvalid)
  {
  }

  /** The summary setter accepts exactly the strings that hold a
      non-whitespace character; an empty or all-whitespace string, or a
      non-string, is refused. */
  lemma SummaryAccepted(v: Value)
    ensures CheckSummary(v) == Pass <==> v.Str? && exists i :: 0 <= i < |v.s| && !IsSpace(v.s[i])
    ensures CheckSummary(v) != Pass ==> CheckSummary(v) == Fail(SummaryInvalid)
  {
    if v.Str? {
      StripBlankIff(v.s);
    }
  }

  /** The attributes a live Review holds once its year and summary setters
      have accepted them. */
  predicate WellFormed(f: Fields)
  {
    f.year >= MinYear && Strip(f.summary) != []
  }

  /** Running the three setters in the order of `__init__` (year, summary,
      employee_id): success exactly when all three checks pass, with the
      values taken unchanged, otherwise the error of the first check that
      fails. */
  function CheckFields(year: Value, summary: Value, employeeId: Value, employees: set<Value>): (r: Result<Fields>)
    ensures r.Success? <==> YearOk(year) && SummaryOk(summary) && employeeId in employees
    ensures r.Success? ==> r.value == Fields(year.i, summary.s, employeeId) && WellFormed(r.value)
    ensures !YearOk(year) ==> r == Failure(YearInvalid)
    ensures YearOk(year) && !SummaryOk(summary) ==> r == Failure(SummaryInvalid)
    ensures YearOk(year) && SummaryOk(summary) && employeeId !in employees ==> r == Failure(EmployeeMissing)
  {
    match CheckYear(year)
    case Fail(e) => Failure(e)
    case Pass =>
      match CheckSummary(summary)
      case Fail(e) => Failure(e)
      case Pass =>
        match CheckEmployee(employeeId, employees)
        case Fail(e) => Failure(e)
        case Pass => Success(Fields(year.i, summary.s, employeeId))
  }

  /** Attributes that a Review holds are accepted again when read back from
      the values they were stored as: the check of a stored row cannot fail
      on year or summary, only on an employee that has since disappeared. */
  lemma StoredFieldsRevalidate(f: Fields, employees: set<Value>)
    requires WellFormed(f)
    ensures CheckFields(Int(f.year), Str(f.summary), f.employeeId, employees)
            == if f.employeeId in employees then Success(f) else Failure(EmployeeMissing)
  {
  }
}
