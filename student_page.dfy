/** The page globals that student.js works on, and its three console commands
    as methods that change them in place. Each method is proved to do what
    the matching function of module Roster says. */
module StudentPage {
  import opened Casing
  import opened Roster

  class Page {
    /** STUDENTEN_DATA is declared and is an array. */
    var rosterBound: bool
    /** The contents of STUDENTEN_DATA. */
    var roster: seq<Student>
    /** localStorage['STUDENTEN_DATA'], None when the key is absent. */
    var store: Option<Stored>
    /** MONTHS_PRE, MONTHS_STUDY and MONTHS_INTERN, fixed when the page loads. */
    const months: MonthConstants

    /** The globals as another script of the page left them. */
    constructor (rosterBound: bool, roster: seq<Student>, store: Option<Stored>, months: MonthConstants)
      ensures Globals() == State(rosterBound, roster, store) && this.months == months
    {
      this.rosterBound := rosterBound;
      this.roster := roster;
      this.store := store;
      this.months := months;
    }

    function Globals(): (g: State)
      reads this
      ensures g.rosterBound == rosterBound && g.roster == roster && g.store == store
    {
      State(rosterBound, roster, store)
    }

    /** STUDENTEN_DATA.find(s => s.naam.toLowerCase() === key.toLowerCase()),
        as an index. */
    method Find(key: string) returns (found: Option<nat>)
      ensures found == FirstMatch(roster, key)
      ensures found.Some? ==> found.value < |roster| && Lower(roster[found.value].naam) == Lower(key)
                              && forall j :: 0 <= j < found.value ==> Lower(roster[j].naam) != Lower(key)
      ensures found.None? ==> forall j :: 0 <= j < |roster| ==> Lower(roster[j].naam) != Lower(key)
    {
      var i := 0;
      while i < |roster|
        invariant 0 <= i <= |roster|
        invariant forall j :: 0 <= j < i ==> Lower(roster[j].naam) != Lower(key)
      {
        if Lower(roster[i].naam) == Lower(key) {
          FirstMatchComplete(roster, key, i);
          return Some(i);
        }
        i := i + 1;
      }
      FirstMatchNone(roster, key);
      return None;
    }

    /** setStudentProgress(name, target), run at instant `now`; the date
        arithmetic and its formatting are `startDateFor`, and `saveOk` is
        whether localStorage.setItem succeeds. */
    method SetStudentProgress(name: JsValue, target: JsValue, now: Instant,
                              startDateFor: (Instant, real) -> DateText, saveOk: bool) returns (outcome: Outcome)
      modifies this
      ensures Step(outcome, Globals()) == SetProgressSpec(old(Globals()), months, name, target, now, startDateFor, saveOk)
    {
      if !name.JsString? || name.str == "" {
        return Rejected(InvalidName);
      }
      if !(target.JsNumber? || target.JsNaN?) || (target.JsNumber? && (target.num < 0.0 || target.num > 100.0)) {
        return Rejected(PercentageOutOfRange);
      }
      if !rosterBound {
        return Rejected(RosterMissing);
      }
      var found := Find(name.str);
      if found.None? {
        return Rejected(StudentNotFound);
      }
      if months.pre.None? || months.study.None? || months.intern.None? {
        return Rejected(ConstantsMissing);
      }
      var i := found.value;
      var student := roster[i];
      var totalMonths := TotalMonths(student.heeftVoortraject, months.pre.value, months.study.value, months.intern.value);
      if target.JsNaN? {
        // setMonth(NaN) makes the date invalid and toISOString throws
        return InvalidTimeValue;
      }
      var monthsElapsed := MonthsElapsed(target.num, totalMonths);
      var formattedDate := startDateFor(now, monthsElapsed);
      var oldStartDate := student.startdatum;
      roster := roster[i := student.(startdatum := formattedDate)];
      if saveOk {
        store := Some(ArrayOf(roster));
      }
      outcome := Updated(ProgressResult(true, student.naam, oldStartDate, formattedDate,
                                        target.num, totalMonths, Round(monthsElapsed)));
    }

    /** loadStudentDataFromStorage(): empties STUDENTEN_DATA and refills it
        with the stored array, when there is one. */
    method LoadStudentDataFromStorage() returns (loaded: bool)
      modifies this
      ensures Reply(loaded, Globals()) == LoadSpec(old(Globals()))
    {
      var stored := store;
      if stored.Some? && stored.value.ArrayOf? {
        if !rosterBound {
          // STUDENTEN_DATA.length = 0 throws a ReferenceError, which is caught
          return false;
        }
        roster := [];
        roster := roster + stored.value.records;
        return true;
      }
      return false;
    }

    /** resetStudentData(): removes the stored roster; `removeOk` is whether
        localStorage.removeItem succeeds. */
    method ResetStudentData(removeOk: bool) returns (ok: bool)
      modifies this`store
      ensures Reply(ok, Globals()) == ResetSpec(old(Globals()), removeOk)
    {
      if !removeOk {
        return false;
      }
      store := None;
      return true;
    }
  }

  /** The demonstration at the end of student.js. student.js defines no month
      constants, so the durations 3, 18 and 6 are chosen for this example, with
      a roster of one student with pre-track: asking for 75% for
      "sam" sets Sam's start date to 20.25 months before now, reports a
      program of 27 months of which 20 have passed, and saves the roster. */
  method SamAtSeventyFivePercent(now: Instant, startDateFor: (Instant, real) -> DateText)
  {
    var sam := Student("Sam", "2023-09-01", true, map[]);
    var page := new Page(true, [sam], None, MonthConstants(Some(3), Some(18), Some(6)));
    var outcome := page.SetStudentProgress(JsString("sam"), JsNumber(75.0), now, startDateFor, true);
    assert Lower("Sam") == Lower("sam");
    assert outcome == Updated(ProgressResult(true, "Sam", "2023-09-01", startDateFor(now, 20.25), 75.0, 27, 20));
    assert page.roster == [sam.(startdatum := startDateFor(now, 20.25))];
    assert page.store == Some(ArrayOf(page.roster));
    var refused := page.SetStudentProgress(JsString("Ghost"), JsNumber(150.0), now, startDateFor, true);
    assert refused == Rejected(PercentageOutOfRange);
  }
}
