/** The values of the student roster script and the meaning of its three
    operations, setStudentProgress, loadStudentDataFromStorage and
    resetStudentData, as functions from the old page state to a reply and the
    new page state. The class in module StudentPage runs the operations in
    place and is proved against these functions. */
module Roster {
  import opened Casing

  datatype Option<T> = None | Some(value: T)

  /** A start date as the roster stores it (the script writes "YYYY-MM-DD"). */
  type DateText = string

  /** The reading of the clock that `new Date()` takes. */
  type Instant = int

  /** One element of STUDENTEN_DATA; `rest` stands for the record's other
      properties, which the script never reads nor writes. */
  datatype Student = Student(naam: string, startdatum: DateText, heeftVoortraject: bool, rest: map<string, string>)

  /** An argument as the script receives it. Numbers are exact; NaN is kept
      apart because it passes the range check. Every other value (undefined,
      null, booleans, objects, and the two infinities, which the range check
      rejects like any other out-of-range number) is JsOther. */
  datatype JsValue = JsString(str: string) | JsNumber(num: real) | JsNaN | JsOther

  /** The global constants MONTHS_PRE, MONTHS_STUDY and MONTHS_INTERN; None is
      a constant that is not defined. */
  datatype MonthConstants = MonthConstants(pre: Option<nat>, study: Option<nat>, intern: Option<nat>) {
    predicate Defined() {
      pre.Some? && study.Some? && intern.Some?
    }
  }

  /** What the storage slot 'STUDENTEN_DATA' holds: the parsed array, or text
      that does not parse to an array (empty, malformed JSON, another value). */
  datatype Stored = ArrayOf(records: seq<Student>) | NotAnArray

  /** The page: whether STUDENTEN_DATA is bound to an array, its contents,
      and the storage slot (None when the key is absent). */
  datatype State = State(rosterBound: bool, roster: seq<Student>, store: Option<Stored>)

  /** The guard that made setStudentProgress return null. */
  datatype Refusal = InvalidName | PercentageOutOfRange | RosterMissing | StudentNotFound | ConstantsMissing

  datatype ProgressResult = ProgressResult(
    success: bool,
    student: string,
    oldStartDate: DateText,
    newStartDate: DateText,
    targetPercentage: real,
    totalMonths: nat,
    monthsElapsed: int)

  /** What setStudentProgress gives back: null (with the guard that fired),
      the RangeError that toISOString throws on an invalid date, or the
      result object. */
  datatype Outcome = Rejected(why: Refusal) | InvalidTimeValue | Updated(result: ProgressResult)

  datatype Step = Step(outcome: Outcome, next: State)

  /** The boolean that loadStudentDataFromStorage and resetStudentData return,
      with the state after them. */
  datatype Reply = Reply(ok: bool, next: State)

  // ---------------------------------------------------------------------
  // Guards and lookup
  // ---------------------------------------------------------------------

  /** `!studentNaam || typeof studentNaam !== 'string'` is false. */
  predicate NameAccepted(name: JsValue): (ok: bool)
    ensures ok ==> name.JsString? && |name.str| > 0
    ensures name.JsString? && |name.str| > 0 ==> ok
  {
    name.JsString? && name.str != ""
  }

  /** `typeof p !== 'number' || p < 0 || p > 100` is false; every comparison
      with NaN is false, so NaN is accepted. */
  predicate PercentageAccepted(p: JsValue): (ok: bool)
    ensures p.JsNumber? ==> (ok <==> 0.0 <= p.num <= 100.0)
    ensures p.JsNaN? ==> ok
    ensures p.JsString? || p.JsOther? ==> !ok
  {
    p.JsNaN? || (p.JsNumber? && 0.0 <= p.num <= 100.0)
  }

  /** The predicate handed to Array.prototype.find. */
  predicate Matches(s: Student, key: string): (ok: bool)
    ensures s.naam == key ==> ok
    ensures ok ==> |s.naam| == |key|
  {
    Lower(s.naam) == Lower(key)
  }

  /** The index of the element that `find` returns, if any. */
  function FirstMatch(rs: seq<Student>, key: string): (r: Option<nat>)
    ensures r.Some? ==> r.value < |rs| && Matches(rs[r.value], key)
  {
    if rs == [] then None
    else if Matches(rs[0], key) then Some(0)
    else match FirstMatch(rs[1..], key)
      case None => None
      case Some(i) => Some(i + 1)
  }

  /** What FirstMatch finds is the first match, and it finds nothing only when
      nothing matches. */
  lemma {:induction false} FirstMatchSound(rs: seq<Student>, key: string)
    ensures FirstMatch(rs, key).Some? ==>
      forall j :: 0 <= j < FirstMatch(rs, key).value ==> !Matches(rs[j], key)
    ensures FirstMatch(rs, key).None? ==> forall j :: 0 <= j < |rs| ==> !Matches(rs[j], key)
  {
    if rs != [] && !Matches(rs[0], key) {
      FirstMatchSound(rs[1..], key);
      assert forall j :: 1 <= j < |rs| ==> rs[j] == rs[1..][j - 1];
    }
  }

  /** Conversely, the first matching index is what FirstMatch finds. */
  lemma {:induction false} FirstMatchComplete(rs: seq<Student>, key: string, i: nat)
    requires i < |rs| && Matches(rs[i], key)
    requires forall j :: 0 <= j < i ==> !Matches(rs[j], key)
    ensures FirstMatch(rs, key) == Some(i)
  {
    if i > 0 {
      assert !Matches(rs[0], key);
      assert forall j :: 0 <= j < i - 1 ==> rs[1..][j] == rs[j + 1];
      FirstMatchComplete(rs[1..], key, i - 1);
    }
  }

  /** When no element matches, FirstMatch finds nothing. */
  lemma {:induction false} FirstMatchNone(rs: seq<Student>, key: string)
    requires forall j :: 0 <= j < |rs| ==> !Matches(rs[j], key)
    ensures FirstMatch(rs, key) == None
  {
    if rs != [] {
      assert forall j :: 0 <= j < |rs| - 1 ==> rs[1..][j] == rs[j + 1];
      FirstMatchNone(rs[1..], key);
    }
  }

  /** The lookup sees only the lower-case form of the key. */
  lemma {:induction false} FirstMatchCaseInsensitive(rs: seq<Student>, a: string, b: string)
    requires Lower(a) == Lower(b)
    ensures FirstMatch(rs, a) == FirstMatch(rs, b)
  {
    if rs != [] {
      FirstMatchCaseInsensitive(rs[1..], a, b);
    }
  }

  /** The lookup sees only the names: rewriting other fields does not move it. */
  lemma {:induction false} FirstMatchOnlyReadsNames(rs: seq<Student>, ts: seq<Student>, key: string)
    requires |rs| == |ts|
    requires forall j :: 0 <= j < |rs| ==> rs[j].naam == ts[j].naam
    ensures FirstMatch(rs, key) == FirstMatch(ts, key)
  {
    if rs != [] {
      assert rs[0].naam == ts[0].naam;
      assert forall j :: 0 <= j < |rs| - 1 ==> rs[1..][j] == rs[j + 1] && ts[1..][j] == ts[j + 1];
      FirstMatchOnlyReadsNames(rs[1..], ts[1..], key);
    }
  }

  // ---------------------------------------------------------------------
  // Durations
  // ---------------------------------------------------------------------

  /** The program length of a student, from the three constants. */
  function TotalMonths(heeftVoortraject: bool, pre: nat, study: nat, intern: nat): (r: nat)
    ensures heeftVoortraject ==> r == pre + study + intern
    ensures !heeftVoortraject ==> r == study + intern
  {
    if heeftVoortraject then pre + study + intern else study + intern
  }

  /** The months that must have passed for a student to stand at `p` percent. */
  function MonthsElapsed(p: real, totalMonths: nat): (r: real)
    ensures 0.0 <= p <= 100.0 ==> 0.0 <= r <= totalMonths as real
    ensures p == 0.0 ==> r == 0.0
    ensures p == 100.0 ==> r == totalMonths as real
  {
    var fraction := p / 100.0;
    assert 0.0 <= p <= 100.0 ==> 0.0 <= fraction <= 1.0;
    fraction * totalMonths as real
  }

  /** Reading the elapsed months back as a share of the program gives the
      requested percentage, and more percent means more months. */
  lemma MonthsElapsedInverse(p: real, q: real, totalMonths: nat)
    requires totalMonths > 0
    ensures 100.0 * MonthsElapsed(p, totalMonths) / totalMonths as real == p
    ensures p <= q ==> MonthsElapsed(p, totalMonths) <= MonthsElapsed(q, totalMonths)
  {
    var t := totalMonths as real;
    assert 100.0 * ((p / 100.0) * t) == p * t;
    assert p * t / t == p;
    if p <= q {
      assert (q / 100.0 - p / 100.0) * t >= 0.0;
    }
  }

  /** Math.round: the nearest integer, halves rounded up. */
  function Round(x: real): (r: int)
    ensures r as real - 0.5 <= x < r as real + 0.5
  {
    (x + 0.5).Floor
  }

  /** Rounding an elapsed time within the program stays within the program. */
  lemma RoundWithin(x: real, totalMonths: nat)
    requires 0.0 <= x <= totalMonths as real
    ensures 0 <= Round(x) <= totalMonths
  {
  }

  // ---------------------------------------------------------------------
  // setStudentProgress
  // ---------------------------------------------------------------------

  /** setStudentProgress(name, target) at instant `now`. The new start date is
      `startDateFor(now, monthsElapsed)`; `saveOk` tells whether writing the
      roster to storage succeeds. */
  function SetProgressSpec(s: State, months: MonthConstants, name: JsValue, target: JsValue,
                           now: Instant, startDateFor: (Instant, real) -> DateText, saveOk: bool): (r: Step)
    ensures !r.outcome.Updated? ==> r.next == s
    ensures r.outcome.Updated? ==>
      r.next.rosterBound == s.rosterBound && |r.next.roster| == |s.roster| &&
      r.next.store == (if saveOk then Some(ArrayOf(r.next.roster)) else s.store)
  {
    if !NameAccepted(name) then Step(Rejected(InvalidName), s)
    else if !PercentageAccepted(target) then Step(Rejected(PercentageOutOfRange), s)
    else if !s.rosterBound then Step(Rejected(RosterMissing), s)
    else match FirstMatch(s.roster, name.str)
      case None => Step(Rejected(StudentNotFound), s)
      case Some(i) =>
        if !months.Defined() then Step(Rejected(ConstantsMissing), s)
        else if target.JsNaN? then Step(InvalidTimeValue, s)
        else
          var student := s.roster[i];
          var total := TotalMonths(student.heeftVoortraject, months.pre.value, months.study.value, months.intern.value);
          var elapsed := MonthsElapsed(target.num, total);
          var date := startDateFor(now, elapsed);
          var roster := s.roster[i := student.(startdatum := date)];
          Step(Updated(ProgressResult(true, student.naam, student.startdatum, date, target.num, total, Round(elapsed))),
               s.(roster := roster, store := if saveOk then Some(ArrayOf(roster)) else s.store))
  }

  /** A missing, empty or non-string name is refused before anything else. */
  lemma RejectsInvalidName(s: State, months: MonthConstants, name: JsValue, target: JsValue,
                           now: Instant, startDateFor: (Instant, real) -> DateText, saveOk: bool)
    requires !NameAccepted(name)
    ensures SetProgressSpec(s, months, name, target, now, startDateFor, saveOk) == Step(Rejected(InvalidName), s)
  {
  }

  /** A percentage that is not a number, or lies outside [0, 100], is refused
      before the roster is looked at: 150 is refused even for an unknown name. */
  lemma RejectsPercentageBeforeLookup(s: State, months: MonthConstants, name: JsValue, target: JsValue,
                                      now: Instant, startDateFor: (Instant, real) -> DateText, saveOk: bool)
    requires NameAccepted(name)
    requires !target.JsNaN? && !(target.JsNumber? && 0.0 <= target.num <= 100.0)
    ensures SetProgressSpec(s, months, name, target, now, startDateFor, saveOk) == Step(Rejected(PercentageOutOfRange), s)
  {
  }

  /** Without a STUDENTEN_DATA array the call is refused. */
  lemma RejectsMissingRoster(s: State, months: MonthConstants, name: JsValue, target: JsValue,
                             now: Instant, startDateFor: (Instant, real) -> DateText, saveOk: bool)
    requires NameAccepted(name) && PercentageAccepted(target) && !s.rosterBound
    ensures SetProgressSpec(s, months, name, target, now, startDateFor, saveOk) == Step(Rejected(RosterMissing), s)
  {
  }

  /** A name that matches no student, in any casing, is refused and nothing
      changes; this happens whether or not the constants are defined. */
  lemma RejectsUnknownStudent(s: State, months: MonthConstants, name: JsValue, target: JsValue,
                              now: Instant, startDateFor: (Instant, real) -> DateText, saveOk: bool)
    requires NameAccepted(name) && PercentageAccepted(target) && s.rosterBound
    requires forall j :: 0 <= j < |s.roster| ==> Lower(s.roster[j].naam) != Lower(name.str)
    ensures SetProgressSpec(s, months, name, target, now, startDateFor, saveOk) == Step(Rejected(StudentNotFound), s)
  {
    FirstMatchNone(s.roster, name.str);
  }

  /** Once the student is found, a missing month constant refuses the call;
      MONTHS_PRE must be defined even for a student without pre-track. */
  lemma RejectsMissingConstants(s: State, months: MonthConstants, name: JsValue, target: JsValue,
                                now: Instant, startDateFor: (Instant, real) -> DateText, saveOk: bool)
    requires NameAccepted(name) && PercentageAccepted(target) && s.rosterBound
    requires FirstMatch(s.roster, name.str).Some? && !months.Defined()
    ensures SetProgressSpec(s, months, name, target, now, startDateFor, saveOk) == Step(Rejected(ConstantsMissing), s)
  {
  }

  /** NaN gets past every guard; the date it produces is invalid, and
      toISOString throws before the record is written. */
  lemma NaNThrowsWithoutWriting(s: State, months: MonthConstants, name: JsValue,
                                now: Instant, startDateFor: (Instant, real) -> DateText, saveOk: bool)
    requires NameAccepted(name) && s.rosterBound && months.Defined()
    requires exists j :: 0 <= j < |s.roster| && Lower(s.roster[j].naam) == Lower(name.str)
    ensures SetProgressSpec(s, months, name, JsNaN, now, startDateFor, saveOk) == Step(InvalidTimeValue, s)
  {
    if FirstMatch(s.roster, name.str).None? {
      FirstMatchSound(s.roster, name.str);
    }
  }

  /** Every accepted call with a number finds the first student whose name
      equals the argument ignoring case, rewrites that student's start date
      and nothing else, and reports the old and new date, the target, the
      program length and the rounded elapsed months. */
  lemma SetProgressUpdatesFirstMatch(s: State, months: MonthConstants, name: JsValue, target: JsValue,
                                     now: Instant, startDateFor: (Instant, real) -> DateText, saveOk: bool, i: nat)
    requires NameAccepted(name) && target.JsNumber? && 0.0 <= target.num <= 100.0
    requires s.rosterBound && months.Defined()
    requires i < |s.roster| && Lower(s.roster[i].naam) == Lower(name.str)
    requires forall j :: 0 <= j < i ==> Lower(s.roster[j].naam) != Lower(name.str)
    ensures var r := SetProgressSpec(s, months, name, target, now, startDateFor, saveOk);
      var total := TotalMonths(s.roster[i].heeftVoortraject, months.pre.value, months.study.value, months.intern.value);
      && r.outcome.Updated?
      && |r.next.roster| == |s.roster|
      && (forall j :: 0 <= j < |s.roster| && j != i ==> r.next.roster[j] == s.roster[j])
      && r.next.roster[i].naam == s.roster[i].naam
      && r.next.roster[i].heeftVoortraject == s.roster[i].heeftVoortraject
      && r.next.roster[i].rest == s.roster[i].rest
      && r.next.roster[i].startdatum == startDateFor(now, MonthsElapsed(target.num, total))
      && r.outcome.result == ProgressResult(true, s.roster[i].naam, s.roster[i].startdatum,
                                            r.next.roster[i].startdatum, target.num, total,
                                            Round(MonthsElapsed(target.num, total)))
      && 0 <= r.outcome.result.monthsElapsed <= total
  {
    FirstMatchComplete(s.roster, name.str, i);
    var total := TotalMonths(s.roster[i].heeftVoortraject, months.pre.value, months.study.value, months.intern.value);
    RoundWithin(MonthsElapsed(target.num, total), total);
  }

  /** Two names that agree ignoring case give the same outcome and state. */
  lemma SetProgressCaseInsensitive(s: State, months: MonthConstants, a: string, b: string, target: JsValue,
                                   now: Instant, startDateFor: (Instant, real) -> DateText, saveOk: bool)
    requires Lower(a) == Lower(b)
    ensures SetProgressSpec(s, months, JsString(a), target, now, startDateFor, saveOk)
         == SetProgressSpec(s, months, JsString(b), target, now, startDateFor, saveOk)
  {
    SameLowerSameLength(a, b);
    FirstMatchCaseInsensitive(s.roster, a, b);
  }

  /** Passing a name already in lower case, as the lookup compares it, gives
      the same outcome and state as passing the name itself. */
  lemma SetProgressLoweredName(s: State, months: MonthConstants, a: string, target: JsValue,
                               now: Instant, startDateFor: (Instant, real) -> DateText, saveOk: bool)
    ensures SetProgressSpec(s, months, JsString(Lower(a)), target, now, startDateFor, saveOk)
         == SetProgressSpec(s, months, JsString(a), target, now, startDateFor, saveOk)
  {
    LowerIdempotent(a);
    SetProgressCaseInsensitive(s, months, Lower(a), a, target, now, startDateFor, saveOk);
  }

  /** A progress update never changes any student's program length: the
      pre-track flag is left as it was for every record. */
  lemma SetProgressKeepsProgramLength(s: State, months: MonthConstants, name: JsValue, target: JsValue,
                                      now: Instant, startDateFor: (Instant, real) -> DateText, saveOk: bool, j: nat)
    requires months.Defined() && j < |s.roster|
    ensures var r := SetProgressSpec(s, months, name, target, now, startDateFor, saveOk);
      j < |r.next.roster| &&
      TotalMonths(r.next.roster[j].heeftVoortraject, months.pre.value, months.study.value, months.intern.value)
        == TotalMonths(s.roster[j].heeftVoortraject, months.pre.value, months.study.value, months.intern.value)
  {
  }

  /** Repeating a successful call at the same instant leaves the state as the
      first call left it; the second report's old date is the first's new
      date, and its program length is the same. */
  lemma SetProgressRepeat(s: State, months: MonthConstants, name: JsValue, target: JsValue,
                          now: Instant, startDateFor: (Instant, real) -> DateText, saveOk: bool)
    requires SetProgressSpec(s, months, name, target, now, startDateFor, saveOk).outcome.Updated?
    ensures var first := SetProgressSpec(s, months, name, target, now, startDateFor, saveOk);
      var second := SetProgressSpec(first.next, months, name, target, now, startDateFor, saveOk);
      && second.next == first.next
      && second.outcome.Updated?
      && second.outcome.result.oldStartDate == first.outcome.result.newStartDate
      && second.outcome.result.totalMonths == first.outcome.result.totalMonths
  {
    var first := SetProgressSpec(s, months, name, target, now, startDateFor, saveOk);
    var i := FirstMatch(s.roster, name.str).value;
    FirstMatchOnlyReadsNames(s.roster, first.next.roster, name.str);
    assert first.next.roster[i := first.next.roster[i]] == first.next.roster;
  }

  // ---------------------------------------------------------------------
  // loadStudentDataFromStorage and resetStudentData
  // ---------------------------------------------------------------------

  /** loadStudentDataFromStorage: when the slot holds an array and
      STUDENTEN_DATA is an array, the roster becomes that array; otherwise
      nothing changes and the answer is false. The slot is only read. */
  function LoadSpec(s: State): (r: Reply)
    ensures r.ok <==> s.rosterBound && s.store.Some? && s.store.value.ArrayOf?
    ensures r.ok ==> r.next == s.(roster := s.store.value.records)
    ensures !r.ok ==> r.next == s
  {
    match s.store
    case Some(ArrayOf(records)) =>
      if s.rosterBound then Reply(true, s.(roster := records)) else Reply(false, s)
    case _ => Reply(false, s)
  }

  /** Loading twice in a row is loading once. */
  lemma LoadIdempotent(s: State)
    ensures LoadSpec(LoadSpec(s).next) == LoadSpec(s)
  {
  }

  /** After a successful progress update whose save succeeded, loading gives
      back exactly the roster in memory. */
  lemma LoadAfterSave(s: State, months: MonthConstants, name: JsValue, target: JsValue,
                      now: Instant, startDateFor: (Instant, real) -> DateText)
    requires SetProgressSpec(s, months, name, target, now, startDateFor, true).outcome.Updated?
    ensures var next := SetProgressSpec(s, months, name, target, now, startDateFor, true).next;
      LoadSpec(next) == Reply(true, next)
  {
  }

  /** resetStudentData: the slot is removed and the answer is true; when
      storage refuses (`removeOk` false) the answer is false. The roster in
      memory is never touched. */
  function ResetSpec(s: State, removeOk: bool): (r: Reply)
    ensures r.ok == removeOk
    ensures r.next.roster == s.roster && r.next.rosterBound == s.rosterBound
    ensures r.next.store == (if removeOk then None else s.store)
  {
    if removeOk then Reply(true, s.(store := None)) else Reply(false, s)
  }

  /** After a reset, loading finds nothing and keeps the roster in memory. */
  lemma ResetThenLoad(s: State)
    ensures LoadSpec(ResetSpec(s, true).next) == Reply(false, s.(store := None))
  {
  }
}
