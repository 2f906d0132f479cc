# Student progress roster, modelled in Dafny

`student.js` is a browser console script that works on a page-wide
array `STUDENTEN_DATA` of student records. Each record has a name (`naam`), a
start date (`startdatum`) and a pre-track flag (`heeftVoortraject`). The
script has three commands:

- `setStudentProgress(name, percentage)` checks its arguments and finds the
  first student whose name equals the argument when both are lowercased. It
  works out from the program length how many months must have passed for that
  percentage, and rewrites that student's start date to that many months
  before now. It then saves the roster to `localStorage` and returns a report,
  or `null` when a guard fails.
- `loadStudentDataFromStorage()` replaces the array's contents with the
  stored array, when the store holds an array.
- `resetStudentData()` removes the stored copy and leaves the array in memory
  alone.

The project has three modules:

- `Casing` (casing.dfy) models `toLowerCase`.
- `Roster` (roster.dfy) holds the records, the JavaScript argument values and
  the page state as datatypes. It defines the lookup as a recursive function,
  defines the three commands as functions from the old page state to a reply
  and the new state, and proves lemmas about them.
- `StudentPage` (student_page.dfy) holds a class `Page` with the page globals
  as fields: the roster as a `seq`, whether the roster global is bound, the
  storage slot as an `Option`, and the month constants. Its methods run the
  commands in place, and each one is proved equal to its function in `Roster`.

Inputs that come from outside the script are parameters:

- the clock reading `now`;
- the date arithmetic and ISO formatting, as a function
  `startDateFor(now, monthsElapsed)`;
- whether `localStorage.setItem` or `removeItem` succeeds, as `saveOk` and
  `removeOk`.

A JavaScript argument is a `JsValue`: a string, an exact number, `NaN`, or any
other value. `NaN` gets its own case because every comparison with it is
false, so it passes the range check on line 18. The lookup and the constant
check still run. Then `setMonth(NaN)` produces an invalid date, and
`toISOString` (line 62) throws a `RangeError`, all before the record is
written. The model returns `InvalidTimeValue` for this and leaves the state as
it was. The JSDoc on student.js:9 promises an object, or `null` on error;
with `NaN` the code throws instead, and the model follows the code. This is
the one throwing path the model covers; the others are listed under
"## Left out".

## Model

| member | source | states |
|---|---|---|
| `Casing.LowerChar` | student.js:31 | the lowercased character is never an upper-case letter; characters that are not upper-case letters are kept; an upper-case letter moves to its lower-case partner |
| `Casing.Lower` | student.js:31 | `toLowerCase` keeps the length and lowercases each character in place |
| `Casing.LowerIdempotent` | student.js:31 | lowercasing an already lowercased name changes nothing |
| `Casing.SameLowerSameLength` | student.js:13-16 | names equal ignoring case have the same length, so either both are empty or neither is |
| `Roster.FirstMatch` | student.js:30-32 | the index `find` returns is in range and its record's lowercased name equals the lowercased key |
| `Roster.FirstMatchSound` | student.js:30-38 | no record before the found index matches; when nothing is found, no record matches |
| `Roster.FirstMatchComplete` | student.js:30-32 | the first matching index is exactly what the lookup returns |
| `Roster.FirstMatchNone` | student.js:30-38 | when no record matches, the lookup returns nothing |
| `Roster.FirstMatchCaseInsensitive` | student.js:30-32 | two keys equal ignoring case find the same record |
| `Roster.FirstMatchOnlyReadsNames` | student.js:30-32 | rosters with the same names in the same order give the same lookup result whatever their other fields hold |
| `Roster.NameAccepted` | student.js:13 | a name passes the first guard exactly when it is a non-empty string |
| `Roster.PercentageAccepted` | student.js:18 | a number passes exactly when it lies in [0, 100]; `NaN` passes, because every comparison with it is false; strings and every other value fail |
| `Roster.Matches` | student.js:31 | a record always matches its own exact name; names that match ignoring case have the same length |
| `Roster.TotalMonths` | student.js:49-51 | the program lasts `MONTHS_PRE + MONTHS_STUDY + MONTHS_INTERN` months with pre-track and `MONTHS_STUDY + MONTHS_INTERN` months without |
| `Roster.MonthsElapsed` | student.js:54 | for a percentage in [0, 100] the elapsed months lie in [0, totalMonths]; 0% gives 0 months and 100% gives the whole program |
| `Roster.MonthsElapsedInverse` | student.js:54 | reading the elapsed months back as a share of the program gives the requested percentage; a larger percentage never gives fewer months |
| `Roster.Round` | student.js:109 | `Math.round` gives the nearest integer, with halves rounded up |
| `Roster.RoundWithin` | student.js:109 | the rounded elapsed months stay within [0, totalMonths] |
| `Roster.SetProgressSpec` | student.js:11-111 | every outcome other than a successful update leaves the page state as it was; a success keeps the roster's length and the roster binding, and saves the new roster exactly when the save succeeds |
| `Roster.RejectsInvalidName` | student.js:13-16 | a name that is missing, not a string, or empty gives null before any other check, with no change |
| `Roster.RejectsPercentageBeforeLookup` | student.js:18-21 | a non-number, or a number outside [0, 100] such as 150, gives null before the lookup, with no change |
| `Roster.RejectsMissingRoster` | student.js:23-27 | without a `STUDENTEN_DATA` array the call gives null, with no change |
| `Roster.RejectsUnknownStudent` | student.js:29-38 | a name no record matches in any casing gives null with no change, even when the constants are missing |
| `Roster.RejectsMissingConstants` | student.js:40-46 | once the student is found, a missing month constant gives null with no change; `MONTHS_PRE` is required even for a student without pre-track |
| `Roster.NaNThrowsWithoutWriting` | student.js:18-62 | `NaN` passes every guard and ends in the `RangeError` from `toISOString`, with the roster and the store unchanged |
| `Roster.SetProgressUpdatesFirstMatch` | student.js:48-110 | an accepted call rewrites only the first matching record's start date, to the date computed from the elapsed months. Every other record and the record's other fields stay the same. The report gives success, the record's name, the old and new dates, the target, the program length, and `Math.round` of the elapsed months, which lies within [0, totalMonths] |
| `Roster.SetProgressKeepsProgramLength` | student.js:49-51 | after any call, every record's program length is the same as before, because the pre-track flag is never rewritten |
| `Roster.SetProgressLoweredName` | student.js:30-32 | passing the lower-case form of a name gives the same outcome and new state as passing the name itself |
| `Roster.SetProgressCaseInsensitive` | student.js:30-32 | names that agree ignoring case give the same outcome and the same new state |
| `Roster.SetProgressRepeat` | student.js:65-68 | repeating a successful call at the same instant leaves the state as the first call left it; the second report's old date is the first report's new date, and the program length is the same |
| `Roster.LoadSpec` | student.js:117-136 | loading succeeds exactly when the store holds an array and the roster global is bound; the roster then becomes exactly that array, otherwise nothing changes; the store is never changed |
| `Roster.LoadIdempotent` | student.js:117-136 | loading twice in a row gives the same answer and the same roster as loading once |
| `Roster.LoadAfterSave` | student.js:71-76 | after a successful update whose save succeeds, loading gives back exactly the roster in memory |
| `Roster.ResetSpec` | student.js:142-150 | reset returns true and empties the storage slot, or returns false and changes nothing when storage refuses; the roster in memory is never touched |
| `Roster.ResetThenLoad` | student.js:142-150 | after a reset, loading returns false and the roster in memory stays as it was |
| `StudentPage.Page.Find` | student.js:30-32 | the search loop returns the first index whose record matches the key ignoring case, or nothing when no record matches |
| `StudentPage.Page.SetStudentProgress` | student.js:11-111 | running the guards, the lookup and the in-place update gives exactly the outcome and new state that `SetProgressSpec` gives |
| `StudentPage.Page.LoadStudentDataFromStorage` | student.js:117-136 | emptying and refilling the roster in place gives exactly the answer and state that `LoadSpec` gives |
| `StudentPage.Page.ResetStudentData` | student.js:142-150 | changes only the storage slot, exactly as `ResetSpec` says |

`StudentPage.SamAtSeventyFivePercent` restates the demonstration call on
student.js:187-188. student.js defines no month constants, so the durations
3, 18 and 6 are chosen for the example. It shows that 75% for
"sam" moves Sam's start date back 20.25 months, and that the report gives 27
months in total of which 20 have passed. It also shows that 150% is refused
before the lookup.

## Left out

- Console output, which is display only (student.js:14, 19, 25, 35-36, 44,
  73-75, 81, 88-98, 126, 130, 133, 145, 148). This includes `showAllProgress`
  (student.js:156-171) and the help text (student.js:199-207). The `Refusal`
  carried by a rejected outcome records which error message the call would
  print.
- `calculateProgress` is not part of this model, because student.js calls it
  without defining it. So the report leaves out `actualPercentage` and
  `currentPhase` (student.js:85, 106-107).
- The `applyFilters` hook (student.js:79-82): an optional external callback
  with no effect on the roster or the result.
- Exceptions on the success path are not modelled. On the page they can
  happen after the record is written (line 68) and saved (line 72), so the
  caller gets an exception although the state has changed:
  - If the page defines no `calculateProgress`, line 85 throws a
    `ReferenceError`.
  - An `applyFilters` that throws propagates out of line 80.
- Month constants large enough to push the new date outside the range of
  `Date` would make `toISOString` throw a `RangeError` at line 62, before the
  write. The model gives those a success outcome with whatever date
  `startDateFor` returns.
- `push(...parsed)` on an array longer than the engine's argument limit throws
  after `length = 0` has emptied the roster. The load then returns false with
  the roster empty (student.js:124-134). The model's load always refills the
  roster.
- `Date` arithmetic and ISO formatting (student.js:57-62) are the parameter
  `startDateFor`. This includes `setMonth` with a fractional month and the UTC
  shift of `toISOString`. The only case of them that is modelled is the
  `RangeError` for `NaN`.
- JSON serialising and parsing and `localStorage` access (student.js:71-76,
  119-121). The store holds parsed values. Stored text that is empty, not
  JSON, or JSON of a non-array is `NotAnArray`: the load reports false and
  changes nothing, as it does when reading throws. A stored array whose
  elements are not student records is not modelled.
- Floating point: percentages and months are exact reals, so the rounding
  error of `targetPercentage / 100 * totalMonths` is not modelled.
- `Casing.LowerChar`: lowers only the upper-case letters of ASCII and Latin-1.
  Characters of other scripts that `toLowerCase` changes are kept as they are.
- `Casing.Lower`: has the same character scope, and the special cases of
  `toLowerCase` that change a string's length are not modelled.
- Records are values. The object identity that `find` returns is not
  modelled, nor the aliasing of one record object between the array and
  other references. The update is the array with one element replaced.
- A `STUDENTEN_DATA` that is declared but is not an array is not modelled.
  `rosterBound` false stands for a global that is not declared. Then
  `setStudentProgress` refuses, and the load's `length = 0` throws a
  `ReferenceError` that is caught, so the load reports false.
- Page events and the timer (student.js:178-193) are not modelled, apart from
  the demonstration call restated by `StudentPage.SamAtSeventyFivePercent`.
