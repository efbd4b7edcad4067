/**
 * The grid extractor of the timetable importer: the class timetable page, reduced
 * to its title and the collected, trimmed text of every table cell, is walked row
 * by row and cell by cell, and each course entry found in a cell becomes one or
 * more course records.
 */
module Timetable {
  import opened Wrappers
  import opened RustStd
  import opened Schedule

  /** Why the walk produced no course list. */
  datatype Failure =
    | LoginExpired                                  // the page is the login page: the session has expired
    | UnwrapPanic(weeks: string, cause: WeekError)  // a weeks line has no week range; the walk panics on it

  /** A title containing this marks the login page. */
  const LoginMarker: string := "登录"

  /** Lines per course entry in a cell. */
  const EntryLines: nat := 5

  /** Period slots per day: the table's columns after the label run day by day, five slots each. */
  const SlotsPerDay: nat := 5

  /** The four lines of a course entry that are read; the fifth is ignored. */
  datatype Draft = Draft(name: string, teacher: string, weeks: string, location: string)

  /** Line `k` of an entry, or `default` when the entry is shorter. */
  function LineOr(entry: seq<string>, k: nat, default: string): string {
    if k < |entry| then entry[k] else default
  }

  /** An entry read as name, teacher, weeks and location, missing lines replaced by their defaults. */
  function DraftOf(entry: seq<string>): Draft {
    Draft(LineOr(entry, 0, "None"), LineOr(entry, 1, "None"), LineOr(entry, 2, "None"), LineOr(entry, 3, "Unknown"))
  }

  /** The one-week course a member week of an irregular week set becomes. */
  function WeekCourse(d: Draft, className: string, week: nat, timeslot: nat, w: nat): Course {
    Course(d.name, className, d.teacher, w, w, Full, d.location, week, timeslot)
  }

  /** One one-week course per listed week, in the listed order. */
  function PerWeek(d: Draft, className: string, week: nat, timeslot: nat, ws: seq<nat>): seq<Course> {
    if ws == [] then []
    else PerWeek(d, className, week, timeslot, ws[..|ws| - 1]) + [WeekCourse(d, className, week, timeslot, ws[|ws| - 1])]
  }

  /**
   * The courses an entry with a week range becomes: an irregular set is spread
   * over one course per member week in ascending order; any other class is one
   * course with the range's span and class.
   */
  function Expand(d: Draft, className: string, week: nat, timeslot: nat, range: WeekRange): seq<Course> {
    if range.weekType == Multiple then PerWeek(d, className, week, timeslot, SortedWeeks(range.allWeeks))
    else [Course(d.name, className, d.teacher, range.startWeek, range.endWeek, range.weekType, d.location, week, timeslot)]
  }

  /** The courses of one entry, or the panic its weeks line causes. */
  function EntryCourses(entry: seq<string>, className: string, week: nat, timeslot: nat): Result<seq<Course>, Failure> {
    var d := DraftOf(entry);
    match WeeksOf(d.weeks)
    case Err(e) => Err(UnwrapPanic(d.weeks, e))
    case Ok(weeks) =>
      match FromWeeks(weeks)
      case Err(e) => Err(UnwrapPanic(d.weeks, e))
      case Ok(range) => Ok(Expand(d, className, week, timeslot, range))
  }

  /** Appends what comes next to what is done; the first failure stops the walk. */
  function Then(done: Result<seq<Course>, Failure>, next: Result<seq<Course>, Failure>): Result<seq<Course>, Failure> {
    match done
    case Err(e) => Err(e)
    case Ok(earlier) =>
      match next
      case Err(e) => Err(e)
      case Ok(later) => Ok(earlier + later)
  }

  /**
   * The courses of the first `n` items, item `k` read by `read(k, items[k])`, taken
   * in order: each item's courses are appended, and the first failure stops the walk.
   */
  function Walk<T>(items: seq<T>, n: nat, read: (nat, T) -> Result<seq<Course>, Failure>): Result<seq<Course>, Failure>
    requires n <= |items|
  {
    if n == 0 then Ok([]) else Then(Walk(items, n - 1, read), read(n - 1, items[n - 1]))
  }

  /** Reads the entries of the cell at day `week`, slot `timeslot` of the row labelled `className`. */
  function EntryReader(className: string, week: nat, timeslot: nat): (nat, seq<string>) -> Result<seq<Course>, Failure> {
    (k: nat, entry: seq<string>) => EntryCourses(entry, className, week, timeslot)
  }

  /** The lines of a cell's text grouped into entries of five. */
  function EntriesOf(text: string): seq<seq<string>> {
    Chunks(Split(text, '\n'), EntryLines)
  }

  /** The label of a row: the text of its first cell, empty for a row without cells. */
  function Label(row: seq<string>): string {
    if row == [] then "" else row[0]
  }

  /**
   * The courses of cell `j`, holding `text`, of a row of `count` cells labelled
   * `className`. The label cell and the last cell hold none, nor does a cell left
   * empty once every occurrence of the label is removed; any other cell's entries
   * belong to day `(j - 1) / 5`, slot `(j - 1) % 5`.
   */
  function CellCourses(className: string, count: nat, j: nat, text: string): Result<seq<Course>, Failure> {
    if j == 0 || j == count - 1 then Ok([])
    else
      var rest := RemoveAll(text, className);
      if rest == [] then Ok([])
      else
        var entries := EntriesOf(rest);
        Walk(entries, |entries|, EntryReader(className, (j - 1) / SlotsPerDay, (j - 1) % SlotsPerDay))
  }

  /** Reads the cells of a row of `count` cells labelled `className`. */
  function CellReader(className: string, count: nat): (nat, string) -> Result<seq<Course>, Failure> {
    (j: nat, text: string) => CellCourses(className, count, j, text)
  }

  /** The courses of a row: its cells read in order under its label. */
  function CellsCourses(row: seq<string>): Result<seq<Course>, Failure> {
    Walk(row, |row|, CellReader(Label(row), |row|))
  }

  /** The courses of row `i` of the table: the two header rows hold none. */
  function RowCourses(i: nat, row: seq<string>): Result<seq<Course>, Failure> {
    if i < 2 then Ok([]) else CellsCourses(row)
  }

  /** What the page yields: the login page fails, a page without the timetable yields nothing. */
  function Extract(title: string, table: Option<seq<seq<string>>>): Result<seq<Course>, Failure> {
    if Contains(title, LoginMarker) then Err(LoginExpired)
    else
      match table
      case None => Ok([])
      case Some(rows) => Walk(rows, |rows|, RowCourses)
  }

  // ---------------------------------------------------------------------------
  // The walk
  // ---------------------------------------------------------------------------

  /** Appends the courses of an entry with a week range, one per week in ascending order for an irregular set. */
  method AppendExpanded(courses: seq<Course>, d: Draft, className: string, week: nat, timeslot: nat, range: WeekRange)
    returns (added: seq<Course>)
    ensures added == courses + Expand(d, className, week, timeslot, range)
  {
    if range.weekType == Multiple {
      var ws := SortedWeeks(range.allWeeks);
      added := courses;
      for k := 0 to |ws|
        invariant added == courses + PerWeek(d, className, week, timeslot, ws[..k])
      {
        PerWeekSnoc(d, className, week, timeslot, ws, k);
        AppendAssoc(courses, PerWeek(d, className, week, timeslot, ws[..k]), [WeekCourse(d, className, week, timeslot, ws[k])]);
        added := added + [WeekCourse(d, className, week, timeslot, ws[k])];
      }
      assert ws[..|ws|] == ws;
    } else {
      added := courses + [Course(d.name, className, d.teacher, range.startWeek, range.endWeek, range.weekType, d.location, week, timeslot)];
    }
  }

  lemma PerWeekSnoc(d: Draft, className: string, week: nat, timeslot: nat, ws: seq<nat>, k: nat)
    requires k < |ws|
    ensures PerWeek(d, className, week, timeslot, ws[..k + 1]) == PerWeek(d, className, week, timeslot, ws[..k]) + [WeekCourse(d, className, week, timeslot, ws[k])]
  {
    assert ws[..k + 1][..k] == ws[..k];
  }

  lemma AppendAssoc(a: seq<Course>, b: seq<Course>, c: seq<Course>)
    ensures a + b + c == a + (b + c)
  {
  }

  /** Reads one entry's lines, parses its weeks line and appends its courses; a weeks line without a week range panics. */
  method EmitEntry(courses: seq<Course>, entry: seq<string>, className: string, week: nat, timeslot: nat)
    returns (r: Result<seq<Course>, Failure>)
    ensures r == Then(Ok(courses), EntryCourses(entry, className, week, timeslot))
  {
    var name := if |entry| > 0 then entry[0] else "None";
    var teacher := if |entry| > 1 then entry[1] else "None";
    var weeksText := if |entry| > 2 then entry[2] else "None";
    var location := if |entry| > 3 then entry[3] else "Unknown";
    var d := Draft(name, teacher, weeksText, location);
    assert d == DraftOf(entry);
    var parsed := ParseWeeks(weeksText);
    if parsed.Err? {
      return Err(UnwrapPanic(weeksText, parsed.error));
    }
    var range := FromWeeks(parsed.value);
    if range.Err? {
      return Err(UnwrapPanic(weeksText, range.error));
    }
    var added := AppendExpanded(courses, d, className, week, timeslot, range.value);
    return Ok(added);
  }

  /** Appends the courses of a cell's entries, one entry after the other, stopping at the first that panics. */
  method EmitEntries(courses: seq<Course>, entries: seq<seq<string>>, className: string, week: nat, timeslot: nat)
    returns (r: Result<seq<Course>, Failure>)
    ensures r == Then(Ok(courses), Walk(entries, |entries|, EntryReader(className, week, timeslot)))
  {
    var added := courses;
    ThenUnit(courses);
    for k := 0 to |entries|
      invariant Then(Ok(courses), Walk(entries, k, EntryReader(className, week, timeslot))) == Ok(added)
    {
      var next := EmitEntry(added, entries[k], className, week, timeslot);
      EntryStep(courses, entries, k, className, week, timeslot, added, next);
      if next.Err? {
        return next;
      }
      added := next.value;
    }
    return Ok(added);
  }

  /**
   * Reads cell `j > 0`, holding `text`, of a row of `count` cells labelled
   * `className`: every occurrence of the label is removed, and text that is left in
   * a cell other than the last is split into lines and read in entries of five.
   */
  method EmitCell(courses: seq<Course>, className: string, count: nat, j: nat, text: string)
    returns (r: Result<seq<Course>, Failure>)
    requires 0 < j
    ensures r == Then(Ok(courses), CellCourses(className, count, j, text))
  {
    var rest := RemoveAll(text, className);
    if rest != [] && j != count - 1 {
      var lines := Split(rest, '\n');
      var slot: nat := j - 1;
      var week := slot / SlotsPerDay;
      var timeslot := slot % SlotsPerDay;
      var entries := Chunks(lines, EntryLines);
      r := EmitEntries(courses, entries, className, week, timeslot);
      ReadCell(className, count, j, text, courses, r, entries, week, timeslot);
    } else {
      r := Ok(courses);
      SkippedCell(className, count, j, text, courses);
    }
  }

  /**
   * Reads cell `j` of `row` with `className` the label read so far: cell 0 sets the
   * label and yields nothing; every other cell is read under the label.
   */
  method EmitRowCell(added: seq<Course>, row: seq<string>, j: nat, className: string)
    returns (next: Result<seq<Course>, Failure>, rowLabel: string)
    requires j < |row| && (j > 0 ==> className == Label(row))
    ensures rowLabel == Label(row)
    ensures next == Then(Ok(added), CellCourses(Label(row), |row|, j, row[j]))
  {
    if j == 0 {
      rowLabel := row[0];
      next := Ok(added);
      SkippedCell(Label(row), |row|, j, row[j], added);
    } else {
      rowLabel := className;
      next := EmitCell(added, className, |row|, j, row[j]);
    }
  }

  /** Walks the cells of one row; cell 0 is the row's label, and holds no courses itself. */
  method EmitRow(courses: seq<Course>, row: seq<string>) returns (r: Result<seq<Course>, Failure>)
    ensures r == Then(Ok(courses), CellsCourses(row))
  {
    var added := courses;
    ThenUnit(courses);
    var className := "";
    for j := 0 to |row|
      invariant Then(Ok(courses), Walk(row, j, CellReader(Label(row), |row|))) == Ok(added)
      invariant j > 0 ==> className == Label(row)
    {
      var next;
      next, className := EmitRowCell(added, row, j, className);
      CellStep(courses, row, j, added, next);
      if next.Err? {
        return next;
      }
      added := next.value;
    }
    RowDone(courses, row, added);
    return Ok(added);
  }

  /** Walks the table's rows after the two header rows; the login page fails before any row is read. */
  method ParseClassesCourseInfo(title: string, table: Option<seq<seq<string>>>) returns (r: Result<seq<Course>, Failure>)
    ensures r == Extract(title, table)
  {
    if Contains(title, LoginMarker) {
      return Err(LoginExpired);
    }
    var courses: seq<Course> := [];
    if table.Some? {
      var rows := table.value;
      for i := 0 to |rows|
        invariant Walk(rows, i, RowCourses) == Ok(courses)
      {
        if i < 2 {
          HeaderRowStep(rows, i, courses);
          continue;
        }
        var next := EmitRow(courses, rows[i]);
        RowStep(rows, i, courses, next);
        if next.Err? {
          ExtractRows(title, table);
          return next;
        }
        courses := next.value;
      }
      ExtractRows(title, table);
    }
    return Ok(courses);
  }

  /** One entry more: what the entry yields is appended, and its failure is the cell's. */
  lemma EntryStep(courses: seq<Course>, entries: seq<seq<string>>, k: nat, className: string, week: nat, timeslot: nat,
                  added: seq<Course>, next: Result<seq<Course>, Failure>)
    requires k < |entries|
    requires Then(Ok(courses), Walk(entries, k, EntryReader(className, week, timeslot))) == Ok(added)
    requires next == Then(Ok(added), EntryCourses(entries[k], className, week, timeslot))
    ensures next == Then(Ok(courses), Walk(entries, k + 1, EntryReader(className, week, timeslot)))
    ensures next.Err? ==> next == Then(Ok(courses), Walk(entries, |entries|, EntryReader(className, week, timeslot)))
  {
    assert EntryReader(className, week, timeslot)(k, entries[k]) == EntryCourses(entries[k], className, week, timeslot);
    WalkAdvance(entries, k, EntryReader(className, week, timeslot), courses, added, next);
  }

  /** One cell more: what the cell yields is appended, and its failure is the row's. */
  lemma CellStep(courses: seq<Course>, row: seq<string>, j: nat, added: seq<Course>, next: Result<seq<Course>, Failure>)
    requires j < |row|
    requires Then(Ok(courses), Walk(row, j, CellReader(Label(row), |row|))) == Ok(added)
    requires next == Then(Ok(added), CellCourses(Label(row), |row|, j, row[j]))
    ensures next == Then(Ok(courses), Walk(row, j + 1, CellReader(Label(row), |row|)))
    ensures next.Err? ==> next == Then(Ok(courses), CellsCourses(row))
  {
    assert CellReader(Label(row), |row|)(j, row[j]) == CellCourses(Label(row), |row|, j, row[j]);
    WalkAdvance(row, j, CellReader(Label(row), |row|), courses, added, next);
  }

  /** The walk over all of a row's cells is the row's courses. */
  lemma RowDone(courses: seq<Course>, row: seq<string>, added: seq<Course>)
    requires Then(Ok(courses), Walk(row, |row|, CellReader(Label(row), |row|))) == Ok(added)
    ensures Then(Ok(courses), CellsCourses(row)) == Ok(added)
  {
  }

  /** A header row adds nothing. */
  lemma HeaderRowStep(rows: seq<seq<string>>, i: nat, courses: seq<Course>)
    requires i < 2 && i < |rows| && Walk(rows, i, RowCourses) == Ok(courses)
    ensures Walk(rows, i + 1, RowCourses) == Ok(courses)
  {
    ThenUnit(courses);
  }

  /** One row more after the headers: what the row yields is appended, and its failure is the table's. */
  lemma RowStep(rows: seq<seq<string>>, i: nat, courses: seq<Course>, next: Result<seq<Course>, Failure>)
    requires 2 <= i < |rows| && Walk(rows, i, RowCourses) == Ok(courses)
    requires next == Then(Ok(courses), CellsCourses(rows[i]))
    ensures next == Walk(rows, i + 1, RowCourses)
    ensures next.Err? ==> next == Walk(rows, |rows|, RowCourses)
  {
    ThenFromEmpty(Walk(rows, i, RowCourses));
    WalkAdvance(rows, i, RowCourses, [], courses, next);
    ThenFromEmpty(Walk(rows, i + 1, RowCourses));
    ThenFromEmpty(Walk(rows, |rows|, RowCourses));
  }

  /** Past the login check, a page with the timetable yields the walk over its rows. */
  lemma ExtractRows(title: string, table: Option<seq<seq<string>>>)
    requires !Contains(title, LoginMarker) && table.Some?
    ensures Extract(title, table) == Walk(table.value, |table.value|, RowCourses)
  {
  }

  /** A cell other than the label and the last cell that keeps some text is read entry by entry. */
  lemma ReadCell(className: string, count: nat, j: nat, text: string, courses: seq<Course>, r: Result<seq<Course>, Failure>,
                 entries: seq<seq<string>>, week: nat, timeslot: nat)
    requires 0 < j && j != count - 1 && RemoveAll(text, className) != []
    requires entries == Chunks(Split(RemoveAll(text, className), '\n'), EntryLines)
    requires week == (j - 1) / SlotsPerDay && timeslot == (j - 1) % SlotsPerDay
    requires r == Then(Ok(courses), Walk(entries, |entries|, EntryReader(className, week, timeslot)))
    ensures r == Then(Ok(courses), CellCourses(className, count, j, text))
  {
  }

  /** The last cell, and a cell left empty once the label is removed, hold no courses. */
  lemma SkippedCell(className: string, count: nat, j: nat, text: string, courses: seq<Course>)
    requires j == 0 || j == count - 1 || RemoveAll(text, className) == []
    ensures Then(Ok(courses), CellCourses(className, count, j, text)) == Ok(courses)
  {
    assert CellCourses(className, count, j, text) == Ok([]);
    ThenUnit(courses);
  }

  // ---------------------------------------------------------------------------
  // Appending, and failures stop the walk
  // ---------------------------------------------------------------------------

  /** Nothing appended leaves the list as it is. */
  lemma ThenUnit(courses: seq<Course>)
    ensures Then(Ok(courses), Ok([])) == Ok(courses)
  {
    assert courses + [] == courses;
  }

  /** Appending to the empty list is what is appended. */
  lemma ThenFromEmpty(next: Result<seq<Course>, Failure>)
    ensures Then(Ok([]), next) == next
  {
    if next.Ok? {
      assert [] + next.value == next.value;
    }
  }

  /** Appending is associative, failures included. */
  lemma ThenAssoc(a: Result<seq<Course>, Failure>, b: Result<seq<Course>, Failure>, c: Result<seq<Course>, Failure>)
    ensures Then(Then(a, b), c) == Then(a, Then(b, c))
  {
    if a.Ok? && b.Ok? && c.Ok? {
      assert a.value + b.value + c.value == a.value + (b.value + c.value);
    }
  }

  /** One item more appends what that item yields to what the walk has built so far. */
  lemma WalkStep<T>(items: seq<T>, n: nat, read: (nat, T) -> Result<seq<Course>, Failure>, courses: seq<Course>, added: seq<Course>)
    requires n < |items| && Then(Ok(courses), Walk(items, n, read)) == Ok(added)
    ensures Then(Ok(courses), Walk(items, n + 1, read)) == Then(Ok(added), read(n, items[n]))
  {
    ThenAssoc(Ok(courses), Walk(items, n, read), read(n, items[n]));
  }

  /** One item more: its courses are appended, and once that fails the whole walk fails the same way. */
  lemma WalkAdvance<T>(items: seq<T>, n: nat, read: (nat, T) -> Result<seq<Course>, Failure>, courses: seq<Course>,
                       added: seq<Course>, next: Result<seq<Course>, Failure>)
    requires n < |items| && Then(Ok(courses), Walk(items, n, read)) == Ok(added)
    requires next == Then(Ok(added), read(n, items[n]))
    ensures next == Then(Ok(courses), Walk(items, n + 1, read))
    ensures next.Err? ==> next == Then(Ok(courses), Walk(items, |items|, read))
  {
    WalkStep(items, n, read, courses, added);
    if next.Err? {
      WalkFailureSticks(items, n + 1, read, courses);
    }
  }

  /** Once the walk over the first `n` items fails, the whole walk fails the same way. */
  lemma {:induction false} WalkFailureSticks<T>(items: seq<T>, n: nat, read: (nat, T) -> Result<seq<Course>, Failure>, courses: seq<Course>)
    requires n <= |items| && Then(Ok(courses), Walk(items, n, read)).Err?
    ensures Then(Ok(courses), Walk(items, |items|, read)) == Then(Ok(courses), Walk(items, n, read))
    decreases |items| - n
  {
    if n < |items| {
      assert Walk(items, n + 1, read) == Walk(items, n, read);
      WalkFailureSticks(items, n + 1, read, courses);
    }
  }
}
