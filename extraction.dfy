/**
 * What the grid extractor promises about the courses it yields: every course can
 * be stored, sits under the label and in the day and slot of the cell it was read
 * from, an irregular week set is spread over one course per week, and the list
 * only ever grows at its end.
 */
module Extraction {
  import opened Wrappers
  import opened RustStd
  import opened Schedule
  import opened Timetable

  // ---------------------------------------------------------------------------
  // What a course and a list of courses must satisfy
  // ---------------------------------------------------------------------------

  /** The table column a course's day and slot belong to: after the label column, five slots a day. */
  function Column(c: Course): nat {
    c.week * SlotsPerDay + c.index + 1
  }

  /**
   * A course the database layer can store: its class has a `week_type` column
   * value, its span runs forward over `u32` weeks, and its slot is one of the day's.
   */
  predicate Storable(c: Course) {
    c.weekType != Multiple && c.startWeek <= c.endWeek <= U32_MAX && c.index < SlotsPerDay
  }

  /** Every course of a walk that went through satisfies `good`; a walk that failed panicked on a weeks line. */
  predicate Each(r: Result<seq<Course>, Failure>, good: Course -> bool) {
    match r
    case Ok(cs) => forall c :: c in cs ==> good(c)
    case Err(e) => e.UnwrapPanic?
  }

  /** Storable and read from day `week`, slot `timeslot` of the row labelled `className`. */
  function PlacedAt(className: string, week: nat, timeslot: nat): Course -> bool {
    c => Storable(c) && c.className == className && c.week == week && c.index == timeslot
  }

  /** Storable and read from a cell of `row` strictly between its label and its last cell. */
  function FromRow(row: seq<string>): Course -> bool {
    c => Storable(c) && c.className == Label(row) && Column(c) < |row| - 1
  }

  /** Storable, under the label of `row`, and read from its cell `j`: day `(j - 1) / 5`, slot `(j - 1) % 5`. */
  function FromCell(row: seq<string>, j: nat): Course -> bool {
    c => FromRow(row)(c) && Column(c) == j && c.week == (j - 1) / SlotsPerDay && c.index == (j - 1) % SlotsPerDay
  }

  /** Storable and read from a row of `table` after its two header rows. */
  function FromTable(table: seq<seq<string>>): Course -> bool {
    c => Storable(c) && exists i :: 2 <= i < |table| && FromRow(table[i])(c)
  }

  /** Appending keeps what holds of both parts. */
  lemma ThenKeeps(a: Result<seq<Course>, Failure>, b: Result<seq<Course>, Failure>, good: Course -> bool)
    requires Each(a, good) && Each(b, good)
    ensures Each(Then(a, b), good)
  {
  }

  /** What holds of every course under a stronger condition holds under a weaker one. */
  lemma EachWeaken(r: Result<seq<Course>, Failure>, good: Course -> bool, weaker: Course -> bool)
    requires Each(r, good) && forall c :: good(c) ==> weaker(c)
    ensures Each(r, weaker)
  {
  }

  // ---------------------------------------------------------------------------
  // Walks in general
  // ---------------------------------------------------------------------------

  /** A walk whose every item yields good courses, or panics, yields good courses or panics. */
  lemma {:induction false} WalkKeeps<T>(items: seq<T>, n: nat, read: (nat, T) -> Result<seq<Course>, Failure>, good: Course -> bool)
    requires n <= |items|
    requires forall k :: 0 <= k < |items| ==> Each(read(k, items[k]), good)
    ensures Each(Walk(items, n, read), good)
  {
    if n > 0 {
      WalkKeeps(items, n - 1, read, good);
      ThenKeeps(Walk(items, n - 1, read), read(n - 1, items[n - 1]), good);
    }
  }

  /**
   * Courses are only appended: when the walk over the first `m` items goes through,
   * so does the walk over the first `n <= m`, and what it yields begins what the
   * longer walk yields.
   */
  lemma {:induction false} WalkPrefix<T>(items: seq<T>, n: nat, m: nat, read: (nat, T) -> Result<seq<Course>, Failure>)
    requires n <= m <= |items| && Walk(items, m, read).Ok?
    ensures Walk(items, n, read).Ok? && Walk(items, n, read).value <= Walk(items, m, read).value
    decreases m - n
  {
    if n < m {
      WalkPrefix(items, n + 1, m, read);
    }
  }

  /** Two walks whose items are read alike yield the same. */
  lemma {:induction false} WalkAgrees<T>(items: seq<T>, other: seq<T>, n: nat, read: (nat, T) -> Result<seq<Course>, Failure>)
    requires n <= |items| && n <= |other|
    requires forall k :: 0 <= k < n ==> read(k, items[k]) == read(k, other[k])
    ensures Walk(items, n, read) == Walk(other, n, read)
  {
    if n > 0 {
      WalkAgrees(items, other, n - 1, read);
    }
  }

  // ---------------------------------------------------------------------------
  // Expansion by week class
  // ---------------------------------------------------------------------------

  /** One course per listed week, in the listed order. */
  lemma {:induction false} PerWeekShape(d: Draft, className: string, week: nat, timeslot: nat, ws: seq<nat>)
    ensures |PerWeek(d, className, week, timeslot, ws)| == |ws|
    ensures forall k :: 0 <= k < |ws| ==> PerWeek(d, className, week, timeslot, ws)[k] == WeekCourse(d, className, week, timeslot, ws[k])
  {
    if ws != [] {
      var init := ws[..|ws| - 1];
      PerWeekShape(d, className, week, timeslot, init);
      assert forall k :: 0 <= k < |init| ==> ws[k] == init[k];
    }
  }

  /** An irregular set spread over its weeks: course `k` is the one-week course of the `k`-th smallest week. */
  lemma Spread(d: Draft, className: string, week: nat, timeslot: nat, weeks: set<nat>)
    ensures |PerWeek(d, className, week, timeslot, SortedWeeks(weeks))| == |weeks|
    ensures forall k :: 0 <= k < |weeks| ==>
              && PerWeek(d, className, week, timeslot, SortedWeeks(weeks))[k] == WeekCourse(d, className, week, timeslot, SortedWeeks(weeks)[k])
              && SortedWeeks(weeks)[k] in weeks
  {
    var ws := SortedWeeks(weeks);
    PerWeekShape(d, className, week, timeslot, ws);
    forall k | 0 <= k < |weeks| ensures ws[k] in weeks {
      assert ws[k] in ws;
    }
  }

  /**
   * An irregular set becomes one Full one-week course per member week and no
   * other, in ascending order, each keeping the entry's lines and its cell.
   */
  lemma SpreadShape(d: Draft, className: string, week: nat, timeslot: nat, weeks: set<nat>)
    ensures var cs := PerWeek(d, className, week, timeslot, SortedWeeks(weeks));
            && |cs| == |weeks|
            && (forall w :: w in weeks ==> exists k :: 0 <= k < |cs| && cs[k].startWeek == w)
            && (forall i, j :: 0 <= i < j < |cs| ==> cs[i].startWeek < cs[j].startWeek)
            && (forall k :: 0 <= k < |cs| ==>
                  && cs[k].name == d.name && cs[k].teacher == d.teacher && cs[k].location == d.location
                  && cs[k].className == className && cs[k].week == week && cs[k].index == timeslot
                  && cs[k].weekType == Full && cs[k].startWeek == cs[k].endWeek && cs[k].startWeek in weeks)
  {
    var ws := SortedWeeks(weeks);
    var cs := PerWeek(d, className, week, timeslot, ws);
    Spread(d, className, week, timeslot, weeks);
    forall w | w in weeks ensures exists k :: 0 <= k < |cs| && cs[k].startWeek == w {
      var k :| 0 <= k < |ws| && ws[k] == w;
      assert cs[k] == WeekCourse(d, className, week, timeslot, ws[k]);
    }
    forall i, j | 0 <= i < j < |cs| ensures cs[i].startWeek < cs[j].startWeek {
      assert cs[i] == WeekCourse(d, className, week, timeslot, ws[i]);
      assert cs[j] == WeekCourse(d, className, week, timeslot, ws[j]);
    }
    forall k | 0 <= k < |cs|
      ensures && cs[k].name == d.name && cs[k].teacher == d.teacher && cs[k].location == d.location
              && cs[k].className == className && cs[k].week == week && cs[k].index == timeslot
              && cs[k].weekType == Full && cs[k].startWeek == cs[k].endWeek && cs[k].startWeek in weeks
    {
      assert cs[k] == WeekCourse(d, className, week, timeslot, ws[k]);
    }
  }

  /**
   * The courses of an entry with week range `range`: an irregular set becomes one
   * Full one-week course per member week and no other, in ascending order; any
   * other class becomes a single course with the range's first week, last week and
   * class. Every course keeps the entry's lines and its cell, and none is irregular.
   */
  lemma Expansion(d: Draft, className: string, week: nat, timeslot: nat, range: WeekRange)
    requires range.startWeek <= range.endWeek
    ensures var cs := Expand(d, className, week, timeslot, range);
            && (range.weekType == Multiple ==>
                  && |cs| == |range.allWeeks|
                  && (forall w :: w in range.allWeeks ==> exists k :: 0 <= k < |cs| && cs[k].startWeek == w)
                  && (forall i, j :: 0 <= i < j < |cs| ==> cs[i].startWeek < cs[j].startWeek)
                  && (forall k :: 0 <= k < |cs| ==>
                        cs[k].weekType == Full && cs[k].startWeek == cs[k].endWeek && cs[k].startWeek in range.allWeeks))
            && (range.weekType != Multiple ==>
                  && |cs| == 1
                  && cs[0].startWeek == range.startWeek && cs[0].endWeek == range.endWeek
                  && cs[0].weekType == range.weekType)
            && (forall k :: 0 <= k < |cs| ==>
                  && cs[k].name == d.name && cs[k].teacher == d.teacher && cs[k].location == d.location
                  && cs[k].className == className && cs[k].week == week && cs[k].index == timeslot
                  && cs[k].weekType != Multiple && cs[k].startWeek <= cs[k].endWeek)
  {
    if range.weekType == Multiple {
      SpreadShape(d, className, week, timeslot, range.allWeeks);
    }
  }

  /** The weeks a single course of the range's span and class stands for are the range's weeks. */
  lemma SpanWeeks(weeks: set<nat>, c: Course)
    requires Spans(weeks, c.startWeek, c.endWeek)
    requires c.weekType == DetermineWeekType(weeks, c.startWeek, c.endWeek) != Multiple
    ensures CourseWeeks(c) == weeks
  {
    var lo, hi := c.startWeek, c.endWeek;
    Classification(weeks, lo, hi);
    if c.weekType == Double || c.weekType == Single {
      assert Stride(lo, hi) == CourseWeeks(c);
    }
  }

  /** Some course of `cs` stands for week `w`. */
  ghost predicate Covered(cs: seq<Course>, w: nat) {
    exists k :: 0 <= k < |cs| && w in CourseWeeks(cs[k])
  }

  /** A one-week Full course stands for its week alone. */
  lemma OneWeek(c: Course)
    requires c.weekType == Full && c.startWeek == c.endWeek
    ensures CourseWeeks(c) == {c.startWeek}
  {
  }

  /** Every week of a spread set has its one-week course. */
  lemma SpreadCovers(d: Draft, className: string, week: nat, timeslot: nat, weeks: set<nat>, w: nat)
    requires w in weeks
    ensures Covered(PerWeek(d, className, week, timeslot, SortedWeeks(weeks)), w)
  {
    var ws := SortedWeeks(weeks);
    var cs := PerWeek(d, className, week, timeslot, ws);
    Spread(d, className, week, timeslot, weeks);
    assert w in ws;
    var k :| 0 <= k < |ws| && ws[k] == w;
    OneWeek(cs[k]);
    assert w in CourseWeeks(cs[k]);
  }

  /** A spread set's courses stand for none but its weeks. */
  lemma SpreadWithin(d: Draft, className: string, week: nat, timeslot: nat, weeks: set<nat>, w: nat)
    requires Covered(PerWeek(d, className, week, timeslot, SortedWeeks(weeks)), w)
    ensures w in weeks
  {
    var ws := SortedWeeks(weeks);
    var cs := PerWeek(d, className, week, timeslot, ws);
    Spread(d, className, week, timeslot, weeks);
    var k :| 0 <= k < |cs| && w in CourseWeeks(cs[k]);
    assert cs[k] == WeekCourse(d, className, week, timeslot, ws[k]);
    OneWeek(cs[k]);
  }

  /** The one-week courses of a spread set stand for exactly the set's weeks. */
  lemma SpreadWeeks(d: Draft, className: string, week: nat, timeslot: nat, weeks: set<nat>)
    ensures forall w :: w in weeks <==> Covered(PerWeek(d, className, week, timeslot, SortedWeeks(weeks)), w)
  {
    forall w ensures w in weeks <==> Covered(PerWeek(d, className, week, timeslot, SortedWeeks(weeks)), w) {
      if w in weeks {
        SpreadCovers(d, className, week, timeslot, weeks, w);
      }
      if Covered(PerWeek(d, className, week, timeslot, SortedWeeks(weeks)), w) {
        SpreadWithin(d, className, week, timeslot, weeks, w);
      }
    }
  }

  /**
   * Expansion loses no week and adds none: for a range as the week set's first
   * week, last week and class make it, the courses together stand for exactly the
   * range's weeks.
   */
  lemma ExpansionPreservesWeeks(d: Draft, className: string, week: nat, timeslot: nat, range: WeekRange)
    requires Spans(range.allWeeks, range.startWeek, range.endWeek)
    requires range.weekType == DetermineWeekType(range.allWeeks, range.startWeek, range.endWeek)
    ensures forall w :: w in range.allWeeks <==> Covered(Expand(d, className, week, timeslot, range), w)
  {
    var cs := Expand(d, className, week, timeslot, range);
    if range.weekType == Multiple {
      SpreadWeeks(d, className, week, timeslot, range.allWeeks);
    } else {
      SpanWeeks(range.allWeeks, cs[0]);
      assert |cs| == 1;
      forall w ensures w in range.allWeeks <==> Covered(cs, w) {
        if w in range.allWeeks {
          assert w in CourseWeeks(cs[0]);
        }
      }
    }
  }

  /** A parsed week set's courses stand for exactly its weeks. */
  lemma ParsedWeeksKept(d: Draft, className: string, week: nat, timeslot: nat, weeks: set<nat>)
    requires weeks != {}
    ensures forall w :: w in weeks <==> Covered(Expand(d, className, week, timeslot, FromWeeks(weeks).value), w)
  {
    var range := FromWeeks(weeks).value;
    ExpansionPreservesWeeks(d, className, week, timeslot, range);
  }

  // ---------------------------------------------------------------------------
  // Entries and cells
  // ---------------------------------------------------------------------------

  /** The courses of an entry with a range of `u32` weeks are storable and placed in its cell. */
  lemma ExpandedPlaced(d: Draft, className: string, week: nat, timeslot: nat, range: WeekRange)
    requires range.startWeek <= range.endWeek <= U32_MAX && timeslot < SlotsPerDay
    requires forall w :: w in range.allWeeks ==> w <= U32_MAX
    ensures Each(Ok(Expand(d, className, week, timeslot, range)), PlacedAt(className, week, timeslot))
  {
    var cs := Expand(d, className, week, timeslot, range);
    Expansion(d, className, week, timeslot, range);
    forall c | c in cs ensures PlacedAt(className, week, timeslot)(c) {
      var k :| 0 <= k < |cs| && cs[k] == c;
    }
  }

  /** An entry whose weeks line names a non-empty set yields that set's expansion. */
  lemma EntryOfRange(entry: seq<string>, className: string, week: nat, timeslot: nat, weeks: set<nat>, range: WeekRange)
    requires WeeksOf(DraftOf(entry).weeks) == Ok(weeks) && FromWeeks(weeks) == Ok(range)
    ensures EntryCourses(entry, className, week, timeslot) == Ok(Expand(DraftOf(entry), className, week, timeslot, range))
  {
  }

  /** An entry's courses are storable and placed in its cell; a failing entry panics on its own weeks line. */
  lemma EntryShape(entry: seq<string>, className: string, week: nat, timeslot: nat)
    requires timeslot < SlotsPerDay
    ensures Each(EntryCourses(entry, className, week, timeslot), PlacedAt(className, week, timeslot))
    ensures EntryCourses(entry, className, week, timeslot).Err? ==>
              EntryCourses(entry, className, week, timeslot).error.weeks == DraftOf(entry).weeks
  {
    var d := DraftOf(entry);
    var parsed := WeeksOf(d.weeks);
    if parsed.Ok? && parsed.value != {} {
      var weeks := parsed.value;
      var range := FromWeeks(weeks).value;
      WeeksOfBounded(d.weeks);
      assert range.endWeek in weeks;
      ExpandedPlaced(d, className, week, timeslot, range);
      EntryOfRange(entry, className, week, timeslot, weeks, range);
    }
  }

  /** An entry of fewer than three lines has the placeholder "None" as weeks line, and always panics. */
  lemma ShortEntryAborts(entry: seq<string>, className: string, week: nat, timeslot: nat)
    requires |entry| < 3
    ensures EntryCourses(entry, className, week, timeslot) == Err(UnwrapPanic("None", BadNumber("None")))
  {
    assert DraftOf(entry).weeks == "None";
    NoneNotation();
  }

  /** Lines after the fourth are never read. */
  lemma FifthLineIgnored(entry: seq<string>, className: string, week: nat, timeslot: nat)
    requires |entry| >= 4
    ensures EntryCourses(entry, className, week, timeslot) == EntryCourses(entry[..4], className, week, timeslot)
  {
    assert DraftOf(entry) == DraftOf(entry[..4]);
  }

  /** The entries of a cell yield courses placed in that cell only. */
  lemma EntriesShape(entries: seq<seq<string>>, className: string, week: nat, timeslot: nat)
    requires timeslot < SlotsPerDay
    ensures Each(Walk(entries, |entries|, EntryReader(className, week, timeslot)), PlacedAt(className, week, timeslot))
  {
    forall k | 0 <= k < |entries|
      ensures Each(EntryReader(className, week, timeslot)(k, entries[k]), PlacedAt(className, week, timeslot))
    {
      EntryShape(entries[k], className, week, timeslot);
    }
    WalkKeeps(entries, |entries|, EntryReader(className, week, timeslot), PlacedAt(className, week, timeslot));
  }

  /** Column `j` after the label is day `(j - 1) / 5`, slot `(j - 1) % 5`, and back. */
  lemma ColumnOfSlot(c: Course, j: nat)
    requires 0 < j && c.week == (j - 1) / SlotsPerDay && c.index == (j - 1) % SlotsPerDay
    ensures Column(c) == j && c.index < SlotsPerDay
  {
  }

  /** Courses placed in the day and slot of inner cell `j` are courses from that cell. */
  lemma PlacedInCell(r: Result<seq<Course>, Failure>, row: seq<string>, j: nat)
    requires 0 < j < |row| - 1
    requires Each(r, PlacedAt(Label(row), (j - 1) / SlotsPerDay, (j - 1) % SlotsPerDay))
    ensures Each(r, FromCell(row, j))
  {
    var week, timeslot := (j - 1) / SlotsPerDay, (j - 1) % SlotsPerDay;
    forall c | PlacedAt(Label(row), week, timeslot)(c) ensures FromCell(row, j)(c) {
      ColumnOfSlot(c, j);
      assert FromRow(row)(c);
    }
    EachWeaken(r, PlacedAt(Label(row), week, timeslot), FromCell(row, j));
  }

  /**
   * A cell's courses carry the row's label and the cell's day and slot; the label
   * cell and the last cell yield none.
   */
  lemma CellShape(row: seq<string>, j: nat)
    requires j < |row|
    ensures Each(CellCourses(Label(row), |row|, j, row[j]), FromCell(row, j))
    ensures j == 0 || j == |row| - 1 ==> CellCourses(Label(row), |row|, j, row[j]) == Ok([])
  {
    var rest := RemoveAll(row[j], Label(row));
    if 0 < j < |row| - 1 && rest != [] {
      var week, timeslot := (j - 1) / SlotsPerDay, (j - 1) % SlotsPerDay;
      EntriesShape(EntriesOf(rest), Label(row), week, timeslot);
      PlacedInCell(CellCourses(Label(row), |row|, j, row[j]), row, j);
    }
  }

  /** A cell holding nothing but copies of the row's label is skipped. */
  lemma LabelOnlyCellSkipped(row: seq<string>, j: nat)
    requires 0 < j < |row| && Label(row) != [] && IsRepetition(row[j], Label(row))
    ensures CellCourses(Label(row), |row|, j, row[j]) == Ok([])
  {
    RemoveAllEmpty(row[j], Label(row));
  }

  /** A cell that does not mention the row's label is read as it is, in the day and slot of its column. */
  lemma UnlabelledCellRead(row: seq<string>, j: nat)
    requires 0 < j < |row| - 1 && row[j] != [] && !Contains(row[j], Label(row))
    ensures var entries := EntriesOf(row[j]);
            CellCourses(Label(row), |row|, j, row[j])
              == Walk(entries, |entries|, EntryReader(Label(row), (j - 1) / SlotsPerDay, (j - 1) % SlotsPerDay))
  {
    RemoveAllAbsent(row[j], Label(row));
  }

  // ---------------------------------------------------------------------------
  // Rows and the table
  // ---------------------------------------------------------------------------

  /** The courses of a row carry the row's label and come from its inner cells. */
  lemma CellsShape(row: seq<string>)
    ensures Each(CellsCourses(row), FromRow(row))
  {
    forall j | 0 <= j < |row| ensures Each(CellReader(Label(row), |row|)(j, row[j]), FromRow(row)) {
      CellShape(row, j);
      EachWeaken(CellCourses(Label(row), |row|, j, row[j]), FromCell(row, j), FromRow(row));
    }
    WalkKeeps(row, |row|, CellReader(Label(row), |row|), FromRow(row));
  }

  /** Row `i` yields courses from that row only, and the two header rows yield none. */
  lemma RowShape(table: seq<seq<string>>, i: nat)
    requires i < |table|
    ensures Each(RowCourses(i, table[i]), FromTable(table))
    ensures i < 2 ==> RowCourses(i, table[i]) == Ok([])
  {
    if 2 <= i {
      CellsShape(table[i]);
      forall c | FromRow(table[i])(c) ensures FromTable(table)(c) {
        assert 2 <= i < |table| && FromRow(table[i])(c);
      }
      EachWeaken(RowCourses(i, table[i]), FromRow(table[i]), FromTable(table));
    }
  }

  /** Every row's courses are storable and read from a row after the headers. */
  lemma RowsShape(table: seq<seq<string>>)
    ensures Each(Walk(table, |table|, RowCourses), FromTable(table))
  {
    forall i | 0 <= i < |table| ensures Each(RowCourses(i, table[i]), FromTable(table)) {
      RowShape(table, i);
    }
    WalkKeeps(table, |table|, RowCourses, FromTable(table));
  }

  /** The header rows are never read: tables that differ only there yield the same. */
  lemma HeaderRowsIgnored(title: string, table: seq<seq<string>>, other: seq<seq<string>>)
    requires |table| == |other|
    requires forall i :: 2 <= i < |table| ==> table[i] == other[i]
    ensures Extract(title, Some(table)) == Extract(title, Some(other))
  {
    forall k | 0 <= k < |table| ensures RowCourses(k, table[k]) == RowCourses(k, other[k]) {
    }
    WalkAgrees(table, other, |table|, RowCourses);
  }

  /** Courses are only appended: what the first `n` rows yield begins what the whole table yields. */
  lemma RowsPrefix(title: string, table: seq<seq<string>>, n: nat)
    requires n <= |table| && !Contains(title, LoginMarker) && Extract(title, Some(table)).Ok?
    ensures Walk(table, n, RowCourses).Ok? && Walk(table, n, RowCourses).value <= Extract(title, Some(table)).value
  {
    WalkPrefix(table, n, |table|, RowCourses);
  }

  /**
   * What the page yields: the login page, and only it, fails with the expired
   * session; a page without the timetable yields nothing; otherwise every course
   * is storable and read from a row after the headers, and a failure is a panic
   * on a weeks line.
   */
  lemma ExtractedCourses(title: string, table: Option<seq<seq<string>>>)
    ensures Extract(title, table) == Err(LoginExpired) <==> Contains(title, LoginMarker)
    ensures !Contains(title, LoginMarker) && table.None? ==> Extract(title, table) == Ok([])
    ensures !Contains(title, LoginMarker) && table.Some? ==> Each(Extract(title, table), FromTable(table.value))
  {
    if table.Some? {
      RowsShape(table.value);
    }
  }

  // ---------------------------------------------------------------------------
  // Extracted courses and their column values
  // ---------------------------------------------------------------------------

  /**
   * A storable course has column values: it is not Multiple, so the `week_type`
   * match does not panic, and its slot's start period fits in `i32`.
   */
  lemma StorableRow(c: Course)
    requires Storable(c)
    ensures c.weekType != Multiple && c.index < 0x4000_0000
    ensures ScheduleRowOf(c).weekType in {"single", "double", "both"}
    ensures 1 <= ScheduleRowOf(c).startPeriod <= 2 * SlotsPerDay - 1
  {
  }

  /** Every course the extractor yields can be stored: none reaches the panic for Multiple courses. */
  lemma ExtractedRows(title: string, table: Option<seq<seq<string>>>)
    requires Extract(title, table).Ok?
    ensures forall c :: c in Extract(title, table).value ==> c.weekType != Multiple && c.index < 0x4000_0000
  {
    ExtractedCourses(title, table);
    if table.Some? {
      forall c | c in Extract(title, table).value ensures c.weekType != Multiple && c.index < 0x4000_0000 {
        assert FromTable(table.value)(c);
        StorableRow(c);
      }
    }
  }

  // ---------------------------------------------------------------------------
  // A panic anywhere aborts the whole extraction
  // ---------------------------------------------------------------------------

  /** A walk in which some item fails fails as a whole. */
  lemma WalkFailsAt<T>(items: seq<T>, k: nat, read: (nat, T) -> Result<seq<Course>, Failure>)
    requires k < |items| && read(k, items[k]).Err?
    ensures Walk(items, |items|, read).Err?
  {
    assert Walk(items, k + 1, read).Err?;
    ThenFromEmpty(Walk(items, k + 1, read));
    WalkFailureSticks(items, k + 1, read, []);
    ThenFromEmpty(Walk(items, |items|, read));
  }

  /**
   * An entry whose weeks line does not parse, or names no week, in a cell that is
   * read, in a row after the headers, makes the whole extraction fail with a
   * weeks-line panic: the `unwrap`s abort the call, whatever the other cells hold.
   */
  lemma FailingEntryAborts(title: string, table: seq<seq<string>>, i: nat, j: nat, k: nat)
    requires !Contains(title, LoginMarker)
    requires 2 <= i < |table| && 0 < j < |table[i]| - 1
    requires RemoveAll(table[i][j], Label(table[i])) != []
    requires k < |EntriesOf(RemoveAll(table[i][j], Label(table[i])))|
    requires EntryCourses(EntriesOf(RemoveAll(table[i][j], Label(table[i])))[k], Label(table[i]),
                          (j - 1) / SlotsPerDay, (j - 1) % SlotsPerDay).Err?
    ensures Extract(title, Some(table)).Err? && Extract(title, Some(table)).error.UnwrapPanic?
  {
    var row := table[i];
    var entries := EntriesOf(RemoveAll(row[j], Label(row)));
    var reader := EntryReader(Label(row), (j - 1) / SlotsPerDay, (j - 1) % SlotsPerDay);
    assert reader(k, entries[k]).Err?;
    WalkFailsAt(entries, k, reader);
    assert CellReader(Label(row), |row|)(j, row[j]).Err?;
    WalkFailsAt(row, j, CellReader(Label(row), |row|));
    assert RowCourses(i, table[i]).Err?;
    WalkFailsAt(table, i, RowCourses);
    ExtractedCourses(title, Some(table));
  }
}
