# Timetable import: week notation and grid extraction

This project models the core of `course_pull`, a tool that reads a class
timetable page and stores its courses in a database. Two parts are modelled.

- **Week notation** (`src/mysql.rs`). `parse_weeks` reads texts such as
  `(1,3-5周)` into a set of week numbers. `WeekRange::from_weeks` records the
  set's first and last week and its class. `determine_week_type` gives the
  class: Full, Double, Single or Multiple. The column values a stored course
  gets (`week_type`, `week_day`, `start_period`, `duration`) are modelled too.
- **Grid extraction** (`parse_classes_course_info` in `src/main.rs`). The
  page is reduced to its title and an optional table of trimmed cell texts.
  - The login page fails.
  - The two header rows are skipped.
  - Cell 0 of a row is its class label. Every occurrence of the label is
    removed from the other cells, and the last cell is skipped.
  - A cell's lines are read in entries of five: name, teacher, weeks and
    location.
  - The cell's column gives the day and the slot.
  - An irregular (Multiple) week set becomes one single-week course per week.

Modules:

- `Wrappers`: Option and Result.
- `RustStd`: the Rust standard-library operations the code depends on:
  - `trim`, `trim_start_matches` and `trim_end_matches`;
  - `split` on a character, `contains`, and `replace(pat, "")`;
  - `u32` parsing and `chunks`.
- `Schedule`: `src/mysql.rs`.
- `Timetable`: `src/main.rs`, as methods with loops over rows, cells, entries
  and weeks. Each method is proved equal to a specification function.
- `Extraction`: what the extracted list satisfies, proved about those
  functions.

The loop over comma-separated parts in `parse_weeks` and every loop in
`parse_classes_course_info` are methods (`ParseWeeks`, `EmitRow` and the
others). Each states its result as a specification function: `WeeksOf` or
`Extract` and their parts. The lemmas are proved about those functions.

Four behaviours of the code are worth noting, and the model follows each:

- Lines are grouped in entries of five (`src/main.rs:131`), although only
  four are read. The fifth line is never read.
- Every leading `(` and every trailing `)` is stripped, however many there
  are (`src/mysql.rs:92`).
- A reversed range such as `5-3` is not an error in `parse_weeks`: it adds no
  week (`src/mysql.rs:115-117`). Alone it gives the empty set, which
  `from_weeks` then rejects.
- The stored day is `week + 1`, so the first day is 1 (`src/mysql.rs:171`).

## Model

| member | source | states |
|---|---|---|
| `RustStd.TrimStartSpec` | src/mysql.rs:92 | `trim_start_matches` keeps a suffix that starts outside the character class, and everything it drops is inside it |
| `RustStd.TrimEndSpec` | src/mysql.rs:109 | `trim_end_matches` keeps a prefix that ends outside the character class, and everything it drops is inside it |
| `RustStd.TrimIdempotent` | src/mysql.rs:98 | trimming an already trimmed part changes nothing |
| `RustStd.Split` | src/mysql.rs:97 | `split` always yields at least one piece |
| `RustStd.SplitPiecesFree` | src/mysql.rs:102 | no piece of a split holds the separator |
| `RustStd.JoinSplit` | src/main.rs:124 | joining the pieces with the separator gives back the split text |
| `RustStd.SplitJoin` | src/mysql.rs:97 | splitting separator-free pieces joined by the separator gives back those pieces |
| `RustStd.ContainsAt` | src/main.rs:80 | `contains` holds exactly when the pattern occurs at some position |
| `RustStd.RemoveAll` | src/main.rs:119 | `replace(pat, "")` never lengthens the text |
| `RustStd.RemoveAllAbsent` | src/main.rs:119 | removing a label that does not occur leaves the text unchanged |
| `RustStd.RemoveAllEmpty` | src/main.rs:119-123 | removing a non-empty label leaves nothing exactly when the text is that label repeated |
| `RustStd.ParseU32` | src/mysql.rs:111 | a parsed week number is at most `u32::MAX` |
| `RustStd.ParseU32Accepts` | src/mysql.rs:111-112 | only a non-empty run of ASCII digits, optionally preceded by `+`, parses |
| `RustStd.ParseToDecimal` | src/mysql.rs:121 | every `u32` written in decimal, with or without `+`, parses back to itself |
| `RustStd.ParseU32Overflow` | src/mysql.rs:111 | a numeral above `u32::MAX` does not parse |
| `RustStd.Chunks` | src/main.rs:131 | `chunks(5)` gives non-empty runs of at most five items, all but the last exactly five, and none for no lines |
| `RustStd.FlattenChunks` | src/main.rs:131 | the chunks read in order are exactly the lines |
| `Schedule.Interval` | src/mysql.rs:115-117 | the weeks a range adds are exactly those from start to end inclusive, and none when end < start |
| `Schedule.SetMin` | src/mysql.rs:136 | the first week of a non-empty set is a member and at most every member |
| `Schedule.SetMax` | src/mysql.rs:137 | the last week of a non-empty set is a member and at least every member |
| `Schedule.SortedWeeks` | src/main.rs:146 | iterating a week set gives each member exactly once, in strictly ascending order |
| `Schedule.StrideSize` | src/mysql.rs:73 | every other week from `lo` to `hi` makes `(hi - lo) / 2 + 1` weeks |
| `Schedule.DetermineWeekType` | src/mysql.rs:59-85 | the class of a set given its first and last week, by the source's four tests in order: one week or an unbroken span is Full, then all-even and all-odd sets as large as every other week of the span are Double and Single, and anything else is Multiple (what each class means is proved in `Classification`) |
| `Schedule.Classification` | src/mysql.rs:59-85 | for a set with first week `lo` and last week `hi`: Full iff it is every week of `[lo, hi]` (a single week included); Double iff `lo < hi`, `lo` is even and it is every other week of `[lo, hi]`; Single likewise with odd `lo`; Multiple iff none of these holds |
| `Schedule.FullClass` | src/mysql.rs:60-70 | a set spanning `lo` to `hi` is Full exactly when it holds every week from `lo` to `hi` |
| `Schedule.StrideClass` | src/mysql.rs:72-82 | every other week of a span of more than one week is Double from an even first week and Single from an odd one |
| `Schedule.ClassStride` | src/mysql.rs:72-82 | a set classed Double or Single spans more than one week and is every other week of its span, Double exactly when its first week is even |
| `Schedule.PartWeeks` | src/mysql.rs:98-123 | one comma-separated part, trimmed: with `-` it must split into exactly two pieces, the start trimmed, the end stripped of trailing `周` then trimmed, both parsed as `u32`, naming every week from start to end; without `-` it is one week, trailing `周` stripped; each failure names its text |
| `Schedule.WeeksOf` | src/mysql.rs:88-127 | the brackets stripped, the content split on `,`, and the parts' weeks united in order, the first failing part's error ending the parse |
| `Schedule.GatherUnion` | src/mysql.rs:97-126 | the notation parses iff every comma-separated part does, and then gives exactly the union of the parts' weeks |
| `Schedule.GatherFirstError` | src/mysql.rs:97-126 | a failing notation fails with the error of one of its parts |
| `Schedule.GatherFailureSticks` | src/mysql.rs:97-126 | once a part fails, the later parts do not change the error (the early `return Err`) |
| `Schedule.PartWeeksBounded` | src/mysql.rs:111-117 | every week a part names fits in `u32` |
| `Schedule.WeeksOfBounded` | src/mysql.rs:88-127 | every week a notation names fits in `u32` |
| `Schedule.SingleWeekPart` | src/mysql.rs:118-122 | `n` and `n周` both name exactly week `n` |
| `Schedule.PlainRange` | src/mysql.rs:101-117 | the range `a-b` written in decimal names exactly the weeks from `a` to `b`, none when `b < a` |
| `Schedule.SuffixedRange` | src/mysql.rs:108-117 | `a-b周` names the same weeks, the suffix being dropped from the range's end |
| `Schedule.SuffixOnRangeStart` | src/mysql.rs:108-111 | `a周-b` fails: `周` is stripped only from a range's end |
| `Schedule.MalformedRange` | src/mysql.rs:102-105 | a part with `-` that does not split into exactly two pieces is a malformed range |
| `Schedule.TwoDashesPart` | src/mysql.rs:102-105 | three non-empty dash-free pieces joined by `-`, such as `1-2-3`, the first two not starting and the last not ending with whitespace, are a malformed range naming the whole part |
| `Schedule.EmptyNotation` | src/mysql.rs:97-121 | the empty notation fails, because its one empty part is not a number |
| `Schedule.NoneNotation` | src/main.rs:136-141 | the placeholder `None` for a missing weeks line fails to parse |
| `Schedule.OnePartNotation` | src/mysql.rs:92-97 | a notation without brackets or commas names what its single part names |
| `Schedule.ReversedRange` | src/mysql.rs:115-117 | a reversed range `a-b` with `b < a` parses to the empty set |
| `Schedule.AddPartWeeks` | src/mysql.rs:98-122 | one part adds exactly the weeks it names to the set, or returns exactly its own error |
| `Schedule.InsertRange` | src/mysql.rs:115-117 | the insertion loop adds exactly the range's weeks to the set |
| `Schedule.ParseWeeks` | src/mysql.rs:88-127 | `parse_weeks`, with its loop over parts and its early error returns, gives exactly `WeeksOf` of its input |
| `Schedule.FromWeeks` | src/mysql.rs:131-146 | fails with NoWeeks iff the set is empty; otherwise keeps the set unchanged with its minimum as start and its maximum as end, so `start <= end`, and records the class `determine_week_type` gives for the set and those bounds |
| `Schedule.ScheduleRowOf` | src/mysql.rs:165-176 | a course that is not Multiple is stored with type `single` if Single, `double` if Double and `both` if Full, day `week + 1`, start period `2 * index + 1`, duration 2, and its name, class, teacher, room and weeks unchanged |
| `Timetable.DraftOf` | src/main.rs:133-137 | an entry's lines 0 to 3 are its name, teacher, weeks and location; a missing line becomes `None`, or `Unknown` for the location |
| `Timetable.Expand` | src/main.rs:144-176 | a Multiple range becomes one Full course per member week in ascending order with start = end = that week; any other class becomes one course with the range's start, end and class |
| `Timetable.EntryCourses` | src/main.rs:133-176 | one entry: its lines read with defaults, its weeks line parsed and turned into a range, either failure a panic naming that line, and otherwise its expanded courses |
| `Timetable.CellCourses` | src/main.rs:113-130 | cell 0 and the last cell yield nothing; any other cell loses every occurrence of the label, yields nothing if then empty, and is otherwise read as lines in entries of five at day `(j-1)/5`, slot `(j-1)%5` |
| `Timetable.CellsCourses` | src/main.rs:110-179 | a row's cells read in order under the row's label, each cell's courses appended, the first panic ending the walk |
| `Timetable.RowCourses` | src/main.rs:105-108 | the two header rows yield nothing; any other row yields its cells' courses |
| `Timetable.Extract` | src/main.rs:80-182 | the login page fails with an expired session, a page without the timetable yields nothing, and otherwise the rows are walked in order, the two header rows yielding nothing |
| `Timetable.AppendExpanded` | src/main.rs:144-176 | appends one course per week in ascending order for a Multiple range, or one course with the range's start, end and type otherwise |
| `Timetable.EmitEntry` | src/main.rs:131-177 | one entry: missing lines become `None`/`None`/`None`/`Unknown`; a weeks line without a week range panics with that text; otherwise its courses are appended |
| `Timetable.EmitEntries` | src/main.rs:131-177 | the entries of a cell are read in order, and the first panic ends the walk |
| `Timetable.EmitCell` | src/main.rs:114-130 | a cell's text loses every occurrence of the label; a cell that is then empty, or is the last cell, yields nothing; any other cell is read in entries at day `(j-1)/5`, slot `(j-1)%5` |
| `Timetable.EmitRowCell` | src/main.rs:113-123 | cell 0 sets the label and yields nothing; every other cell is read under that label |
| `Timetable.EmitRow` | src/main.rs:110-179 | a row's cells are read in order under the row's label, and the first panic ends the walk |
| `Timetable.ParseClassesCourseInfo` | src/main.rs:69-183 | the whole walk: the login page fails, a page without the table yields nothing, and otherwise the rows are read in order after the two headers |
| `Timetable.WalkFailureSticks` | src/main.rs:139-141 | once an item panics, nothing after it changes the outcome |
| `Extraction.WalkPrefix` | src/main.rs:95-174 | courses are only appended: what a shorter walk yields begins what a longer one yields |
| `Extraction.PerWeekShape` | src/main.rs:146-158 | spreading lists one course per listed week, course `k` for week `k` |
| `Extraction.SpreadShape` | src/main.rs:145-159 | a Multiple set becomes one Full course with start = end per member week, in strictly ascending order and for no other week, each with the entry's lines and cell |
| `Extraction.Expansion` | src/main.rs:144-176 | the Multiple/other split of the expansion; no course is Multiple, and every course has `start <= end` and keeps the entry's lines and cell |
| `Extraction.SpanWeeks` | src/main.rs:162-175 | a single course with the set's first week, last week and class stands for exactly the set's weeks |
| `Extraction.SpreadCovers` | src/main.rs:145-159 | every week of a spread set has a course standing for it |
| `Extraction.SpreadWithin` | src/main.rs:145-159 | every week a spread course stands for is in the set |
| `Extraction.SpreadWeeks` | src/main.rs:145-159 | the spread courses together stand for exactly the set's weeks |
| `Extraction.ExpansionPreservesWeeks` | src/main.rs:144-176 | expansion loses no week and adds none |
| `Extraction.ParsedWeeksKept` | src/main.rs:139-176 | for the range `from_weeks` builds from a non-empty set, the expanded courses stand for exactly that set |
| `Extraction.ExpandedPlaced` | src/main.rs:144-176 | an expanded range of `u32` weeks gives storable courses placed in the entry's row label, day and slot |
| `Extraction.EntryShape` | src/main.rs:131-177 | an entry's courses are storable and placed in its cell; a failing entry panics on its own weeks line |
| `Extraction.ShortEntryAborts` | src/main.rs:133-141 | an entry of fewer than three lines always panics on the weeks placeholder `None` |
| `Extraction.FifthLineIgnored` | src/main.rs:133-137 | lines after the fourth never change an entry's outcome |
| `Extraction.EntriesShape` | src/main.rs:131-177 | every course of a cell's entries is storable and placed in that cell |
| `Extraction.ColumnOfSlot` | src/main.rs:127-129 | day `(j-1)/5` and slot `(j-1)%5` lead back to column `j`, and the slot is below 5 |
| `Extraction.CellShape` | src/main.rs:113-130 | every course from cell `j` is storable, carries the row's label, has day `(j-1)/5`, slot `(j-1)%5` and so column `j`, strictly between the label and the last cell; the label cell and the last cell yield nothing |
| `Extraction.LabelOnlyCellSkipped` | src/main.rs:119-123 | a cell that holds only copies of the label is skipped |
| `Extraction.UnlabelledCellRead` | src/main.rs:119-131 | a cell that does not mention the label is read exactly as written |
| `Extraction.CellsShape` | src/main.rs:110-134 | every course of a row carries its label and comes from an inner cell |
| `Extraction.RowShape` | src/main.rs:106-108 | the two header rows yield nothing, and any other row yields only courses from that row |
| `Extraction.RowsShape` | src/main.rs:95-180 | every course from the table is storable and comes from a row after the headers |
| `Extraction.HeaderRowsIgnored` | src/main.rs:105-108 | tables that differ only in their header rows yield the same |
| `Extraction.RowsPrefix` | src/main.rs:91-182 | what the first `n` rows yield is a prefix of the final list |
| `Extraction.StorableRow` | src/mysql.rs:165-172 | a storable course meets the column mapping's demands: it is not Multiple, so the `week_type` match does not panic, its slot fits `i32` arithmetic, its type column is `single`, `double` or `both`, and its start period is between 1 and 9 |
| `Extraction.ExtractedCourses` | src/main.rs:80-182 | fails with an expired session iff the title contains `登录`; no table gives an empty list; otherwise every course is storable (not Multiple, `start <= end <= u32::MAX`, slot below 5) and from a data row, and every failure is a weeks-line panic |
| `Extraction.ExtractedRows` | src/mysql.rs:165-170 | every course a successful extraction yields meets the column mapping's demands, so storing it never reaches the panic for Multiple courses |
| `Extraction.WalkFailsAt` | src/main.rs:139-141 | a walk over entries, cells or rows fails as a whole once any one item fails |
| `Extraction.FailingEntryAborts` | src/main.rs:113-141 | an entry whose weeks line does not parse or names no week, in a cell that is read, in a row after the headers, makes the whole extraction fail with a weeks-line panic |

## Left out

- Fetching the page (`src/main.rs:47-67`) is left out. It is network I/O with reqwest, a cookie header and a timeout.
- HTML parsing and CSS selection (`src/main.rs:70-76`, `84-87`, `95`, `111`, `114`) are left out. They are calls into scraper. The page is given as its title and an optional table of cell texts.
  - The texts are taken as already collected and trimmed.
  - Rows are the table's `tr` elements.
  - The `th`/`td` selection per row is not modelled.
- The CLI, clipboard, environment, logging set-up and tokio runtime (`src/main.rs:11-40`, `185-219`) are left out. They are configuration and I/O.
- SQL execution, the pool, TRUNCATE and version insert, and the SQL text with its quoting (`src/main.rs:221-251`; `src/mysql.rs:149-163`, `179-199`) are left out. They are database I/O. Only the column values (`src/mysql.rs:165-176`) are modelled.
- The `Display` impl and the `debug!`/`info!`/`error!` logging (`src/mysql.rs:23-39`) are left out. They are presentation only.
- `async`/`await` is left out. Nothing runs concurrently while parsing.
- The error messages of `parse_weeks` and `from_weeks` are abstracted.
  - A number that does not parse gives `BadNumber(text)`, whatever the `ParseIntError` kind.
  - A range that does not split in two gives `BadRange(part)`.
  - An empty set gives `NoWeeks`.
  - The expired-session message is the value `LoginExpired`.
- The `unwrap` panics at `src/main.rs:140-141` are not modelled as panics. They become the failure `UnwrapPanic(weeks line, cause)`, which ends the walk.
- Schedule.ScheduleRowOf: requires `index < 2^30`, so that `index as i32 * 2 + 1` cannot overflow. Every extracted course has index below 5, as `Extraction.ExtractedRows` shows.
- The walk over cells is split into per-cell and per-entry methods (`EmitRowCell`, `EmitCell`, `EmitEntries`, `EmitEntry`). The source has one loop nest with a closure.
- The body of the loop over parts in `parse_weeks` is its own method, `AddPartWeeks`. The source has it inline.
