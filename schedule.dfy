/**
 * The week-expression engine and the course record of the timetable importer:
 * parsing week notation such as "(1,3-5周)" into a set of week numbers, classifying
 * that set as odd weeks, even weeks, a full range or an irregular set, and the
 * column values a course is stored with.
 */
module Schedule {
  import opened Wrappers
  import opened RustStd

  /** How a course recurs over its span of weeks. */
  datatype WeekType =
    | Single    // every odd week of the span
    | Double    // every even week of the span
    | Full      // every week of the span
    | Multiple  // an irregular set of weeks; never stored

  /** One scheduled course: `week` is the day column group, `index` the period slot within the day. */
  datatype Course = Course(
    name: string,
    className: string,
    teacher: string,
    startWeek: nat,
    endWeek: nat,
    weekType: WeekType,
    location: string,
    week: nat,
    index: nat)

  /** A parsed week set with its first week, last week and class. */
  datatype WeekRange = WeekRange(startWeek: nat, endWeek: nat, weekType: WeekType, allWeeks: set<nat>)

  /** Why week notation could not be turned into a week range. */
  datatype WeekError =
    | BadRange(part: string)   // a part with '-' that does not split into exactly two pieces
    | BadNumber(text: string)  // a text that is not a `u32` numeral
    | NoWeeks                  // an empty week set

  // ---------------------------------------------------------------------------
  // Week sets
  // ---------------------------------------------------------------------------

  /** Every week from `lo` to `hi` inclusive; none when `hi` comes first. */
  function Interval(lo: nat, hi: int): (r: set<nat>)
    ensures forall w :: w in r <==> lo <= w <= hi
    decreases hi - lo
  {
    if hi < lo then {} else {lo} + Interval(lo + 1, hi)
  }

  /** Every other week from `lo` to `hi` inclusive: `lo`, `lo + 2`, ... */
  function Stride(lo: nat, hi: nat): set<nat> {
    set w: nat | lo <= w <= hi && w % 2 == lo % 2
  }

  /** `m` is the smallest member of `s`. */
  predicate IsLeast(s: set<nat>, m: nat) {
    m in s && forall w :: w in s ==> m <= w
  }

  /** `m` is the largest member of `s`. */
  predicate IsGreatest(s: set<nat>, m: nat) {
    m in s && forall w :: w in s ==> w <= m
  }

  lemma {:induction false} MinExists(s: set<nat>)
    requires s != {}
    ensures exists m :: IsLeast(s, m)
    decreases |s|
  {
    var x :| x in s;
    if s == {x} {
      assert IsLeast(s, x);
    } else {
      var rest := s - {x};
      MinExists(rest);
      var m :| IsLeast(rest, m);
      var least := if m <= x then m else x;
      forall w | w in s ensures least <= w {
        if w != x {
          assert w in rest;
        }
      }
      assert IsLeast(s, least);
    }
  }

  lemma {:induction false} MaxExists(s: set<nat>)
    requires s != {}
    ensures exists m :: IsGreatest(s, m)
    decreases |s|
  {
    var x :| x in s;
    if s == {x} {
      assert IsGreatest(s, x);
    } else {
      var rest := s - {x};
      MaxExists(rest);
      var m :| IsGreatest(rest, m);
      var most := if x <= m then m else x;
      forall w | w in s ensures w <= most {
        if w != x {
          assert w in rest;
        }
      }
      assert IsGreatest(s, most);
    }
  }

  /** The first week of a set, as `BTreeSet::iter().next()` gives it. */
  function SetMin(s: set<nat>): (m: nat)
    requires s != {}
    ensures m in s && forall w :: w in s ==> m <= w
  {
    MinExists(s);
    var m :| IsLeast(s, m);
    m
  }

  /** The last week of a set, as `BTreeSet::iter().next_back()` gives it. */
  function SetMax(s: set<nat>): (m: nat)
    requires s != {}
    ensures m in s && forall w :: w in s ==> w <= m
  {
    MaxExists(s);
    var m :| IsGreatest(s, m);
    m
  }

  /** The weeks of a set in the order a `BTreeSet` yields them: ascending, each once. */
  function SortedWeeks(s: set<nat>): (ws: seq<nat>)
    ensures |ws| == |s|
    ensures forall w :: w in s <==> w in ws
    ensures forall i, j :: 0 <= i < j < |ws| ==> ws[i] < ws[j]
    decreases |s|
  {
    if s == {} then []
    else
      var m := SetMin(s);
      var rest := SortedWeeks(s - {m});
      LeastFirst(s, m, rest);
      [m] + rest
  }

  /** The least week of a set, put before the others in order, lists the whole set in order. */
  lemma LeastFirst(s: set<nat>, m: nat, rest: seq<nat>)
    requires m in s && forall w :: w in s ==> m <= w
    requires |rest| == |s - {m}|
    requires forall w :: w in s - {m} <==> w in rest
    requires forall i, j :: 0 <= i < j < |rest| ==> rest[i] < rest[j]
    ensures |[m] + rest| == |s|
    ensures forall w :: w in s <==> w in [m] + rest
    ensures forall i, j :: 0 <= i < j < |[m] + rest| ==> ([m] + rest)[i] < ([m] + rest)[j]
  {
    var ws := [m] + rest;
    forall i | 0 <= i < |rest| ensures m < rest[i] {
      assert rest[i] in s - {m};
    }
    forall i, j | 0 <= i < j < |ws| ensures ws[i] < ws[j] {
      if i > 0 {
        assert ws[i] == rest[i - 1] && ws[j] == rest[j - 1];
      } else {
        assert ws[j] == rest[j - 1];
      }
    }
  }

  lemma {:induction false} SubsetSize(a: set<nat>, b: set<nat>)
    requires a <= b
    ensures |a| <= |b|
    decreases |a|
  {
    if a != {} {
      var x :| x in a;
      SubsetSize(a - {x}, b - {x});
    }
  }

  /** A subset as large as its superset is the superset. */
  lemma SubsetSameSize(a: set<nat>, b: set<nat>)
    requires a <= b && |a| == |b|
    ensures a == b
  {
    if a != b {
      assert !(b <= a);
      var x :| x in b && x !in a;
      SubsetSize(a, b - {x});
    }
  }

  /** The span from `lo` to `hi` holds `(hi - lo) / 2 + 1` weeks of `lo`'s parity. */
  lemma {:induction false} StrideSize(lo: nat, hi: nat)
    requires lo <= hi
    ensures |Stride(lo, hi)| == (hi - lo) / 2 + 1
    decreases hi - lo
  {
    if hi < lo + 2 {
      assert Stride(lo, hi) == {lo};
    } else {
      StrideSize(lo + 2, hi);
      assert Stride(lo, hi) == {lo} + Stride(lo + 2, hi);
    }
  }

  // ---------------------------------------------------------------------------
  // Classification
  // ---------------------------------------------------------------------------

  /**
   * The class of `weeks` given its first and last week: a single week or an
   * unbroken span is Full; otherwise all-even weeks as many as the even weeks of
   * the span are Double, all-odd weeks likewise Single, and anything else Multiple.
   */
  function DetermineWeekType(weeks: set<nat>, startWeek: nat, endWeek: nat): WeekType {
    if |weeks| == 1 then Full
    else if forall w: nat | startWeek <= w <= endWeek :: w in weeks then Full
    else if (forall w | w in weeks :: w % 2 == 0) && |weeks| == (endWeek - startWeek) / 2 + 1 then Double
    else if (forall w | w in weeks :: w % 2 == 1) && |weeks| == (endWeek - startWeek) / 2 + 1 then Single
    else Multiple
  }

  /** `weeks` runs from `lo` to `hi`: both are members and bound every member. */
  ghost predicate Spans(weeks: set<nat>, lo: nat, hi: nat) {
    lo in weeks && hi in weeks && forall w :: w in weeks ==> lo <= w <= hi
  }

  /** A set spanning `lo` to `hi` is classed Full exactly when it is every week from `lo` to `hi`. */
  lemma FullClass(weeks: set<nat>, lo: nat, hi: nat)
    requires Spans(weeks, lo, hi)
    ensures DetermineWeekType(weeks, lo, hi) == Full <==> weeks == Interval(lo, hi)
  {
    var unbroken := forall w: nat | lo <= w <= hi :: w in weeks;
    assert unbroken <==> weeks == Interval(lo, hi);
    if |weeks| == 1 {
      if lo != hi {
        assert {lo, hi} <= weeks;
        SubsetSize({lo, hi}, weeks);
      }
      assert weeks == Interval(lo, hi);
    }
  }

  /** Every other week of a span of more than one week is Double from an even week and Single from an odd one. */
  lemma StrideClass(weeks: set<nat>, lo: nat, hi: nat)
    requires Spans(weeks, lo, hi) && lo < hi && weeks == Stride(lo, hi)
    ensures DetermineWeekType(weeks, lo, hi) == if lo % 2 == 0 then Double else Single
  {
    StrideSize(lo, hi);
    FullClass(weeks, lo, hi);
    assert lo + 1 !in weeks;
    assert DetermineWeekType(weeks, lo, hi) != Full;
    if lo % 2 == 0 {
      assert forall w | w in weeks :: w % 2 == 0;
    } else {
      assert lo in weeks && lo % 2 != 0;
      assert forall w | w in weeks :: w % 2 == 1;
    }
  }

  /** A set classed Double or Single is every other week of its span, which holds more than one week. */
  lemma ClassStride(weeks: set<nat>, lo: nat, hi: nat)
    requires Spans(weeks, lo, hi)
    requires DetermineWeekType(weeks, lo, hi) == Double || DetermineWeekType(weeks, lo, hi) == Single
    ensures lo < hi && weeks == Stride(lo, hi)
    ensures DetermineWeekType(weeks, lo, hi) == Double <==> lo % 2 == 0
  {
    assert lo == hi ==> weeks == {lo};
    assert |weeks| != 1;
    assert weeks <= Stride(lo, hi);
    StrideSize(lo, hi);
    SubsetSameSize(weeks, Stride(lo, hi));
  }

  /**
   * What each class means for a set with first week `lo` and last week `hi`:
   * Full is exactly the unbroken span, Double exactly every other week of a span
   * that starts on an even week, Single the same from an odd week, and Multiple
   * everything else.
   */
  lemma Classification(weeks: set<nat>, lo: nat, hi: nat)
    requires Spans(weeks, lo, hi)
    ensures DetermineWeekType(weeks, lo, hi) == Full <==> weeks == Interval(lo, hi)
    ensures DetermineWeekType(weeks, lo, hi) == Double <==>
              lo < hi && lo % 2 == 0 && weeks == Stride(lo, hi)
    ensures DetermineWeekType(weeks, lo, hi) == Single <==>
              lo < hi && lo % 2 == 1 && weeks == Stride(lo, hi)
    ensures DetermineWeekType(weeks, lo, hi) == Multiple <==>
              weeks != Interval(lo, hi) && !(lo < hi && weeks == Stride(lo, hi))
  {
    var t := DetermineWeekType(weeks, lo, hi);
    FullClass(weeks, lo, hi);
    if lo < hi && weeks == Stride(lo, hi) {
      StrideClass(weeks, lo, hi);
    }
    if t == Double || t == Single {
      ClassStride(weeks, lo, hi);
    }
  }

  // ---------------------------------------------------------------------------
  // Parsing week notation
  // ---------------------------------------------------------------------------

  /**
   * The weeks one comma-separated part names. The part is trimmed; one containing
   * '-' must split into exactly two pieces, a start (trimmed) and an end (trailing
   * '周' characters dropped, then trimmed), and names every week from start to end,
   * none if the end comes first. A part without '-' is one week, trailing '周'
   * dropped. Both numbers follow `u32` parsing.
   */
  function PartWeeks(raw: string): Result<set<nat>, WeekError> {
    var part := Trim(raw);
    if '-' in part then
      var pieces := Split(part, '-');
      if |pieces| != 2 then Err(BadRange(part))
      else
        var startText := Trim(pieces[0]);
        var endText := Trim(TrimEnd(pieces[1], Exactly('周')));
        match ParseU32(startText)
        case None => Err(BadNumber(startText))
        case Some(lo) =>
          match ParseU32(endText)
          case None => Err(BadNumber(endText))
          case Some(hi) => Ok(Interval(lo, hi))
    else
      var weekText := Trim(TrimEnd(part, Exactly('周')));
      match ParseU32(weekText)
      case None => Err(BadNumber(weekText))
      case Some(w) => Ok({w})
  }

  /**
   * The weeks of the parts taken in order, each read by `partWeeks`: the first part
   * it rejects decides the error, otherwise the result is the union.
   */
  function Gather(parts: seq<string>, partWeeks: string -> Result<set<nat>, WeekError>): Result<set<nat>, WeekError> {
    if parts == [] then Ok({})
    else
      match Gather(parts[..|parts| - 1], partWeeks)
      case Err(e) => Err(e)
      case Ok(earlier) =>
        match partWeeks(parts[|parts| - 1])
        case Err(e) => Err(e)
        case Ok(ws) => Ok(earlier + ws)
  }

  /** The content between any run of leading '(' and any run of trailing ')'. */
  function Unbracketed(input: string): string {
    TrimEnd(TrimStart(input, Exactly('(')), Exactly(')'))
  }

  /** The week set a week notation denotes, or why it denotes none. */
  function WeeksOf(input: string): Result<set<nat>, WeekError> {
    Gather(Split(Unbracketed(input), ','), PartWeeks)
  }

  /** Once a prefix of the parts fails, the whole list fails the same way. */
  lemma {:induction false} GatherFailureSticks(parts: seq<string>, partWeeks: string -> Result<set<nat>, WeekError>, n: nat)
    requires n <= |parts| && Gather(parts[..n], partWeeks).Err?
    ensures Gather(parts, partWeeks) == Gather(parts[..n], partWeeks)
    decreases |parts| - n
  {
    if n < |parts| {
      var longer := parts[..n + 1];
      assert longer[..n] == parts[..n];
      GatherFailureSticks(parts, partWeeks, n + 1);
    } else {
      assert parts[..n] == parts;
    }
  }

  /** On success the weeks are the union of what every part names; any failing part fails the whole. */
  lemma {:induction false} GatherUnion(parts: seq<string>, partWeeks: string -> Result<set<nat>, WeekError>)
    ensures Gather(parts, partWeeks).Ok? <==> forall i :: 0 <= i < |parts| ==> partWeeks(parts[i]).Ok?
    ensures Gather(parts, partWeeks).Ok? ==> forall w :: w in Gather(parts, partWeeks).value <==>
              exists i :: 0 <= i < |parts| && partWeeks(parts[i]).Ok? && w in partWeeks(parts[i]).value
  {
    if parts != [] {
      var n := |parts| - 1;
      var init := parts[..n];
      GatherUnion(init, partWeeks);
      assert forall i :: 0 <= i < n ==> init[i] == parts[i];
      if Gather(parts, partWeeks).Ok? {
        forall w | w in Gather(parts, partWeeks).value
          ensures exists i :: 0 <= i < |parts| && partWeeks(parts[i]).Ok? && w in partWeeks(parts[i]).value
        {
          if w !in partWeeks(parts[n]).value {
            var i :| 0 <= i < n && partWeeks(init[i]).Ok? && w in partWeeks(init[i]).value;
            assert init[i] == parts[i];
          }
        }
      }
    }
  }

  /** The error is that of the first part that fails; every part before it is well formed. */
  lemma {:induction false} GatherFirstError(parts: seq<string>, partWeeks: string -> Result<set<nat>, WeekError>)
    requires Gather(parts, partWeeks).Err?
    ensures exists i :: 0 <= i < |parts| && partWeeks(parts[i]) == Err(Gather(parts, partWeeks).error)
              && forall k :: 0 <= k < i ==> partWeeks(parts[k]).Ok?
  {
    var n := |parts| - 1;
    var init := parts[..n];
    if Gather(init, partWeeks).Err? {
      GatherFirstError(init, partWeeks);
      var i :| 0 <= i < |init| && partWeeks(init[i]) == Err(Gather(init, partWeeks).error)
                && forall k :: 0 <= k < i ==> partWeeks(init[k]).Ok?;
      assert init[i] == parts[i];
      assert forall k :: 0 <= k < i ==> init[k] == parts[k];
    } else {
      GatherUnion(init, partWeeks);
      assert forall k :: 0 <= k < n ==> init[k] == parts[k];
    }
  }

  /** Every week a part names fits in a `u32`. */
  lemma PartWeeksBounded(raw: string)
    requires PartWeeks(raw).Ok?
    ensures forall w :: w in PartWeeks(raw).value ==> w <= U32_MAX
  {
  }

  /** Every week a notation names fits in a `u32`. */
  lemma WeeksOfBounded(input: string)
    requires WeeksOf(input).Ok?
    ensures forall w :: w in WeeksOf(input).value ==> w <= U32_MAX
  {
    var parts := Split(Unbracketed(input), ',');
    GatherUnion(parts, PartWeeks);
    forall w | w in WeeksOf(input).value ensures w <= U32_MAX {
      var i :| 0 <= i < |parts| && PartWeeks(parts[i]).Ok? && w in PartWeeks(parts[i]).value;
      PartWeeksBounded(parts[i]);
    }
  }

  /** A numeral holds none of the notation's punctuation and is untouched by trimming. */
  lemma NumeralUntouched(n: nat)
    ensures '-' !in ToDecimal(n) && ',' !in ToDecimal(n) && '周' !in ToDecimal(n)
    ensures '(' !in ToDecimal(n) && ')' !in ToDecimal(n)
    ensures Trim(ToDecimal(n)) == ToDecimal(n)
    ensures TrimEnd(ToDecimal(n), Exactly('周')) == ToDecimal(n)
  {
    var s := ToDecimal(n);
    assert forall i :: 0 <= i < |s| ==> IsDigit(s[i]);
    TrimUntouched(s, Whitespace);
    TrimUntouched(s, Exactly('周'));
  }

  /** Trailing copies of a character are dropped one after the other. */
  lemma TrimEndOneMore(x: string, c: char)
    ensures TrimEnd(x + [c], Exactly(c)) == TrimEnd(x, Exactly(c))
  {
    assert (x + [c])[..|x|] == x;
  }

  /** A single week, with or without the '周' suffix, names just that week. */
  lemma SingleWeekPart(n: nat)
    requires n <= U32_MAX
    ensures PartWeeks(ToDecimal(n)) == Ok({n})
    ensures PartWeeks(ToDecimal(n) + "周") == Ok({n})
  {
    var a := ToDecimal(n);
    NumeralUntouched(n);
    ParseToDecimal(n);
    var s := a + "周";
    assert s[|s| - 1] == '周' && s[0] == a[0];
    TrimUntouched(s, Whitespace);
    assert '-' !in s by {
      assert forall i :: 0 <= i < |s| ==> s[i] == '周' || s[i] == a[i];
    }
    TrimEndOneMore(a, '周');
  }

  /** "x-t" with a dash-free, non-blank-led `x` and a non-blank-ended `t` is trimmed, and splits into x and t's pieces. */
  lemma DashJoined(x: string, t: string)
    requires '-' !in x && x != [] && t != []
    requires !IsWhitespace(x[0]) && !IsWhitespace(t[|t| - 1])
    ensures Trim(x + "-" + t) == x + "-" + t
    ensures '-' in x + "-" + t
    ensures Split(x + "-" + t, '-') == [x] + Split(t, '-')
  {
    var s := x + "-" + t;
    assert s == x + ['-'] + t;
    assert s[0] == x[0] && s[|s| - 1] == t[|t| - 1];
    TrimUntouched(s, Whitespace);
    assert s[|x|] == '-';
    SplitPrefix(x, t, '-');
  }

  /** A part "x-t" whose pieces hold no '-' and whose ends are not blank splits into x and t. */
  lemma RangePieces(x: string, t: string)
    requires '-' !in x && '-' !in t && x != [] && t != []
    requires !IsWhitespace(x[0]) && !IsWhitespace(t[|t| - 1])
    ensures Trim(x + "-" + t) == x + "-" + t
    ensures '-' in x + "-" + t
    ensures Split(x + "-" + t, '-') == [x, t]
  {
    DashJoined(x, t);
    SplitNoSeparator(t, '-');
  }

  /** A trimmed part that splits into two pieces whose numbers parse is the interval between them. */
  lemma RangeOfPieces(s: string, x: string, t: string, lo: nat, hi: nat)
    requires Trim(s) == s && '-' in s && Split(s, '-') == [x, t]
    requires ParseU32(Trim(x)) == Some(lo)
    requires ParseU32(Trim(TrimEnd(t, Exactly('周')))) == Some(hi)
    ensures PartWeeks(s) == Ok(Interval(lo, hi))
  {
  }

  /** A trimmed part that splits into two pieces whose left one does not parse fails on that piece. */
  lemma BadStartOfPieces(s: string, x: string, t: string)
    requires Trim(s) == s && '-' in s && Split(s, '-') == [x, t]
    requires ParseU32(Trim(x)) == None
    ensures PartWeeks(s) == Err(BadNumber(Trim(x)))
  {
  }

  /** A numeral followed by '周' holds no '-' and reads back as the numeral once the '周' is dropped. */
  lemma SuffixedNumeral(n: nat)
    ensures var t := ToDecimal(n) + "周";
            '-' !in t && t[|t| - 1] == '周' && t[0] == ToDecimal(n)[0]
            && TrimEnd(t, Exactly('周')) == ToDecimal(n)
  {
    var y := ToDecimal(n);
    NumeralUntouched(n);
    var t := y + "周";
    assert forall i :: 0 <= i < |t| ==> t[i] == '周' || t[i] == y[i];
    TrimEndOneMore(y, '周');
  }

  /** The range "a-b" names every week from a to b, none when b < a. */
  lemma PlainRange(a: nat, b: nat)
    requires a <= U32_MAX && b <= U32_MAX
    ensures PartWeeks(ToDecimal(a) + "-" + ToDecimal(b)) == Ok(Interval(a, b))
  {
    var x, y := ToDecimal(a), ToDecimal(b);
    NumeralUntouched(a);
    NumeralUntouched(b);
    ParseToDecimal(a);
    ParseToDecimal(b);
    RangePieces(x, y);
    RangeOfPieces(x + "-" + y, x, y, a, b);
  }

  /** The range "a-b周" names the same weeks: the suffix is dropped from the end. */
  lemma SuffixedRange(a: nat, b: nat)
    requires a <= U32_MAX && b <= U32_MAX
    ensures PartWeeks(ToDecimal(a) + "-" + (ToDecimal(b) + "周")) == Ok(Interval(a, b))
  {
    var x, y := ToDecimal(a), ToDecimal(b);
    var t := y + "周";
    NumeralUntouched(a);
    NumeralUntouched(b);
    ParseToDecimal(a);
    ParseToDecimal(b);
    SuffixedNumeral(b);
    RangePieces(x, t);
    RangeOfPieces(x + "-" + t, x, t, a, b);
  }

  /** "a周-b" is the two pieces "a周" and "b", and the left one is trimmed already but not a number. */
  lemma SuffixedStartPieces(a: nat, b: nat)
    ensures var x, y := ToDecimal(a) + "周", ToDecimal(b);
            && ToDecimal(a) + "周-" + ToDecimal(b) == x + "-" + y
            && '-' !in x && '-' !in y && x != [] && y != []
            && !IsWhitespace(x[0]) && !IsWhitespace(y[|y| - 1])
            && Trim(x) == x && ParseU32(x).None?
  {
    var x, y := ToDecimal(a) + "周", ToDecimal(b);
    NumeralUntouched(b);
    SuffixedNumeral(a);
    assert ToDecimal(a) + "周-" + ToDecimal(b) == x + "-" + y;
    TrimUntouched(x, Whitespace);
    assert !IsDigit(x[|x| - 1]);
  }

  /** The '周' suffix is allowed after a range's end only: "a周-b" is not a number on the left. */
  lemma SuffixOnRangeStart(a: nat, b: nat)
    ensures PartWeeks(ToDecimal(a) + "周-" + ToDecimal(b)) == Err(BadNumber(ToDecimal(a) + "周"))
  {
    var x, y := ToDecimal(a) + "周", ToDecimal(b);
    SuffixedStartPieces(a, b);
    RangePieces(x, y);
    BadStartOfPieces(x + "-" + y, x, y);
  }

  /** A trimmed part with a '-' that does not split into exactly two pieces is a malformed range. */
  lemma MalformedRange(s: string)
    requires Trim(s) == s && '-' in s && |Split(s, '-')| != 2
    ensures PartWeeks(s) == Err(BadRange(s))
  {
  }

  /** Three dash-free pieces joined by '-' are a trimmed part that splits back into them. */
  lemma ThreePieces(x: string, y: string, z: string)
    requires '-' !in x && '-' !in y && '-' !in z && x != [] && y != [] && z != []
    requires !IsWhitespace(x[0]) && !IsWhitespace(y[0]) && !IsWhitespace(z[|z| - 1])
    ensures var s := x + "-" + (y + "-" + z);
            Trim(s) == s && '-' in s && Split(s, '-') == [x, y, z]
  {
    RangePieces(y, z);
    var t := y + "-" + z;
    assert t[|t| - 1] == z[|z| - 1];
    DashJoined(x, t);
  }

  /** A range with a second '-', such as "1-2-3", is malformed. */
  lemma TwoDashesPart(x: string, y: string, z: string)
    requires '-' !in x && '-' !in y && '-' !in z && x != [] && y != [] && z != []
    requires !IsWhitespace(x[0]) && !IsWhitespace(y[0]) && !IsWhitespace(z[|z| - 1])
    ensures var s := x + "-" + (y + "-" + z);
            PartWeeks(s) == Err(BadRange(s))
  {
    ThreePieces(x, y, z);
    MalformedRange(x + "-" + (y + "-" + z));
  }

  /** The empty notation fails: its one empty part is not a number. */
  lemma EmptyNotation()
    ensures WeeksOf("") == Err(BadNumber(""))
  {
    assert Split("", ',') == [""];
    assert Gather([""], PartWeeks) == Err(BadNumber("")) by {
      var parts: seq<string> := [""];
      assert parts[..0] == [];
    }
  }

  /** The placeholder "None" that a short chunk carries fails as well. */
  lemma NoneNotation()
    ensures WeeksOf("None") == Err(BadNumber("None"))
  {
    var s := "None";
    TrimUntouched(s, Exactly('('));
    TrimUntouched(s, Exactly(')'));
    SplitNoSeparator(s, ',');
    TrimUntouched(s, Whitespace);
    TrimUntouched(s, Exactly('周'));
    assert '-' !in s;
    var parts: seq<string> := [s];
    assert parts[..0] == [];
    assert !IsDigit(s[0]) && s[0] != '+';
  }

  /** A notation of one part and no brackets denotes what that part names. */
  lemma OnePartNotation(s: string)
    requires ',' !in s && '(' !in s && ')' !in s
    ensures WeeksOf(s) == PartWeeks(s)
  {
    TrimUntouched(s, Exactly('('));
    TrimUntouched(s, Exactly(')'));
    SplitNoSeparator(s, ',');
    var parts: seq<string> := [s];
    assert Unbracketed(s) == s && Split(s, ',') == parts;
    assert parts[..0] == [];
    if PartWeeks(s).Ok? {
      assert {} + PartWeeks(s).value == PartWeeks(s).value;
    }
  }

  /** A reversed range such as "5-3" is no error: it names no week, and so does the whole notation. */
  lemma ReversedRange(a: nat, b: nat)
    requires b < a <= U32_MAX
    ensures WeeksOf(ToDecimal(a) + "-" + ToDecimal(b)) == Ok({})
  {
    var s := ToDecimal(a) + "-" + ToDecimal(b);
    NumeralUntouched(a);
    NumeralUntouched(b);
    assert ',' !in s && '(' !in s && ')' !in s;
    OnePartNotation(s);
    PlainRange(a, b);
    assert Interval(a, b) == {};
  }

  /** Adds every week from `lo` to `hi` to `weeks`, one at a time in ascending order. */
  method InsertRange(weeks: set<nat>, lo: nat, hi: nat) returns (added: set<nat>)
    ensures added == weeks + Interval(lo, hi)
  {
    added := weeks;
    var week := lo;
    while week <= hi
      invariant lo <= week <= if lo <= hi then hi + 1 else lo
      invariant added == weeks + Interval(lo, week - 1)
    {
      added := added + {week};
      week := week + 1;
    }
  }

  /**
   * One comma-separated part, `raw`, read into `weeks`: a range adds its weeks one
   * by one, a single week adds itself, and a malformed part returns its error.
   */
  method AddPartWeeks(weeks: set<nat>, raw: string) returns (r: Result<set<nat>, WeekError>)
    ensures PartWeeks(raw).Err? ==> r == Err(PartWeeks(raw).error)
    ensures PartWeeks(raw).Ok? ==> r == Ok(weeks + PartWeeks(raw).value)
  {
    var part := Trim(raw);
    if '-' in part {
      var rangeParts := Split(part, '-');
      if |rangeParts| != 2 {
        return Err(BadRange(part));
      }
      var startText := Trim(rangeParts[0]);
      var endText := Trim(TrimEnd(rangeParts[1], Exactly('周')));
      var startWeek := ParseU32(startText);
      if startWeek.None? {
        return Err(BadNumber(startText));
      }
      var endWeek := ParseU32(endText);
      if endWeek.None? {
        return Err(BadNumber(endText));
      }
      var added := InsertRange(weeks, startWeek.value, endWeek.value);
      return Ok(added);
    } else {
      var weekText := Trim(TrimEnd(part, Exactly('周')));
      var week := ParseU32(weekText);
      if week.None? {
        return Err(BadNumber(weekText));
      }
      return Ok(weeks + {week.value});
    }
  }

  /** One part more: its weeks join the union, and its error is the whole notation's. */
  lemma GatherStep(parts: seq<string>, i: nat, weeks: set<nat>, next: Result<set<nat>, WeekError>)
    requires i < |parts| && Gather(parts[..i], PartWeeks) == Ok(weeks)
    requires PartWeeks(parts[i]).Err? ==> next == Err(PartWeeks(parts[i]).error)
    requires PartWeeks(parts[i]).Ok? ==> next == Ok(weeks + PartWeeks(parts[i]).value)
    ensures next == Gather(parts[..i + 1], PartWeeks)
    ensures next.Err? ==> next == Gather(parts, PartWeeks)
  {
    assert parts[..i + 1][..i] == parts[..i];
    if next.Err? {
      GatherFailureSticks(parts, PartWeeks, i + 1);
    }
  }

  /**
   * `parse_weeks`: the brackets are stripped, and the comma-separated parts are read
   * in order into one set; the first malformed part ends the parse with its error.
   */
  method ParseWeeks(input: string) returns (r: Result<set<nat>, WeekError>)
    ensures r == WeeksOf(input)
  {
    var weeks: set<nat> := {};
    var content := TrimEnd(TrimStart(input, Exactly('(')), Exactly(')'));
    var parts := Split(content, ',');
    assert parts[..0] == [];
    for i := 0 to |parts|
      invariant Gather(parts[..i], PartWeeks) == Ok(weeks)
    {
      var next := AddPartWeeks(weeks, parts[i]);
      GatherStep(parts, i, weeks, next);
      if next.Err? {
        return next;
      }
      weeks := next.value;
    }
    assert parts[..|parts|] == parts;
    return Ok(weeks);
  }

  /**
   * Turns a week set into a range: an empty set is an error; otherwise the first and
   * last weeks are its minimum and maximum and the set is kept as it is.
   */
  function FromWeeks(weeks: set<nat>): (r: Result<WeekRange, WeekError>)
    ensures r.Err? <==> weeks == {}
    ensures r.Err? ==> r.error == NoWeeks
    ensures r.Ok? ==> r.value.allWeeks == weeks && Spans(weeks, r.value.startWeek, r.value.endWeek)
    ensures r.Ok? ==> r.value.startWeek <= r.value.endWeek
    ensures r.Ok? ==> r.value.weekType == DetermineWeekType(weeks, r.value.startWeek, r.value.endWeek)
  {
    if weeks == {} then Err(NoWeeks)
    else
      var startWeek := SetMin(weeks);
      var endWeek := SetMax(weeks);
      Ok(WeekRange(startWeek, endWeek, DetermineWeekType(weeks, startWeek, endWeek), weeks))
  }

  // ---------------------------------------------------------------------------
  // Column values of a stored course
  // ---------------------------------------------------------------------------

  /** The week set a stored course stands for, read back from its span and class. */
  function CourseWeeks(c: Course): set<nat> {
    match c.weekType
    case Full => Interval(c.startWeek, c.endWeek)
    case Double => set w: nat | c.startWeek <= w <= c.endWeek && w % 2 == 0
    case Single => set w: nat | c.startWeek <= w <= c.endWeek && w % 2 == 1
    case Multiple => {}
  }

  /** The `week_type` column value of a class; an irregular set has none. */
  function WeekTypeColumn(t: WeekType): string
    requires t != Multiple
  {
    if t == Single then "single" else if t == Double then "double" else "both"
  }

  /** The values a course is stored with, column by column. */
  datatype ScheduleRow = ScheduleRow(
    course: string,
    className: string,
    teacher: string,
    weekType: string,
    weekDay: nat,
    startPeriod: nat,
    duration: nat,
    classroom: string,
    startWeek: nat,
    endWeek: nat)

  /**
   * The column values of a stored course: the class column, the 1-based week day,
   * the first of the two periods its slot covers, and everything else copied.
   */
  function ScheduleRowOf(c: Course): (row: ScheduleRow)
    requires c.weekType != Multiple
    requires c.index < 0x4000_0000
    ensures c.weekType == Single ==> row.weekType == "single"
    ensures c.weekType == Double ==> row.weekType == "double"
    ensures c.weekType == Full ==> row.weekType == "both"
    ensures row.weekDay >= 1 && row.weekDay - 1 == c.week
    ensures row.startPeriod % 2 == 1 && (row.startPeriod - 1) / 2 == c.index
    ensures row.duration == 2
    ensures row.course == c.name && row.className == c.className && row.teacher == c.teacher
    ensures row.classroom == c.location && row.startWeek == c.startWeek && row.endWeek == c.endWeek
  {
    ScheduleRow(c.name, c.className, c.teacher, WeekTypeColumn(c.weekType),
                c.week + 1, c.index * 2 + 1, 2, c.location, c.startWeek, c.endWeek)
  }
}
