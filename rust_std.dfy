/**
 * The behaviour of the Rust standard-library string and slice operations that the
 * timetable code relies on: `trim`, `trim_start_matches`, `trim_end_matches`,
 * `split` on one character, `contains`, `replace(pattern, "")`, `str::parse::<u32>`
 * and `slice::chunks`. Strings are sequences of Unicode scalar values, as Rust's
 * `char` is.
 */
module RustStd {
  import opened Wrappers

  /** The largest value of Rust's `u32`. */
  const U32_MAX: nat := 0xFFFF_FFFF

  // ---------------------------------------------------------------------------
  // Trimming
  // ---------------------------------------------------------------------------

  /** The character patterns handed to the `trim*` family. */
  datatype CharClass = Whitespace | Exactly(c: char)

  /** Unicode's White_Space property, which `char::is_whitespace` (and so `str::trim`) tests. */
  predicate IsWhitespace(c: char) {
    ('\t' <= c <= '\r') || c == ' ' || c == '\U{85}' || c == '\U{A0}' || c == '\U{1680}'
    || ('\U{2000}' <= c <= '\U{200A}') || c == '\U{2028}' || c == '\U{2029}'
    || c == '\U{202F}' || c == '\U{205F}' || c == '\U{3000}'
  }

  predicate Matches(cc: CharClass, c: char) {
    match cc
    case Whitespace => IsWhitespace(c)
    case Exactly(x) => c == x
  }

  /** `trim_start_matches`: drops every leading character of the class, however many there are. */
  function TrimStart(s: string, cc: CharClass): string {
    if s != [] && Matches(cc, s[0]) then TrimStart(s[1..], cc) else s
  }

  /** `trim_end_matches`: drops every trailing character of the class, however many there are. */
  function TrimEnd(s: string, cc: CharClass): string {
    if s != [] && Matches(cc, s[|s| - 1]) then TrimEnd(s[..|s| - 1], cc) else s
  }

  /** What `TrimStart` keeps is a suffix whose first character is outside the class, and all it drops is inside. */
  lemma {:induction false} TrimStartSpec(s: string, cc: CharClass)
    ensures var r := TrimStart(s, cc);
            && |r| <= |s| && r == s[|s| - |r|..]
            && (forall i :: 0 <= i < |s| - |r| ==> Matches(cc, s[i]))
            && (r != [] ==> !Matches(cc, r[0]))
  {
    if s != [] && Matches(cc, s[0]) {
      var t := s[1..];
      TrimStartSpec(t, cc);
      var r := TrimStart(t, cc);
      assert TrimStart(s, cc) == r;
      forall i | 0 <= i < |s| - |r| ensures Matches(cc, s[i]) {
        if i > 0 {
          assert s[i] == t[i - 1];
        }
      }
      assert t[|t| - |r|..] == s[|s| - |r|..];
    }
  }

  /** What `TrimEnd` keeps is a prefix whose last character is outside the class, and all it drops is inside. */
  lemma {:induction false} TrimEndSpec(s: string, cc: CharClass)
    ensures var r := TrimEnd(s, cc);
            && |r| <= |s| && r == s[..|r|]
            && (forall i :: |r| <= i < |s| ==> Matches(cc, s[i]))
            && (r != [] ==> !Matches(cc, r[|r| - 1]))
  {
    if s != [] && Matches(cc, s[|s| - 1]) {
      var t := s[..|s| - 1];
      TrimEndSpec(t, cc);
      var r := TrimEnd(t, cc);
      assert TrimEnd(s, cc) == r;
      forall i | |r| <= i < |s| ensures Matches(cc, s[i]) {
        if i < |t| {
          assert s[i] == t[i];
        }
      }
      assert t[..|r|] == s[..|r|];
    }
  }

  /** `str::trim`: leading and trailing whitespace removed. */
  function Trim(s: string): string {
    TrimEnd(TrimStart(s, Whitespace), Whitespace)
  }

  /** Trimming leaves a string alone exactly when it neither starts nor ends with the class. */
  lemma TrimUntouched(s: string, cc: CharClass)
    requires s == [] || (!Matches(cc, s[0]) && !Matches(cc, s[|s| - 1]))
    ensures TrimStart(s, cc) == s && TrimEnd(s, cc) == s
  {
  }

  /** Trimming twice trims no more than trimming once. */
  lemma TrimIdempotent(s: string)
    ensures Trim(Trim(s)) == Trim(s)
  {
    var t := Trim(s);
    var u := TrimStart(s, Whitespace);
    TrimStartSpec(s, Whitespace);
    TrimEndSpec(u, Whitespace);
    if t != [] {
      assert t[0] == u[0];
      TrimUntouched(t, Whitespace);
    }
  }

  // ---------------------------------------------------------------------------
  // Splitting on one character
  // ---------------------------------------------------------------------------

  /**
   * `str::split` on a single character: the pieces between the separators, in order.
   * There is always at least one piece; the empty string gives one empty piece.
   */
  function Split(s: string, sep: char): (r: seq<string>)
    ensures |r| >= 1
  {
    if s == [] then [[]]
    else
      var rest := Split(s[1..], sep);
      if s[0] == sep then [[]] + rest else [[s[0]] + rest[0]] + rest[1..]
  }

  /** No piece holds the separator. */
  lemma {:induction false} SplitPiecesFree(s: string, sep: char)
    ensures forall i :: 0 <= i < |Split(s, sep)| ==> sep !in Split(s, sep)[i]
  {
    if s != [] {
      SplitPiecesFree(s[1..], sep);
    }
  }

  /** The pieces put back together with the separator between them: the inverse of `Split`. */
  function JoinWith(parts: seq<string>, sep: char): string
    requires |parts| >= 1
  {
    if |parts| == 1 then parts[0] else parts[0] + [sep] + JoinWith(parts[1..], sep)
  }

  lemma {:induction false} JoinSplit(s: string, sep: char)
    ensures JoinWith(Split(s, sep), sep) == s
  {
    if s != [] {
      var rest := Split(s[1..], sep);
      JoinSplit(s[1..], sep);
      if s[0] != sep {
        if |rest| == 1 {
          assert Split(s, sep) == [[s[0]] + rest[0]];
        } else {
          assert Split(s, sep)[1..] == rest[1..];
        }
      } else {
        assert Split(s, sep)[1..] == rest;
      }
    }
  }

  lemma {:induction false} SplitJoin(parts: seq<string>, sep: char)
    requires |parts| >= 1
    requires forall i :: 0 <= i < |parts| ==> sep !in parts[i]
    ensures Split(JoinWith(parts, sep), sep) == parts
  {
    if |parts| == 1 {
      SplitNoSeparator(parts[0], sep);
    } else {
      SplitJoin(parts[1..], sep);
      SplitPrefix(parts[0], JoinWith(parts[1..], sep), sep);
      assert [parts[0]] + parts[1..] == parts;
    }
  }

  /** A string without the separator is one piece. */
  lemma {:induction false} SplitNoSeparator(s: string, sep: char)
    requires sep !in s
    ensures Split(s, sep) == [s]
  {
    if s != [] {
      SplitNoSeparator(s[1..], sep);
      assert [s[0]] + s[1..] == s;
    }
  }

  /** A separator-free head followed by the separator starts a new piece. */
  lemma {:induction false} SplitPrefix(head: string, tail: string, sep: char)
    requires sep !in head
    ensures Split(head + [sep] + tail, sep) == [head] + Split(tail, sep)
  {
    if head == [] {
      assert head + [sep] + tail == [sep] + tail;
      assert ([sep] + tail)[1..] == tail;
    } else {
      var s := head + [sep] + tail;
      assert s[1..] == head[1..] + [sep] + tail;
      SplitPrefix(head[1..], tail, sep);
      assert [head[0]] + head[1..] == head;
    }
  }

  // ---------------------------------------------------------------------------
  // Substrings and `replace(pattern, "")`
  // ---------------------------------------------------------------------------

  predicate StartsWith(s: string, p: string) {
    |p| <= |s| && s[..|p|] == p
  }

  /** `str::contains` with a string pattern. */
  predicate Contains(s: string, p: string)
    decreases |s|
  {
    StartsWith(s, p) || (s != [] && Contains(s[1..], p))
  }

  /** `p` occurs in `s` starting at position `i`. */
  predicate OccursAt(s: string, p: string, i: int) {
    0 <= i <= |s| - |p| && s[i..i + |p|] == p
  }

  /** `Contains` against the direct definition: some position where `p` occurs. */
  lemma {:induction false} ContainsAt(s: string, p: string)
    ensures Contains(s, p) <==> exists i :: OccursAt(s, p, i)
    decreases |s|
  {
    if StartsWith(s, p) {
      assert OccursAt(s, p, 0);
    } else if s != [] {
      ContainsAt(s[1..], p);
      if Contains(s[1..], p) {
        var i :| OccursAt(s[1..], p, i);
        assert s[i + 1..i + 1 + |p|] == s[1..][i..i + |p|];
        assert OccursAt(s, p, i + 1);
      }
      if exists i :: OccursAt(s, p, i) {
        var i :| OccursAt(s, p, i);
        assert i != 0;
        assert s[1..][i - 1..i - 1 + |p|] == s[i..i + |p|];
        assert OccursAt(s[1..], p, i - 1);
      }
    }
  }

  /**
   * `s.replace(pat, "")`: every occurrence of `pat` found scanning from the left,
   * occurrences not overlapping, is deleted in one pass. An empty pattern changes nothing.
   */
  function RemoveAll(s: string, pat: string): (r: string)
    ensures |r| <= |s|
    decreases |s|
  {
    if pat == [] || |s| < |pat| then s
    else if s[..|pat|] == pat then RemoveAll(s[|pat|..], pat)
    else [s[0]] + RemoveAll(s[1..], pat)
  }

  /** `s` is `pat` written some number of times (zero included) back to back. */
  predicate IsRepetition(s: string, pat: string)
    requires pat != []
    decreases |s|
  {
    s == [] || (StartsWith(s, pat) && IsRepetition(s[|pat|..], pat))
  }

  /** Where the pattern does not occur, removing it changes nothing. */
  lemma {:induction false} RemoveAllAbsent(s: string, pat: string)
    requires !Contains(s, pat)
    ensures RemoveAll(s, pat) == s
    decreases |s|
  {
    if pat != [] && |s| >= |pat| {
      RemoveAllAbsent(s[1..], pat);
      assert [s[0]] + s[1..] == s;
    }
  }

  /** Removing a non-empty pattern leaves nothing exactly when the text is that pattern repeated. */
  lemma {:induction false} RemoveAllEmpty(s: string, pat: string)
    requires pat != []
    ensures RemoveAll(s, pat) == [] <==> IsRepetition(s, pat)
    decreases |s|
  {
    if |s| >= |pat| && s[..|pat|] == pat {
      RemoveAllEmpty(s[|pat|..], pat);
    }
  }

  // ---------------------------------------------------------------------------
  // `str::parse::<u32>`
  // ---------------------------------------------------------------------------

  predicate IsDigit(c: char) {
    '0' <= c <= '9'
  }

  predicate AllDigits(s: string) {
    forall i :: 0 <= i < |s| ==> IsDigit(s[i])
  }

  function DigitValue(c: char): (d: nat)
    requires IsDigit(c)
    ensures d < 10
  {
    c as int - '0' as int
  }

  /** The number an ASCII decimal numeral denotes. */
  function DecimalValue(ds: string): nat
    requires AllDigits(ds)
  {
    if ds == [] then 0 else DecimalValue(ds[..|ds| - 1]) * 10 + DigitValue(ds[|ds| - 1])
  }

  /**
   * `u32::from_str`: an optional `+`, then one or more ASCII digits (leading zeros
   * allowed), whose value fits in 32 bits. Anything else, the empty string and a
   * lone `+` included, is an error.
   */
  function ParseU32(s: string): (r: Option<nat>)
    ensures r.Some? ==> r.value <= U32_MAX
  {
    var digits := if s != [] && s[0] == '+' then s[1..] else s;
    if digits == [] || !AllDigits(digits) then None
    else
      var v := DecimalValue(digits);
      if v <= U32_MAX then Some(v) else None
  }

  /**
   * Only a non-empty run of ASCII digits, optionally after one '+', is accepted;
   * in particular neither the empty string nor a lone '+' is.
   */
  lemma ParseU32Accepts(s: string)
    requires ParseU32(s).Some?
    ensures s != [] && (s[0] == '+' ==> |s| >= 2)
    ensures forall i :: 0 <= i < |s| ==> IsDigit(s[i]) || (i == 0 && s[i] == '+')
  {
  }

  function DigitChar(d: nat): (c: char)
    requires d < 10
    ensures IsDigit(c) && DigitValue(c) == d
  {
    ('0' as int + d) as char
  }

  /** The shortest decimal numeral of `n`, the way `n.to_string()` writes it. */
  function ToDecimal(n: nat): (s: string)
    ensures s != [] && AllDigits(s)
    ensures s[0] != '+' && !IsWhitespace(s[0]) && !IsWhitespace(s[|s| - 1])
  {
    if n < 10 then [DigitChar(n)] else ToDecimal(n / 10) + [DigitChar(n % 10)]
  }

  lemma {:induction false} DecimalValueOfToDecimal(n: nat)
    ensures DecimalValue(ToDecimal(n)) == n
  {
    if n >= 10 {
      var s := ToDecimal(n);
      DecimalValueOfToDecimal(n / 10);
      assert s[..|s| - 1] == ToDecimal(n / 10);
    }
  }

  /** Parsing what `ToDecimal` writes, with or without a leading `+`, gives the number back. */
  lemma ParseToDecimal(n: nat)
    requires n <= U32_MAX
    ensures ParseU32(ToDecimal(n)) == Some(n)
    ensures ParseU32("+" + ToDecimal(n)) == Some(n)
  {
    DecimalValueOfToDecimal(n);
    assert ("+" + ToDecimal(n))[1..] == ToDecimal(n);
  }

  /** Numbers beyond 32 bits are rejected. */
  lemma ParseU32Overflow(n: nat)
    requires n > U32_MAX
    ensures ParseU32(ToDecimal(n)) == None
  {
    DecimalValueOfToDecimal(n);
  }

  // ---------------------------------------------------------------------------
  // `slice::chunks`
  // ---------------------------------------------------------------------------

  /** `slice::chunks(size)`: consecutive runs of `size` items, the last one possibly shorter. */
  function Chunks<T>(xs: seq<T>, size: nat): (r: seq<seq<T>>)
    requires size > 0
    ensures forall k :: 0 <= k < |r| ==> 0 < |r[k]| <= size
    ensures forall k :: 0 <= k < |r| - 1 ==> |r[k]| == size
    ensures xs != [] <==> r != []
    decreases |xs|
  {
    if xs == [] then []
    else if |xs| <= size then [xs]
    else [xs[..size]] + Chunks(xs[size..], size)
  }

  function Flatten<T>(xss: seq<seq<T>>): seq<T> {
    if xss == [] then [] else xss[0] + Flatten(xss[1..])
  }

  /** The chunks, read in order, are the original sequence. */
  lemma {:induction false} FlattenChunks<T>(xs: seq<T>, size: nat)
    requires size > 0
    ensures Flatten(Chunks(xs, size)) == xs
    decreases |xs|
  {
    if |xs| > size {
      FlattenChunks(xs[size..], size);
      assert Chunks(xs, size)[1..] == Chunks(xs[size..], size);
      assert xs[..size] + xs[size..] == xs;
    } else if xs != [] {
      assert Flatten(Chunks(xs, size)) == xs + Flatten<T>([]);
    }
  }
}
