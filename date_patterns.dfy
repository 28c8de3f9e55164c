/**
 * The two date shapes a file name may carry and `extract_date_from_filename`:
 * `YYYY-MM-DD` is tried first, then `YYYYMMDD`; each is searched for with a
 * left-to-right scan of non-overlapping occurrences (what `re.finditer`
 * does), and the last occurrence found decides the date.
 */
module DatePatterns {

  import opened Wrappers
  import opened Text
  import opened Calendar

  /** `(\d{4})-(\d{2})-(\d{2})` and `(\d{4})(\d{2})(\d{2})`, over ASCII digits. */
  datatype Pattern = Hyphenated | Compact

  /** `DATE_PATTERNS`: the order in which extraction tries the shapes. */
  const DatePatterns: seq<Pattern> := [Hyphenated, Compact]

  /** Characters an occurrence spans; both shapes have a fixed width. */
  function Width(p: Pattern): nat {
    match p
    case Hyphenated => 10
    case Compact => 8
  }

  /** Where the month group starts, relative to the occurrence. */
  function MonthOffset(p: Pattern): nat {
    match p
    case Hyphenated => 5
    case Compact => 4
  }

  /** Where the day group starts, relative to the occurrence. */
  function DayOffset(p: Pattern): nat {
    match p
    case Hyphenated => 8
    case Compact => 6
  }

  /** `n` ASCII digits start at index `i` of `s`. */
  predicate DigitRun(s: string, i: nat, n: nat)
    requires i + n <= |s|
    decreases n
  {
    n == 0 || (IsDigit(s[i]) && DigitRun(s, i + 1, n - 1))
  }

  lemma {:induction false} DigitRunAt(s: string, i: nat, n: nat, k: nat)
    requires i + n <= |s| && DigitRun(s, i, n) && i <= k < i + n
    ensures IsDigit(s[k])
    decreases n
  {
    if k > i {
      DigitRunAt(s, i + 1, n - 1, k);
    }
  }

  function Pow10(n: nat): (p: nat)
    ensures p > 0
  {
    if n == 0 then 1 else 10 * Pow10(n - 1)
  }

  /** `int(s[i:i+n])` for a run of `n` digits. */
  function DigitsValue(s: string, i: nat, n: nat): (v: nat)
    requires i + n <= |s| && DigitRun(s, i, n)
    ensures v < Pow10(n)
    decreases n
  {
    if n == 0 then 0
    else
      DigitRunAt(s, i, n, i + n - 1);
      assert DigitRun(s, i, n - 1) by { DigitRunPrefix(s, i, n); }
      DigitsValue(s, i, n - 1) * 10 + DigitValue(s[i + n - 1])
  }

  lemma {:induction false} DigitRunPrefix(s: string, i: nat, n: nat)
    requires i + n <= |s| && n > 0 && DigitRun(s, i, n)
    ensures DigitRun(s, i, n - 1)
    decreases n
  {
    if n > 1 {
      DigitRunPrefix(s, i + 1, n - 1);
    }
  }

  /** The pattern `p` matches the text of `s` starting at index `i`. */
  predicate MatchesAt(s: string, p: Pattern, i: int) {
    0 <= i && i + Width(p) <= |s| &&
    match p
    case Hyphenated =>
      DigitRun(s, i, 4) && s[i + 4] == '-' && DigitRun(s, i + 5, 2) && s[i + 7] == '-' && DigitRun(s, i + 8, 2)
    case Compact =>
      DigitRun(s, i, 8)
  }

  /** Where `p` occurs in `s`: entry `i` says whether an occurrence starts at index `i`. */
  function Occurrences(s: string, p: Pattern): (hits: seq<bool>)
    ensures |hits| == |s|
    ensures forall i :: 0 <= i < |s| ==> hits[i] == MatchesAt(s, p, i)
  {
    seq(|s|, i requires 0 <= i < |s| => MatchesAt(s, p, i))
  }

  /**
   * `pattern.finditer(s)` from position `from`, as the list of start
   * positions: the leftmost occurrence at or after `from`, then the search
   * resumes where that occurrence ends (`width` characters later).
   */
  function Scan(hits: seq<bool>, width: nat, from: nat): (r: seq<nat>)
    requires width > 0
    ensures forall k :: 0 <= k < |r| ==> from <= r[k] < |hits| && hits[r[k]]
    ensures r == [] <==> forall j :: from <= j < |hits| ==> !hits[j]
    decreases |hits| - from
  {
    if from >= |hits| then []
    else if hits[from] then [from] + Scan(hits, width, from + width)
    else Scan(hits, width, from + 1)
  }

  /** The scan finds occurrences in increasing order, none overlapping the next. */
  lemma {:induction false} ScanNonOverlapping(hits: seq<bool>, width: nat, from: nat)
    requires width > 0
    ensures forall k :: 0 <= k < |Scan(hits, width, from)| - 1 ==>
      Scan(hits, width, from)[k] + width <= Scan(hits, width, from)[k + 1]
    decreases |hits| - from
  {
    var r := Scan(hits, width, from);
    if from < |hits| {
      if hits[from] {
        var rest := Scan(hits, width, from + width);
        ScanNonOverlapping(hits, width, from + width);
        assert r == [from] + rest;
        forall k | 0 <= k < |r| - 1
          ensures r[k] + width <= r[k + 1]
        {
          assert r[k + 1] == rest[k];
          if k > 0 {
            assert r[k] == rest[k - 1];
          }
        }
      } else {
        ScanNonOverlapping(hits, width, from + 1);
      }
    }
  }

  /** The scan skips no occurrence before its first one. */
  lemma {:induction false} ScanLeftmost(hits: seq<bool>, width: nat, from: nat)
    requires width > 0
    ensures Scan(hits, width, from) != [] ==>
      forall j :: from <= j < Scan(hits, width, from)[0] ==> !hits[j]
    decreases |hits| - from
  {
    if from < |hits| && !hits[from] {
      ScanLeftmost(hits, width, from + 1);
    }
  }

  /**
   * The scan skips no occurrence between two listed ones: after each listed
   * occurrence it resumes at that occurrence's end and takes the next one.
   */
  lemma {:induction false} ScanGreedy(hits: seq<bool>, width: nat, from: nat)
    requires width > 0
    ensures forall k, j ::
      && 0 <= k < |Scan(hits, width, from)| - 1
      && Scan(hits, width, from)[k] + width <= j < Scan(hits, width, from)[k + 1]
      && j < |hits|
      ==> !hits[j]
    decreases |hits| - from
  {
    if from < |hits| {
      var r := Scan(hits, width, from);
      if hits[from] {
        var rest := Scan(hits, width, from + width);
        ScanGreedy(hits, width, from + width);
        ScanLeftmost(hits, width, from + width);
        assert r == [from] + rest;
        forall k, j | 0 <= k < |r| - 1 && r[k] + width <= j < r[k + 1] && j < |hits|
          ensures !hits[j]
        {
          assert r[k + 1] == rest[k];
          if k > 0 {
            var k' := k - 1;
            assert rest[k'] + width <= j < rest[k' + 1];
          } else {
            assert from + width <= j < rest[0];
          }
        }
      } else {
        ScanGreedy(hits, width, from + 1);
        assert r == Scan(hits, width, from + 1);
      }
    }
  }

  /** No occurrence starts at or after the end of the last one the scan finds. */
  lemma {:induction false} ScanNoneAfterLast(hits: seq<bool>, width: nat, from: nat)
    requires width > 0
    ensures var r := Scan(hits, width, from);
      r != [] ==> forall j :: r[|r| - 1] + width <= j < |hits| ==> !hits[j]
    decreases |hits| - from
  {
    if from < |hits| {
      var r := Scan(hits, width, from);
      if hits[from] {
        var rest := Scan(hits, width, from + width);
        ScanNoneAfterLast(hits, width, from + width);
        assert r == [from] + rest;
      } else {
        ScanNoneAfterLast(hits, width, from + 1);
      }
    }
  }

  /** `matches[-1]`: the start of the last occurrence the scan of `s` finds, if any. */
  function LastMatch(s: string, p: Pattern): (r: Option<nat>)
    ensures r.Some? ==> MatchesAt(s, p, r.value)
    ensures r.None? <==> forall j :: !MatchesAt(s, p, j)
    ensures r.Some? ==> forall j :: MatchesAt(s, p, j) ==> j < r.value + Width(p)
  {
    var hits := Occurrences(s, p);
    var matches := Scan(hits, Width(p), 0);
    ScanNoneAfterLast(hits, Width(p), 0);
    if matches == [] then None else Some(matches[|matches| - 1])
  }

  /** The three groups of the occurrence at `i`, read as integers. */
  function Groups(s: string, p: Pattern, i: nat): (g: Date)
    requires MatchesAt(s, p, i)
    ensures 0 <= g.year < 10000 && 0 <= g.month < 100 && 0 <= g.day < 100
  {
    Date(DigitsValue(s, i, 4), DigitsValue(s, i + MonthOffset(p), 2), DigitsValue(s, i + DayOffset(p), 2))
  }

  /** The groups read as decimal numbers: four digits of year, two of month, two of day. */
  lemma GroupsDecimal(s: string, p: Pattern, i: nat)
    requires MatchesAt(s, p, i)
    ensures var m, d := i + MonthOffset(p), i + DayOffset(p);
      && IsDigit(s[i]) && IsDigit(s[i + 1]) && IsDigit(s[i + 2]) && IsDigit(s[i + 3])
      && IsDigit(s[m]) && IsDigit(s[m + 1]) && IsDigit(s[d]) && IsDigit(s[d + 1])
      && Groups(s, p, i) == Date(
           1000 * DigitValue(s[i]) + 100 * DigitValue(s[i + 1]) + 10 * DigitValue(s[i + 2]) + DigitValue(s[i + 3]),
           10 * DigitValue(s[m]) + DigitValue(s[m + 1]),
           10 * DigitValue(s[d]) + DigitValue(s[d + 1]))
  {
    var m, d := i + MonthOffset(p), i + DayOffset(p);
    DigitRunAt(s, i, 4, i);
    DigitRunAt(s, i, 4, i + 1);
    DigitRunAt(s, i, 4, i + 2);
    DigitRunAt(s, i, 4, i + 3);
    DigitRunAt(s, m, 2, m);
    DigitRunAt(s, m, 2, m + 1);
    DigitRunAt(s, d, 2, d);
    DigitRunAt(s, d, 2, d + 1);
    if p == Hyphenated {
      assert DigitRun(s, i, 4) && DigitRun(s, m, 2) && DigitRun(s, d, 2);
    } else {
      DigitRunSplit(s, i, 4, 4);
      DigitRunSplit(s, m, 2, 2);
    }
    DigitRunPrefix(s, i, 4);
    DigitRunPrefix(s, i, 3);
    DigitRunPrefix(s, i, 2);
    DigitRunPrefix(s, m, 2);
    DigitRunPrefix(s, d, 2);
  }

  lemma {:induction false} DigitRunSplit(s: string, i: nat, a: nat, b: nat)
    requires i + a + b <= |s| && DigitRun(s, i, a + b)
    ensures DigitRun(s, i, a) && DigitRun(s, i + a, b)
    decreases a
  {
    if a > 0 {
      DigitRunSplit(s, i + 1, a - 1, b);
    }
  }

  /**
   * The loop over DATE_PATTERNS: the first pattern with any occurrence
   * decides, through the date its last occurrence gives, even when that date
   * is invalid; with no occurrence of any pattern there is no date.
   */
  function FirstPatternDate(name: string, patterns: seq<Pattern>): (r: Option<Date>)
    ensures r.Some? ==> ValidDate(r.value)
    ensures r.Some? ==> exists k :: 0 <= k < |patterns| && LastMatch(name, patterns[k]).Some?
  {
    if patterns == [] then None
    else
      match LastMatch(name, patterns[0])
      case None => FirstPatternDate(name, patterns[1..])
      case Some(i) =>
        var g := Groups(name, patterns[0], i);
        MakeDate(g.year, g.month, g.day)
  }

  /** `extract_date_from_filename`: never fails; None stands for "no date". */
  function ExtractDate(name: string): (r: Option<Date>)
    ensures r.Some? ==> ValidDate(r.value)
    ensures r.Some? ==> LastMatch(name, Hyphenated).Some? || LastMatch(name, Compact).Some?
  {
    FirstPatternDate(name, DatePatterns)
  }

  /** The date the last occurrence of `p` in `name` gives, None when it is not a date. */
  function LastDate(name: string, p: Pattern): (r: Option<Date>)
    requires LastMatch(name, p).Some?
    ensures var g := Groups(name, p, LastMatch(name, p).value);
      && (r.Some? <==> ValidDate(g))
      && (r.Some? ==> r.value == g)
  {
    var g := Groups(name, p, LastMatch(name, p).value);
    MakeDate(g.year, g.month, g.day)
  }

  /**
   * Once `YYYY-MM-DD` occurs anywhere, its last occurrence alone decides:
   * `YYYYMMDD` is never consulted, even when that date is invalid.
   */
  lemma HyphenatedDecides(name: string, j: int)
    requires MatchesAt(name, Hyphenated, j)
    ensures LastMatch(name, Hyphenated).Some?
    ensures ExtractDate(name) == LastDate(name, Hyphenated)
  {
  }

  /** With no `YYYY-MM-DD` anywhere, the last `YYYYMMDD` occurrence decides. */
  lemma CompactDecidesOtherwise(name: string, j: int)
    requires forall k :: !MatchesAt(name, Hyphenated, k)
    requires MatchesAt(name, Compact, j)
    ensures LastMatch(name, Compact).Some?
    ensures ExtractDate(name) == LastDate(name, Compact)
  {
    assert LastMatch(name, Hyphenated) == None;
    assert DatePatterns[1..] == [Compact];
    assert ExtractDate(name) == FirstPatternDate(name, [Compact]);
  }

  /** A name with no occurrence of either shape has no date. */
  lemma NoOccurrenceNoDate(name: string)
    requires forall k :: !MatchesAt(name, Hyphenated, k) && !MatchesAt(name, Compact, k)
    ensures ExtractDate(name) == None
  {
    assert DatePatterns[1..] == [Compact];
    assert DatePatterns[1..][1..] == [];
  }

  /** A shape that occurs at one position only is found there. */
  lemma SoleOccurrence(s: string, p: Pattern, i: int)
    requires MatchesAt(s, p, i)
    requires forall j :: MatchesAt(s, p, j) ==> j == i
    ensures LastMatch(s, p) == Some(i)
  {
  }

  /** An occurrence table with no occurrence at all. */
  function NoHits(n: nat): (hits: seq<bool>)
    ensures |hits| == n && forall i :: 0 <= i < n ==> !hits[i]
  {
    seq(n, _ => false)
  }

  /** Reading a whole occurrence table: no entry set means no occurrence. */
  lemma NoneFromTable(s: string, p: Pattern)
    requires Occurrences(s, p) == NoHits(|s|)
    ensures LastMatch(s, p) == None
  {
    forall j ensures !MatchesAt(s, p, j) {
      if 0 <= j < |s| {
        assert !Occurrences(s, p)[j];
      }
    }
  }

  /** No character of `s` is an ASCII digit. */
  predicate NoDigit(s: string) {
    forall k :: 0 <= k < |s| ==> !IsDigit(s[k])
  }

  /** `n` characters of `s` from `i` are those of `t` from `j`. */
  predicate SameRun(s: string, i: nat, t: string, j: nat, n: nat)
    requires i + n <= |s| && j + n <= |t|
  {
    s[i..i + n] == t[j..j + n]
  }

  lemma SameRunPart(s: string, i: nat, t: string, j: nat, n: nat, a: nat, m: nat)
    requires i + n <= |s| && j + n <= |t| && SameRun(s, i, t, j, n) && a + m <= n
    ensures SameRun(s, i + a, t, j + a, m)
  {
    forall q | i + a <= q < i + a + m
      ensures s[q] == t[q - i + j]
    {
      assert s[q] == s[i..i + n][q - i] && t[q - i + j] == t[j..j + n][q - i];
    }
  }

  /** Whether a run of digits starts somewhere depends on that text only. */
  lemma {:induction false} DigitRunShift(s: string, i: nat, t: string, j: nat, n: nat)
    requires i + n <= |s| && j + n <= |t| && SameRun(s, i, t, j, n)
    ensures DigitRun(s, i, n) == DigitRun(t, j, n)
    decreases n
  {
    if n > 0 {
      assert s[i] == s[i..i + n][0] && t[j] == t[j..j + n][0];
      SameRunPart(s, i, t, j, n, 1, n - 1);
      DigitRunShift(s, i + 1, t, j + 1, n - 1);
    }
  }

  /** So does the value a run of digits reads as. */
  lemma {:induction false} DigitsValueShift(s: string, i: nat, t: string, j: nat, n: nat)
    requires i + n <= |s| && j + n <= |t| && SameRun(s, i, t, j, n) && DigitRun(s, i, n)
    ensures DigitRun(t, j, n) && DigitsValue(s, i, n) == DigitsValue(t, j, n)
    decreases n
  {
    DigitRunShift(s, i, t, j, n);
    if n > 0 {
      DigitRunPrefix(s, i, n);
      SameRunPart(s, i, t, j, n, 0, n - 1);
      DigitsValueShift(s, i, t, j, n - 1);
      assert s[i + n - 1] == s[i..i + n][n - 1] && t[j + n - 1] == t[j..j + n][n - 1];
    }
  }

  /** An occurrence of `date` inside a longer name is an occurrence there, with the same groups. */
  lemma Embedded(pre: string, date: string, post: string, p: Pattern)
    requires |date| == Width(p) && MatchesAt(date, p, 0)
    ensures MatchesAt(pre + date + post, p, |pre|)
    ensures Groups(pre + date + post, p, |pre|) == Groups(date, p, 0)
  {
    var s, i, m, d := pre + date + post, |pre|, MonthOffset(p), DayOffset(p);
    assert SameRun(date, 0, s, i, Width(p)) by {
      assert s[i..i + Width(p)] == date;
    }
    DigitsValueShift(date, 0, s, i, 4);
    SameRunPart(date, 0, s, i, Width(p), m, 2);
    DigitsValueShift(date, m, s, i + m, 2);
    SameRunPart(date, 0, s, i, Width(p), d, 2);
    DigitsValueShift(date, d, s, i + d, 2);
    if p == Compact {
      DigitRunSplit(date, 0, 4, 4);
      DigitRunSplit(date, 4, 2, 2);
      DigitRunShift(date, 0, s, i, 8);
    } else {
      assert date[4] == s[i + 4] && date[7] == s[i + 7];
    }
  }

  /**
   * A name made of a digit-free text, eight digits and a digit-free text has
   * one `YYYYMMDD` occurrence: the eight digits.
   */
  lemma CompactSole(pre: string, date: string, post: string)
    requires |date| == 8 && MatchesAt(date, Compact, 0)
    requires NoDigit(pre) && NoDigit(post)
    ensures LastMatch(pre + date + post, Compact) == Some(|pre|)
    ensures Groups(pre + date + post, Compact, |pre|) == Groups(date, Compact, 0)
  {
    var s := pre + date + post;
    Embedded(pre, date, post, Compact);
    forall j | MatchesAt(s, Compact, j)
      ensures j == |pre|
    {
      DigitRunAt(s, j, 8, j);
      DigitRunAt(s, j, 8, j + 7);
    }
    SoleOccurrence(s, Compact, |pre|);
  }

  /** A name without a dash has no `YYYY-MM-DD` occurrence. */
  lemma NoDashNoHyphenated(s: string)
    requires '-' !in s
    ensures LastMatch(s, Hyphenated) == None
  {
    forall j
      ensures !MatchesAt(s, Hyphenated, j)
    {
      if 0 <= j && j + 10 <= |s| {
        assert s[j + 4] in s;
      }
    }
  }

  /**
   * A name around one `YYYY-MM-DD` has that one occurrence of the shape when
   * its only dashes are those of the date, or when its only digits are.
   */
  lemma HyphenatedSole(pre: string, date: string, post: string)
    requires |date| == 10 && MatchesAt(date, Hyphenated, 0)
    requires ('-' !in pre && '-' !in post) || (NoDigit(pre) && NoDigit(post))
    ensures LastMatch(pre + date + post, Hyphenated) == Some(|pre|)
    ensures Groups(pre + date + post, Hyphenated, |pre|) == Groups(date, Hyphenated, 0)
  {
    var s := pre + date + post;
    Embedded(pre, date, post, Hyphenated);
    forall j | MatchesAt(s, Hyphenated, j)
      ensures j == |pre|
    {
      if '-' !in pre && '-' !in post {
        DashPositions(pre, date, post, j + 4);
        DashPositions(pre, date, post, j + 7);
      } else {
        DigitRunAt(s, j, 4, j);
        DigitRunAt(s, j + 8, 2, j + 9);
      }
    }
    SoleOccurrence(s, Hyphenated, |pre|);
  }

  lemma DashPositions(pre: string, date: string, post: string, k: nat)
    requires |date| == 10 && MatchesAt(date, Hyphenated, 0)
    requires '-' !in pre && '-' !in post
    requires k < |pre + date + post| && (pre + date + post)[k] == '-'
    ensures k == |pre| + 4 || k == |pre| + 7
  {
    var s := pre + date + post;
    forall m | 0 <= m < 10 && m != 4 && m != 7
      ensures IsDigit(date[m])
    {
      if m < 4 {
        DigitRunAt(date, 0, 4, m);
      } else if m < 7 {
        DigitRunAt(date, 5, 2, m);
      } else {
        DigitRunAt(date, 8, 2, m);
      }
    }
  }

  /**
   * The scan is not a search for the rightmost occurrence: in `202501019`
   * the compact shape also occurs at index 1 (the valid date 0250-10-19),
   * but the scan resumes after the occurrence at index 0 and finds no other.
   */
  lemma LastOccurrenceNotRightmost()
    ensures MatchesAt("202501019", Compact, 1)
    ensures Groups("202501019", Compact, 1) == Date(250, 10, 19) && ValidDate(Date(250, 10, 19))
    ensures LastMatch("202501019", Compact) == Some(0)
    ensures ExtractDate("202501019") == Some(Date(2025, 1, 1))
  {
    NotRightmostMatches();
    NotRightmostGroups();
    CompactDecidesOtherwise("202501019", 0);
  }

  lemma NotRightmostMatches()
    ensures LastMatch("202501019", Hyphenated) == None
    ensures LastMatch("202501019", Compact) == Some(0)
  {
    var s := "202501019";
    assert Occurrences(s, Hyphenated) == NoHits(9);
    NoneFromTable(s, Hyphenated);
    assert Occurrences(s, Compact) == NoHits(9)[0 := true][1 := true];
    assert Scan(NoHits(9)[0 := true][1 := true], 8, 0) == [0];
  }

  lemma NotRightmostGroups()
    ensures MatchesAt("202501019", Compact, 0) && Groups("202501019", Compact, 0) == Date(2025, 1, 1)
    ensures MatchesAt("202501019", Compact, 1) && Groups("202501019", Compact, 1) == Date(250, 10, 19)
  {
  }

  /**
   * The date a name built around one `YYYY-MM-DD`, with no other dash or no
   * other digit, gets is the date those ten characters spell.
   */
  lemma HyphenatedSoleDate(pre: string, date: string, post: string)
    requires |date| == 10 && MatchesAt(date, Hyphenated, 0)
    requires ('-' !in pre && '-' !in post) || (NoDigit(pre) && NoDigit(post))
    ensures var g := Groups(date, Hyphenated, 0);
      ExtractDate(pre + date + post) == MakeDate(g.year, g.month, g.day)
  {
    HyphenatedSole(pre, date, post);
    HyphenatedDecides(pre + date + post, |pre|);
  }

  /**
   * The date a name built around one `YYYYMMDD`, with no other digit, gets
   * is the date those eight digits spell. A dash elsewhere in the name does
   * not matter: a `YYYY-MM-DD` occurrence would need digits on both sides of
   * a dash, and only the eight digits are digits.
   */
  lemma CompactSoleDate(pre: string, date: string, post: string)
    requires |date| == 8 && MatchesAt(date, Compact, 0)
    requires NoDigit(pre) && NoDigit(post)
    ensures var g := Groups(date, Compact, 0);
      ExtractDate(pre + date + post) == MakeDate(g.year, g.month, g.day)
  {
    var s := pre + date + post;
    CompactSole(pre, date, post);
    forall k | 0 <= k < 8
      ensures IsDigit(date[k])
    {
      DigitRunAt(date, 0, 8, k);
    }
    forall j
      ensures !MatchesAt(s, Hyphenated, j)
    {
    }
    CompactDecidesOtherwise(s, |pre|);
  }

  /**
   * An invalid `YYYY-MM-DD` hides a valid `YYYYMMDD` later in the same name:
   * the file gets no date at all.
   */
  lemma InvalidHyphenatedHidesCompact()
    ensures MatchesAt("x_2025-13-01_" + "20250101" + ".json", Compact, 13)
    ensures Groups("x_2025-13-01_" + "20250101" + ".json", Compact, 13) == Date(2025, 1, 1)
    ensures ExtractDate("x_" + "2025-13-01" + "_20250101.json") == None
  {
    HiddenGroups();
    HyphenatedSoleDate("x_", "2025-13-01", "_20250101.json");
    Embedded("x_2025-13-01_", "20250101", ".json", Compact);
  }

  lemma HiddenGroups()
    ensures MatchesAt("2025-13-01", Hyphenated, 0) && Groups("2025-13-01", Hyphenated, 0) == Date(2025, 13, 1)
    ensures MatchesAt("20250101", Compact, 0) && Groups("20250101", Compact, 0) == Date(2025, 1, 1)
    ensures MakeDate(2025, 13, 1) == None
  {
  }

  /** A calendar-invalid `YYYYMMDD` (February 30) gives no date. */
  lemma InvalidCompactNoDate()
    ensures ExtractDate("report_" + "20250230" + ".json") == None
  {
    FebruaryThirtiethGroups();
    CompactSoleDate("report_", "20250230", ".json");
  }

  lemma FebruaryThirtiethGroups()
    ensures MatchesAt("20250230", Compact, 0) && Groups("20250230", Compact, 0) == Date(2025, 2, 30)
    ensures NoDigit("report_") && NoDigit(".json")
    ensures MakeDate(2025, 2, 30) == None
  {
  }
}
