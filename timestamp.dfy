/**
 * The text form of a commit time. Both writers format `time.Now()` with the Go
 * layout "2006-01-02 15:04:05" and store the string in the TEXT column
 * test_time; the readers sort by that text (ORDER BY test_time) and project it
 * to a "MM-DD HH:MM" label. The point of this module is that, for fixed-width
 * zero-padded fields, comparing the texts byte by byte is the same as comparing
 * the times.
 */
module Timestamp {
  import opened Decimal

  /** A wall-clock reading with second precision. */
  datatype DateTime = DateTime(year: int, month: int, day: int, hour: int, minute: int, second: int)

  /** Leap years of the proleptic Gregorian calendar that Go's time package uses. */
  predicate IsLeapYear(y: int) {
    y % 4 == 0 && (y % 100 != 0 || y % 400 == 0)
  }

  function DaysInMonth(y: int, m: int): int {
    if m == 2 then (if IsLeapYear(y) then 29 else 28)
    else if m == 4 || m == 6 || m == 9 || m == 11 then 30
    else 31
  }

  /**
   * An instant time.Now() can report: a real calendar date. "2006" prints
   * exactly four digits only for years 0..9999.
   */
  predicate ValidDateTime(t: DateTime) {
    && 0 <= t.year <= 9999
    && 1 <= t.month <= 12
    && 1 <= t.day <= DaysInMonth(t.year, t.month)
    && 0 <= t.hour <= 23
    && 0 <= t.minute <= 59
    && 0 <= t.second <= 59
  }

  type Moment = t: DateTime | ValidDateTime(t) witness DateTime(2006, 1, 2, 15, 4, 5)

  /** Strict chronological order: the earliest differing field decides. */
  predicate Before(a: DateTime, b: DateTime) {
    if a.year != b.year then a.year < b.year
    else if a.month != b.month then a.month < b.month
    else if a.day != b.day then a.day < b.day
    else if a.hour != b.hour then a.hour < b.hour
    else if a.minute != b.minute then a.minute < b.minute
    else a.second < b.second
  }

  /**
   * Byte-wise text order: SQLite's BINARY collation, which ORDER BY uses on a
   * TEXT column. A proper prefix sorts first.
   */
  predicate LexLess(a: string, b: string)
    decreases |a|
  {
    if |a| == 0 then |b| > 0
    else if |b| == 0 then false
    else if a[0] != b[0] then a[0] < b[0]
    else LexLess(a[1..], b[1..])
  }

  /** Two zero-padded decimal digits ("01", "15"). */
  function Pad2(n: int): (s: string)
    requires 0 <= n <= 99
    ensures |s| == 2
  {
    [DigitChar(n / 10), DigitChar(n % 10)]
  }

  /** Four zero-padded decimal digits ("2006"). */
  function Pad4(n: int): (s: string)
    requires 0 <= n <= 9999
    ensures |s| == 4
  {
    Pad2(n / 100) + Pad2(n % 100)
  }

  /** A separator followed by a two-digit field ("-01", " 15", ":04"). */
  function Field(sep: char, n: int): (s: string)
    requires 0 <= n <= 99
    ensures |s| == 3
  {
    [sep] + Pad2(n)
  }

  /** time.Format with the layout "2006-01-02 15:04:05". */
  function Format(t: Moment): (s: string)
    ensures |s| == 19
  {
    Pad4(t.year) + (Field('-', t.month) + (Field('-', t.day) + (Field(' ', t.hour) + (Field(':', t.minute) + Field(':', t.second)))))
  }

  /**
   * strftime('%m-%d %H:%M', test_time): the chart label, minute precision.
   * It is exactly the middle of the stored text.
   */
  function MinuteLabel(t: Moment): (s: string)
    ensures |s| == 11
  {
    Pad2(t.month) + Field('-', t.day) + Field(' ', t.hour) + Field(':', t.minute)
  }

  /** The layout: every field zero-padded at a fixed offset, with fixed separators. */
  lemma FormatLayout(t: Moment)
    ensures var s := Format(t);
      && s[4] == '-' && s[7] == '-' && s[10] == ' ' && s[13] == ':' && s[16] == ':'
      && s[..4] == Pad4(t.year) && s[5..7] == Pad2(t.month) && s[8..10] == Pad2(t.day)
      && s[11..13] == Pad2(t.hour) && s[14..16] == Pad2(t.minute) && s[17..] == Pad2(t.second)
  {
  }

  /** A digit pair reads back as its number. */
  lemma Pad2Value(n: int)
    requires 0 <= n <= 99
    ensures var s := Pad2(n); (s[0] as int - '0' as int) * 10 + (s[1] as int - '0' as int) == n
  {
  }

  /** The label is exactly the middle of the stored text: month to minute. */
  lemma LabelIsTextMiddle(t: Moment)
    ensures MinuteLabel(t) == Format(t)[5..16]
  {
  }

  // ---------------------------------------------------------------------------
  // Text order versus time order

  /** Byte order is a strict total order on texts. */
  lemma {:induction false} LexLessIrreflexive(a: string)
    ensures !LexLess(a, a)
    decreases |a|
  {
    if |a| > 0 {
      LexLessIrreflexive(a[1..]);
    }
  }

  lemma {:induction false} LexLessTransitive(a: string, b: string, c: string)
    requires LexLess(a, b) && LexLess(b, c)
    ensures LexLess(a, c)
    decreases |a|
  {
    if |a| > 0 && a[0] == b[0] && b[0] == c[0] {
      LexLessTransitive(a[1..], b[1..], c[1..]);
    }
  }

  lemma {:induction false} LexLessTotal(a: string, b: string)
    ensures a == b || LexLess(a, b) || LexLess(b, a)
    decreases |a|
  {
    if |a| > 0 && |b| > 0 && a[0] == b[0] {
      LexLessTotal(a[1..], b[1..]);
      if a[1..] == b[1..] {
        assert a == [a[0]] + a[1..] && b == [b[0]] + b[1..];
      }
    }
  }

  lemma LexLessAsymmetric(a: string, b: string)
    requires LexLess(a, b)
    ensures !LexLess(b, a)
  {
    LexLessIrreflexive(a);
    if LexLess(b, a) {
      LexLessTransitive(a, b, a);
    }
  }

  /** "Not below" is transitive: the order ORDER BY ... DESC keeps. */
  lemma NotLexLessTransitive(a: string, b: string, c: string)
    requires !LexLess(a, b) && !LexLess(b, c)
    ensures !LexLess(a, c)
  {
    LexLessTotal(a, b);
    LexLessTotal(b, c);
    if LexLess(a, c) {
      if a == b {
        assert false;
      } else if b == c {
        assert false;
      } else {
        LexLessTransitive(c, b, a);
        LexLessTransitive(a, c, a);
        LexLessIrreflexive(a);
      }
    }
  }

  /** Comparing two texts split at the same position: the heads decide first. */
  lemma {:induction false} LexLessAppend(a1: string, b1: string, a2: string, b2: string)
    requires |a1| == |a2|
    ensures LexLess(a1 + b1, a2 + b2) <==> LexLess(a1, a2) || (a1 == a2 && LexLess(b1, b2))
    decreases |a1|
  {
    if |a1| == 0 {
      assert a1 + b1 == b1 && a2 + b2 == b2;
    } else {
      var x, y := a1 + b1, a2 + b2;
      assert x[0] == a1[0] && y[0] == a2[0];
      assert x[1..] == a1[1..] + b1 && y[1..] == a2[1..] + b2;
      if a1[0] == a2[0] {
        LexLessAppend(a1[1..], b1, a2[1..], b2);
        assert a1 == [a1[0]] + a1[1..] && a2 == [a2[0]] + a2[1..];
      }
    }
  }

  lemma LexLessSingle(c: char, d: char)
    ensures LexLess([c], [d]) <==> c < d
  {
    if c == d {
      assert [c][1..] == [] && [d][1..] == [];
    }
  }

  lemma Pad2Order(x: int, y: int)
    requires 0 <= x <= 99 && 0 <= y <= 99
    ensures LexLess(Pad2(x), Pad2(y)) <==> x < y
    ensures Pad2(x) == Pad2(y) <==> x == y
  {
    var c1, c2 := DigitChar(x / 10), DigitChar(x % 10);
    var d1, d2 := DigitChar(y / 10), DigitChar(y % 10);
    assert Pad2(x) == [c1] + [c2] && Pad2(y) == [d1] + [d2];
    LexLessAppend([c1], [c2], [d1], [d2]);
    LexLessSingle(c1, d1);
    LexLessSingle(c2, d2);
  }

  /** A two-digit field followed by more text: the field decides first. */
  lemma Pad2Then(x: int, y: int, r1: string, r2: string)
    requires 0 <= x <= 99 && 0 <= y <= 99
    ensures LexLess(Pad2(x) + r1, Pad2(y) + r2) <==> x < y || (x == y && LexLess(r1, r2))
  {
    LexLessAppend(Pad2(x), r1, Pad2(y), r2);
    Pad2Order(x, y);
  }

  lemma FieldThen(sep: char, x: int, y: int, r1: string, r2: string)
    requires 0 <= x <= 99 && 0 <= y <= 99
    ensures LexLess(Field(sep, x) + r1, Field(sep, y) + r2) <==> x < y || (x == y && LexLess(r1, r2))
  {
    assert Field(sep, x) + r1 == [sep] + (Pad2(x) + r1);
    assert Field(sep, y) + r2 == [sep] + (Pad2(y) + r2);
    LexLessAppend([sep], Pad2(x) + r1, [sep], Pad2(y) + r2);
    LexLessSingle(sep, sep);
    Pad2Then(x, y, r1, r2);
  }

  lemma Pad4Then(x: int, y: int, r1: string, r2: string)
    requires 0 <= x <= 9999 && 0 <= y <= 9999
    ensures LexLess(Pad4(x) + r1, Pad4(y) + r2) <==> x < y || (x == y && LexLess(r1, r2))
  {
    assert Pad4(x) + r1 == Pad2(x / 100) + (Pad2(x % 100) + r1);
    assert Pad4(y) + r2 == Pad2(y / 100) + (Pad2(y % 100) + r2);
    Pad2Then(x / 100, y / 100, Pad2(x % 100) + r1, Pad2(y % 100) + r2);
    Pad2Then(x % 100, y % 100, r1, r2);
  }

  /** The stored text sorts exactly like the instant it records. */
  lemma FormatOrder(a: Moment, b: Moment)
    ensures LexLess(Format(a), Format(b)) <==> Before(a, b)
  {
    var s1 := Field(':', a.second);
    var s2 := Field(':', b.second);
    assert s1 == s1 + [] && s2 == s2 + [];
    FieldThen(':', a.second, b.second, [], []);
    var m1 := Field(':', a.minute) + s1;
    var m2 := Field(':', b.minute) + s2;
    FieldThen(':', a.minute, b.minute, s1, s2);
    var h1 := Field(' ', a.hour) + m1;
    var h2 := Field(' ', b.hour) + m2;
    FieldThen(' ', a.hour, b.hour, m1, m2);
    var d1 := Field('-', a.day) + h1;
    var d2 := Field('-', b.day) + h2;
    FieldThen('-', a.day, b.day, h1, h2);
    var o1 := Field('-', a.month) + d1;
    var o2 := Field('-', b.month) + d2;
    FieldThen('-', a.month, b.month, d1, d2);
    Pad4Then(a.year, b.year, o1, o2);
  }

  /** Distinct instants never share a text, so the column loses nothing. */
  lemma FormatInjective(a: Moment, b: Moment)
    ensures Format(a) == Format(b) <==> a == b
  {
    if Format(a) == Format(b) {
      LexLessIrreflexive(Format(a));
      FormatOrder(a, b);
      FormatOrder(b, a);
    }
  }

  /** Two instants within one minute share a label but keep distinct texts. */
  lemma SameMinuteSameLabel(a: Moment, b: Moment)
    requires a.year == b.year && a.month == b.month && a.day == b.day
    requires a.hour == b.hour && a.minute == b.minute && a.second != b.second
    ensures MinuteLabel(a) == MinuteLabel(b) && Format(a) != Format(b)
  {
    FormatInjective(a, b);
  }
}
