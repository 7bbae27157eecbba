/** Occurrence keys: the local moment written as text, "2026-07-27T09:00". */
module OccurrenceKeys {
  import opened Calendar
  import opened Occurrences
  import Text

  /** `%Y` writes, and reads back, exactly four digits only for these years. */
  predicate FourDigit(t: int) {
    1000 <= YearOf(t / MINUTES_PER_DAY) <= 9999
  }

  function Pieces(year: int, month: int, day: int, minute: int): string
    requires 0 <= year <= 9999 && 0 <= month <= 99 && 0 <= day <= 99 && 0 <= minute < MINUTES_PER_DAY
  {
    Text.Two(year / 100) + (Text.Two(year % 100) + ("-" + (Text.Two(month) + ("-"
      + (Text.Two(day) + ("T" + (Text.Two(minute / 60) + (":" + Text.Two(minute % 60)))))))))
  }

  function Key(t: int): string
    requires FourDigit(t)
  {
    var day := t / MINUTES_PER_DAY;
    Pieces(YearOf(day), MonthOf(day), DayOfMonth(day), t % MINUTES_PER_DAY)
  }

  ghost predicate IsKey(key: string) {
    exists t :: FourDigit(t) && key == Key(t)
  }

  // ---- Text order is time order ----

  lemma {:induction false} Block(a: int, b: int, x: string, y: string)
    requires 0 <= a <= 99 && 0 <= b <= 99
    ensures Text.Less(Text.Two(a) + x, Text.Two(b) + y) <==> a < b || (a == b && Text.Less(x, y))
    ensures Text.Two(a) + x == Text.Two(b) + y <==> a == b && x == y
  {
    Text.TwoOrder(a, b);
    Text.Blocks(Text.Two(a), Text.Two(b), x, y);
    if Text.Two(a) + x == Text.Two(b) + y {
      assert Text.Two(a) == (Text.Two(a) + x)[..2] && Text.Two(b) == (Text.Two(b) + y)[..2];
      assert x == (Text.Two(a) + x)[2..] && y == (Text.Two(b) + y)[2..];
    }
  }

  lemma {:induction false} Separator(c: char, x: string, y: string)
    ensures Text.Less([c] + x, [c] + y) <==> Text.Less(x, y)
    ensures [c] + x == [c] + y <==> x == y
  {
    assert ([c] + x)[1..] == x && ([c] + y)[1..] == y;
  }

  /** Lexicographic comparison of two dates and times. */
  predicate Earlier(y: int, m: int, d: int, t: int, y': int, m': int, d': int, t': int) {
    y < y' || (y == y' && (m < m' || (m == m' && (d < d' || (d == d' && t < t')))))
  }

  lemma {:induction false} PiecesOrder(y: int, m: int, d: int, t: int, y': int, m': int, d': int, t': int)
    requires 0 <= y <= 9999 && 0 <= m <= 99 && 0 <= d <= 99 && 0 <= t < MINUTES_PER_DAY
    requires 0 <= y' <= 9999 && 0 <= m' <= 99 && 0 <= d' <= 99 && 0 <= t' < MINUTES_PER_DAY
    ensures Text.Less(Pieces(y, m, d, t), Pieces(y', m', d', t')) <==> Earlier(y, m, d, t, y', m', d', t')
    ensures Pieces(y, m, d, t) == Pieces(y', m', d', t') <==> y == y' && m == m' && d == d' && t == t'
  {
    hide Text.Less, Text.Two;
    var h, h' := t / 60, t' / 60;
    var n, n' := t % 60, t' % 60;
    assert Text.Two(n) + "" == Text.Two(n) && Text.Two(n') + "" == Text.Two(n');
    Block(n, n', "", "");
    assert !Text.Less("", "") by { Text.Trichotomy("", ""); }
    var s4, s4' := ":" + Text.Two(n), ":" + Text.Two(n');
    Separator(':', Text.Two(n), Text.Two(n'));
    Block(h, h', s4, s4');
    var s3, s3' := "T" + (Text.Two(h) + s4), "T" + (Text.Two(h') + s4');
    Separator('T', Text.Two(h) + s4, Text.Two(h') + s4');
    Block(d, d', s3, s3');
    var s2, s2' := "-" + (Text.Two(d) + s3), "-" + (Text.Two(d') + s3');
    Separator('-', Text.Two(d) + s3, Text.Two(d') + s3');
    Block(m, m', s2, s2');
    var s1, s1' := "-" + (Text.Two(m) + s2), "-" + (Text.Two(m') + s2');
    Separator('-', Text.Two(m) + s2, Text.Two(m') + s2');
    Block(y % 100, y' % 100, s1, s1');
    Block(y / 100, y' / 100, Text.Two(y % 100) + s1, Text.Two(y' % 100) + s1');
  }

  lemma {:induction false} FieldsOrder(t: int, u: int)
    ensures var a, b := t / MINUTES_PER_DAY, u / MINUTES_PER_DAY;
      t < u <==> Earlier(YearOf(a), MonthOf(a), DayOfMonth(a), t % MINUTES_PER_DAY,
                         YearOf(b), MonthOf(b), DayOfMonth(b), u % MINUTES_PER_DAY)
  {
    hide MonthStart, MonthIndex;
    var a, b := t / MINUTES_PER_DAY, u / MINUTES_PER_DAY;
    var j, k := MonthIndex(a), MonthIndex(b);
    if j < k {
      MonthOrder(j, k);
    } else if k < j {
      MonthOrder(k, j);
    }
  }

  /** Comparing keys as text compares the moments, so picking the newest claim by string and
      testing `key <= prior` are correct. */
  lemma {:induction false} KeyOrder(t: int, u: int)
    requires FourDigit(t) && FourDigit(u)
    ensures Text.Less(Key(t), Key(u)) <==> t < u
    ensures Key(t) == Key(u) <==> t == u
  {
    hide Pieces, YearOf, MonthOf, DayOfMonth, Earlier;
    var a, b := t / MINUTES_PER_DAY, u / MINUTES_PER_DAY;
    PiecesOrder(YearOf(a), MonthOf(a), DayOfMonth(a), t % MINUTES_PER_DAY,
                YearOf(b), MonthOf(b), DayOfMonth(b), u % MINUTES_PER_DAY);
    FieldsOrder(t, u);
    FieldsOrder(u, t);
    Text.Trichotomy(Key(t), Key(u));
    PiecesOrder(YearOf(b), MonthOf(b), DayOfMonth(b), u % MINUTES_PER_DAY,
                YearOf(a), MonthOf(a), DayOfMonth(a), t % MINUTES_PER_DAY);
  }

  lemma {:induction false} FourDigitBetween(lo: int, t: int, hi: int)
    requires FourDigit(lo) && FourDigit(hi) && lo <= t <= hi
    ensures FourDigit(t)
  {
    YearGrows(lo / MINUTES_PER_DAY, t / MINUTES_PER_DAY);
    YearGrows(t / MINUTES_PER_DAY, hi / MINUTES_PER_DAY);
  }

  lemma {:induction false} YearGrows(a: int, b: int)
    requires a <= b
    ensures YearOf(a) <= YearOf(b)
  {
    hide MonthStart, MonthIndex;
    if MonthIndex(b) < MonthIndex(a) {
      MonthOrder(MonthIndex(b), MonthIndex(a));
    }
  }

  // ---- Reading a key back ----

  function DigitValue(c: char): int {
    c as int - '0' as int
  }

  function ReadTwo(s: string, i: nat): int
    requires i + 2 <= |s|
  {
    10 * DigitValue(s[i]) + DigitValue(s[i + 1])
  }

  /** The moment a well-formed key names. */
  function Moment(key: string): int {
    if |key| != 16 || !(1 <= ReadTwo(key, 5) <= 12) then 0 else
    DayNumber(100 * ReadTwo(key, 0) + ReadTwo(key, 2), ReadTwo(key, 5), ReadTwo(key, 8))
      * MINUTES_PER_DAY + 60 * ReadTwo(key, 11) + ReadTwo(key, 14)
  }

  lemma {:induction false} TwoReads(n: int)
    requires 0 <= n <= 99
    ensures ReadTwo(Text.Two(n), 0) == n
  {
    assert Text.Digit(n / 10) as int == '0' as int + n / 10;
    assert Text.Digit(n % 10) as int == '0' as int + n % 10;
  }

  lemma {:induction false} PiecesRead(y: int, m: int, d: int, t: int)
    requires 0 <= y <= 9999 && 0 <= m <= 99 && 0 <= d <= 99 && 0 <= t < MINUTES_PER_DAY
    ensures var s := Pieces(y, m, d, t);
      |s| == 16 && ReadTwo(s, 0) == y / 100 && ReadTwo(s, 2) == y % 100 && ReadTwo(s, 5) == m
      && ReadTwo(s, 8) == d && ReadTwo(s, 11) == t / 60 && ReadTwo(s, 14) == t % 60
  {
    hide Text.Two;
    TwoReads(y / 100); TwoReads(y % 100); TwoReads(m); TwoReads(d); TwoReads(t / 60); TwoReads(t % 60);
  }

  /** Writing a moment as a key and parsing the key gives the moment back. */
  lemma {:induction false} KeyRoundTrip(t: int)
    requires FourDigit(t)
    ensures Moment(Key(t)) == t
  {
    hide MonthStart, MonthIndex, Pieces;
    var day := t / MINUTES_PER_DAY;
    PiecesRead(YearOf(day), MonthOf(day), DayOfMonth(day), t % MINUTES_PER_DAY);
    DateRoundTrip(YearOf(day), MonthOf(day), DayOfMonth(day), day);
  }

  predicate DigitsAt(key: string, i: nat, width: nat, n: int) {
    i + width <= |key| && (forall k :: i <= k < i + width ==> '0' <= key[k] <= '9') && ReadsAs(key, i, width) == n
  }

  /** The number that `width` digits from i on spell. */
  function ReadsAs(key: string, i: nat, width: nat): int
    requires i + width <= |key|
  {
    if width == 0 then 0 else 10 * ReadsAs(key, i, width - 1) + (key[i + width - 1] as int - '0' as int)
  }

  /** Four digits of the year, two each of month, day, hour and minute, with `-`, `-`, `T` and `:`
      between them. */
  predicate Spells(key: string, y: int, m: int, d: int, hour: int, minute: int) {
    && |key| == 16 && DigitsAt(key, 0, 4, y) && DigitsAt(key, 5, 2, m) && DigitsAt(key, 8, 2, d)
    && DigitsAt(key, 11, 2, hour) && DigitsAt(key, 14, 2, minute)
    && key[4] == '-' && key[7] == '-' && key[10] == 'T' && key[13] == ':'
  }

  /** A key spells its local date and time. */
  lemma {:induction false} KeySpells(y: int, m: int, d: int, hour: int, minute: int)
    requires 1000 <= y <= 9999 && 1 <= m <= 12 && 1 <= d <= MonthLength(y, m) && 0 <= hour < 24 && 0 <= minute < 60
    ensures var t := DayNumber(y, m, d) * MINUTES_PER_DAY + 60 * hour + minute;
      FourDigit(t) && Spells(Key(t), y, m, d, hour, minute)
  {
    hide *;
    var day := DayNumber(y, m, d);
    var t := day * MINUTES_PER_DAY + 60 * hour + minute;
    DateRoundTrip(y, m, d, day);
    InTheDay(day, hour, minute);
    KeyOfFields(day, t, y, m, d, 60 * hour + minute);
    PiecesSpell(y, m, d, hour, minute);
  }

  lemma {:induction false} InTheDay(day: int, hour: int, minute: int)
    requires 0 <= hour < 24 && 0 <= minute < 60
    ensures 0 <= 60 * hour + minute < MINUTES_PER_DAY
    ensures var t := day * MINUTES_PER_DAY + 60 * hour + minute;
      t / MINUTES_PER_DAY == day && t % MINUTES_PER_DAY == 60 * hour + minute
  {
    DayFields(day, 60 * hour + minute);
  }

  lemma {:induction false} KeyOfFields(day: int, t: int, y: int, m: int, d: int, at: int)
    requires t / MINUTES_PER_DAY == day && t % MINUTES_PER_DAY == at && 0 <= at < MINUTES_PER_DAY
    requires YearOf(day) == y && MonthOf(day) == m && DayOfMonth(day) == d && 1000 <= y <= 9999
    requires 1 <= m <= 12 && 1 <= d <= MonthLength(y, m)
    ensures FourDigit(t) && Key(t) == Pieces(y, m, d, at)
  {
    hide YearOf, MonthOf, DayOfMonth, Pieces, MonthLength;
  }

  lemma {:induction false} PiecesSpell(y: int, m: int, d: int, hour: int, minute: int)
    requires 0 <= y <= 9999 && 0 <= m <= 99 && 0 <= d <= 99 && 0 <= hour < 24 && 0 <= minute < 60
    ensures Spells(Pieces(y, m, d, 60 * hour + minute), y, m, d, hour, minute)
  {
    hide Pieces, TwoAt, Spells;
    var at := 60 * hour + minute;
    assert at / 60 == hour && at % 60 == minute;
    PiecesAre(y, m, d, at);
    TwosSpell(Pieces(y, m, d, at), y, m, d, hour, minute);
  }

  lemma {:induction false} TwosSpell(s: string, y: int, m: int, d: int, hour: int, minute: int)
    requires 0 <= y <= 9999 && 0 <= m <= 99 && 0 <= d <= 99 && 0 <= hour < 24 && 0 <= minute < 60 && |s| == 16
    requires TwoAt(s, 0, y / 100) && TwoAt(s, 2, y % 100) && TwoAt(s, 5, m) && TwoAt(s, 8, d)
    requires TwoAt(s, 11, hour) && TwoAt(s, 14, minute) && s[4] == '-' && s[7] == '-' && s[10] == 'T' && s[13] == ':'
    ensures Spells(s, y, m, d, hour, minute)
  {
    hide DigitsAt, TwoAt;
    TwoSpells(s, 0, y / 100);
    TwoSpells(s, 2, y % 100);
    TwoSpells(s, 5, m);
    TwoSpells(s, 8, d);
    TwoSpells(s, 11, hour);
    TwoSpells(s, 14, minute);
    FourSpell(s, y);
  }

  predicate TwoAt(s: string, i: nat, n: int)
    requires 0 <= n <= 99
  {
    i + 2 <= |s| && s[i] == Text.Two(n)[0] && s[i + 1] == Text.Two(n)[1]
  }

  lemma {:induction false} PiecesAre(y: int, m: int, d: int, t: int)
    requires 0 <= y <= 9999 && 0 <= m <= 99 && 0 <= d <= 99 && 0 <= t < MINUTES_PER_DAY
    ensures var s := Pieces(y, m, d, t);
      && |s| == 16 && TwoAt(s, 0, y / 100) && TwoAt(s, 2, y % 100) && TwoAt(s, 5, m)
      && TwoAt(s, 8, d) && TwoAt(s, 11, t / 60) && TwoAt(s, 14, t % 60)
      && s[4] == '-' && s[7] == '-' && s[10] == 'T' && s[13] == ':'
  {
    hide Text.Two;
  }

  lemma {:induction false} TwoSpells(s: string, i: nat, n: int)
    requires 0 <= n <= 99 && TwoAt(s, i, n)
    ensures DigitsAt(s, i, 2, n)
  {
    assert Text.Digit(n / 10) as int == '0' as int + n / 10;
    assert Text.Digit(n % 10) as int == '0' as int + n % 10;
    assert ReadsAs(s, i, 1) == n / 10 by {
      assert ReadsAs(s, i, 0) == 0;
    }
  }

  lemma {:induction false} FourSpell(s: string, y: int)
    requires DigitsAt(s, 0, 2, y / 100) && DigitsAt(s, 2, 2, y % 100)
    ensures DigitsAt(s, 0, 4, y)
  {
    assert ReadsAs(s, 2, 0) == 0;
    assert ReadsAs(s, 2, 1) == s[2] as int - '0' as int;
    assert ReadsAs(s, 0, 3) == 10 * ReadsAs(s, 0, 2) + (s[2] as int - '0' as int);
  }
}
