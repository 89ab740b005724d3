/** Wall-clock times and the backup file name derived from them
    (internal/backup/backup.go:75, Go's `time.Format("20060102_150405")`). */
module TimeFormat {

  /** A reading of the clock, as its calendar fields. Go keeps fields in
      these ranges; time zones are not modelled. */
  datatype DateTime = DateTime(year: int, month: int, day: int, hour: int, minute: int, second: int, nanos: int)

  predicate ValidFields(t: DateTime) {
    && 1 <= t.month <= 12 && 1 <= t.day <= 31
    && 0 <= t.hour < 24 && 0 <= t.minute < 60 && 0 <= t.second < 60
    && 0 <= t.nanos < 1_000_000_000
  }

  /** A time whose year has at most four digits, the ones the JSON encoding accepts. */
  predicate Valid(t: DateTime) {
    ValidFields(t) && 0 <= t.year <= 9999
  }

  /** A key that orders valid times chronologically (day slots of 31 keep
      the order although they do not count real days). */
  function Ticks(t: DateTime): int {
    ((((((t.year * 12 + (t.month - 1)) * 31 + (t.day - 1)) * 24 + t.hour) * 60 + t.minute) * 60 + t.second) * 1_000_000_000) + t.nanos
  }

  /** `a.After(b)`. */
  predicate After(a: DateTime, b: DateTime) {
    Ticks(a) > Ticks(b)
  }

  /** `a` comes before `b` comparing year, month, day, hour, minute,
      second and nanosecond in turn. */
  predicate EarlierFields(a: DateTime, b: DateTime) {
    a.year < b.year || (a.year == b.year &&
    (a.month < b.month || (a.month == b.month &&
    (a.day < b.day || (a.day == b.day &&
    (a.hour < b.hour || (a.hour == b.hour &&
    (a.minute < b.minute || (a.minute == b.minute &&
    (a.second < b.second || (a.second == b.second && a.nanos < b.nanos)))))))))))
  }

  /** The key orders valid times field by field, year first, and tells
      different times apart: `After` is the chronological order of the
      fields. */
  lemma TicksLexicographic(a: DateTime, b: DateTime)
    requires ValidFields(a) && ValidFields(b)
    ensures After(b, a) <==> EarlierFields(a, b)
    ensures Ticks(a) == Ticks(b) <==> a == b
  {
    DayPlaces(a, b);
    var da, db := DaySlot(a), DaySlot(b);
    var ha, hb := da * 24 + a.hour, db * 24 + b.hour;
    Place(da, a.hour, db, b.hour, 24);
    var ia, ib := ha * 60 + a.minute, hb * 60 + b.minute;
    Place(ha, a.minute, hb, b.minute, 60);
    var sa, sb := ia * 60 + a.second, ib * 60 + b.second;
    Place(ia, a.second, ib, b.second, 60);
    Place(sa, a.nanos, sb, b.nanos, 1_000_000_000);
    assert Ticks(a) == sa * 1_000_000_000 + a.nanos;
    assert Ticks(b) == sb * 1_000_000_000 + b.nanos;
  }

  /** The day slot of a time: the part of its key above the hour. */
  function DaySlot(t: DateTime): int {
    (t.year * 12 + (t.month - 1)) * 31 + (t.day - 1)
  }

  /** Day slots order dates by year, month and day, and tell them apart. */
  lemma DayPlaces(a: DateTime, b: DateTime)
    requires ValidFields(a) && ValidFields(b)
    ensures DaySlot(a) < DaySlot(b) <==>
      a.year < b.year || (a.year == b.year && (a.month < b.month || (a.month == b.month && a.day < b.day)))
    ensures DaySlot(a) == DaySlot(b) <==> a.year == b.year && a.month == b.month && a.day == b.day
  {
    var ma, mb := a.year * 12 + (a.month - 1), b.year * 12 + (b.month - 1);
    Place(a.year, a.month - 1, b.year, b.month - 1, 12);
    Place(ma, a.day - 1, mb, b.day - 1, 31);
  }

  /** One place of a mixed-radix number: the higher places decide first. */
  lemma Place(x: int, rx: int, y: int, ry: int, base: int)
    requires base > 0 && 0 <= rx < base && 0 <= ry < base
    ensures x * base + rx < y * base + ry <==> x < y || (x == y && rx < ry)
    ensures x * base + rx == y * base + ry <==> x == y && rx == ry
  {
    if x < y {
      HigherPlace(x, rx, y, ry, base);
    } else if y < x {
      HigherPlace(y, ry, x, rx, base);
    }
  }

  /** A larger higher place outweighs any lower place. */
  lemma HigherPlace(x: int, rx: int, y: int, ry: int, base: int)
    requires base > 0 && 0 <= rx < base && 0 <= ry < base && x < y
    ensures x * base + rx < y * base + ry
  {
    MulStep(x, y - x - 1, base);
    assert (y - x - 1) * base >= 0;
  }

  /** Distributing a product over a sum of two. */
  lemma MulStep(x: int, d: int, base: int)
    ensures (x + d + 1) * base == x * base + d * base + base
  {
  }

  /** The same second on the clock: what the file name can tell apart. */
  predicate SameSecond(a: DateTime, b: DateTime) {
    a.year == b.year && a.month == b.month && a.day == b.day
    && a.hour == b.hour && a.minute == b.minute && a.second == b.second
  }

  function Digit(d: int): (c: char)
    requires 0 <= d < 10
    ensures '0' <= c <= '9'
  {
    ('0' as int + d) as char
  }

  predicate IsDigit(c: char) {
    '0' <= c <= '9'
  }

  function DigitValue(c: char): int {
    c as int - '0' as int
  }

  /** The decimal digits of `u`, without leading zeros. */
  function Decimal(u: nat): (s: string)
    ensures 1 <= |s|
    ensures forall i :: 0 <= i < |s| ==> IsDigit(s[i])
    decreases u
  {
    if u < 10 then [Digit(u)] else Decimal(u / 10) + [Digit(u % 10)]
  }

  function Zeros(n: nat): (s: string)
    ensures |s| == n && forall i :: 0 <= i < n ==> s[i] == '0'
  {
    if n == 0 then [] else Zeros(n - 1) + ['0']
  }

  /** Go's `appendInt(b, x, width)`: an optional minus sign, then |x| in
      decimal, left-padded with zeros to `width`; two- and four-digit
      fields take a direct path. */
  function AppendInt(x: int, width: nat): (r: string)
    ensures |r| >= width
    ensures x < 0 ==> r != [] && r[0] == '-'
    ensures x >= 0 ==> forall i :: 0 <= i < |r| ==> IsDigit(r[i])
    ensures (width == 2 && 0 <= x < 100) || (width == 4 && 0 <= x < 10000) ==> |r| == width
  {
    var u: nat := if x < 0 then -x else x;
    var sign := if x < 0 then "-" else "";
    if width == 2 && u < 100 then
      sign + [Digit(u / 10), Digit(u % 10)]
    else if width == 4 && u < 10000 then
      sign + [Digit(u / 1000), Digit(u / 100 % 10), Digit(u / 10 % 10), Digit(u % 10)]
    else
      var digits := Decimal(u);
      sign + (if |digits| < width then Zeros(width - |digits|) else []) + digits
  }

  /** The value of a string of decimal digits. */
  function Value(s: string): int
    decreases |s|
  {
    if s == [] then 0 else Value(s[..|s| - 1]) * 10 + DigitValue(s[|s| - 1])
  }

  lemma DigitValueOf(d: int)
    requires 0 <= d < 10
    ensures DigitValue(Digit(d)) == d
  {
  }

  /** Appending a digit shifts the value one place. */
  lemma ValueSnoc(s: string, d: int)
    requires 0 <= d < 10
    ensures Value(s + [Digit(d)]) == Value(s) * 10 + d
  {
    assert (s + [Digit(d)])[..|s|] == s;
    DigitValueOf(d);
  }

  /** The two-digit direct path of appendInt. */
  lemma AppendInt2(x: int)
    requires 0 <= x < 100
    ensures AppendInt(x, 2) == [Digit(x / 10)] + [Digit(x % 10)]
  {
  }

  /** The four-digit direct path of appendInt. */
  lemma AppendInt4(x: int)
    requires 0 <= x < 10000
    ensures AppendInt(x, 4) == [Digit(x / 1000)] + [Digit(x / 100 % 10)] + [Digit(x / 10 % 10)] + [Digit(x % 10)]
  {
  }

  /** One digit read back. */
  lemma Value1(d: int)
    requires 0 <= d < 10
    ensures Value([Digit(d)]) == d
  {
    ValueSnoc([], d);
    assert [] + [Digit(d)] == [Digit(d)];
  }

  /** Two digits read back. */
  lemma Value2(x: int)
    requires 0 <= x < 100
    ensures Value(AppendInt(x, 2)) == x
  {
    AppendInt2(x);
    Value1(x / 10);
    ValueSnoc([Digit(x / 10)], x % 10);
  }

  /** Four digits read back. */
  lemma Value4(x: int)
    requires 0 <= x < 10000
    ensures Value(AppendInt(x, 4)) == x
  {
    AppendInt4(x);
    var s1 := [Digit(x / 1000)];
    var s2 := s1 + [Digit(x / 100 % 10)];
    var s3 := s2 + [Digit(x / 10 % 10)];
    Value1(x / 1000);
    ValueSnoc(s1, x / 100 % 10);
    assert Value(s2) == x / 100;
    ValueSnoc(s2, x / 10 % 10);
    assert Value(s3) == x / 10;
    ValueSnoc(s3, x % 10);
  }

  /** `time.Format("20060102")`. */
  function DatePart(t: DateTime): string {
    AppendInt(t.year, 4) + AppendInt(t.month, 2) + AppendInt(t.day, 2)
  }

  /** `time.Format("150405")`. */
  function ClockPart(t: DateTime): string {
    AppendInt(t.hour, 2) + AppendInt(t.minute, 2) + AppendInt(t.second, 2)
  }

  /** The name createBackup gives the file written at time `t`. */
  function BackupName(t: DateTime): (name: string)
    ensures Valid(t) ==> |name| == 27 && name[..7] == "backup_" && name[15] == '_' && name[22..] == ".json"
  {
    "backup_" + DatePart(t) + "_" + ClockPart(t) + ".json"
  }

  /** The fields a backup name spells out, read back from its digits. */
  function ParseBackupName(name: string): (f: (int, int, int, int, int, int))
    requires |name| == 27
  {
    (Value(name[7..11]), Value(name[11..13]), Value(name[13..15]),
     Value(name[16..18]), Value(name[18..20]), Value(name[20..22]))
  }

  /** The layout of a backup name: 27 characters, digits at fixed places. */
  lemma BackupNameLayout(t: DateTime)
    requires Valid(t)
    ensures var n := BackupName(t);
      |n| == 27 && n[..7] == "backup_" && n[15] == '_' && n[22..] == ".json"
      && n[7..11] == AppendInt(t.year, 4) && n[11..13] == AppendInt(t.month, 2) && n[13..15] == AppendInt(t.day, 2)
      && n[16..18] == AppendInt(t.hour, 2) && n[18..20] == AppendInt(t.minute, 2) && n[20..22] == AppendInt(t.second, 2)
  {
  }

  /** Reading a backup name gives back the second it was made in. */
  lemma ParseBackupNameInverts(t: DateTime)
    requires Valid(t)
    ensures |BackupName(t)| == 27
    ensures ParseBackupName(BackupName(t)) == (t.year, t.month, t.day, t.hour, t.minute, t.second)
  {
    BackupNameLayout(t);
    Value4(t.year);
    Value2(t.month);
    Value2(t.day);
    Value2(t.hour);
    Value2(t.minute);
    Value2(t.second);
  }

  /** Two valid times give the same backup name exactly when they fall in
      the same second. */
  lemma BackupNameSameSecond(a: DateTime, b: DateTime)
    requires Valid(a) && Valid(b)
    ensures BackupName(a) == BackupName(b) <==> SameSecond(a, b)
  {
    ParseBackupNameInverts(a);
    ParseBackupNameInverts(b);
  }
}
