/** The text that `unix_time_to_utc_str` writes into a caller's buffer. */
module DateText {
  import opened CTypes
  import opened Calendar

  const WEEKDAYS: seq<seq<byte>> := [
    [83, 117, 110], [77, 111, 110], [84, 117, 101], [87, 101, 100], [84, 104, 117], [70, 114, 105], [83, 97, 116]]
  const MONTHS: seq<seq<byte>> := [
    [74, 97, 110], [70, 101, 98], [77, 97, 114], [65, 112, 114], [77, 97, 121], [74, 117, 110],
    [74, 117, 108], [65, 117, 103], [83, 101, 112], [79, 99, 116], [78, 111, 118], [68, 101, 99]]
  const UTC: seq<byte> := [32, 85, 84, 67, 32]

  const SECONDS_PER_DAY := 86400

  // ----- numbers -----

  function Decimal(v: nat): (s: seq<byte>)
    ensures |s| > 0
  {
    if v < 10 then [ZERO + v] else Decimal(v / 10) + [ZERO + v % 10]
  }

  function ValueOf(s: seq<byte>): int {
    if s == [] then 0 else 10 * ValueOf(s[..|s| - 1]) + (s[|s| - 1] - ZERO)
  }

  /** The digits denote the number. */
  lemma {:induction false} DecimalDenotes(v: nat)
    ensures ValueOf(Decimal(v)) == v
  {
    if v >= 10 {
      DecimalDenotes(v / 10);
      assert Decimal(v)[..|Decimal(v)| - 1] == Decimal(v / 10);
    } else {
      assert Decimal(v)[..0] == [];
    }
  }

  function Power10(n: nat): nat {
    if n == 0 then 1 else 10 * Power10(n - 1)
  }

  lemma {:induction false} DecimalLength(v: nat, n: nat)
    requires v < Power10(n) && n > 0
    ensures |Decimal(v)| <= n
  {
    if v >= 10 {
      DecimalLength(v / 10, n - 1);
    }
  }

  function TwoDigits(v: nat): seq<byte> {
    [ZERO + v / 10 % 10, ZERO + v % 10]
  }

  // ----- the whole text -----

  function TimeText(sod: nat): seq<byte> {
    TwoDigits(sod / 3600) + [COLON] + TwoDigits(sod % 3600 / 60) + [COLON] + TwoDigits(sod % 60)
  }

  function DayText(weekday: seq<byte>, month: seq<byte>, day: nat): seq<byte> {
    weekday + [SPACE] + month + [SPACE] + Decimal(day) + [SPACE]
  }

  /** Weekday, month, day of the month from 1, time of day, zone, year. */
  function Text(date: Date, weekday: nat, sod: nat): seq<byte>
    requires ValidDate(date) && weekday < 7
  {
    DayText(WEEKDAYS[weekday], MONTHS[date.month], date.day + 1) + TimeText(sod) + UTC + Decimal(date.year)
  }

  lemma NamesHaveThreeLetters(weekday: nat, month: nat)
    requires weekday < 7 && month < 12
    ensures |WEEKDAYS[weekday]| == 3 && |MONTHS[month]| == 3
  {
  }

  /** Years that fit an int give at most 34 characters, so a 40-byte buffer suffices. */
  lemma TextLength(date: Date, weekday: nat, sod: nat)
    requires ValidDate(date) && weekday < 7 && date.year < 0x8000_0000
    ensures |Text(date, weekday, sod)| <= 34
  {
    NamesHaveThreeLetters(weekday, date.month);
    assert Power10(2) == 100;
    assert Power10(5) == 100000;
    assert Power10(10) == 100000 * Power10(5);
    DecimalLength(date.day + 1, 2);
    DecimalLength(date.year, 10);
  }

  // ----- reading the text back -----

  /** The bytes of an ASCII string. */
  function Ascii(s: string): (b: seq<byte>)
    requires forall i :: 0 <= i < |s| ==> s[i] < 128 as char
    ensures |b| == |s|
  {
    seq(|s|, i requires 0 <= i < |s| => s[i] as int)
  }

  /** The names in the text are the English ones, in order. */
  lemma NamesAreSpelled()
    ensures forall i :: 0 <= i < 7 ==> WEEKDAYS[i] == Ascii(["Sun", "Mon", "Tue", "Wed", "Thu", "Fri", "Sat"][i])
    ensures forall i :: 0 <= i < 12 ==>
      MONTHS[i] == Ascii(["Jan", "Feb", "Mar", "Apr", "May", "Jun", "Jul", "Aug", "Sep", "Oct", "Nov", "Dec"][i])
    ensures UTC == Ascii(" UTC ")
  {
    hide Ascii;
    Spelled("Sun"); Spelled("Mon"); Spelled("Tue"); Spelled("Wed"); Spelled("Thu"); Spelled("Fri"); Spelled("Sat");
    Spelled("Jan"); Spelled("Feb"); Spelled("Mar"); Spelled("Apr"); Spelled("May"); Spelled("Jun");
    Spelled("Jul"); Spelled("Aug"); Spelled("Sep"); Spelled("Oct"); Spelled("Nov"); Spelled("Dec");
    Spelled(" UTC ");
  }

  lemma Spelled(s: string)
    requires forall i :: 0 <= i < |s| ==> s[i] < 128 as char
    ensures |s| == 3 ==> Ascii(s) == [s[0] as int, s[1] as int, s[2] as int]
    ensures |s| == 5 ==> Ascii(s) == [s[0] as int, s[1] as int, s[2] as int, s[3] as int, s[4] as int]
  {
  }

  /** Two characters that denote a number below `bound`. */
  predicate Reads(s: seq<byte>, v: nat, bound: nat) {
    |s| == 2 && ZERO <= s[0] < ZERO + 10 && ZERO <= s[1] < ZERO + 10 && 10 * (s[0] - ZERO) + (s[1] - ZERO) == v < bound
  }

  /** `h:m:s`, each in two digits and in its range, denotes second `sod` of the day. */
  predicate ClockReads(s: seq<byte>, sod: nat, h: nat, m: nat, sec: nat) {
    && |s| == 8 && s[2] == COLON && s[5] == COLON
    && Reads(s[0..2], h, 24) && Reads(s[3..5], m, 60) && Reads(s[6..8], sec, 60)
    && sod == 3600 * h + 60 * m + sec
  }

  ghost predicate Denotes(s: seq<byte>, sod: nat) {
    exists h, m, sec :: ClockReads(s, sod, h, m, sec)
  }

  lemma TwoDigitsRead(v: nat, bound: nat)
    requires v < bound <= 100
    ensures Reads(TwoDigits(v), v, bound)
  {
  }

  lemma ClockParts(sod: nat)
    requires sod < SECONDS_PER_DAY
    ensures sod / 3600 < 24 && sod % 3600 / 60 < 60 && sod % 60 < 60
    ensures sod == 3600 * (sod / 3600) + 60 * (sod % 3600 / 60) + sod % 60
  {
    assert sod % 60 == sod % 3600 % 60;
  }

  lemma ClockReadsBack(sod: nat)
    requires sod < SECONDS_PER_DAY
    ensures ClockReads(TimeText(sod), sod, sod / 3600, sod % 3600 / 60, sod % 60)
  {
    hide TwoDigits, Reads;
    var h, m, sec := sod / 3600, sod % 3600 / 60, sod % 60;
    ClockParts(sod);
    TwoDigitsRead(h, 24);
    TwoDigitsRead(m, 60);
    TwoDigitsRead(sec, 60);
    TwoLong(h);
    TwoLong(m);
    TwoLong(sec);
    var t := TimeText(sod);
    assert t[0..2] == TwoDigits(h) && t[3..5] == TwoDigits(m) && t[6..8] == TwoDigits(sec);
  }

  lemma TwoLong(v: nat)
    ensures |TwoDigits(v)| == 2
  {
  }

  /** The fields of a text, `n` being the number of digits of the day of the month. */
  ghost predicate TextReads(text: seq<byte>, n: nat, date: Date, weekday: nat, sod: nat)
    requires weekday < 7 && date.month < 12
  {
    && |text| > n + 22 && text[..3] == WEEKDAYS[weekday] && text[3] == SPACE
    && text[4..7] == MONTHS[date.month] && text[7] == SPACE
    && ValueOf(text[8..8 + n]) == date.day + 1 && text[8 + n] == SPACE
    && Denotes(text[9 + n..17 + n], sod)
    && text[17 + n..22 + n] == UTC && ValueOf(text[22 + n..]) == date.year
  }

  /** The text of a date reads back as that date and time, field by field. */
  lemma TextReadsBack(date: Date, weekday: nat, sod: nat)
    requires ValidDate(date) && weekday < 7 && sod < SECONDS_PER_DAY
    ensures TextReads(Text(date, weekday, sod), |Decimal(date.day + 1)|, date, weekday, sod)
  {
    hide Decimal, TimeText, ClockReads, ValueOf, DaysInMonth;
    NamesHaveThreeLetters(weekday, date.month);
    DecimalDenotes(date.day + 1);
    DecimalDenotes(date.year);
    ClockReadsBack(sod);
    ClockLong(sod);
    var day, year, n := Decimal(date.day + 1), Decimal(date.year), |Decimal(date.day + 1)|;
    var text := Text(date, weekday, sod);
    assert text == WEEKDAYS[weekday] + [SPACE] + MONTHS[date.month] + [SPACE] + day + [SPACE] + TimeText(sod) + UTC + year;
    assert text[8..8 + n] == day && text[9 + n..17 + n] == TimeText(sod) && text[22 + n..] == year;
  }

  lemma {:induction false} DecimalDigits(v: nat)
    ensures forall i :: 0 <= i < |Decimal(v)| ==> ZERO <= Decimal(v)[i] < ZERO + 10
  {
    if v >= 10 {
      DecimalDigits(v / 10);
    }
  }

  /** Only one clock reading, one month and one weekday have a given text. */
  lemma ClockReadsOnce(s: seq<byte>, a: nat, b: nat)
    requires Denotes(s, a) && Denotes(s, b)
    ensures a == b
  {
  }

  lemma NamesDiffer(i: nat, j: nat)
    ensures i < 7 && j < 7 && WEEKDAYS[i] == WEEKDAYS[j] ==> i == j
    ensures i < 12 && j < 12 && MONTHS[i] == MONTHS[j] ==> i == j
  {
    if i < 12 && j < 12 && i != j {
      assert MONTHS[i][0] != MONTHS[j][0] || MONTHS[i][1] != MONTHS[j][1] || MONTHS[i][2] != MONTHS[j][2];
    }
    if i < 7 && j < 7 && i != j {
      assert WEEKDAYS[i][0] != WEEKDAYS[j][0] || WEEKDAYS[i][1] != WEEKDAYS[j][1];
    }
  }

  /** The day has as many digits as there are characters before the next space. */
  lemma SameDigits(text: seq<byte>, u: nat, v: nat)
    requires |text| > 8 + |Decimal(u)| && |text| > 8 + |Decimal(v)|
    requires text[8..8 + |Decimal(u)|] == Decimal(u) && text[8 + |Decimal(u)|] == SPACE
    requires text[8..8 + |Decimal(v)|] == Decimal(v) && text[8 + |Decimal(v)|] == SPACE
    ensures |Decimal(u)| <= |Decimal(v)|
  {
    hide Decimal;
    DecimalDigits(u);
    assert forall i :: 0 <= i < |Decimal(u)| ==> text[8 + i] == Decimal(u)[i];
  }

  lemma DayDigits(date: Date, weekday: nat, sod: nat)
    requires ValidDate(date) && weekday < 7
    ensures var text, n := Text(date, weekday, sod), |Decimal(date.day + 1)|;
      |text| > 8 + n && text[8..8 + n] == Decimal(date.day + 1) && text[8 + n] == SPACE
  {
    hide Decimal, TimeText, DaysInMonth;
    NamesHaveThreeLetters(weekday, date.month);
    var text, day := Text(date, weekday, sod), Decimal(date.day + 1);
    assert text == WEEKDAYS[weekday] + [SPACE] + MONTHS[date.month] + [SPACE] + day + [SPACE] + TimeText(sod) + UTC + Decimal(date.year);
  }

  /** Different times have different texts. */
  lemma TextIsUnique(a: Date, v: nat, s: nat, b: Date, w: nat, t: nat)
    requires ValidDate(a) && v < 7 && s < SECONDS_PER_DAY && ValidDate(b) && w < 7 && t < SECONDS_PER_DAY
    requires Text(a, v, s) == Text(b, w, t)
    ensures a == b && v == w && s == t
  {
    hide Text, Decimal, ValueOf, ClockReads, ValidDate;
    DayDigits(a, v, s);
    DayDigits(b, w, t);
    SameDigits(Text(a, v, s), a.day + 1, b.day + 1);
    SameDigits(Text(a, v, s), b.day + 1, a.day + 1);
    TextReadsBack(a, v, s);
    TextReadsBack(b, w, t);
    MonthBound(a);
    MonthBound(b);
    NamesDiffer(v, w);
    NamesDiffer(a.month, b.month);
    var n := |Decimal(a.day + 1)|;
    ClockReadsOnce(Text(a, v, s)[9 + n..17 + n], s, t);
  }

  lemma MonthBound(date: Date)
    requires ValidDate(date)
    ensures date.month < 12
  {
  }

  lemma ClockLong(sod: nat)
    ensures |TimeText(sod)| == 8
  {
  }

  // ----- the buffer -----

  /** `s` sits at the start of the buffer, NUL-terminated. */
  ghost predicate Holds(out: array<byte>, s: seq<byte>)
    reads out
  {
    |s| < out.Length && out[..|s|] == s && out[|s|] == NUL
  }

  method AppendChar(out: array<byte>, pos: nat, c: byte, ghost s: seq<byte>) returns (ok: bool, next: nat)
    requires Holds(out, s) && pos == |s|
    modifies out
    ensures ok <==> |s| + 1 < out.Length
    ensures Holds(out, if ok then s + [c] else s) && next == if ok then pos + 1 else pos
  {
    if pos + 1 >= out.Length {
      return false, pos;
    }
    out[pos] := c;
    out[pos + 1] := NUL;
    assert out[..pos + 1] == s + [c];
    return true, pos + 1;
  }

  method AppendStr(out: array<byte>, pos: nat, t: seq<byte>, ghost s: seq<byte>) returns (ok: bool, next: nat)
    requires Holds(out, s) && pos == |s|
    modifies out
    ensures ok <==> |s| + |t| < out.Length
    ensures ok ==> Holds(out, s + t) && next == pos + |t|
  {
    next := pos;
    ok := true;
    assert s + t[..0] == s;
    for i := 0 to |t|
      invariant ok && Holds(out, s + t[..i]) && next == pos + i
    {
      ok, next := AppendChar(out, next, t[i], s + t[..i]);
      if !ok {
        return;
      }
      assert s + t[..i] + [t[i]] == s + t[..i + 1];
    }
    assert t[..|t|] == t;
  }

  /** `append_u32`: digits collected from the low end, then written from the high end. */
  method AppendU32(out: array<byte>, pos: nat, v: word, ghost s: seq<byte>) returns (ok: bool, next: nat)
    requires Holds(out, s) && pos == |s|
    modifies out
    ensures ok <==> |s| + |Decimal(v)| < out.Length
    ensures ok ==> Holds(out, s + Decimal(v)) && next == pos + |Decimal(v)|
  {
    if v == 0 {
      ok, next := AppendChar(out, pos, ZERO, s);
      return;
    }
    var tmp, n := CollectDigits(v);
    ghost var digits := Decimal(v);
    next := pos;
    ok := true;
    var i := n - 1;
    assert s + digits[..0] == s;
    while i >= 0
      invariant -1 <= i < n && ok && |digits| == n && next == pos + (n - 1 - i)
      invariant Holds(out, s + digits[..n - 1 - i])
      invariant forall k :: 0 <= k < n ==> tmp[k] == digits[n - 1 - k]
    {
      hide Holds;
      var k := n - 1 - i;
      ok, next := AppendChar(out, next, tmp[i], s + digits[..k]);
      if !ok {
        return;
      }
      assert s + digits[..k] + [digits[k]] == s + digits[..k + 1];
      i := i - 1;
    }
    assert digits[..n] == digits;
  }

  /** The first loop of `append_u32`. */
  method CollectDigits(v: word) returns (tmp: array<byte>, n: nat)
    requires v > 0
    ensures fresh(tmp) && n == |Decimal(v)| <= tmp.Length
    ensures forall k :: 0 <= k < n ==> tmp[k] == Decimal(v)[n - 1 - k]
  {
    tmp := new byte[10](_ => 0);
    var rest: nat;
    n, rest := 0, v;
    ghost var digits := Decimal(v);
    while rest > 0 && n < 10
      invariant n <= 10 && fresh(tmp) && tmp.Length == 10
      invariant rest < Power10(10 - n)
      invariant rest > 0 ==> |digits| > n && digits[..|digits| - n] == Decimal(rest)
      invariant rest == 0 ==> |digits| == n
      invariant n <= |digits| && forall k :: 0 <= k < n ==> tmp[k] == digits[|digits| - 1 - k]
    {
      tmp[n] := ZERO + rest % 10;
      var d := digits[..|digits| - n];
      assert d[|d| - 1] == ZERO + rest % 10;
      if rest >= 10 {
        assert d[..|d| - 1] == Decimal(rest / 10) && d[..|d| - 1] == digits[..|digits| - (n + 1)];
      }
      n := n + 1;
      rest := rest / 10;
    }
  }

  method Append2d(out: array<byte>, pos: nat, v: nat, ghost s: seq<byte>) returns (ok: bool, next: nat)
    requires Holds(out, s) && pos == |s|
    modifies out
    ensures ok <==> |s| + 2 < out.Length
    ensures ok ==> Holds(out, s + TwoDigits(v)) && next == pos + 2
  {
    ok, next := AppendChar(out, pos, ZERO + v / 10 % 10, s);
    if !ok {
      return;
    }
    ok, next := AppendChar(out, next, ZERO + v % 10, s + [ZERO + v / 10 % 10]);
    assert s + [ZERO + v / 10 % 10] + [ZERO + v % 10] == s + TwoDigits(v);
  }

  method AppendTime(out: array<byte>, pos: nat, sod: nat, ghost s: seq<byte>) returns (ok: bool, next: nat)
    requires Holds(out, s) && pos == |s|
    modifies out
    ensures ok <==> |s| + 8 < out.Length
    ensures ok ==> Holds(out, s + TimeText(sod)) && next == pos + 8
  {
    ghost var t := s;
    ok, next := Append2d(out, pos, sod / 3600, t);
    if !ok {
      return;
    }
    t := t + TwoDigits(sod / 3600);
    ok, next := AppendChar(out, next, COLON, t);
    if !ok {
      return;
    }
    t := t + [COLON];
    ok, next := Append2d(out, next, sod % 3600 / 60, t);
    if !ok {
      return;
    }
    t := t + TwoDigits(sod % 3600 / 60);
    ok, next := AppendChar(out, next, COLON, t);
    if !ok {
      return;
    }
    t := t + [COLON];
    ok, next := Append2d(out, next, sod % 60, t);
    assert t + TwoDigits(sod % 60) == s + TimeText(sod);
  }

  /**
   `unix_time_to_utc_str`, for every second count whose year fits an int: the text
   of the unique date with that day number, if the buffer holds it.
   */
  method UnixTimeToUtc(sec: nat, out: array<byte>) returns (ok: bool, ghost date: Date)
    requires sec < Pow2(64) && sec / SECONDS_PER_DAY < YearStart(0x8000_0000)
    modifies out
    ensures ValidDate(date) && DayNumber(date) == sec / SECONDS_PER_DAY && date.year < 0x8000_0000
    ensures var text := Text(date, (sec / SECONDS_PER_DAY + 4) % 7, sec % SECONDS_PER_DAY);
      (ok <==> |text| < out.Length) && (ok ==> Holds(out, text))
    ensures out.Length >= 40 ==> ok
  {
    hide Pow2, YearStart, Text;
    ok := false;
    var days, sod := Udiv64(sec, SECONDS_PER_DAY);
    SmallerPow(sec);
    var weeks, weekday := Udiv64(days + 4, 7);
    var d := DateOfDay(days);
    date := d;
    YearFits(d);
    TextLength(d, weekday, sod);
    if out.Length == 0 {
      return;
    }
    out[0] := NUL;
    ok := AppendDate(out, d, weekday, sod);
  }

  method AppendDay(out: array<byte>, weekday: seq<byte>, month: seq<byte>, day: word) returns (ok: bool, next: nat)
    requires Holds(out, [])
    modifies out
    ensures ok <==> |DayText(weekday, month, day)| < out.Length
    ensures ok ==> Holds(out, DayText(weekday, month, day)) && next == |DayText(weekday, month, day)|
  {
    hide Decimal, Holds;
    ok, next := AppendStr(out, 0, weekday, []);
    if !ok {
      return;
    }
    assert [] + weekday == weekday;
    ghost var s := weekday;
    ok, next := AppendChar(out, next, SPACE, s);
    if !ok {
      return;
    }
    s := s + [SPACE];
    ok, next := AppendStr(out, next, month, s);
    if !ok {
      return;
    }
    s := s + month;
    ok, next := AppendChar(out, next, SPACE, s);
    if !ok {
      return;
    }
    s := s + [SPACE];
    ok, next := AppendU32(out, next, day, s);
    if !ok {
      return;
    }
    s := s + Decimal(day);
    ok, next := AppendChar(out, next, SPACE, s);
  }

  method AppendDate(out: array<byte>, date: Date, weekday: nat, sod: nat) returns (ok: bool)
    requires ValidDate(date) && date.year < 0x8000_0000 && weekday < 7 && Holds(out, [])
    modifies out
    ensures ok <==> |Text(date, weekday, sod)| < out.Length
    ensures ok ==> Holds(out, Text(date, weekday, sod))
  {
    hide Decimal, Holds, DayText, TimeText;
    TimeLength(sod);
    var p;
    ok, p := AppendDay(out, WEEKDAYS[weekday], MONTHS[date.month], date.day + 1);
    if !ok {
      return;
    }
    ghost var s := DayText(WEEKDAYS[weekday], MONTHS[date.month], date.day + 1);
    ok, p := AppendTime(out, p, sod, s);
    if !ok {
      return;
    }
    s := s + TimeText(sod);
    ok, p := AppendStr(out, p, UTC, s);
    if !ok {
      return;
    }
    s := s + UTC;
    ok, p := AppendU32(out, p, date.year, s);
  }

  lemma TimeLength(sod: nat)
    ensures |TimeText(sod)| == 8
  {
  }

  lemma SmallerPow(sec: nat)
    requires sec < Pow2(64)
    ensures sec / SECONDS_PER_DAY + 4 < Pow2(64)
  {
    assert Pow2(3) == 8;
    PowGrows(3, 64);
  }

  lemma {:induction false} PowGrows(i: nat, j: nat)
    requires i <= j
    ensures Pow2(i) <= Pow2(j)
  {
    if i < j {
      PowGrows(i, j - 1);
    }
  }

  /** A day number below the start of year 2^31 has a year that fits an int. */
  lemma YearFits(d: Date)
    requires ValidDate(d) && DayNumber(d) < YearStart(0x8000_0000)
    ensures d.year < 0x8000_0000
  {
    hide YearStart;
    if d.year > 0x8000_0000 {
      YearsOrdered(0x8000_0000, d.year);
    }
  }
}
