/**
  Daily keep-warm windows, pkg/sablier/running_hours.go. Times are nanoseconds of a local
  clock with a fixed offset, so every day has 24 hours and midnights are multiples of `DAY`.
*/
module RunningHours {
  import opened Common

  const MINUTE := 60_000_000_000
  const DAY := 86_400_000_000_000

  datatype RunningHours = RunningHours(startMinute: int, endMinute: int)

  predicate WellFormed(r: RunningHours) {
    0 <= r.startMinute < 1440 && 0 <= r.endMinute < 1440 && r.startMinute != r.endMinute
  }

  // ---------- Parsing ----------

  /** `strings.Split` for a separator of one character. */
  function Split(s: string, sep: char): (parts: seq<string>)
    ensures parts != []
  {
    if s == "" then [""]
    else
      var rest := Split(s[1..], sep);
      if s[0] == sep then [""] + rest else [[s[0]] + rest[0]] + rest[1..]
  }

  /** `unicode.IsSpace`. */
  predicate IsSpace(c: char) {
    || '\t' <= c <= '\r' || c == ' ' || c == '\U{85}' || c == '\U{A0}' || c == '\U{1680}'
    || '\U{2000}' <= c <= '\U{200A}' || c == '\U{2028}' || c == '\U{2029}' || c == '\U{202F}'
    || c == '\U{205F}' || c == '\U{3000}'
  }

  function TrimLeft(s: string): string {
    if s != "" && IsSpace(s[0]) then TrimLeft(s[1..]) else s
  }

  function TrimRight(s: string): string {
    if s != "" && IsSpace(Last(s)) then TrimRight(Front(s)) else s
  }

  function TrimSpace(s: string): string {
    TrimRight(TrimLeft(s))
  }

  function Digits(s: string): Option<nat> {
    if s == "" then Some(0)
    else match Digits(Front(s))
      case Some(n) => if '0' <= Last(s) <= '9' then Some(10 * n + (Last(s) as int - '0' as int)) else None
      case None => None
  }

  /** `strconv.Atoi`: an optional sign, at least one decimal digit, and a value that fits 64 bits. */
  function Atoi(s: string): Option<int> {
    var signed := s != "" && (s[0] == '+' || s[0] == '-');
    var digits := if signed then s[1..] else s;
    if digits == "" || Digits(digits).None? then None
    else
      var magnitude: int := Digits(digits).value;
      var n := if signed && s[0] == '-' then -magnitude else magnitude;
      if -0x8000_0000_0000_0000 <= n < 0x8000_0000_0000_0000 then Some(n) else None
  }

  /** The minute of the day, if the text reads HH:MM and is in range. */
  function ParseClock(s: string): (minute: Option<int>)
    ensures minute.Some? ==> 0 <= minute.value < 1440
  {
    var chunks := Split(TrimSpace(s), ':');
    if |chunks| != 2 then None
    else match (Atoi(chunks[0]), Atoi(chunks[1]))
      case (Some(h), Some(m)) => if h < 0 || h > 23 || m < 0 || m > 59 then None else Some(h * 60 + m)
      case _ => None
  }

  function ParseRunningHours(v: string): Option<RunningHours> {
    var parts := Split(v, '-');
    if |parts| != 2 then None
    else match (ParseClock(parts[0]), ParseClock(parts[1]))
      case (Some(start), Some(end)) => if start == end then None else Some(RunningHours(start, end))
      case _ => None
  }

  function TwoDigits(n: nat): string
    requires n < 100
  {
    ['0' + (n / 10) as char, '0' + (n % 10) as char]
  }

  /** HH:MM */
  function Clock(minute: int): string
    requires 0 <= minute < 1440
  {
    TwoDigits(minute / 60) + [':'] + TwoDigits(minute % 60)
  }

  predicate Blank(s: string) {
    forall c :: c in s ==> IsSpace(c)
  }

  lemma {:induction false} SplitAtFirst(a: string, sep: char, b: string)
    requires sep !in a
    ensures Split(a + [sep] + b, sep) == [a] + Split(b, sep)
  {
    var s := a + [sep] + b;
    if a == "" {
      assert s[1..] == b;
    } else {
      SplitAtFirst(a[1..], sep, b);
      assert s[1..] == a[1..] + [sep] + b;
      assert [s[0]] + a[1..] == a;
    }
  }

  lemma {:induction false} SplitNowhere(s: string, sep: char)
    requires sep !in s
    ensures Split(s, sep) == [s]
  {
    if s != "" {
      SplitNowhere(s[1..], sep);
      assert [s[0]] + s[1..] == s;
    }
  }

  lemma {:induction false} TrimsPadding(before: string, s: string, after: string)
    requires Blank(before) && Blank(after) && s != "" && !IsSpace(s[0]) && !IsSpace(Last(s))
    ensures TrimSpace(before + s + after) == s
  {
    var t := before + s + after;
    if before != "" {
      assert IsSpace(t[0]) && t[1..] == before[1..] + s + after;
      TrimsPadding(before[1..], s, after);
    } else if after != "" {
      assert t == s + after && t[0] == s[0] && IsSpace(Last(t));
      assert Front(t) == s + Front(after) && before + s + Front(after) == Front(t);
      assert forall c :: c in Front(after) ==> c in after;
      TrimsPadding(before, s, Front(after));
      assert Front(t)[0] == s[0];
    } else {
      assert t == s;
    }
  }

  lemma ReadsTwoDigits(n: nat)
    requires n < 100
    ensures Atoi(TwoDigits(n)) == Some(n)
    ensures forall c :: c in TwoDigits(n) ==> '0' <= c <= '9'
  {
    var s := TwoDigits(n);
    assert Front(s) == [s[0]] && Front([s[0]]) == "";
    assert Digits([s[0]]) == Some(n / 10);
  }

  /** A clock written out is read back, with any white space around it. */
  lemma ClockRoundTrip(minute: int, before: string, after: string)
    requires 0 <= minute < 1440 && Blank(before) && Blank(after)
    ensures ParseClock(before + Clock(minute) + after) == Some(minute)
    ensures '-' !in before + Clock(minute) + after
  {
    var h, m := TwoDigits(minute / 60), TwoDigits(minute % 60);
    ReadsTwoDigits(minute / 60);
    ReadsTwoDigits(minute % 60);
    TrimsPadding(before, Clock(minute), after);
    SplitAtFirst(h, ':', m);
    SplitNowhere(m, ':');
  }

  /** Every window of two different minutes is read back from its text HH:MM-HH:MM, however padded. */
  lemma WindowRoundTrip(r: RunningHours, a: string, b: string, c: string, d: string)
    requires WellFormed(r) && Blank(a) && Blank(b) && Blank(c) && Blank(d)
    ensures ParseRunningHours((a + Clock(r.startMinute) + b) + ['-'] + (c + Clock(r.endMinute) + d)) == Some(r)
  {
    ClockRoundTrip(r.startMinute, a, b);
    ClockRoundTrip(r.endMinute, c, d);
    SplitAtFirst(a + Clock(r.startMinute) + b, '-', c + Clock(r.endMinute) + d);
    SplitNowhere(c + Clock(r.endMinute) + d, '-');
  }

  function Join(parts: seq<string>, sep: char): string
    requires parts != []
  {
    if |parts| == 1 then parts[0] else parts[0] + [sep] + Join(parts[1..], sep)
  }

  lemma {:induction false} SplitIsInverse(s: string, sep: char)
    ensures Join(Split(s, sep), sep) == s
    ensures forall i :: 0 <= i < |Split(s, sep)| ==> sep !in Split(s, sep)[i]
  {
    if s != "" {
      var rest := Split(s[1..], sep);
      SplitIsInverse(s[1..], sep);
      if s[0] == sep {
        assert ([""] + rest)[1..] == rest;
      } else {
        assert ([[s[0]] + rest[0]] + rest[1..])[1..] == rest[1..];
      }
    }
  }

  lemma {:induction false} TwoParts(s: string, sep: char)
    ensures |Split(s, sep)| == 2 ==>
              s == Split(s, sep)[0] + [sep] + Split(s, sep)[1] && sep !in Split(s, sep)[0] && sep !in Split(s, sep)[1]
  {
    SplitIsInverse(s, sep);
    var parts := Split(s, sep);
    if |parts| == 2 {
      assert parts[1..] == [parts[1]];
    }
  }

  /** Exactly what reads as a clock time: two numbers in range around the only colon. */
  lemma ClockMeans(s: string, minute: int)
    ensures ParseClock(s) == Some(minute) <==> exists a, b ::
              && TrimSpace(s) == a + [':'] + b && ':' !in a && ':' !in b
              && Atoi(a).Some? && Atoi(b).Some? && 0 <= Atoi(a).value < 24 && 0 <= Atoi(b).value < 60
              && minute == 60 * Atoi(a).value + Atoi(b).value
  {
    hide Split, TrimSpace, Atoi;
    TwoParts(TrimSpace(s), ':');
    forall a, b | TrimSpace(s) == a + [':'] + b && ':' !in a && ':' !in b
      ensures Split(TrimSpace(s), ':') == [a, b]
    {
      SplitAtFirst(a, ':', b);
      SplitNowhere(b, ':');
    }
  }

  /** Exactly what reads as a window: two different clock times around the only dash. */
  lemma WindowMeans(v: string, r: RunningHours)
    ensures ParseRunningHours(v) == Some(r) <==> exists a, b ::
              && v == a + ['-'] + b && '-' !in a && '-' !in b && r.startMinute != r.endMinute
              && ParseClock(a) == Some(r.startMinute) && ParseClock(b) == Some(r.endMinute)
  {
    hide Split, ParseClock;
    TwoParts(v, '-');
    forall a, b | v == a + ['-'] + b && '-' !in a && '-' !in b ensures Split(v, '-') == [a, b] {
      SplitAtFirst(a, '-', b);
      SplitNowhere(b, '-');
    }
  }

  lemma {:induction false} OneMoreDigit(s: string, c: char)
    ensures Digits(s + [c]) ==
            if Digits(s).Some? && '0' <= c <= '9' then Some(10 * Digits(s).value + (c as int - '0' as int)) else None
  {
    assert Front(s + [c]) == s && Last(s + [c]) == c;
  }

  /** Numbers are decimal, may carry a sign and leading zeros, and nothing else. */
  lemma NumbersByExample()
    ensures Atoi("090") == Some(90) && Atoi("+7") == Some(7) && Atoi("-7") == Some(-7)
    ensures Atoi("") == Atoi("+") == Atoi("7a") == Atoi(" 7") == None
  {
    assert Digits("0") == Some(0) by { OneMoreDigit("", '0'); assert "" + ['0'] == "0"; }
    assert Digits("09") == Some(9) by { OneMoreDigit("0", '9'); assert "0" + ['9'] == "09"; }
    assert Digits("090") == Some(90) by { OneMoreDigit("09", '0'); assert "09" + ['0'] == "090"; }
    assert Digits("7") == Some(7) by { OneMoreDigit("", '7'); assert "" + ['7'] == "7"; }
    assert Digits("7a") == None by { OneMoreDigit("7", 'a'); assert "7" + ['a'] == "7a"; }
    assert Digits(" 7") == None by {
      OneMoreDigit("", ' ');
      OneMoreDigit(" ", '7');
      assert "" + [' '] == " " && " " + ['7'] == " 7";
    }
    hide Digits;
    assert "+7"[1..] == "7" && "-7"[1..] == "7";
  }

  lemma SpacesByExample()
    ensures IsSpace(' ') && IsSpace('\t') && IsSpace('\n') && !IsSpace('0') && !IsSpace(':') && !IsSpace('-')
  {
  }

  /** Parsing yields well-formed windows, and every one of them. */
  lemma ParsedWindowsAreWellFormed(r: RunningHours)
    ensures WellFormed(r) <==> exists v :: ParseRunningHours(v) == Some(r)
  {
    hide ParseClock, Split;
    if WellFormed(r) {
      WindowRoundTrip(r, "", "", "", "");
    }
  }

  // ---------- Windows ----------

  /**
    Weekdays: they are numbered 0 to 6 from Sunday, the same all day, each day's number follows
    the day before's, and 1 January 1970 was a Thursday.
  */
  lemma WeekdaysCycle(t: int)
    ensures 0 <= Weekday(t) < 7 && Weekday(t) == Weekday(Midnight(t))
    ensures Weekday(t + DAY) == (Weekday(t) + 1) % 7
    ensures Weekday(0) == 4
  {
    DayNumbers(t);
    hide Midnight;
  }

  lemma DayNumbers(t: int)
    ensures (t + DAY) / DAY == t / DAY + 1 && Midnight(t) / DAY == t / DAY
  {
    assert Midnight(t) == t / DAY * DAY;
  }

  /** An unreadable window, or unreadable days inside a window, is reported and never extends a session. */
  lemma BadLabelsAreInvalid(hours: Option<RunningHours>, days: Days, now: int)
    ensures RemainingAt(hours, days, now).Invalid? <==>
              hours.None? || (days.BadDays? && WindowAt(hours.value, now).inside)
  {
  }

  function Midnight(t: int): int {
    t - t % DAY
  }

  /** `now.Hour()*60 + now.Minute()`. */
  function MinuteOfDay(t: int): int {
    t % DAY / MINUTE
  }

  /** Sunday is 0; day 0 was a Thursday. */
  function Weekday(t: int): int {
    (t / DAY + 4) % 7
  }

  datatype Window = Window(start: int, end: int, inside: bool)

  function WindowAt(r: RunningHours, now: int): Window {
    var midnight := Midnight(now);
    var start, end :=
      if r.startMinute < r.endMinute || MinuteOfDay(now) >= r.startMinute
      then midnight + r.startMinute * MINUTE
      else midnight - DAY + r.startMinute * MINUTE,
      if r.startMinute > r.endMinute && MinuteOfDay(now) >= r.startMinute
      then midnight + DAY + r.endMinute * MINUTE
      else midnight + r.endMinute * MINUTE;
    Window(start, end, start <= now < end)
  }

  /** The minute lies between start and end on the face of the clock. */
  predicate Between(minute: int, start: int, end: int) {
    if start < end then start <= minute < end else minute >= start || minute < end
  }

  lemma TimeOfDay(t: int)
    ensures Midnight(t) % DAY == 0 && Midnight(t) <= t < Midnight(t) + DAY
    ensures 0 <= MinuteOfDay(t) < 1440
    ensures Midnight(t) + MinuteOfDay(t) * MINUTE <= t < Midnight(t) + MinuteOfDay(t) * MINUTE + MINUTE
  {
  }

  /** `WindowAt` is the cyclic interval of minutes, for windows within a day and across midnight. */
  lemma InsideIsBetween(r: RunningHours, now: int)
    requires WellFormed(r)
    ensures WindowAt(r, now).inside <==> Between(MinuteOfDay(now), r.startMinute, r.endMinute)
  {
    TimeOfDay(now);
  }

  /** Inside, the bounds enclose the instant and are as far apart as the clock says. */
  lemma BoundsEncloseNow(r: RunningHours, now: int)
    requires WellFormed(r) && WindowAt(r, now).inside
    ensures var w := WindowAt(r, now);
      && w.start <= now < w.end
      && w.end - w.start == (r.endMinute - r.startMinute) % 1440 * MINUTE
      && 0 < w.end - now <= w.end - w.start < DAY
      && w.start == Midnight(w.start) + r.startMinute * MINUTE
  {
    TimeOfDay(now);
    hide Midnight, MinuteOfDay;
    CyclicDifference(r.startMinute, r.endMinute);
    MidnightPlus(Midnight(now), r.startMinute * MINUTE);
    MidnightPlus(Midnight(now) - DAY, r.startMinute * MINUTE);
  }

  lemma CyclicDifference(start: int, end: int)
    requires 0 <= start < 1440 && 0 <= end < 1440
    ensures (end - start) % 1440 == if start <= end then end - start else end - start + 1440
  {
  }

  lemma MidnightPlus(midnight: int, offset: int)
    requires midnight % DAY == 0 && 0 <= offset < DAY
    ensures Midnight(midnight + offset) == midnight
  {
  }

  /**
    Every instant of one window sees the same bounds, and so the same weekday it is booked
    under: the day it began, also after midnight.
  */
  lemma OneWindowOneAnswer(r: RunningHours, now: int, t: int)
    requires WellFormed(r) && WindowAt(r, now).inside && WindowAt(r, now).start <= t < WindowAt(r, now).end
    ensures WindowAt(r, t) == WindowAt(r, now)
  {
    TimeOfDay(now);
    TimeOfDay(t);
    SameOrNextDay(now, t);
  }

  lemma SameOrNextDay(a: int, b: int)
    requires -DAY < b - a < DAY
    ensures var d := Midnight(b) - Midnight(a); d == 0 || d == DAY || d == -DAY
  {
    assert Midnight(a) == a / DAY * DAY && Midnight(b) == b / DAY * DAY;
    assert -2 < b / DAY - a / DAY < 2;
  }

  // ---------- Remaining time ----------

  /** The `running-days` label: absent, unreadable, or a set of weekdays. */
  datatype Days = EveryDay | BadDays | On(days: set<int>)

  datatype Remaining = Invalid | Outside | Inside(remaining: int)

  /** `runningHoursRemaining`; `hours` is None if the label does not parse. */
  function RemainingAt(hours: Option<RunningHours>, days: Days, now: int): Remaining {
    if hours.None? then Invalid
    else
      var w := WindowAt(hours.value, now);
      if !w.inside then Outside
      else match days
        case BadDays => Invalid
        case On(set_) => if Weekday(w.start) !in set_ then Outside else Inside(Max(w.end - now, 0))
        case EveryDay => Inside(Max(w.end - now, 0))
  }

  function Max(a: int, b: int): int {
    if a >= b then a else b
  }

  /** The instant belongs to a running-hours window that ends at `end` and applies on its day. */
  predicate WarmUntil(r: RunningHours, days: Days, now: int, end: int) {
    RemainingAt(Some(r), days, now).Inside? && WindowAt(r, now).end == end
  }

  /** A window is booked under the day it began: after midnight, an overnight window is yesterday's. */
  lemma WarmOnTheDayItBegan(r: RunningHours, days: Days, now: int)
    requires WellFormed(r)
    ensures var m := MinuteOfDay(now);
      var began := if r.startMinute > r.endMinute && m < r.endMinute then now - DAY else now;
      RemainingAt(Some(r), days, now).Inside? <==>
        Between(m, r.startMinute, r.endMinute) && (days == EveryDay || (days.On? && Weekday(began) in days.days))
  {
    InsideIsBetween(r, now);
    if WindowAt(r, now).inside {
      BoundsEncloseNow(r, now);
      var m := MinuteOfDay(now);
      var began := if r.startMinute > r.endMinute && m < r.endMinute then now - DAY else now;
      var start := WindowAt(r, now).start;
      assert start == Midnight(began) + r.startMinute * MINUTE;
      MidnightPlus(Midnight(began), r.startMinute * MINUTE);
      assert Midnight(began) == began / DAY * DAY && Midnight(start) == start / DAY * DAY;
    }
  }

  /** The remaining time is exact and never a full day; all of a window is warm, or none of it. */
  lemma RemainingIsExact(r: RunningHours, days: Days, now: int, end: int, t: int)
    requires WellFormed(r) && WarmUntil(r, days, now, end)
    ensures RemainingAt(Some(r), days, now) == Inside(end - now) && 0 < end - now < DAY
    ensures WindowAt(r, now).start <= t < end ==> WarmUntil(r, days, t, end)
  {
    BoundsEncloseNow(r, now);
    if WindowAt(r, now).start <= t < end {
      OneWindowOneAnswer(r, now, t);
    }
  }
}
