/** The dashboard's display logic: the relative-date label of `formatDate`, the
    maximum of the heatmap colour scale, and the way a heatmap cell, sent as an
    (hour, weekday, count) triple, is turned into its tooltip. Instants are
    milliseconds since the Unix epoch; the viewer's time zone is an explicit
    offset in milliseconds. */
module Dashboard {
  import opened Decimal
  import Civil
  import Counting
  import GitStats
  import Clock

  const MsPerMinute: int := 1000 * 60
  const MsPerHour: int := 1000 * 60 * 60
  const MsPerDay: int := 1000 * 60 * 60 * 24

  function Abs(x: int): nat
  {
    if x < 0 then -x else x
  }

  /** Whole days elapsed between two instants, in either direction: the floor of
      |now - date| / 86 400 000. */
  function DiffDays(now: int, date: int): (d: nat)
    ensures d * MsPerDay <= Abs(now - date) < (d + 1) * MsPerDay
  {
    Abs(now - date) / MsPerDay
  }

  /** An instant `k` ms in the past and one `k` ms in the future are the same number
      of days away. */
  lemma DiffDaysSymmetric(now: int, k: int)
    ensures DiffDays(now, now - k) == DiffDays(now, now + k)
    ensures DiffDays(now, now - k) == Abs(k) / MsPerDay
  {
  }

  /** The viewer's local reading of an instant `local` ms after the local epoch:
      day number, `getHours()`, `getMinutes()` and the milliseconds left over. */
  function LocalTimeOf(local: int): Clock.Reading
  {
    Clock.ReadingOf(local, 1000)
  }

  /** The four forms of a relative-date label. */
  datatype Label =
    | Today(hour: nat, minute: nat)
    | Yesterday(hour: nat, minute: nat)
    | DaysAgo(days: nat)
    | OnDate(year: int, month: nat, day: nat)

  /** `formatDate`'s choice of form and the fields it shows, for an instant `date`
      seen at `now` by a viewer whose zone is `offset` ms ahead of UTC. The form
      depends on elapsed whole days only; the fields are read in the viewer's zone. */
  function Classify(now: int, date: int, offset: int): (l: Label)
    ensures var d := DiffDays(now, date);
      && (l.Today? <==> d == 0)
      && (l.Yesterday? <==> d == 1)
      && (l.DaysAgo? <==> 2 <= d < 7)
      && (l.OnDate? <==> d >= 7)
    ensures l.DaysAgo? ==> l.days == DiffDays(now, date)
    ensures l.Today? || l.Yesterday? ==>
      l.hour == LocalTimeOf(date + offset).hour && l.minute == LocalTimeOf(date + offset).minute
    ensures l.OnDate? ==>
      && Civil.ValidDate(Civil.Date(l.year, l.month, l.day))
      && Civil.DaysFromCivil(Civil.Date(l.year, l.month, l.day)) == LocalTimeOf(date + offset).day
  {
    var d := DiffDays(now, date);
    var t := LocalTimeOf(date + offset);
    if d == 0 then Today(t.hour, t.minute)
    else if d == 1 then Yesterday(t.hour, t.minute)
    else if d < 7 then DaysAgo(d)
    else
      var c := Civil.CivilFromDays(t.day);
      OnDate(c.year, c.month, c.day)
  }

  const TodayPrefix: string := "今天 "
  const YesterdayPrefix: string := "昨天 "
  const AgoSuffix: string := "天前"

  /** "HH:MM" with both fields zero-padded to two digits. */
  function ClockText(hour: nat, minute: nat): string
  {
    Pad2(hour) + ":" + Pad2(minute)
  }

  /** The text of a label, as `formatDate` builds it. */
  function Render(l: Label): string
  {
    match l
    case Today(h, m) => TodayPrefix + ClockText(h, m)
    case Yesterday(h, m) => YesterdayPrefix + ClockText(h, m)
    case DaysAgo(n) => NatToString(n) + AgoSuffix
    case OnDate(y, m, d) => IntToString(y) + "-" + Pad2(m) + "-" + Pad2(d)
  }

  /** `formatDate`: the label text for `date` seen at `now`. Elapsed days 0 and 1
      give "今天 HH:MM" and "昨天 HH:MM", 2 to 6 give "<n>天前", and a week or more
      gives "YYYY-MM-DD" of the local calendar date. */
  function FormatDate(now: int, date: int, offset: int): (r: string)
    ensures var d := DiffDays(now, date);
      && (d == 0 ==> |r| == 8 && r[..3] == TodayPrefix && r[5] == ':')
      && (d == 1 ==> |r| == 8 && r[..3] == YesterdayPrefix && r[5] == ':')
      && (2 <= d < 7 ==> r == [DigitChar(d)] + AgoSuffix)
      && (d >= 7 ==> |r| >= 7 && r[|r| - 6] == '-' && r[|r| - 3] == '-'
                     && r[..|r| - 6] == IntToString(Classify(now, date, offset).year))
    ensures ParseLabel(r) == Some(Classify(now, date, offset))
  {
    var l := Classify(now, date, offset);
    ClassifyWellFormed(now, date, offset);
    ParseRender(l);
    RenderShape(l);
    Render(l)
  }

  /** The outward shape of each form of label text. */
  lemma RenderShape(l: Label)
    requires WellFormed(l)
    ensures l.Today? ==> |Render(l)| == 8 && Render(l)[..3] == TodayPrefix && Render(l)[5] == ':'
    ensures l.Yesterday? ==> |Render(l)| == 8 && Render(l)[..3] == YesterdayPrefix && Render(l)[5] == ':'
    ensures l.DaysAgo? && l.days < 10 ==> Render(l) == [DigitChar(l.days)] + AgoSuffix
    ensures l.OnDate? ==>
      && |Render(l)| >= 7 && Render(l)[|Render(l)| - 6] == '-' && Render(l)[|Render(l)| - 3] == '-'
      && Render(l)[..|Render(l)| - 6] == IntToString(l.year)
  {
    match l
    case Today(h, m) =>
      ParseClockRoundTrip(h, m);
      assert Render(l)[3..][2] == ClockText(h, m)[2];
    case Yesterday(h, m) =>
      ParseClockRoundTrip(h, m);
      assert Render(l)[3..][2] == ClockText(h, m)[2];
    case DaysAgo(n) =>
    case OnDate(y, m, d) =>
      IntToStringStart(y);
      DateTail(m, d);
      SplitDateText(IntToString(y), "-" + Pad2(m) + "-" + Pad2(d));
  }

  /** Reads "HH:MM" back into its two fields. */
  function ParseClock(s: string): Option<(nat, nat)>
  {
    if |s| == 5 && s[2] == ':' && AllDigits(s[..2]) && AllDigits(s[3..])
    then Some((DecimalValue(s[..2]), DecimalValue(s[3..])))
    else None
  }

  /** `s` starts with `p`. */
  predicate HasPrefix(s: string, p: string)
  {
    |s| >= |p| && s[..|p|] == p
  }

  /** Text of the form "<digits>天前". */
  predicate IsAgoForm(s: string)
  {
    |s| >= 3 && s[|s| - 2..] == AgoSuffix && AllDigits(s[..|s| - 2])
  }

  /** Reads "<year>-MM-DD" back into a date label. */
  function ParseDate(s: string): Option<Label>
  {
    if |s| >= 7 && s[|s| - 6] == '-' && s[|s| - 3] == '-'
       && AllDigits(s[|s| - 5..|s| - 3]) && AllDigits(s[|s| - 2..]) then
      match ParseInt(s[..|s| - 6])
      case Some(y) => Some(OnDate(y, DecimalValue(s[|s| - 5..|s| - 3]), DecimalValue(s[|s| - 2..])))
      case None => None
    else None
  }

  /** Reads a label text back into the label it shows; None for any other text. */
  function ParseLabel(s: string): Option<Label>
  {
    if HasPrefix(s, TodayPrefix) then
      match ParseClock(s[3..])
      case Some(c) => Some(Today(c.0, c.1))
      case None => None
    else if HasPrefix(s, YesterdayPrefix) then
      match ParseClock(s[3..])
      case Some(c) => Some(Yesterday(c.0, c.1))
      case None => None
    else if IsAgoForm(s) then Some(DaysAgo(DecimalValue(s[..|s| - 2])))
    else ParseDate(s)
  }

  /** Labels whose two-digit fields fit in two digits. */
  predicate WellFormed(l: Label)
  {
    match l
    case Today(h, m) => h < 100 && m < 100
    case Yesterday(h, m) => h < 100 && m < 100
    case DaysAgo(_) => true
    case OnDate(_, m, d) => m < 100 && d < 100
  }

  /** A clock text reads back as its fields. */
  lemma ParseClockRoundTrip(h: nat, m: nat)
    requires h < 100 && m < 100
    ensures |ClockText(h, m)| == 5
    ensures ParseClock(ClockText(h, m)) == Some((h, m))
  {
    var s := ClockText(h, m);
    assert s[..2] == Pad2(h) && s[3..] == Pad2(m);
  }

  /** Integer text starts with a digit or a minus sign. */
  lemma IntToStringStart(y: int)
    ensures |IntToString(y)| >= 1
    ensures IntToString(y)[0] == '-' || IsDigit(IntToString(y)[0])
  {
    if y < 0 {
      NatToStringRoundTrip(-y);
    } else {
      NatToStringRoundTrip(y);
    }
  }

  /** The first character of a label's text tells whether it is a "today" or
      "yesterday" text. */
  lemma PrefixesDiffer(s: string)
    requires |s| >= 1
    ensures s[0] != '今' ==> !HasPrefix(s, TodayPrefix)
    ensures s[0] != '昨' ==> !HasPrefix(s, YesterdayPrefix)
  {
    assert TodayPrefix[0] == '今' && YesterdayPrefix[0] == '昨';
    if |s| >= 3 {
      assert s[..3][0] == s[0];
    }
  }

  lemma ParseRenderToday(h: nat, m: nat)
    requires h < 100 && m < 100
    ensures ParseLabel(Render(Today(h, m))) == Some(Today(h, m))
  {
    var s := Render(Today(h, m));
    ParseClockRoundTrip(h, m);
    assert s[..3] == TodayPrefix && s[3..] == ClockText(h, m);
  }

  lemma ParseRenderYesterday(h: nat, m: nat)
    requires h < 100 && m < 100
    ensures ParseLabel(Render(Yesterday(h, m))) == Some(Yesterday(h, m))
  {
    var s := Render(Yesterday(h, m));
    ParseClockRoundTrip(h, m);
    assert s[0] == '昨';
    PrefixesDiffer(s);
    assert s[..3] == YesterdayPrefix && s[3..] == ClockText(h, m);
  }

  lemma ParseRenderDaysAgo(n: nat)
    ensures ParseLabel(Render(DaysAgo(n))) == Some(DaysAgo(n))
  {
    var s := Render(DaysAgo(n));
    NatToStringRoundTrip(n);
    assert s[0] == NatToString(n)[0];
    PrefixesDiffer(s);
    assert s[|s| - 2..] == AgoSuffix && s[..|s| - 2] == NatToString(n);
  }

  /** The "-MM-DD" part of a date label. */
  lemma DateTail(m: nat, d: nat)
    requires m < 100 && d < 100
    ensures var t := "-" + Pad2(m) + "-" + Pad2(d);
      && |t| == 6 && t[0] == '-' && t[3] == '-'
      && AllDigits(t[1..3]) && AllDigits(t[4..]) && t[5] != '前'
      && DecimalValue(t[1..3]) == m && DecimalValue(t[4..]) == d
  {
    var t := "-" + Pad2(m) + "-" + Pad2(d);
    assert t[1..3] == Pad2(m);
    assert t[4..] == Pad2(d);
    assert t[5] == Pad2(d)[1];
  }

  /** Where the parts of "<year>" + "-MM-DD" sit in the whole text. */
  lemma SplitDateText(ys: string, t: string)
    requires |t| == 6
    ensures var s := ys + t;
      && |s| == |ys| + 6
      && s[..|s| - 6] == ys
      && s[|s| - 6] == t[0] && s[|s| - 3] == t[3]
      && s[|s| - 5..|s| - 3] == t[1..3]
      && s[|s| - 2..] == t[4..]
  {
  }

  /** A year text followed by a well-formed "-MM-DD" is read as that date. */
  lemma ParseDateParts(ys: string, t: string, y: int, m: nat, d: nat)
    requires ParseInt(ys) == Some(y) && |ys| >= 1
    requires |t| == 6 && t[0] == '-' && t[3] == '-'
    requires AllDigits(t[1..3]) && AllDigits(t[4..])
    requires DecimalValue(t[1..3]) == m && DecimalValue(t[4..]) == d
    ensures ParseDate(ys + t) == Some(OnDate(y, m, d))
  {
    SplitDateText(ys, t);
  }

  /** A date text is read by the date branch. */
  lemma ParseDateOfRender(y: int, m: nat, d: nat)
    requires m < 100 && d < 100
    ensures ParseDate(Render(OnDate(y, m, d))) == Some(OnDate(y, m, d))
  {
    var ys := IntToString(y);
    var t := "-" + Pad2(m) + "-" + Pad2(d);
    assert Render(OnDate(y, m, d)) == ys + t;
    IntToStringStart(y);
    IntToStringRoundTrip(y);
    DateTail(m, d);
    ParseDateParts(ys, t, y, m, d);
  }

  /** A date text is not read by any of the other branches. */
  lemma DateTextIsNoOtherForm(y: int, m: nat, d: nat)
    requires m < 100 && d < 100
    ensures var s := Render(OnDate(y, m, d));
      !HasPrefix(s, TodayPrefix) && !HasPrefix(s, YesterdayPrefix) && !IsAgoForm(s)
  {
    var ys := IntToString(y);
    var t := "-" + Pad2(m) + "-" + Pad2(d);
    var s := ys + t;
    assert Render(OnDate(y, m, d)) == s;
    IntToStringStart(y);
    DateTail(m, d);
    assert s[0] == ys[0];
    PrefixesDiffer(s);
    assert s[|s| - 1] == t[5];
    assert s[|s| - 2..][1] == s[|s| - 1];
    assert AgoSuffix[1] == '前';
  }

  lemma ParseRenderOnDate(y: int, m: nat, d: nat)
    requires m < 100 && d < 100
    ensures ParseLabel(Render(OnDate(y, m, d))) == Some(OnDate(y, m, d))
  {
    DateTextIsNoOtherForm(y, m, d);
    ParseDateOfRender(y, m, d);
  }

  /** Round trip: reading a label's text gives back the label, so the four forms
      never produce the same text and every field can be recovered. */
  lemma ParseRender(l: Label)
    requires WellFormed(l)
    ensures ParseLabel(Render(l)) == Some(l)
  {
    match l
    case Today(h, m) => ParseRenderToday(h, m);
    case Yesterday(h, m) => ParseRenderYesterday(h, m);
    case DaysAgo(n) => ParseRenderDaysAgo(n);
    case OnDate(y, m, d) => ParseRenderOnDate(y, m, d);
  }

  /** Every label `formatDate` chooses is well formed, so its text determines it. */
  lemma ClassifyWellFormed(now: int, date: int, offset: int)
    ensures WellFormed(Classify(now, date, offset))
  {
  }

  /** Two instants get the same label text exactly when they get the same label. */
  lemma SameTextSameLabel(now: int, a: int, b: int, offset: int)
    ensures FormatDate(now, a, offset) == FormatDate(now, b, offset)
            <==> Classify(now, a, offset) == Classify(now, b, offset)
  {
  }

  /** The label reflects elapsed time, not the calendar: an instant one hour before
      a local midnight, seen one hour after it, is labelled "today" although it lies
      on the previous calendar day. */
  lemma TodayIsElapsedTime(k: int)
    ensures var now, date := k * MsPerDay + MsPerHour, k * MsPerDay - MsPerHour;
      && Classify(now, date, 0) == Today(23, 0)
      && LocalTimeOf(date).day + 1 == LocalTimeOf(now).day
  {
    var now, date := k * 86400000 + 3600000, k * 86400000 - 3600000;
    Clock.ReadingUnique(date, 1000, Clock.Reading(k - 1, 23, 0, 0));
    Clock.ReadingUnique(now, 1000, Clock.Reading(k, 1, 0, 0));
    assert DiffDays(now, date) == 0;
  }

  /** Largest count of a non-empty list. */
  function MaxCount(counts: seq<nat>): (m: nat)
    requires |counts| > 0
    ensures m in counts
    ensures forall i :: 0 <= i < |counts| ==> counts[i] <= m
  {
    if |counts| == 1 then counts[0]
    else
      var rest := MaxCount(counts[1..]);
      if counts[0] >= rest then counts[0] else rest
  }

  /** Upper end of the heatmap's colour scale: the largest cell count, or 5 when
      every cell is 0 (`Math.max(...counts) || 5`). */
  function HeatScaleMax(heatmap: seq<(int, int, nat)>): (r: nat)
    requires |heatmap| > 0
    ensures (forall i :: 0 <= i < |heatmap| ==> heatmap[i].2 == 0) ==> r == 5
    ensures (exists i :: 0 <= i < |heatmap| && heatmap[i].2 > 0) ==>
      && (exists i :: 0 <= i < |heatmap| && heatmap[i].2 == r)
      && (forall i :: 0 <= i < |heatmap| ==> heatmap[i].2 <= r)
  {
    var counts := seq(|heatmap|, i requires 0 <= i < |heatmap| => heatmap[i].2);
    var m := MaxCount(counts);
    assert forall i :: 0 <= i < |heatmap| ==> counts[i] == heatmap[i].2;
    if m == 0 then 5 else m
  }

  /** Weekday axis labels, Monday first. */
  const DayLabels: seq<string> := ["周一", "周二", "周三", "周四", "周五", "周六", "周日"]

  /** Hour axis labels "0时" to "23时": label `i` is the decimal text of `i`, with
      no leading zero, followed by "时", so no two labels are alike. */
  function HourLabels(): (r: seq<string>)
    ensures |r| == 24 && Counting.NoDuplicates(r)
    ensures forall i :: 0 <= i < 24 ==>
      var s := r[i];
      && |s| >= 2 && s[|s| - 1] == '时'
      && AllDigits(s[..|s| - 1]) && (|s| > 2 ==> s[0] != '0')
      && DecimalValue(s[..|s| - 1]) == i
  {
    var r := seq(24, i requires 0 <= i < 24 => NatToString(i) + "时");
    forall i | 0 <= i < 24
      ensures |r[i]| >= 2 && r[i][|r[i]| - 1] == '时'
      ensures AllDigits(r[i][..|r[i]| - 1]) && (|r[i]| > 2 ==> r[i][0] != '0')
      ensures DecimalValue(r[i][..|r[i]| - 1]) == i
    {
      NatToStringRoundTrip(i);
      assert r[i][..|r[i]| - 1] == NatToString(i);
      assert |r[i]| > 2 ==> r[i][0] == NatToString(i)[0];
    }
    forall i, j | 0 <= i < j < 24
      ensures r[i] != r[j]
    {
      NatToStringRoundTrip(i);
      NatToStringRoundTrip(j);
      assert r[i][..|r[i]| - 1] == NatToString(i) && r[j][..|r[j]| - 1] == NatToString(j);
    }
    r
  }

  /** The hour axis label of an hour of the day names that hour. */
  lemma HourLabelNamesHour(h: int)
    requires 0 <= h < 24
    ensures var s := Lookup(HourLabels(), h);
      ParseInt(s[..|s| - 1]) == Some(h) && s[|s| - 1] == '时'
  {
    var s := Lookup(HourLabels(), h);
    ParseDigits(s[..|s| - 1]);
  }

  /** JavaScript array indexing: out of range reads `undefined`. */
  function Lookup(labels: seq<string>, i: int): string
  {
    if 0 <= i < |labels| then labels[i] else "undefined"
  }

  /** The tooltip of a heatmap triple (hour, weekday, count): weekday label, hour
      label, then the count. */
  function Tooltip(t: (int, int, nat)): string
  {
    Lookup(DayLabels, t.1) + " " + Lookup(HourLabels(), t.0) + "<br>学习次数: " + NatToString(t.2)
  }

  /** The heatmap cells as the dashboard receives them: (hour, weekday, count),
      with the weekday as its Monday-first position. */
  function HeatTriples(cells: seq<((Civil.Weekday, int), nat)>): (r: seq<(int, int, nat)>)
    ensures |r| == |cells|
    ensures forall i :: 0 <= i < |r| ==>
      && r[i].0 == cells[i].0.1
      && 0 <= r[i].1 < 7 && Civil.WeekdayAt(r[i].1) == cells[i].0.0
      && r[i].2 == cells[i].1
  {
    var r := seq(|cells|, i requires 0 <= i < |cells| =>
      (cells[i].0.1, Civil.WeekdayIndex(cells[i].0.0), cells[i].1));
    forall i | 0 <= i < |cells|
      ensures r[i].1 < 7 && Civil.WeekdayAt(r[i].1) == cells[i].0.0
    {
      Civil.WeekdayOrder(cells[i].0.0, 0);
    }
    r
  }

  /** The Chinese name of a weekday. */
  function DayLabel(w: Civil.Weekday): string
  {
    match w
    case Monday => "周一"
    case Tuesday => "周二"
    case Wednesday => "周三"
    case Thursday => "周四"
    case Friday => "周五"
    case Saturday => "周六"
    case Sunday => "周日"
  }

  /** The weekday axis lists each weekday's name at its Monday-first position. */
  lemma DayLabelsInOrder(w: Civil.Weekday)
    ensures Civil.WeekdayIndex(w) < |DayLabels|
    ensures DayLabels[Civil.WeekdayIndex(w)] == DayLabel(w)
  {
  }

  /** The tooltip of every heatmap cell: the weekday's name, the hour label and the
      cell's count. */
  function HeatmapTooltips(cells: seq<((Civil.Weekday, int), nat)>): (r: seq<string>)
    requires forall i :: 0 <= i < |cells| ==> 0 <= cells[i].0.1 < 24
    ensures |r| == |cells|
    ensures forall i :: 0 <= i < |r| ==>
      r[i] == DayLabel(cells[i].0.0) + " " + NatToString(cells[i].0.1) + "时"
              + "<br>学习次数: " + NatToString(cells[i].1)
  {
    var triples := HeatTriples(cells);
    forall i | 0 <= i < |cells|
      ensures Lookup(DayLabels, triples[i].1) == DayLabel(cells[i].0.0)
    {
      Civil.WeekdayOrder(cells[i].0.0, 0);
      DayLabelsInOrder(cells[i].0.0);
    }
    seq(|cells|, i requires 0 <= i < |cells| => Tooltip(triples[i]))
  }

  /** Some tooltip in `tips` names weekday `w` and hour `h` and shows count `n`. */
  predicate HasTooltip(tips: seq<string>, w: Civil.Weekday, h: nat, n: nat)
  {
    exists k :: 0 <= k < |tips| &&
      tips[k] == DayLabel(w) + " " + NatToString(h) + "时" + "<br>学习次数: " + NatToString(n)
  }

  /** A heatmap entry has its tooltip somewhere in the tooltip list. */
  lemma TooltipOfEntry(cells: seq<((Civil.Weekday, int), nat)>, i: int)
    requires forall k :: 0 <= k < |cells| ==> 0 <= cells[k].0.1 < 24
    requires 0 <= i < |cells|
    ensures HasTooltip(HeatmapTooltips(cells), cells[i].0.0, cells[i].0.1, cells[i].1)
  {
    var tips := HeatmapTooltips(cells);
    assert tips[i] == DayLabel(cells[i].0.0) + " " + NatToString(cells[i].0.1) + "时"
                      + "<br>学习次数: " + NatToString(cells[i].1);
  }

  /** Every (weekday, hour) cell with at least one commit has a tooltip in the
      report's heatmap, naming that weekday and hour and showing the number of
      commits in the cell, whichever way the grouping treats empty cells. */
  lemma TooltipsNameTheirCell(ps: seq<GitStats.Stamped>, observed: bool, w: Civil.Weekday, h: int)
    requires forall i :: 0 <= i < |ps| ==> 0 <= ps[i].hour < 24
    requires Counting.Count(GitStats.Cells(ps), (w, h)) > 0
    ensures 0 <= h < 24
    ensures HasTooltip(HeatmapTooltips(GitStats.Heatmap(ps, observed)), w, h, Counting.Count(GitStats.Cells(ps), (w, h)))
  {
    var cells := GitStats.Heatmap(ps, observed);
    Counting.CountPositive(GitStats.Cells(ps), (w, h));
    GitStats.HeatmapEntry(ps, observed, (w, h));
    var i :| 0 <= i < |cells| && cells[i] == ((w, h), Counting.Count(GitStats.Cells(ps), (w, h)));
    TooltipOfEntry(cells, i);
  }
}
