/** The two pure helpers of `better_project/public/js/navbar_timer.js`:
    `formatDuration`, which renders a duration as "{h}h {m}m", "{m}m {s}s" or
    "{s}s", and the data of the stacked weekly chart built in
    `refresh_time_charts`: one label per distinct date, ascending, and one
    series per project with one value per date.

    `formatDuration` receives seconds that may have a fractional part; here
    they arrive as whole milliseconds. Dates are days. */
module NavbarTimer {
  import opened Wrappers
  import opened Text
  import opened Query
  import opened Store
  import opened Clock

  // ---------------------------------------------------------------- formatDuration

  /** The text for a missing or negative duration ("0 minutes"). */
  const ZeroDuration: string := "0 \U{062F}\U{0642}\U{06CC}\U{0642}\U{0647}"

  datatype Parts = Parts(hours: nat, minutes: nat, seconds: nat)

  /** `Math.floor(seconds / 3600)`, `Math.floor((seconds % 3600) / 60)` and
      `Math.floor(seconds % 60)` for `ms` thousandths of a second. */
  function PartsOf(ms: nat): Parts
  {
    Parts(ms / 3600000, (ms % 3600000) / 60000, (ms % 60000) / 1000)
  }

  /** The parts are a mixed-radix decomposition of the whole seconds. */
  lemma {:induction false} PartsAddUp(ms: nat)
    ensures var p := PartsOf(ms);
      p.minutes < 60 && p.seconds < 60 && 3600 * p.hours + 60 * p.minutes + p.seconds == ms / 1000
  {
    MillisFields(ms);
  }

  /** `formatDuration`. */
  function FormatDuration(duration: Option<int>): string
  {
    if duration.None? || duration.value < 0 then ZeroDuration
    else
      var p := PartsOf(duration.value);
      if p.hours > 0 then NatToString(p.hours) + "h " + NatToString(p.minutes) + "m"
      else if p.minutes > 0 then NatToString(p.minutes) + "m " + NatToString(p.seconds) + "s"
      else NatToString(p.seconds) + "s"
  }

  /** The three shapes of the text, and the one for no duration. */
  datatype Shape = HoursMinutes(h: nat, m: nat) | MinutesSeconds(m: nat, s: nat) | SecondsOnly(s: nat) | NoDuration

  /** The shape `formatDuration` picks: hours and minutes from one hour on,
      seconds dropped; minutes and seconds under an hour; seconds alone under a
      minute. The numbers in the shape bracket the input. */
  function ShapeOf(duration: Option<int>): (r: Shape)
    ensures r.NoDuration? <==> duration.None? || duration.value < 0
    ensures r.HoursMinutes? ==>
      var secs := duration.value / 1000;
      r.h >= 1 && r.m < 60 && 3600 * r.h + 60 * r.m <= secs < 3600 * r.h + 60 * r.m + 60
    ensures r.MinutesSeconds? ==>
      1 <= r.m < 60 && r.s < 60 && 60 * r.m + r.s == duration.value / 1000
    ensures r.SecondsOnly? ==> r.s < 60 && r.s == duration.value / 1000
  {
    if duration.None? || duration.value < 0 then NoDuration
    else
      var p := PartsOf(duration.value);
      PartsAddUp(duration.value);
      if p.hours > 0 then HoursMinutes(p.hours, p.minutes)
      else if p.minutes > 0 then MinutesSeconds(p.minutes, p.seconds)
      else SecondsOnly(p.seconds)
  }

  /** Length of the run of digits that starts `s`. */
  function DigitRun(s: string): (n: nat)
    ensures n <= |s| && AllDigits(s[..n]) && (n < |s| ==> !IsDigit(s[n]))
  {
    if s != [] && IsDigit(s[0]) then
      var n := 1 + DigitRun(s[1..]);
      assert s[..n] == [s[0]] + s[1..][..n - 1];
      n
    else 0
  }

  /** Reads a decimal number off the front of `s`, with what follows it. */
  function ReadNumber(s: string): Option<(nat, string)>
  {
    var n := DigitRun(s);
    if n == 0 then None else Some((ParseNat(s[..n]), s[n..]))
  }

  /** Reads "{w}{unit}" to its end: the number `w`, or None. */
  function ReadLast(s: string, unit: char): Option<nat>
  {
    match ReadNumber(s)
    case Some((w, tail)) => if tail == [unit] then Some(w) else None
    case None => None
  }

  /** What follows the first number `v`: "s", "h {m}m" or "m {s}s". */
  function ReadUnits(v: nat, rest: string): Option<Shape>
  {
    if rest == "s" then Some(SecondsOnly(v))
    else if |rest| >= 2 && rest[..2] == "h " then
      match ReadLast(rest[2..], 'm')
      case Some(w) => Some(HoursMinutes(v, w))
      case None => None
    else if |rest| >= 2 && rest[..2] == "m " then
      match ReadLast(rest[2..], 's')
      case Some(w) => Some(MinutesSeconds(v, w))
      case None => None
    else None
  }

  /** Reads the text back into its shape; None for text of no shape. */
  function ReadDuration(text: string): Option<Shape>
  {
    if text == ZeroDuration then Some(NoDuration)
    else
      match ReadNumber(text)
      case None => None
      case Some((v, rest)) => ReadUnits(v, rest)
  }

  /** The digit run of a rendering followed by a non-digit is the rendering. */
  lemma {:induction false} DigitRunOfDigits(a: string, tail: string)
    requires AllDigits(a)
    requires tail == [] || !IsDigit(tail[0])
    ensures DigitRun(a + tail) == |a|
    decreases |a|
  {
    if a != [] {
      assert (a + tail)[1..] == a[1..] + tail;
      DigitRunOfDigits(a[1..], tail);
    }
  }

  lemma ReadNumberOfRendering(n: nat, tail: string)
    requires tail == [] || !IsDigit(tail[0])
    ensures ReadNumber(NatToString(n) + tail) == Some((n, tail))
  {
    var a := NatToString(n);
    DigitRunOfDigits(a, tail);
    assert (a + tail)[..|a|] == a;
    assert (a + tail)[|a|..] == tail;
    ParseNatToString(n);
  }

  /** A text ending in 'm' or 's' is not the text for no duration. */
  lemma NotZeroDuration(text: string)
    requires |text| >= 1 && (text[|text| - 1] == 'm' || text[|text| - 1] == 's')
    ensures text != ZeroDuration
  {
    assert ZeroDuration[|ZeroDuration| - 1] == '\U{0647}';
  }

  lemma ReadLastOfRendering(n: nat, unit: char)
    requires !IsDigit(unit)
    ensures ReadLast(NatToString(n) + [unit], unit) == Some(n)
  {
    ReadNumberOfRendering(n, [unit]);
  }

  lemma HoursUnits(h: nat, m: nat)
    ensures ReadUnits(h, "h " + NatToString(m) + "m") == Some(HoursMinutes(h, m))
  {
    var rest := "h " + NatToString(m) + "m";
    assert rest[..2] == "h " && rest[2..] == NatToString(m) + ['m'];
    ReadLastOfRendering(m, 'm');
  }

  lemma MinutesUnits(m: nat, sec: nat)
    ensures ReadUnits(m, "m " + NatToString(sec) + "s") == Some(MinutesSeconds(m, sec))
  {
    var rest := "m " + NatToString(sec) + "s";
    assert rest[..2] == "m " && rest[2..] == NatToString(sec) + ['s'];
    assert rest[0] == 'm';
    ReadLastOfRendering(sec, 's');
  }

  lemma HoursMinutesReadBack(h: nat, m: nat)
    ensures ReadDuration(NatToString(h) + "h " + NatToString(m) + "m") == Some(HoursMinutes(h, m))
  {
    var rest := "h " + NatToString(m) + "m";
    var text := NatToString(h) + rest;
    assert text == NatToString(h) + "h " + NatToString(m) + "m";
    NotZeroDuration(text);
    ReadNumberOfRendering(h, rest);
    HoursUnits(h, m);
  }

  lemma MinutesSecondsReadBack(m: nat, sec: nat)
    ensures ReadDuration(NatToString(m) + "m " + NatToString(sec) + "s") == Some(MinutesSeconds(m, sec))
  {
    var rest := "m " + NatToString(sec) + "s";
    var text := NatToString(m) + rest;
    assert text == NatToString(m) + "m " + NatToString(sec) + "s";
    NotZeroDuration(text);
    ReadNumberOfRendering(m, rest);
    MinutesUnits(m, sec);
  }

  lemma SecondsReadBack(sec: nat)
    ensures ReadDuration(NatToString(sec) + "s") == Some(SecondsOnly(sec))
  {
    NotZeroDuration(NatToString(sec) + "s");
    ReadNumberOfRendering(sec, "s");
  }

  /** Reading the text of any input gives back the shape it was built from, so
      the text determines the hours and minutes, or minutes and seconds, or
      seconds that `formatDuration` computed. */
  lemma FormatDurationReadsBack(duration: Option<int>)
    ensures ReadDuration(FormatDuration(duration)) == Some(ShapeOf(duration))
  {
    if duration.Some? && duration.value >= 0 {
      var p := PartsOf(duration.value);
      if p.hours > 0 {
        HoursMinutesReadBack(p.hours, p.minutes);
      } else if p.minutes > 0 {
        MinutesSecondsReadBack(p.minutes, p.seconds);
      } else {
        SecondsReadBack(p.seconds);
      }
    }
  }

  /** The text for no duration appears exactly for a missing or negative
      input. */
  lemma FormatDurationZero(duration: Option<int>)
    ensures FormatDuration(duration) == ZeroDuration <==> duration.None? || duration.value < 0
  {
    FormatDurationReadsBack(duration);
  }

  /** An input of 0 gives "0s". */
  lemma FormatDurationOfZero()
    ensures FormatDuration(Some(0)) == "0s"
  {
    assert NatToString(0) == "0";
  }

  // ---------------------------------------------------------------- chart data

  /** One record of `get_my_daily_project_time_data`. */
  datatype TimeRow = TimeRow(workDate: int, projectName: Option<string>, totalHours: int)

  /** The label of rows without a project name ("no project"). */
  const NoProject: string := "\U{0628}\U{062F}\U{0648}\U{0646} \U{067E}\U{0631}\U{0648}\U{0698}\U{0647}"

  /** `item.project_name`, or `NoProject` when it is not truthy. */
  function ProjectLabel(row: TimeRow): (project: string)
    ensures project != ""
    ensures Present(row.projectName) ==> project == row.projectName.value
    ensures !Present(row.projectName) ==> project == NoProject
  {
    if Present(row.projectName) then row.projectName.value else NoProject
  }

  predicate StrictlyAscending(s: seq<int>)
  {
    forall i, j :: 0 <= i < j < |s| ==> s[i] < s[j]
  }

  /** Adds `x` to a strictly ascending list, unless it is there already. */
  function AddDate(x: int, s: seq<int>): (r: seq<int>)
    requires StrictlyAscending(s)
    ensures StrictlyAscending(r)
    ensures forall y :: y in r <==> y == x || y in s
  {
    if s == [] then [x]
    else if x < s[0] then [x] + s
    else if x == s[0] then s
    else
      var t := AddDate(x, s[1..]);
      assert forall y :: y in s <==> y == s[0] || y in s[1..];
      forall k | 0 <= k < |t|
        ensures s[0] < t[k]
      {
        assert t[k] in t;
        if t[k] != x {
          var m :| 0 <= m < |s[1..]| && s[1..][m] == t[k];
          assert s[1 + m] == t[k];
        }
      }
      [s[0]] + t
  }

  /** `[...new Set(timeData.map(item => item.work_date))].sort()`: the distinct
      dates, ascending. (The dates are `YYYY-MM-DD` strings, whose string order
      is the order of the days.) */
  function Dates(rows: seq<TimeRow>): (r: seq<int>)
    ensures StrictlyAscending(r)
    ensures forall d :: d in r <==> exists k :: 0 <= k < |rows| && rows[k].workDate == d
  {
    if rows == [] then []
    else
      var r := AddDate(rows[|rows| - 1].workDate, Dates(rows[..|rows| - 1]));
      assert forall k :: 0 <= k < |rows| - 1 ==> rows[..|rows| - 1][k] == rows[k];
      r
  }

  /** The position of the first occurrence of `x` in `s`. */
  function FirstIndex<T(==)>(s: seq<T>, x: T): (k: nat)
    requires x in s
    ensures k < |s| && s[k] == x && forall j :: 0 <= j < k ==> s[j] != x
  {
    if s[0] == x then 0 else 1 + FirstIndex(s[1..], x)
  }

  lemma FirstIndexOfPrefix<T>(s: seq<T>, x: T)
    requires |s| > 0 && x in s[..|s| - 1]
    ensures FirstIndex(s, x) == FirstIndex(s[..|s| - 1], x)
  {
    var init := s[..|s| - 1];
    var k := FirstIndex(init, x);
    assert s[k] == x;
    assert forall j :: 0 <= j < k ==> s[j] == init[j];
  }

  /** `[...new Set(s)]`: the distinct elements, in order of first appearance. */
  function Distinct<T(==, !new)>(s: seq<T>): (r: seq<T>)
    ensures forall x :: x in r <==> x in s
    ensures forall i, j :: 0 <= i < j < |r| ==> r[i] != r[j]
    ensures forall i, j :: 0 <= i < j < |r| ==> FirstIndex(s, r[i]) < FirstIndex(s, r[j])
  {
    if s == [] then []
    else
      var init := s[..|s| - 1];
      var last := s[|s| - 1];
      var d := Distinct(init);
      assert forall x :: x in s <==> x in init || x == last;
      forall x | x in init
        ensures FirstIndex(s, x) == FirstIndex(init, x)
      {
        FirstIndexOfPrefix(s, x);
      }
      if last in d then d
      else
        var r := d + [last];
        assert FirstIndex(s, last) == |s| - 1;
        r
  }

  /** The first row of `project` dated `date` (`projectData.find(...)`). */
  function FirstMatch(rows: seq<TimeRow>, project: string, date: int): (r: Option<nat>)
    ensures r.Some? ==> r.value < |rows| && ProjectLabel(rows[r.value]) == project && rows[r.value].workDate == date
    ensures r.Some? ==> forall k :: 0 <= k < r.value ==> !(ProjectLabel(rows[k]) == project && rows[k].workDate == date)
    ensures r.None? ==> forall k :: 0 <= k < |rows| ==> !(ProjectLabel(rows[k]) == project && rows[k].workDate == date)
  {
    var p := (k: nat) => k < |rows| && ProjectLabel(rows[k]) == project && rows[k].workDate == date;
    assert forall k: nat :: k < |rows| ==> (p(k) <==> ProjectLabel(rows[k]) == project && rows[k].workDate == date);
    FirstWhere(|rows|, p)
  }

  /** One value of a series: the hours of the first matching row, or 0. */
  function ValueAt(rows: seq<TimeRow>, project: string, date: int): int
  {
    match FirstMatch(rows, project, date)
    case Some(k) => rows[k].totalHours
    case None => 0
  }

  datatype Dataset = Dataset(project: string, data: seq<int>)

  datatype ChartData = ChartData(labels: seq<int>, datasets: seq<Dataset>)

  /** The labels of the rows, in row order. */
  function Labels(rows: seq<TimeRow>): (r: seq<string>)
    ensures |r| == |rows| && forall k :: 0 <= k < |rows| ==> r[k] == ProjectLabel(rows[k])
  {
    seq(|rows|, k requires 0 <= k < |rows| => ProjectLabel(rows[k]))
  }

  function SeriesOf(rows: seq<TimeRow>, project: string, dates: seq<int>): (d: Dataset)
    ensures d.project == project && |d.data| == |dates|
    ensures forall j :: 0 <= j < |dates| ==> d.data[j] == ValueAt(rows, project, dates[j])
  {
    Dataset(project, seq(|dates|, j requires 0 <= j < |dates| => ValueAt(rows, project, dates[j])))
  }

  /** The chart data; None when there are no rows (the chart is cleared). */
  function Chart(rows: seq<TimeRow>): (r: Option<ChartData>)
    ensures r.None? <==> rows == []
    ensures r.Some? ==>
      var projects := Distinct(Labels(rows));
      && r.value.labels == Dates(rows)
      && |r.value.datasets| == |projects|
      && forall i :: 0 <= i < |projects| ==>
           r.value.datasets[i] == SeriesOf(rows, projects[i], r.value.labels)
  {
    if rows == [] then None
    else
      var dates := Dates(rows);
      var projects := Distinct(Labels(rows));
      Some(ChartData(dates, seq(|projects|, i requires 0 <= i < |projects| => SeriesOf(rows, projects[i], dates))))
  }

  /** Every series is the series of some row's project label. */
  lemma ChartSeriesFromRows(rows: seq<TimeRow>, i: nat)
    requires rows != [] && i < |Chart(rows).value.datasets|
    ensures exists k :: 0 <= k < |rows| && ProjectLabel(rows[k]) == Chart(rows).value.datasets[i].project
  {
    var labels := Labels(rows);
    var projects := Distinct(labels);
    assert Chart(rows).value.datasets[i].project == projects[i];
    assert projects[i] in labels;
    var k :| 0 <= k < |labels| && labels[k] == projects[i];
    assert ProjectLabel(rows[k]) == projects[i];
  }

  /** Every row's project label has a series. */
  lemma ChartSeriesCoverRows(rows: seq<TimeRow>, k: nat)
    requires k < |rows|
    ensures exists i :: 0 <= i < |Chart(rows).value.datasets| && Chart(rows).value.datasets[i].project == ProjectLabel(rows[k])
  {
    var labels := Labels(rows);
    var projects := Distinct(labels);
    assert labels[k] in labels;
    var i :| 0 <= i < |projects| && projects[i] == labels[k];
    assert Chart(rows).value.datasets[i].project == projects[i];
  }

  /** Each project label has one series, in order of first appearance, and
      every series has one value per date label. */
  lemma ChartSeriesOrder(rows: seq<TimeRow>)
    requires rows != []
    ensures var c := Chart(rows).value;
      && (forall i, j :: 0 <= i < j < |c.datasets| ==>
            c.datasets[i].project != c.datasets[j].project
            && FirstIndex(Labels(rows), c.datasets[i].project) < FirstIndex(Labels(rows), c.datasets[j].project))
      && (forall i :: 0 <= i < |c.datasets| ==> |c.datasets[i].data| == |c.labels|)
  {
    var c := Chart(rows).value;
    var projects := Distinct(Labels(rows));
    assert forall i :: 0 <= i < |c.datasets| ==> c.datasets[i].project == projects[i];
  }

  /** The series are exactly the project labels of the rows. */
  lemma ChartSeries(rows: seq<TimeRow>, c: ChartData)
    requires Chart(rows) == Some(c)
    ensures forall i :: 0 <= i < |c.datasets| ==>
      exists k :: 0 <= k < |rows| && ProjectLabel(rows[k]) == c.datasets[i].project
    ensures forall k :: 0 <= k < |rows| ==>
      exists i :: 0 <= i < |c.datasets| && c.datasets[i].project == ProjectLabel(rows[k])
  {
    forall i | 0 <= i < |c.datasets|
      ensures exists k :: 0 <= k < |rows| && ProjectLabel(rows[k]) == c.datasets[i].project
    {
      ChartSeriesFromRows(rows, i);
    }
    forall k | 0 <= k < |rows|
      ensures exists i :: 0 <= i < |c.datasets| && c.datasets[i].project == ProjectLabel(rows[k])
    {
      ChartSeriesCoverRows(rows, k);
    }
  }

  /** A value is the hours of the first row of that project on that date, and 0
      when the project has no row on that date. */
  lemma ChartValues(rows: seq<TimeRow>, i: nat, j: nat)
    requires rows != []
    requires i < |Chart(rows).value.datasets| && j < |Chart(rows).value.labels|
    ensures var c := Chart(rows).value;
      var project := c.datasets[i].project;
      var date := c.labels[j];
      && ((forall k :: 0 <= k < |rows| ==> !(ProjectLabel(rows[k]) == project && rows[k].workDate == date)) ==>
            c.datasets[i].data[j] == 0)
      && (forall k ::
            (0 <= k < |rows| && ProjectLabel(rows[k]) == project && rows[k].workDate == date
             && forall m :: 0 <= m < k ==> !(ProjectLabel(rows[m]) == project && rows[m].workDate == date)) ==>
            c.datasets[i].data[j] == rows[k].totalHours)
  {
    var c := Chart(rows).value;
    var project := c.datasets[i].project;
    var date := c.labels[j];
    assert c.datasets[i].data[j] == ValueAt(rows, project, date);
    match FirstMatch(rows, project, date)
    case None =>
    case Some(f) =>
      forall k | 0 <= k < |rows| && ProjectLabel(rows[k]) == project && rows[k].workDate == date
          && (forall m :: 0 <= m < k ==> !(ProjectLabel(rows[m]) == project && rows[m].workDate == date))
        ensures k == f
      {
        if k < f {
        } else if f < k {
        }
      }
  }
}
