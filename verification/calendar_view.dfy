/** The monthly calendar of one employee (`EmployeePage` in
    `attendance-dashboard/src/EmployeePage.jsx`): the month's summary hints,
    the working days whose daily sheets are fetched, and the loop that gives
    each day of the month a status and counts present, absent and half days. */
module CalendarView {
  import opened Wrappers
  import opened JsText
  import opened CalendarDate
  import opened TimeParse
  import opened PairScan
  import TodayView

  /** `totalHours < 4`, held in milliseconds. */
  const FOUR_HOURS_MS: int := 4 * MS_PER_HOUR

  /** What this file's `processRowData` returns: the total, the raw cells of the
      first parsed check-in and last parsed check-out, and `isCheckedIn`. */
  datatype DayFacts = DayFacts(totalMs: int, firstCheckIn: Option<string>, lastCheckOut: Option<string>, isCheckedIn: bool)

  /** The values a working day keeps when its employee row is not found. */
  const NO_FACTS: DayFacts := DayFacts(0, None, None, false)

  /** The raw `Check-in j` cell of the first pair whose check-in parses. */
  function FirstInRaw(host: Host, pairs: seq<Pair>, k: nat): Option<string>
  {
    var j := FirstInUpTo(host, pairs, k);
    if j.Some? then PairAt(pairs, j.value).checkIn else None
  }

  /** The raw `Check-out j` cell of the last pair whose check-out parses. */
  function LastOutRaw(host: Host, pairs: seq<Pair>, k: nat): Option<string>
  {
    var j := LastOutUpTo(host, pairs, k);
    if j.Some? then PairAt(pairs, j.value).checkOut else None
  }

  function FactsOf(host: Host, row: DailyRow): DayFacts
  {
    DayFacts(WorkUpTo(host, row.pairs, MAX_PAIRS), FirstInRaw(host, row.pairs, MAX_PAIRS),
             LastOutRaw(host, row.pairs, MAX_PAIRS), StatusUpTo(host, row.pairs, MAX_PAIRS) == CheckedIn)
  }

  /** JavaScript falsiness of an optional string: `null` or `''`. */
  predicate Falsy(v: Option<string>)
  {
    v.None? || v.value == ""
  }

  /** `processRowData` of `EmployeePage.jsx`. `isCheckedIn` holds exactly when the
      last pair with any event has a check-in and no check-out. */
  method ProcessRowData(host: Host, row: DailyRow) returns (f: DayFacts)
    ensures f == FactsOf(host, row)
    ensures f.totalMs >= 0
    ensures f.isCheckedIn <==> exists j ::
              && 1 <= j <= MAX_PAIRS && InAt(host, row.pairs, j).Some? && OutAt(host, row.pairs, j) == None
              && forall i :: j < i <= MAX_PAIRS ==> !HasEvent(host, row.pairs, i)
    ensures f.firstCheckIn == None <==> forall i :: 1 <= i <= MAX_PAIRS ==> InAt(host, row.pairs, i) == None
    ensures f.lastCheckOut == None <==> forall i :: 1 <= i <= MAX_PAIRS ==> OutAt(host, row.pairs, i) == None
    ensures ParseTime(host, f.firstCheckIn) == FirstInStamp(host, row.pairs, MAX_PAIRS)
    ensures ParseTime(host, f.lastCheckOut) == LastOutStamp(host, row.pairs, MAX_PAIRS)
  {
    var total := 0;
    var first: Option<string> := None;
    var last: Option<string> := None;
    var lastActionWasCheckIn := false;
    var i := 1;
    while i <= MAX_PAIRS
      invariant 1 <= i <= MAX_PAIRS + 1
      invariant total == WorkUpTo(host, row.pairs, i - 1)
      invariant first == FirstInRaw(host, row.pairs, i - 1)
      invariant first.Some? ==> first.value != ""
      invariant last == LastOutRaw(host, row.pairs, i - 1)
      invariant lastActionWasCheckIn == (StatusUpTo(host, row.pairs, i - 1) == CheckedIn)
    {
      var inCell := PairAt(row.pairs, i).checkIn;
      var outCell := PairAt(row.pairs, i).checkOut;
      var checkIn := ParseTime(host, inCell);
      var checkOut := ParseTime(host, outCell);
      if checkIn.Some? {
        if Falsy(first) {
          first := inCell;
        }
        lastActionWasCheckIn := true;
      }
      if checkOut.Some? {
        last := outCell;
        lastActionWasCheckIn := false;
      }
      if checkIn.Some? && checkIn.value.At? && checkOut.Some? && checkOut.value.At?
         && checkOut.value.ms > checkIn.value.ms {
        total := total + (checkOut.value.ms - checkIn.value.ms);
      }
      ScanStep(host, row.pairs, i);
      i := i + 1;
    }
    f := DayFacts(if total > 0 then total else 0, first, last, lastActionWasCheckIn);
    FactsMeaning(host, row);
  }

  /** One turn of the loop in `processRowData`: how pair `i` moves each value on. */
  lemma ScanStep(host: Host, pairs: seq<Pair>, i: nat)
    requires i >= 1
    ensures WorkUpTo(host, pairs, i) == WorkUpTo(host, pairs, i - 1) + PairWork(host, pairs, i)
    ensures FirstInRaw(host, pairs, i)
            == if FirstInRaw(host, pairs, i - 1).None? && InAt(host, pairs, i).Some? then PairAt(pairs, i).checkIn
               else FirstInRaw(host, pairs, i - 1)
    ensures LastOutRaw(host, pairs, i)
            == if OutAt(host, pairs, i).Some? then PairAt(pairs, i).checkOut else LastOutRaw(host, pairs, i - 1)
    ensures (StatusUpTo(host, pairs, i) == CheckedIn)
            == if OutAt(host, pairs, i).Some? then false
               else InAt(host, pairs, i).Some? || StatusUpTo(host, pairs, i - 1) == CheckedIn
  {
  }

  /** What the facts of a row say about its pairs. */
  lemma FactsMeaning(host: Host, row: DailyRow)
    ensures var f := FactsOf(host, row);
      && f.totalMs >= 0
      && (f.isCheckedIn <==> exists j ::
            && 1 <= j <= MAX_PAIRS && InAt(host, row.pairs, j).Some? && OutAt(host, row.pairs, j) == None
            && forall i :: j < i <= MAX_PAIRS ==> !HasEvent(host, row.pairs, i))
      && (f.firstCheckIn == None <==> forall i :: 1 <= i <= MAX_PAIRS ==> InAt(host, row.pairs, i) == None)
      && (f.lastCheckOut == None <==> forall i :: 1 <= i <= MAX_PAIRS ==> OutAt(host, row.pairs, i) == None)
      && ParseTime(host, f.firstCheckIn) == FirstInStamp(host, row.pairs, MAX_PAIRS)
      && ParseTime(host, f.lastCheckOut) == LastOutStamp(host, row.pairs, MAX_PAIRS)
  {
    FirstInIsFirst(host, row.pairs, MAX_PAIRS);
    LastOutIsLast(host, row.pairs, MAX_PAIRS);
    if StatusUpTo(host, row.pairs, MAX_PAIRS) == CheckedIn {
      LastEventWitness(host, row.pairs, MAX_PAIRS);
    }
    if j :| 1 <= j <= MAX_PAIRS && InAt(host, row.pairs, j).Some? && OutAt(host, row.pairs, j) == None
            && forall i :: j < i <= MAX_PAIRS ==> !HasEvent(host, row.pairs, i) {
      LastEventDecides(host, row.pairs, MAX_PAIRS, j);
    }
  }

  /** Both `processRowData` functions read the same row the same way: the same
      total, `isCheckedIn` exactly for a `'Checked In'` status, and first and
      last cells that parse to the times the daily view displays. */
  lemma ViewsAgree(host: Host, row: DailyRow, p: TodayView.ProcessedRow)
    requires TodayView.ProcessedFrom(host, row, p)
    ensures FactsOf(host, row).totalMs == p.totalMs
    ensures FactsOf(host, row).isCheckedIn <==> p.status == CheckedIn
    ensures p.firstCheckIn == DisplayTime(host, ParseTime(host, FactsOf(host, row).firstCheckIn))
    ensures p.lastCheckOut == DisplayTime(host, ParseTime(host, FactsOf(host, row).lastCheckOut))
    ensures FactsOf(host, row).firstCheckIn == None <==> p.firstCheckIn == "—"
    ensures FactsOf(host, row).lastCheckOut == None <==> p.lastCheckOut == "—"
  {
    FirstInIsFirst(host, row.pairs, MAX_PAIRS);
    LastOutIsLast(host, row.pairs, MAX_PAIRS);
  }

  // ---------------------------------------------------------------- the month

  datatype DayStatus = Future | Holiday | CheckedInDay | HalfDay | PresentDay | Absent | NoRecord

  /** One calendar cell (`dayInfo`). */
  datatype DayInfo = DayInfo(
    dayOfMonth: nat,
    dateString: string,
    status: DayStatus,
    totalMs: int,
    firstCheckIn: Option<string>,
    lastCheckOut: Option<string>,
    isCheckedIn: bool,
    isToday: bool)

  datatype Stats = Stats(present: nat, absent: nat, halfDay: nat)

  predicate IsCurrentViewingMonth(today: Date, y: int, m: int)
  {
    today.year == y && today.month == m
  }

  /** `lastDayToProcess`: today's day of the month while viewing the current
      month, the whole month otherwise. */
  function LastDayToProcess(today: Date, y: int, m: int): (n: int)
    requires Valid(today) && 1 <= m <= 12
    ensures 1 <= n <= DaysInMonth(y, m)
    ensures IsCurrentViewingMonth(today, y, m) ==> n == today.day
    ensures !IsCurrentViewingMonth(today, y, m) ==> n == DaysInMonth(y, m)
  {
    if IsCurrentViewingMonth(today, y, m) then today.day else DaysInMonth(y, m)
  }

  /** The employee's row of the `Summary` sheet: `UID`, `Name` and its other cells. */
  datatype Employee = Employee(uid: string, name: string, cells: map<string, string>)

  /** `monthPrefix`: `YYYY-MM-` of the viewed month. */
  function MonthPrefix(y: int, m: int): string
    requires 1 <= m <= 12
  {
    GetYearMonth(y, m) + "-"
  }

  /** The `for…in` loop that fills `summaryStatus` with the cells whose key starts
      with the month prefix. */
  method CollectHints(cells: map<string, string>, prefix: string) returns (hints: map<string, string>)
    ensures forall k :: k in hints <==> k in cells && StartsWith(k, prefix)
    ensures forall k :: k in hints ==> hints[k] == cells[k]
  {
    hints := map[];
    var todo := cells.Keys;
    while todo != {}
      invariant todo <= cells.Keys
      invariant forall k :: k in hints <==> k in cells && k !in todo && StartsWith(k, prefix)
      invariant forall k :: k in hints ==> hints[k] == cells[k]
      decreases |todo|
    {
      var k :| k in todo;
      if StartsWith(k, prefix) {
        hints := hints[k := cells[k]];
      }
      todo := todo - {k};
    }
  }

  /** `summaryStatus[dateString]`. */
  function HintOf(hints: map<string, string>, key: string): Option<string>
  {
    if key in hints then Some(hints[key]) else None
  }

  /** Every day of the month carries the month prefix, so the collected hints
      answer for it exactly as the employee's own cells would. */
  lemma HintsAgree(cells: map<string, string>, hints: map<string, string>, y: int, m: int, d: int)
    requires Valid(Date(y, m, d))
    requires forall k :: k in hints <==> k in cells && StartsWith(k, MonthPrefix(y, m))
    requires forall k :: k in hints ==> hints[k] == cells[k]
    ensures HintOf(hints, FormatDate(Date(y, m, d))) == HintOf(cells, FormatDate(Date(y, m, d)))
  {
    FormatDateInMonth(Date(y, m, d));
  }

  /** `workingDayStrings` after days 1..n: the non-holidays, formatted. */
  function WorkingDays(y: int, m: int, n: nat): seq<string>
    requires 1 <= m <= 12 && n <= DaysInMonth(y, m)
  {
    if n == 0 then []
    else WorkingDays(y, m, n - 1) + (if IsHoliday(Date(y, m, n)) then [] else [FormatDate(Date(y, m, n))])
  }

  /** The working days are exactly the non-holidays among days 1..n. */
  lemma {:induction false} WorkingDaysMember(y: int, m: int, n: nat, d: int)
    requires 1 <= m <= 12 && n <= DaysInMonth(y, m)
    requires 1 <= d <= n && !IsHoliday(Date(y, m, d))
    ensures FormatDate(Date(y, m, d)) in WorkingDays(y, m, n)
  {
    if d < n {
      WorkingDaysMember(y, m, n - 1, d);
    }
  }

  lemma {:induction false} WorkingDaysOnly(y: int, m: int, n: nat, s: string)
    requires 1 <= m <= 12 && n <= DaysInMonth(y, m)
    requires s in WorkingDays(y, m, n)
    ensures exists d :: 1 <= d <= n && !IsHoliday(Date(y, m, d)) && s == FormatDate(Date(y, m, d))
  {
    if s !in WorkingDays(y, m, n - 1) {
      assert s == FormatDate(Date(y, m, n));
    } else {
      WorkingDaysOnly(y, m, n - 1, s);
    }
  }

  /** The loop that collects `workingDayStrings` (the dates whose daily sheets are fetched). */
  method WorkingDayStrings(y: int, m: int, last: nat) returns (ws: seq<string>)
    requires 1 <= m <= 12 && last <= DaysInMonth(y, m)
    ensures ws == WorkingDays(y, m, last)
    ensures |ws| <= last
  {
    ws := [];
    var d := 1;
    while d <= last
      invariant 1 <= d <= last + 1
      invariant ws == WorkingDays(y, m, d - 1) && |ws| <= d - 1
    {
      var date := Date(y, m, d);
      if !IsHoliday(date) {
        ws := ws + [FormatDate(date)];
      }
      d := d + 1;
    }
  }

  /** The settled result of one day's fetch: a network failure, or a JSON body
      with its `sheetName`, the truthiness of its `error` and its `data`. */
  datatype FetchOutcome =
    | Failed
    | Received(sheetName: Option<string>, error: bool, data: Option<seq<DailyRow>>)

  /** The rows a day's fetch contributes: none when it failed, when it reports an
      error, when it names a different sheet, or when it has no `data`. */
  function NormalizeFetch(dateString: string, outcome: FetchOutcome): (rows: seq<DailyRow>)
    ensures rows != [] ==>
      && outcome.Received? && !outcome.error && outcome.data == Some(rows)
      && (Falsy(outcome.sheetName) || outcome.sheetName == Some(dateString))
    ensures (outcome.Received? && !outcome.error && outcome.data.Some?
             && (Falsy(outcome.sheetName) || outcome.sheetName == Some(dateString)))
            ==> rows == outcome.data.value
  {
    match outcome
    case Failed => []
    case Received(sheetName, error, data) =>
      if !Falsy(sheetName) && sheetName.value != dateString then []
      else if error then []
      else if data.Some? then data.value
      else []
  }

  /** `Promise.all` over the working days, in order; `fetchDay` stands for the network. */
  function FetchAll(ws: seq<string>, fetchDay: string -> FetchOutcome): (results: seq<seq<DailyRow>>)
    ensures |results| == |ws|
    ensures forall i :: 0 <= i < |ws| ==> results[i] == NormalizeFetch(ws[i], fetchDay(ws[i]))
  {
    seq(|ws|, i requires 0 <= i < |ws| => NormalizeFetch(ws[i], fetchDay(ws[i])))
  }

  /** `ws.indexOf(s)`, `None` for -1. */
  function IndexOf(ws: seq<string>, s: string): (r: Option<nat>)
    ensures r.None? <==> s !in ws
    ensures r.Some? ==> r.value < |ws| && ws[r.value] == s && forall j :: 0 <= j < r.value ==> ws[j] != s
  {
    if ws == [] then None
    else if ws[0] == s then Some(0)
    else
      var rest := IndexOf(ws[1..], s);
      if rest.Some? then Some(rest.value + 1) else None
  }

  /** `rows.find(emp => emp.UID === uid)`. */
  function FindRow(rows: seq<DailyRow>, uid: string): (r: Option<DailyRow>)
    ensures r.None? <==> forall x :: x in rows ==> x.uid != uid
    ensures r.Some? ==> r.value in rows && r.value.uid == uid
    ensures r.Some? ==> exists i :: 0 <= i < |rows| && rows[i] == r.value && forall j :: 0 <= j < i ==> rows[j].uid != uid
  {
    if rows == [] then None
    else if rows[0].uid == uid then Some(rows[0])
    else FindRow(rows[1..], uid)
  }

  /** The daily rows the month loop finds for a date. */
  function RowsFor(ws: seq<string>, results: seq<seq<DailyRow>>, dateString: string): seq<DailyRow>
    requires |results| == |ws|
  {
    var idx := IndexOf(ws, dateString);
    if idx.Some? then results[idx.value] else []
  }

  /** The facts of a working day: those of the employee's row, if the day's rows have one. */
  function EmployeeFacts(host: Host, uid: string, rows: seq<DailyRow>): DayFacts
  {
    if |rows| > 0 && FindRow(rows, uid).Some? then FactsOf(host, FindRow(rows, uid).value) else NO_FACTS
  }

  /** A master-sheet hint that marks a day without hours `'Absent'`: both `"A"` and `"P"` do. */
  predicate MarksAbsent(hint: Option<string>)
  {
    hint == Some("A") || hint == Some("P")
  }

  /** The status of a working day, first match wins. */
  function WorkingDayStatus(f: DayFacts, hint: Option<string>): (s: DayStatus)
    ensures s != Future && s != Holiday
    ensures s == CheckedInDay <==> f.isCheckedIn
    ensures s == HalfDay <==> !f.isCheckedIn && 0 < f.totalMs < FOUR_HOURS_MS
    ensures s == PresentDay <==> !f.isCheckedIn && f.totalMs >= FOUR_HOURS_MS
    ensures s == Absent <==> !f.isCheckedIn && f.totalMs <= 0 && MarksAbsent(hint)
    ensures s == NoRecord <==> !f.isCheckedIn && f.totalMs <= 0 && !MarksAbsent(hint)
  {
    if f.isCheckedIn then CheckedInDay
    else if f.totalMs > 0 then (if f.totalMs < FOUR_HOURS_MS then HalfDay else PresentDay)
    else if MarksAbsent(hint) then Absent
    else NoRecord
  }

  /** One cell of the month, given the hints and the rows found for its date. */
  function DayInfoOf(host: Host, uid: string, y: int, m: int, today: Date, hints: map<string, string>,
                     rows: seq<DailyRow>, d: int): DayInfo
    requires Valid(today) && Valid(Date(y, m, d))
  {
    var date := Date(y, m, d);
    var ds := FormatDate(date);
    var isToday := IsCurrentViewingMonth(today, y, m) && d == today.day;
    if d > LastDayToProcess(today, y, m) then DayInfo(d, ds, Future, 0, None, None, false, isToday)
    else if IsHoliday(date) then DayInfo(d, ds, Holiday, 0, None, None, false, isToday)
    else
      var f := EmployeeFacts(host, uid, rows);
      DayInfo(d, ds, WorkingDayStatus(f, HintOf(hints, ds)), f.totalMs, f.firstCheckIn, f.lastCheckOut,
              f.isCheckedIn, isToday)
  }

  /** Day `d` as the month loop builds it from `workingDayStrings` and `dailyResults`. */
  function DayAt(host: Host, uid: string, y: int, m: int, today: Date, hints: map<string, string>,
                 ws: seq<string>, results: seq<seq<DailyRow>>, d: int): DayInfo
    requires Valid(today) && Valid(Date(y, m, d)) && |results| == |ws|
  {
    DayInfoOf(host, uid, y, m, today, hints, RowsFor(ws, results, FormatDate(Date(y, m, d))), d)
  }

  /** How many cells have a status. */
  function CountStatus(days: seq<DayInfo>, st: DayStatus): nat
  {
    if days == [] then 0
    else CountStatus(days[..|days| - 1], st) + (if days[|days| - 1].status == st then 1 else 0)
  }

  lemma CountStatusAppend(days: seq<DayInfo>, info: DayInfo, st: DayStatus)
    ensures CountStatus(days + [info], st) == CountStatus(days, st) + (if info.status == st then 1 else 0)
  {
    assert (days + [info])[..|days|] == days;
  }

  /** One pass of the month loop: the cell for day `d`, and what it adds to the
      `present`, `absent` and `halfDay` counters. */
  method CalendarDay(host: Host, uid: string, y: int, m: int, today: Date, hints: map<string, string>,
                     ws: seq<string>, results: seq<seq<DailyRow>>, d: int)
    returns (info: DayInfo, addPresent: nat, addAbsent: nat, addHalfDay: nat)
    requires Valid(today) && Valid(Date(y, m, d)) && |results| == |ws|
    ensures info == DayAt(host, uid, y, m, today, hints, ws, results, d)
    ensures addPresent == (if info.status == CheckedInDay || info.status == PresentDay then 1 else 0)
    ensures addAbsent == (if info.status == Absent then 1 else 0)
    ensures addHalfDay == (if info.status == HalfDay then 1 else 0)
  {
    addPresent, addAbsent, addHalfDay := 0, 0, 0;
    var date := Date(y, m, d);
    var ds := FormatDate(date);
    info := DayInfo(d, ds, Future, 0, None, None, false, IsCurrentViewingMonth(today, y, m) && d == today.day);
    if d > LastDayToProcess(today, y, m) {
      info := info.(status := Future);
    } else if IsHoliday(date) {
      info := info.(status := Holiday);
    } else {
      var facts := NO_FACTS;
      var idx := IndexOf(ws, ds);
      if idx.Some? {
        var rows := results[idx.value];
        if |rows| > 0 {
          var row := FindRow(rows, uid);
          if row.Some? {
            facts := ProcessRowData(host, row.value);
          }
        }
      }
      info := info.(totalMs := facts.totalMs, firstCheckIn := facts.firstCheckIn,
                    lastCheckOut := facts.lastCheckOut, isCheckedIn := facts.isCheckedIn);
      if facts.isCheckedIn {
        info := info.(status := CheckedInDay);
        addPresent := 1;
      } else if facts.totalMs > 0 {
        if facts.totalMs < FOUR_HOURS_MS {
          info := info.(status := HalfDay);
          addHalfDay := 1;
        } else {
          info := info.(status := PresentDay);
          addPresent := 1;
        }
      } else {
        var masterStatus := HintOf(hints, ds);
        if masterStatus == Some("A") {
          info := info.(status := Absent);
          addAbsent := 1;
        } else if masterStatus == Some("P") {
          info := info.(status := Absent);
          addAbsent := 1;
        } else {
          info := info.(status := NoRecord);
        }
      }
    }
  }

  /** Pushing the cell of the next day keeps every cell the one its day calls for. */
  lemma AppendDay(host: Host, uid: string, y: int, m: int, today: Date, hints: map<string, string>,
                  ws: seq<string>, results: seq<seq<DailyRow>>, days: seq<DayInfo>, info: DayInfo)
    requires Valid(today) && 1 <= m <= 12 && |results| == |ws| && |days| < DaysInMonth(y, m)
    requires forall i :: 0 <= i < |days| ==> days[i] == DayAt(host, uid, y, m, today, hints, ws, results, i + 1)
    requires info == DayAt(host, uid, y, m, today, hints, ws, results, |days| + 1)
    ensures forall i :: 0 <= i < |days| + 1 ==>
      (days + [info])[i] == DayAt(host, uid, y, m, today, hints, ws, results, i + 1)
  {
  }

  /** The month loop (`for d = 1 … daysInSelectedMonth`), with its three counters. */
  method BuildCalendar(host: Host, uid: string, y: int, m: int, today: Date, hints: map<string, string>,
                       ws: seq<string>, results: seq<seq<DailyRow>>)
    returns (days: seq<DayInfo>, stats: Stats)
    requires Valid(today) && 1 <= m <= 12 && |results| == |ws|
    ensures |days| == DaysInMonth(y, m)
    ensures forall i :: 0 <= i < |days| ==> days[i] == DayAt(host, uid, y, m, today, hints, ws, results, i + 1)
    ensures stats.present == CountStatus(days, CheckedInDay) + CountStatus(days, PresentDay)
    ensures stats.absent == CountStatus(days, Absent)
    ensures stats.halfDay == CountStatus(days, HalfDay)
  {
    var n := DaysInMonth(y, m);
    days := [];
    var presentCount, absentCount, halfDayCount := 0, 0, 0;
    var d := 1;
    while d <= n
      invariant 1 <= d <= n + 1 && |days| == d - 1
      invariant forall i :: 0 <= i < d - 1 ==> days[i] == DayAt(host, uid, y, m, today, hints, ws, results, i + 1)
      invariant presentCount == CountStatus(days, CheckedInDay) + CountStatus(days, PresentDay)
      invariant absentCount == CountStatus(days, Absent)
      invariant halfDayCount == CountStatus(days, HalfDay)
    {
      var info, p, a, h := CalendarDay(host, uid, y, m, today, hints, ws, results, d);
      CountStatusAppend(days, info, CheckedInDay);
      CountStatusAppend(days, info, PresentDay);
      CountStatusAppend(days, info, Absent);
      CountStatusAppend(days, info, HalfDay);
      AppendDay(host, uid, y, m, today, hints, ws, results, days, info);
      days := days + [info];
      presentCount, absentCount, halfDayCount := presentCount + p, absentCount + a, halfDayCount + h;
      d := d + 1;
    }
    stats := Stats(presentCount, absentCount, halfDayCount);
  }

  // ---------------------------------------------------------------- properties

  /** The day status cascade, each status in terms of the day's facts. */
  lemma DayStatusConditions(host: Host, uid: string, y: int, m: int, today: Date, hints: map<string, string>,
                            rows: seq<DailyRow>, d: int)
    requires Valid(today) && Valid(Date(y, m, d))
    ensures var info := DayInfoOf(host, uid, y, m, today, hints, rows, d);
      var processed := d <= LastDayToProcess(today, y, m) && !IsHoliday(Date(y, m, d));
      var f := EmployeeFacts(host, uid, rows);
      var hint := HintOf(hints, FormatDate(Date(y, m, d)));
      && info.dayOfMonth == d && info.dateString == FormatDate(Date(y, m, d))
      && (info.status == Future <==> d > LastDayToProcess(today, y, m))
      && (info.status == Holiday <==> d <= LastDayToProcess(today, y, m) && IsHoliday(Date(y, m, d)))
      && (info.status == CheckedInDay <==> processed && f.isCheckedIn)
      && (info.status == HalfDay <==> processed && !f.isCheckedIn && 0 < f.totalMs < FOUR_HOURS_MS)
      && (info.status == PresentDay <==> processed && !f.isCheckedIn && f.totalMs >= FOUR_HOURS_MS)
      && (info.status == Absent <==>
            (processed && !f.isCheckedIn && f.totalMs <= 0 && MarksAbsent(hint)))
      && (info.status == NoRecord <==>
            (processed && !f.isCheckedIn && f.totalMs <= 0 && !MarksAbsent(hint)))
  {
  }

  /** `'Future'` cells only appear while viewing the current month, after today. */
  lemma FutureOnlyInCurrentMonth(host: Host, uid: string, y: int, m: int, today: Date, hints: map<string, string>,
                                 rows: seq<DailyRow>, d: int)
    requires Valid(today) && Valid(Date(y, m, d))
    requires DayInfoOf(host, uid, y, m, today, hints, rows, d).status == Future
    ensures IsCurrentViewingMonth(today, y, m) && d > today.day
  {
  }

  /** `isToday` marks exactly today's date. */
  lemma IsTodayExactly(host: Host, uid: string, y: int, m: int, today: Date, hints: map<string, string>,
                       rows: seq<DailyRow>, d: int)
    requires Valid(today) && Valid(Date(y, m, d))
    ensures DayInfoOf(host, uid, y, m, today, hints, rows, d).isToday <==> Date(y, m, d) == today
  {
  }

  /** A working day without the employee's row has no hours and is not checked
      in, so it is `'Absent'` or `'NoRecord'` by the hint alone. */
  lemma MissingRowIsAbsentOrNoRecord(host: Host, uid: string, y: int, m: int, today: Date,
                                     hints: map<string, string>, rows: seq<DailyRow>, d: int)
    requires Valid(today) && Valid(Date(y, m, d))
    requires d <= LastDayToProcess(today, y, m) && !IsHoliday(Date(y, m, d))
    requires forall r :: r in rows ==> r.uid != uid
    ensures var info := DayInfoOf(host, uid, y, m, today, hints, rows, d);
      var hint := HintOf(hints, FormatDate(Date(y, m, d)));
      && info.totalMs == 0 && !info.isCheckedIn
      && info.status == (if MarksAbsent(hint) then Absent else NoRecord)
  {
  }

  /** A day's row is found, and its facts are read through both `processRowData` contracts. */
  lemma FoundRowFacts(host: Host, uid: string, rows: seq<DailyRow>)
    requires exists r :: r in rows && r.uid == uid
    ensures EmployeeFacts(host, uid, rows) == FactsOf(host, FindRow(rows, uid).value)
    ensures EmployeeFacts(host, uid, rows).totalMs >= 0
  {
    var r := FindRow(rows, uid).value;
    WorkNonNegative(host, r.pairs, MAX_PAIRS);
  }

  /** A day the month loop processes finds its own fetch: its date is among the
      working days, and the rows at that index are its normalised fetch. */
  lemma FetchedRowsFor(y: int, m: int, today: Date, fetchDay: string -> FetchOutcome, d: int)
    requires Valid(today) && Valid(Date(y, m, d))
    requires d <= LastDayToProcess(today, y, m) && !IsHoliday(Date(y, m, d))
    ensures var ws := WorkingDays(y, m, LastDayToProcess(today, y, m));
      var ds := FormatDate(Date(y, m, d));
      RowsFor(ws, FetchAll(ws, fetchDay), ds) == NormalizeFetch(ds, fetchDay(ds))
  {
    WorkingDaysMember(y, m, LastDayToProcess(today, y, m), d);
  }

  /** The seven statuses partition the month. */
  lemma {:induction false} CountsPartition(days: seq<DayInfo>)
    ensures CountStatus(days, Future) + CountStatus(days, Holiday) + CountStatus(days, CheckedInDay)
      + CountStatus(days, HalfDay) + CountStatus(days, PresentDay) + CountStatus(days, Absent)
      + CountStatus(days, NoRecord) == |days|
  {
    if days != [] {
      CountsPartition(days[..|days| - 1]);
    }
  }

  /** Future, holiday and no-record days add to no counter: the three counters
      together count every other day of the month. */
  lemma CountersConserve(days: seq<DayInfo>, stats: Stats)
    requires stats.present == CountStatus(days, CheckedInDay) + CountStatus(days, PresentDay)
    requires stats.absent == CountStatus(days, Absent)
    requires stats.halfDay == CountStatus(days, HalfDay)
    ensures stats.present + stats.absent + stats.halfDay
      == |days| - CountStatus(days, Future) - CountStatus(days, Holiday) - CountStatus(days, NoRecord)
  {
    CountsPartition(days);
  }

  // ---------------------------------------------------------------- the page

  datatype Report = EmployeeNotFound | Report(name: string, days: seq<DayInfo>, stats: Stats)

  /** `summaryData.data.find(emp => emp.UID === uid)`. */
  function FindEmployee(roster: seq<Employee>, uid: string): (r: Option<Employee>)
    ensures r.None? <==> forall e :: e in roster ==> e.uid != uid
    ensures r.Some? ==> r.value in roster && r.value.uid == uid
    ensures r.Some? ==> exists i :: 0 <= i < |roster| && roster[i] == r.value && forall j :: 0 <= j < i ==> roster[j].uid != uid
  {
    if roster == [] then None
    else if roster[0].uid == uid then Some(roster[0])
    else FindEmployee(roster[1..], uid)
  }

  /** `fetchEmployeeData` once the summary is in: find the employee, then build
      the month. */
  method MonthReport(host: Host, uid: string, y: int, m: int, today: Date, roster: seq<Employee>,
                     fetchDay: string -> FetchOutcome) returns (r: Report)
    requires Valid(today) && 1 <= m <= 12
    ensures r.EmployeeNotFound? <==> forall e :: e in roster ==> e.uid != uid
    ensures r.Report? ==>
      var e := FindEmployee(roster, uid).value;
      && r.name == e.name
      && MonthOf(host, uid, y, m, today, e.cells, fetchDay, r.days, r.stats)
  {
    var employee := FindEmployee(roster, uid);
    if employee.None? {
      return EmployeeNotFound;
    }
    var e := employee.value;
    var days, stats := EmployeeMonth(host, uid, y, m, today, e.cells, fetchDay);
    r := Report(e.name, days, stats);
  }

  /** What the page shows for an employee's month: one cell per day, each the one
      its own date's fetch and the employee's own summary cell determine, and
      each counter the number of cells with its statuses. */
  ghost predicate MonthOf(host: Host, uid: string, y: int, m: int, today: Date, cells: map<string, string>,
                          fetchDay: string -> FetchOutcome, days: seq<DayInfo>, stats: Stats)
    requires Valid(today) && 1 <= m <= 12
  {
    && |days| == DaysInMonth(y, m)
    && (forall i :: 0 <= i < |days| ==> FetchedCell(host, uid, y, m, today, cells, fetchDay, days[i], i + 1))
    && stats.present == CountStatus(days, CheckedInDay) + CountStatus(days, PresentDay)
    && stats.absent == CountStatus(days, Absent)
    && stats.halfDay == CountStatus(days, HalfDay)
    && stats.present + stats.absent + stats.halfDay
       == |days| - CountStatus(days, Future) - CountStatus(days, Holiday) - CountStatus(days, NoRecord)
  }

  /** Day `d`'s cell is the one its own date's fetch and the employee's summary
      cells determine. */
  ghost predicate FetchedCell(host: Host, uid: string, y: int, m: int, today: Date, cells: map<string, string>,
                              fetchDay: string -> FetchOutcome, day: DayInfo, d: int)
    requires Valid(today) && Valid(Date(y, m, d))
  {
    var ds := FormatDate(Date(y, m, d));
    day == DayInfoOf(host, uid, y, m, today, cells, NormalizeFetch(ds, fetchDay(ds)), d)
  }

  /** The hints, the working days, their fetches and the month loop. */
  method EmployeeMonth(host: Host, uid: string, y: int, m: int, today: Date, cells: map<string, string>,
                       fetchDay: string -> FetchOutcome) returns (days: seq<DayInfo>, stats: Stats)
    requires Valid(today) && 1 <= m <= 12
    ensures MonthOf(host, uid, y, m, today, cells, fetchDay, days, stats)
  {
    var hints := CollectHints(cells, MonthPrefix(y, m));
    var last := LastDayToProcess(today, y, m);
    var ws := WorkingDayStrings(y, m, last);
    var results := FetchAll(ws, fetchDay);
    days, stats := BuildCalendar(host, uid, y, m, today, hints, ws, results);
    MonthCells(host, uid, y, m, today, cells, hints, fetchDay, ws, results, days);
    CountersConserve(days, stats);
  }

  lemma MonthCells(host: Host, uid: string, y: int, m: int, today: Date, cells: map<string, string>,
                   hints: map<string, string>, fetchDay: string -> FetchOutcome,
                   ws: seq<string>, results: seq<seq<DailyRow>>, days: seq<DayInfo>)
    requires Valid(today) && 1 <= m <= 12 && |days| == DaysInMonth(y, m)
    requires forall k :: k in hints <==> k in cells && StartsWith(k, MonthPrefix(y, m))
    requires forall k :: k in hints ==> hints[k] == cells[k]
    requires ws == WorkingDays(y, m, LastDayToProcess(today, y, m)) && results == FetchAll(ws, fetchDay)
    requires forall i :: 0 <= i < |days| ==> days[i] == DayAt(host, uid, y, m, today, hints, ws, results, i + 1)
    ensures forall i :: 0 <= i < |days| ==> FetchedCell(host, uid, y, m, today, cells, fetchDay, days[i], i + 1)
  {
    forall i | 0 <= i < |days|
      ensures FetchedCell(host, uid, y, m, today, cells, fetchDay, days[i], i + 1)
    {
      MonthCell(host, uid, y, m, today, cells, hints, fetchDay, ws, results, days[i], i + 1);
    }
  }

  /** The cell the month loop builds for day `d` from the collected hints and the
      fetched results is the one the day's own fetch and summary cell determine. */
  lemma MonthCell(host: Host, uid: string, y: int, m: int, today: Date, cells: map<string, string>,
                  hints: map<string, string>, fetchDay: string -> FetchOutcome,
                  ws: seq<string>, results: seq<seq<DailyRow>>, day: DayInfo, d: int)
    requires Valid(today) && Valid(Date(y, m, d))
    requires forall k :: k in hints <==> k in cells && StartsWith(k, MonthPrefix(y, m))
    requires forall k :: k in hints ==> hints[k] == cells[k]
    requires ws == WorkingDays(y, m, LastDayToProcess(today, y, m)) && results == FetchAll(ws, fetchDay)
    requires day == DayAt(host, uid, y, m, today, hints, ws, results, d)
    ensures FetchedCell(host, uid, y, m, today, cells, fetchDay, day, d)
  {
    HintsAgree(cells, hints, y, m, d);
    if d <= LastDayToProcess(today, y, m) && !IsHoliday(Date(y, m, d)) {
      FetchedRowsFor(y, m, today, fetchDay, d);
    }
  }
}
