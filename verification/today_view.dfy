/** The daily dashboard (`TodayDashboard` in `src/App.jsx`): each daily row is
    scanned and given a severity tier, then the processed rows are counted
    against the roster for the KPI cards, filtered for the table, and the
    table's column headers are built. */
module TodayView {
  import opened Wrappers
  import opened JsText
  import opened TimeParse
  import opened PairScan

  /** `totalHours >= 7`, held in milliseconds. */
  const SEVEN_HOURS_MS: int := 7 * MS_PER_HOUR

  /** `rowPriorityStatus`, one value per branch of the cascade. */
  datatype Tier =
    | LateSevere      // 'Late (After 11:00)'
    | LateWarning     // 'Late (After 10:30)'
    | OnSite          // 'Checked In'
    | Completed       // 'Completed'
    | EarlyOut        // 'Early Out (Before 17:30)'
    | UnderTime       // 'Under 7 Hours'
    | NoWorkRecorded  // 'No Work Recorded'
    | NoData          // 'No Data'

  function Label(t: Tier): string
  {
    match t
    case LateSevere => "Late (After 11:00)"
    case LateWarning => "Late (After 10:30)"
    case OnSite => "Checked In"
    case Completed => "Completed"
    case EarlyOut => "Early Out (Before 17:30)"
    case UnderTime => "Under 7 Hours"
    case NoWorkRecorded => "No Work Recorded"
    case NoData => "No Data"
  }

  /** The CSS class each tier gives its table row. */
  function RowClass(t: Tier): string
  {
    match t
    case LateSevere => "row-late-danger"
    case LateWarning => "row-late-warning"
    case OnSite => "row-checked-in"
    case Completed => "row-good"
    case EarlyOut => "row-early-out"
    case UnderTime => "row-under-time"
    case NoWorkRecorded => "row-late-warning"
    case NoData => "row-late-warning"
  }

  /** `firstCheckIn && firstCheckIn.getTime() > parseTime("HH:MM:00").getTime()`:
      an Invalid Date is present but never later than anything. */
  predicate LateAfter(host: Host, first: Option<Stamp>, h: nat, m: nat)
  {
    first.Some? && first.value.At? && first.value.ms > Threshold(host, h, m)
  }

  /** `lastCheckOut && lastCheckOut.getTime() < parseTime("17:30:00").getTime()`. */
  predicate LeftEarly(host: Host, last: Option<Stamp>)
  {
    last.Some? && last.value.At? && last.value.ms < Threshold(host, 17, 30)
  }

  /** The tier cascade of `processRowData`, first match wins. Each tier holds
      exactly under its own conditions on the row's facts: which status it needs
      and which conditions must hold or fail. */
  function TierOf(host: Host, status: ScanStatus, first: Option<Stamp>, last: Option<Stamp>, totalMs: int): (t: Tier)
    ensures var done := status == CheckedOut && totalMs >= SEVEN_HOURS_MS;
      && (t == NoData <==> status == NoEvents)
      && (t == Completed <==> done)
      && (t == LateSevere <==> status != NoEvents && !done && LateAfter(host, first, 11, 0))
      && (t == LateWarning <==>
            (status != NoEvents && !done && !LateAfter(host, first, 11, 0) && LateAfter(host, first, 10, 30)))
      && (t == OnSite <==> status == CheckedIn && !LateAfter(host, first, 10, 30))
      && (t == EarlyOut <==>
            (status == CheckedOut && !done && !LateAfter(host, first, 10, 30) && LeftEarly(host, last)))
      && (t == UnderTime <==>
            (status == CheckedOut && !LateAfter(host, first, 10, 30) && !LeftEarly(host, last)
             && 0 < totalMs < SEVEN_HOURS_MS))
      && (t == NoWorkRecorded <==>
            (status == CheckedOut && !LateAfter(host, first, 10, 30) && !LeftEarly(host, last)
             && totalMs <= 0))
  {
    ThresholdsOrdered(host, first);
    match status
    case CheckedIn =>
      if LateAfter(host, first, 11, 0) then LateSevere
      else if LateAfter(host, first, 10, 30) then LateWarning
      else OnSite
    case CheckedOut =>
      if totalMs >= SEVEN_HOURS_MS then Completed
      else if LateAfter(host, first, 11, 0) then LateSevere
      else if LateAfter(host, first, 10, 30) then LateWarning
      else if LeftEarly(host, last) then EarlyOut
      else if totalMs > 0 then UnderTime
      else NoWorkRecorded
    case NoEvents => NoData
  }

  /** Being after 11:00 implies being after 10:30. */
  lemma ThresholdsOrdered(host: Host, first: Option<Stamp>)
    ensures LateAfter(host, first, 11, 0) ==> LateAfter(host, first, 10, 30)
  {
    assert Threshold(host, 10, 30) < Threshold(host, 11, 0);
  }

  /** Only `'Completed'` rows carry `row-good`, and the eight labels are distinct. */
  lemma RowClassAndLabel(t: Tier, u: Tier)
    ensures RowClass(t) == "row-good" <==> t == Completed
    ensures Label(t) == Label(u) ==> t == u
  {
  }

  /** The row `processRowData` returns: the input row spread, plus its facts. */
  datatype ProcessedRow = ProcessedRow(
    row: DailyRow,
    totalMs: int,
    status: ScanStatus,
    firstCheckIn: string,
    lastCheckOut: string,
    tier: Tier)

  /** What `processRowData(row)` is: the scan of pairs 1..10 and its tier. */
  predicate ProcessedFrom(host: Host, row: DailyRow, p: ProcessedRow)
  {
    var pairs := row.pairs;
    && p.row == row
    && p.totalMs == WorkUpTo(host, pairs, MAX_PAIRS)
    && p.status == StatusUpTo(host, pairs, MAX_PAIRS)
    && p.firstCheckIn == DisplayTime(host, FirstInStamp(host, pairs, MAX_PAIRS))
    && p.lastCheckOut == DisplayTime(host, LastOutStamp(host, pairs, MAX_PAIRS))
    && p.tier == TierOf(host, p.status, FirstInStamp(host, pairs, MAX_PAIRS),
                        LastOutStamp(host, pairs, MAX_PAIRS), p.totalMs)
  }

  /** `processRowData` of `src/App.jsx`: the loop over pairs 1..10, then the tier. */
  method ProcessRowData(host: Host, row: DailyRow) returns (p: ProcessedRow)
    ensures ProcessedFrom(host, row, p)
    ensures p.totalMs >= 0
    ensures p.status == NoEvents <==> forall i :: 1 <= i <= MAX_PAIRS ==> !HasEvent(host, row.pairs, i)
    ensures p.firstCheckIn == "—" <==> forall i :: 1 <= i <= MAX_PAIRS ==> InAt(host, row.pairs, i) == None
    ensures p.lastCheckOut == "—" <==> forall i :: 1 <= i <= MAX_PAIRS ==> OutAt(host, row.pairs, i) == None
  {
    var total := 0;
    var first: Option<Stamp> := None;
    var last: Option<Stamp> := None;
    var status := NoEvents;
    var i := 1;
    while i <= MAX_PAIRS
      invariant 1 <= i <= MAX_PAIRS + 1
      invariant total == WorkUpTo(host, row.pairs, i - 1)
      invariant first == FirstInStamp(host, row.pairs, i - 1)
      invariant last == LastOutStamp(host, row.pairs, i - 1)
      invariant status == StatusUpTo(host, row.pairs, i - 1)
    {
      var checkIn := ParseTime(host, PairAt(row.pairs, i).checkIn);
      var checkOut := ParseTime(host, PairAt(row.pairs, i).checkOut);
      if checkIn.Some? {
        status := CheckedIn;
        if first.None? {
          first := checkIn;
        }
      }
      if checkOut.Some? {
        status := CheckedOut;
        last := checkOut;
      }
      if checkIn.Some? && checkIn.value.At? && checkOut.Some? && checkOut.value.At?
         && checkOut.value.ms > checkIn.value.ms {
        total := total + (checkOut.value.ms - checkIn.value.ms);
      }
      i := i + 1;
    }
    WorkNonNegative(host, row.pairs, MAX_PAIRS);
    NoEventsIff(host, row.pairs, MAX_PAIRS);
    FirstInIsFirst(host, row.pairs, MAX_PAIRS);
    LastOutIsLast(host, row.pairs, MAX_PAIRS);
    var totalMs := if total > 0 then total else 0;
    p := ProcessedRow(row, totalMs, status, DisplayTime(host, first), DisplayTime(host, last),
                      TierOf(host, status, first, last, totalMs));
  }

  /** `data.data.map(processRowData)`. */
  method ProcessAll(host: Host, rows: seq<DailyRow>) returns (ps: seq<ProcessedRow>)
    ensures |ps| == |rows|
    ensures forall i :: 0 <= i < |rows| ==> ProcessedFrom(host, rows[i], ps[i])
  {
    ps := [];
    var i := 0;
    while i < |rows|
      invariant 0 <= i <= |rows| && |ps| == i
      invariant forall j :: 0 <= j < i ==> ProcessedFrom(host, rows[j], ps[j])
    {
      var p := ProcessRowData(host, rows[i]);
      ps := ps + [p];
      i := i + 1;
    }
  }

  /** A processed row's tier agrees with its status and total: what the
      counting below relies on. */
  predicate Coherent(p: ProcessedRow)
  {
    && (p.tier == NoData <==> p.status == NoEvents)
    && (p.tier == Completed ==> p.status == CheckedOut && p.totalMs >= SEVEN_HOURS_MS)
    && (p.tier == NoWorkRecorded ==> p.totalMs == 0)
    && (p.tier == UnderTime ==> 0 < p.totalMs < SEVEN_HOURS_MS)
    && (p.status == CheckedIn ==> p.tier in {LateSevere, LateWarning, OnSite})
  }

  /** Every row `processRowData` returns is coherent; in particular a
      `'No Work Recorded'` row has exactly zero work. */
  lemma ProcessedIsCoherent(host: Host, row: DailyRow, p: ProcessedRow)
    requires ProcessedFrom(host, row, p)
    ensures Coherent(p)
  {
    WorkNonNegative(host, row.pairs, MAX_PAIRS);
  }

  // ---------------------------------------------------------------- counting

  /** A roster row from the `Summary` sheet: only `UID` and `Name` matter here. */
  datatype RosterRow = RosterRow(uid: string, name: string)

  /** `new Set(allData.map(row => row.UID))`. */
  function UidsOf(rows: seq<ProcessedRow>): (u: set<string>)
    ensures forall p :: p in rows ==> p.row.uid in u
    ensures forall x :: x in u ==> exists p :: p in rows && p.row.uid == x
  {
    if rows == [] then {} else {rows[0].row.uid} + UidsOf(rows[1..])
  }

  function RosterUids(roster: seq<RosterRow>): set<string>
  {
    if roster == [] then {} else {roster[0].uid} + RosterUids(roster[1..])
  }

  /** `masterEmployeeList.filter(masterRow => !presentUIDs.has(masterRow.UID))`. */
  function AbsentRoster(present: set<string>, roster: seq<RosterRow>): (r: seq<RosterRow>)
    ensures |r| <= |roster|
    ensures forall x :: x in r <==> x in roster && x.uid !in present
  {
    if roster == [] then []
    else (if roster[0].uid in present then [] else [roster[0]]) + AbsentRoster(present, roster[1..])
  }

  /** The row predicates the dashboard filters by. */
  datatype Criterion =
    | Good       // rowClass === 'row-good'
    | OnTimeRow  // rowClass === 'row-good' && status === 'Checked Out'
    | Exception  // rowClass !== 'row-good' && status === 'Checked Out'
    | Out        // status === 'Checked Out'

  predicate Meets(p: ProcessedRow, c: Criterion)
  {
    match c
    case Good => RowClass(p.tier) == "row-good"
    case OnTimeRow => RowClass(p.tier) == "row-good" && p.status == CheckedOut
    case Exception => RowClass(p.tier) != "row-good" && p.status == CheckedOut
    case Out => p.status == CheckedOut
  }

  /** `allData.filter(…)` by one criterion, keeping order. */
  function Select(rows: seq<ProcessedRow>, c: Criterion): (r: seq<ProcessedRow>)
    ensures |r| <= |rows|
    ensures forall p :: p in r <==> p in rows && Meets(p, c)
  {
    if rows == [] then []
    else (if Meets(rows[0], c) then [rows[0]] else []) + Select(rows[1..], c)
  }

  /** The absent list keeps the roster's order and multiplicity: it is built
      row by row, each roster row kept exactly when its UID is not present. */
  lemma {:induction false} AbsentRosterOrder(present: set<string>, a: seq<RosterRow>, b: seq<RosterRow>, r: RosterRow)
    ensures AbsentRoster(present, a + b) == AbsentRoster(present, a) + AbsentRoster(present, b)
    ensures AbsentRoster(present, [r]) == if r.uid in present then [] else [r]
  {
    if a == [] {
      assert a + b == b;
    } else {
      AbsentRosterOrder(present, a[1..], b, r);
      ConsAppend(a, b);
      AbsentRosterAssoc(present, a[0], a[1..], b);
    }
    AbsentRosterOne(present, r);
  }

  /** A non-empty `a + b` starts with `a`'s head, followed by the rest of `a`, then `b`. */
  lemma ConsAppend<T>(a: seq<T>, b: seq<T>)
    requires a != []
    ensures a + b == [a[0]] + (a[1..] + b)
  {
  }

  /** The step of `AbsentRosterOrder`: a head row in front of the two parts. */
  lemma AbsentRosterAssoc(present: set<string>, x: RosterRow, a: seq<RosterRow>, b: seq<RosterRow>)
    requires AbsentRoster(present, a + b) == AbsentRoster(present, a) + AbsentRoster(present, b)
    ensures AbsentRoster(present, [x] + (a + b)) == AbsentRoster(present, [x] + a) + AbsentRoster(present, b)
  {
    var head := if x.uid in present then [] else [x];
    assert ([x] + (a + b))[0] == x && ([x] + (a + b))[1..] == a + b;
    assert AbsentRoster(present, [x] + (a + b)) == head + AbsentRoster(present, a + b);
    assert ([x] + a)[0] == x && ([x] + a)[1..] == a;
    assert AbsentRoster(present, [x] + a) == head + AbsentRoster(present, a);
    AppendAssoc(head, AbsentRoster(present, a), AbsentRoster(present, b));
  }

  lemma AppendAssoc<T>(p: seq<T>, q: seq<T>, r: seq<T>)
    ensures p + (q + r) == (p + q) + r
  {
  }

  lemma AbsentRosterOne(present: set<string>, r: RosterRow)
    ensures AbsentRoster(present, [r]) == if r.uid in present then [] else [r]
  {
    assert [r][1..] == [];
  }

  /** A filter keeps the rows' order and multiplicity: it is built row by row,
      each row kept exactly when it meets the criterion. */
  lemma {:induction false} SelectOrder(a: seq<ProcessedRow>, b: seq<ProcessedRow>, p: ProcessedRow, c: Criterion)
    ensures Select(a + b, c) == Select(a, c) + Select(b, c)
    ensures Select([p], c) == if Meets(p, c) then [p] else []
  {
    if a == [] {
      assert a + b == b;
    } else {
      SelectOrder(a[1..], b, p, c);
      ConsAppend(a, b);
      SelectAssoc(c, a[0], a[1..], b);
    }
    SelectOne(p, c);
  }

  /** The step of `SelectOrder`: a head row in front of the two parts. */
  lemma SelectAssoc(c: Criterion, x: ProcessedRow, a: seq<ProcessedRow>, b: seq<ProcessedRow>)
    requires Select(a + b, c) == Select(a, c) + Select(b, c)
    ensures Select([x] + (a + b), c) == Select([x] + a, c) + Select(b, c)
  {
    var head := if Meets(x, c) then [x] else [];
    assert ([x] + (a + b))[0] == x && ([x] + (a + b))[1..] == a + b;
    assert Select([x] + (a + b), c) == head + Select(a + b, c);
    assert ([x] + a)[0] == x && ([x] + a)[1..] == a;
    assert Select([x] + a, c) == head + Select(a, c);
    AppendAssoc(head, Select(a, c), Select(b, c));
  }

  lemma SelectOne(p: ProcessedRow, c: Criterion)
    ensures Select([p], c) == if Meets(p, c) then [p] else []
  {
    assert [p][1..] == [];
  }

  datatype Kpi = Kpi(totalRoster: nat, present: nat, absent: nat, onTime: nat, exceptions: nat)

  /** `kpiData`: zeros while loading; on a holiday the whole roster counts as
      absent; otherwise present rows, absent roster rows and the split of the
      checked-out rows. */
  function KpiData(allData: seq<ProcessedRow>, roster: seq<RosterRow>, loading: bool, holiday: bool): (k: Kpi)
    ensures loading ==> k == Kpi(0, 0, 0, 0, 0)
    ensures !loading && holiday ==> k == Kpi(|roster|, 0, |roster|, 0, 0)
    ensures !loading && !holiday ==>
      && k.totalRoster == |roster|
      && k.present == |allData|
      && k.absent == |AbsentRoster(UidsOf(allData), roster)|
      && k.onTime == |Select(allData, OnTimeRow)|
      && k.exceptions == |Select(allData, Exception)|
  {
    if loading then Kpi(0, 0, 0, 0, 0)
    else if holiday then Kpi(|roster|, 0, |roster|, 0, 0)
    else
      var absent := AbsentRoster(UidsOf(allData), roster);
      if |allData| == 0 && |roster| > 0 then
        NobodyPresent(roster);
        Kpi(|roster|, 0, |roster|, 0, 0)
      else
        Kpi(|roster|, |allData|, |absent|, |Select(allData, OnTimeRow)|, |Select(allData, Exception)|)
  }

  /** With no daily rows the absent list is the whole roster, so the special
      case in `kpiData` agrees with the general formula. */
  lemma {:induction false} NobodyPresent(roster: seq<RosterRow>)
    ensures AbsentRoster({}, roster) == roster
  {
    if roster != [] {
      NobodyPresent(roster[1..]);
    }
  }

  /** `onTime + exceptions` is the number of checked-out rows. */
  lemma {:induction false} CheckedOutSplit(rows: seq<ProcessedRow>)
    ensures |Select(rows, OnTimeRow)| + |Select(rows, Exception)| == |Select(rows, Out)|
  {
    if rows != [] {
      CheckedOutSplit(rows[1..]);
    }
  }

  /** On coherent rows the `onTime` card counts exactly the `'Completed'` rows,
      which are the rows the `onTime` filter shows. */
  lemma {:induction false} OnTimeIsGood(rows: seq<ProcessedRow>)
    requires forall p :: p in rows ==> Coherent(p)
    ensures Select(rows, OnTimeRow) == Select(rows, Good)
  {
    if rows != [] {
      assert rows[0] in rows;
      assert forall p :: p in rows[1..] ==> p in rows;
      OnTimeIsGood(rows[1..]);
    }
  }

  predicate DistinctRosterUids(roster: seq<RosterRow>)
  {
    forall i, j :: 0 <= i < j < |roster| ==> roster[i].uid != roster[j].uid
  }

  predicate DistinctDailyUids(rows: seq<ProcessedRow>)
  {
    forall i, j :: 0 <= i < j < |rows| ==> rows[i].row.uid != rows[j].row.uid
  }

  lemma {:induction false} DailyUidsCount(rows: seq<ProcessedRow>)
    requires DistinctDailyUids(rows)
    ensures |UidsOf(rows)| == |rows|
  {
    if rows != [] {
      TailDistinct(rows);
      DailyUidsCount(rows[1..]);
      HeadUidNew(rows);
      assert UidsOf(rows) == {rows[0].row.uid} + UidsOf(rows[1..]);
    }
  }

  lemma TailDistinct(rows: seq<ProcessedRow>)
    requires rows != [] && DistinctDailyUids(rows)
    ensures DistinctDailyUids(rows[1..])
  {
    var rest := rows[1..];
    forall i, j | 0 <= i < j < |rest|
      ensures rest[i].row.uid != rest[j].row.uid
    {
      assert rest[i] == rows[i + 1] && rest[j] == rows[j + 1];
    }
  }

  lemma HeadUidNew(rows: seq<ProcessedRow>)
    requires rows != [] && DistinctDailyUids(rows)
    ensures rows[0].row.uid !in UidsOf(rows[1..])
  {
    var rest := rows[1..];
    forall x | x in UidsOf(rest)
      ensures x != rows[0].row.uid
    {
      var p :| p in rest && p.row.uid == x;
      var j :| 0 <= j < |rest| && rest[j] == p;
      assert rows[j + 1] == p;
    }
  }

  lemma {:induction false} RosterUidsMember(roster: seq<RosterRow>, x: string)
    ensures x in RosterUids(roster) <==> exists i :: 0 <= i < |roster| && roster[i].uid == x
  {
    if roster != [] {
      RosterUidsMember(roster[1..], x);
      if x in RosterUids(roster[1..]) {
        var i :| 0 <= i < |roster[1..]| && roster[1..][i].uid == x;
        assert roster[i + 1].uid == x;
      }
      if exists i :: 0 <= i < |roster| && roster[i].uid == x {
        var i :| 0 <= i < |roster| && roster[i].uid == x;
        if i > 0 {
          assert roster[1..][i - 1].uid == x;
        }
      }
    }
  }

  /** On a roster without repeated UIDs, the absent rows and the present UIDs
      that are on the roster together make up the roster. */
  lemma {:induction false} AbsentCount(present: set<string>, roster: seq<RosterRow>)
    requires DistinctRosterUids(roster)
    ensures |AbsentRoster(present, roster)| + |present * RosterUids(roster)| == |roster|
  {
    if roster != [] {
      var u := roster[0].uid;
      var rest := RosterUids(roster[1..]);
      assert DistinctRosterUids(roster[1..]) by {
        forall i, j | 0 <= i < j < |roster[1..]|
          ensures roster[1..][i].uid != roster[1..][j].uid
        {
          assert roster[1..][i] == roster[i + 1] && roster[1..][j] == roster[j + 1];
        }
      }
      AbsentCount(present, roster[1..]);
      RosterUidsMember(roster[1..], u);
      forall i | 0 <= i < |roster[1..]|
        ensures roster[1..][i].uid != u
      {
        assert roster[1..][i] == roster[i + 1];
      }
      if u in present {
        assert present * RosterUids(roster) == (present * rest) + {u};
      } else {
        assert present * RosterUids(roster) == present * rest;
      }
    }
  }

  /** Count conservation: when neither list repeats a UID and every daily UID is
      on the roster, the `present` and `absent` cards add up to `totalRoster`. */
  lemma RosterConservation(allData: seq<ProcessedRow>, roster: seq<RosterRow>)
    requires DistinctDailyUids(allData) && DistinctRosterUids(roster)
    requires UidsOf(allData) <= RosterUids(roster)
    ensures var k := KpiData(allData, roster, false, false);
      k.present + k.absent == k.totalRoster
  {
    DailyUidsCount(allData);
    AbsentCount(UidsOf(allData), roster);
    assert UidsOf(allData) * RosterUids(roster) == UidsOf(allData);
  }

  /** Without that condition the cards need not add up: a daily row whose UID
      is not on the roster raises `present` by one and takes nobody off the
      absent list, so `present + absent` exceeds `totalRoster` once such a row
      is in. */
  lemma UnknownUidInflatesPresent(allData: seq<ProcessedRow>, roster: seq<RosterRow>, p: ProcessedRow)
    requires p.row.uid !in RosterUids(roster)
    ensures var before, after := KpiData(allData, roster, false, false), KpiData(allData + [p], roster, false, false);
      && after.totalRoster == before.totalRoster
      && after.present == before.present + 1
      && after.absent == before.absent
  {
    UidsAppend(allData, p);
    AbsentIgnoresStranger(UidsOf(allData), p.row.uid, roster);
  }

  lemma UidsAppend(rows: seq<ProcessedRow>, p: ProcessedRow)
    ensures UidsOf(rows + [p]) == UidsOf(rows) + {p.row.uid}
  {
    var u := UidsOf(rows + [p]);
    forall x | x in u
      ensures x in UidsOf(rows) + {p.row.uid}
    {
      var q :| q in rows + [p] && q.row.uid == x;
      if q != p {
        assert q in rows;
      }
    }
    forall x | x in UidsOf(rows)
      ensures x in u
    {
      var q :| q in rows && q.row.uid == x;
      assert q in rows + [p];
    }
    assert p in rows + [p];
  }

  /** A UID that is not on the roster removes nobody from the absent list. */
  lemma {:induction false} AbsentIgnoresStranger(present: set<string>, x: string, roster: seq<RosterRow>)
    requires x !in RosterUids(roster)
    ensures AbsentRoster(present + {x}, roster) == AbsentRoster(present, roster)
  {
    if roster != [] {
      AbsentIgnoresStranger(present, x, roster[1..]);
    }
  }

  // ---------------------------------------------------------------- filtering

  datatype FilterType = PresentFilter | OnTimeFilter | ExceptionsFilter | AbsentFilter | AllRosterFilter | OtherFilter

  /** A table row: a processed daily row, or a roster row tagged with a fixed
      status, class and zero hours (`'Absent'` or `'Holiday'`). */
  datatype ShownRow =
    | Daily(p: ProcessedRow)
    | Tagged(uid: string, name: string, priority: string, rowClass: string)

  function ShownName(s: ShownRow): string
  {
    match s
    case Daily(p) => p.row.name
    case Tagged(_, name, _, _) => name
  }

  /** `totalHours` of a shown row, in milliseconds. */
  function ShownMs(s: ShownRow): int
  {
    match s
    case Daily(p) => p.totalMs
    case Tagged(_, _, _, _) => 0
  }

  function AsDaily(rows: seq<ProcessedRow>): (r: seq<ShownRow>)
    ensures |r| == |rows| && forall i :: 0 <= i < |rows| ==> r[i] == Daily(rows[i])
    ensures forall s :: s in r <==> s.Daily? && s.p in rows
  {
    var r := seq(|rows|, i requires 0 <= i < |rows| => Daily(rows[i]));
    assert forall p :: p in rows ==> Daily(p) in r by {
      forall p | p in rows
        ensures Daily(p) in r
      {
        var i :| 0 <= i < |rows| && rows[i] == p;
        assert r[i] == Daily(p);
      }
    }
    r
  }

  function Tag(roster: seq<RosterRow>, priority: string, rowClass: string): (r: seq<ShownRow>)
    ensures |r| == |roster|
    ensures forall i :: 0 <= i < |roster| ==> r[i] == Tagged(roster[i].uid, roster[i].name, priority, rowClass)
    ensures forall s :: s in r ==> s.Tagged? && s.priority == priority && s.rowClass == rowClass
  {
    seq(|roster|, i requires 0 <= i < |roster| => Tagged(roster[i].uid, roster[i].name, priority, rowClass))
  }

  /** The `'onTime'` and `'exceptions'` tables: the daily rows meeting `c`, in order. */
  function SelectedDaily(allData: seq<ProcessedRow>, c: Criterion): (r: seq<ShownRow>)
    ensures var kept := Select(allData, c);
      |r| == |kept| && forall i :: 0 <= i < |kept| ==> r[i] == Daily(kept[i])
    ensures forall s :: s in r <==> s.Daily? && s.p in allData && Meets(s.p, c)
  {
    AsDaily(Select(allData, c))
  }

  /** `dataToShow` before the search: the holiday roster, or the rows the
      filter selects. */
  function DataToShow(allData: seq<ProcessedRow>, roster: seq<RosterRow>, filter: FilterType, holiday: bool): (r: seq<ShownRow>)
    ensures holiday ==> |r| == |roster| && forall s :: s in r ==> s.Tagged? && s.priority == "Holiday"
    ensures !holiday ==> forall s :: s in r && s.Daily? ==> s.p in allData && filter != AbsentFilter
    ensures !holiday ==> forall s :: s in r && s.Tagged? ==>
      (filter == AbsentFilter || filter == AllRosterFilter) && s.priority == "Absent" && s.rowClass == "row-late-danger"
    ensures !holiday && filter == OnTimeFilter ==> forall s :: s in r ==> s.Daily? && Meets(s.p, Good)
    ensures !holiday && filter == ExceptionsFilter ==> forall s :: s in r ==> s.Daily? && Meets(s.p, Exception)
    ensures holiday ==> forall i :: 0 <= i < |roster| ==> r[i] == Tagged(roster[i].uid, roster[i].name, "Holiday", "row-good")
    ensures !holiday && (filter == PresentFilter || filter == AllRosterFilter || filter == OtherFilter) ==>
      |r| >= |allData| && forall i :: 0 <= i < |allData| ==> r[i] == Daily(allData[i])
    ensures !holiday && filter == OnTimeFilter ==> forall p :: p in allData && Meets(p, Good) ==> Daily(p) in r
    ensures !holiday && filter == ExceptionsFilter ==> forall p :: p in allData && Meets(p, Exception) ==> Daily(p) in r
    ensures !holiday && (filter == PresentFilter || filter == OtherFilter) ==> |r| == |allData|
    ensures !holiday && (filter == OnTimeFilter || filter == ExceptionsFilter) ==>
      var kept := Select(allData, if filter == OnTimeFilter then Good else Exception);
      |r| == |kept| && forall i :: 0 <= i < |kept| ==> r[i] == Daily(kept[i])
    ensures !holiday && (filter == AbsentFilter || filter == AllRosterFilter) ==>
      var absent := AbsentRoster(UidsOf(allData), roster);
      var start := if filter == AbsentFilter then 0 else |allData|;
      |r| == start + |absent|
      && forall i :: 0 <= i < |absent| ==> r[start + i] == Tagged(absent[i].uid, absent[i].name, "Absent", "row-late-danger")
  {
    var absent := AbsentRoster(UidsOf(allData), roster);
    var absentList := Tag(absent, "Absent", "row-late-danger");
    if holiday then Tag(roster, "Holiday", "row-good")
    else
      match filter
      case PresentFilter => AsDaily(allData)
      case OnTimeFilter => SelectedDaily(allData, Good)
      case ExceptionsFilter => SelectedDaily(allData, Exception)
      case AbsentFilter => absentList
      case AllRosterFilter =>
        var daily := AsDaily(allData);
        DailyThenAbsent(allData, absent, daily, absentList);
        daily + absentList
      case OtherFilter => AsDaily(allData)
  }

  /** The `'all_roster'` table: the daily rows in order, then the tagged absent rows in order. */
  lemma DailyThenAbsent(allData: seq<ProcessedRow>, absent: seq<RosterRow>, daily: seq<ShownRow>, tagged: seq<ShownRow>)
    requires daily == AsDaily(allData) && tagged == Tag(absent, "Absent", "row-late-danger")
    ensures var r := daily + tagged;
      && |r| == |allData| + |absent|
      && (forall i :: 0 <= i < |allData| ==> r[i] == Daily(allData[i]))
      && (forall i :: 0 <= i < |absent| ==> r[|allData| + i] == Tagged(absent[i].uid, absent[i].name, "Absent", "row-late-danger"))
      && (forall s :: s in r && s.Daily? ==> s.p in allData)
      && (forall s :: s in r && s.Tagged? ==> s.priority == "Absent" && s.rowClass == "row-late-danger")
  {
    var r := daily + tagged;
    forall i | 0 <= i < |allData|
      ensures r[i] == Daily(allData[i])
    {
      assert r[i] == daily[i];
    }
    forall i | 0 <= i < |absent|
      ensures r[|allData| + i] == Tagged(absent[i].uid, absent[i].name, "Absent", "row-late-danger")
    {
      assert r[|allData| + i] == tagged[i];
    }
    forall s | s in r
      ensures s.Daily? ==> s.p in allData
      ensures s.Tagged? ==> s.priority == "Absent" && s.rowClass == "row-late-danger"
    {
      var k :| 0 <= k < |r| && r[k] == s;
      if k < |daily| {
        assert s == daily[k];
      } else {
        assert s == tagged[k - |daily|];
      }
    }
  }

  /** `row.Name.toLowerCase().includes(searchTerm.toLowerCase())`. */
  predicate NameMatches(name: string, term: string)
  {
    Contains(Lower(name), Lower(term))
  }

  function SearchRows(rows: seq<ShownRow>, term: string): (r: seq<ShownRow>)
    ensures |r| <= |rows|
    ensures forall s :: s in r <==> s in rows && NameMatches(ShownName(s), term)
  {
    if rows == [] then []
    else (if NameMatches(ShownName(rows[0]), term) then [rows[0]] else []) + SearchRows(rows[1..], term)
  }

  /** `filteredData`: an empty search term is falsy and filters nothing. */
  function FilteredData(allData: seq<ProcessedRow>, roster: seq<RosterRow>, filter: FilterType,
                        search: string, holiday: bool): (r: seq<ShownRow>)
    ensures search == "" ==> r == DataToShow(allData, roster, filter, holiday)
    ensures forall s :: s in r <==>
      s in DataToShow(allData, roster, filter, holiday) && (search == "" || NameMatches(ShownName(s), search))
  {
    var rows := DataToShow(allData, roster, filter, holiday);
    if search == "" then rows else SearchRows(rows, search)
  }

  /** The `'absent'` filter shows exactly the roster rows whose UID has no daily
      row, in roster order, each tagged `'Absent'`/`row-late-danger` with zero hours. */
  lemma AbsentFilterExact(allData: seq<ProcessedRow>, roster: seq<RosterRow>)
    ensures var shown := FilteredData(allData, roster, AbsentFilter, "", false);
      var absent := AbsentRoster(UidsOf(allData), roster);
      && |shown| == |absent|
      && (forall i :: 0 <= i < |absent| ==> shown[i] == Tagged(absent[i].uid, absent[i].name, "Absent", "row-late-danger"))
      && (forall s :: s in shown ==> s.Tagged? && s.priority == "Absent" && s.rowClass == "row-late-danger" && ShownMs(s) == 0)
      && (forall s :: s in shown ==> exists r :: r in roster && (forall p :: p in allData ==> p.row.uid != r.uid)
                                            && s == Tagged(r.uid, r.name, "Absent", "row-late-danger"))
      && (forall r :: r in roster ==>
            (Tagged(r.uid, r.name, "Absent", "row-late-danger") in shown <==> forall p :: p in allData ==> p.row.uid != r.uid))
  {
    var absent := AbsentRoster(UidsOf(allData), roster);
    var shown := FilteredData(allData, roster, AbsentFilter, "", false);
    assert shown == DataToShow(allData, roster, AbsentFilter, false);
    AbsentTagged(UidsOf(allData), absent, shown);
    TaggedAbsentRows(allData, roster, absent, shown);
  }

  /** The tagged absent rows are the roster rows without a daily row, and no others. */
  lemma TaggedAbsentRows(allData: seq<ProcessedRow>, roster: seq<RosterRow>, absent: seq<RosterRow>, shown: seq<ShownRow>)
    requires absent == AbsentRoster(UidsOf(allData), roster)
    requires |shown| == |absent|
    requires forall i :: 0 <= i < |absent| ==> shown[i] == Tagged(absent[i].uid, absent[i].name, "Absent", "row-late-danger")
    ensures forall s :: s in shown ==> exists r :: r in roster && (forall p :: p in allData ==> p.row.uid != r.uid)
                                               && s == Tagged(r.uid, r.name, "Absent", "row-late-danger")
    ensures forall r :: r in roster ==>
      (Tagged(r.uid, r.name, "Absent", "row-late-danger") in shown <==> forall p :: p in allData ==> p.row.uid != r.uid)
  {
    var present := UidsOf(allData);
    forall s | s in shown
      ensures exists r :: r in roster && (forall p :: p in allData ==> p.row.uid != r.uid)
                          && s == Tagged(r.uid, r.name, "Absent", "row-late-danger")
    {
      var i :| 0 <= i < |shown| && shown[i] == s;
      assert absent[i] in absent;
    }
    forall r | r in roster
      ensures Tagged(r.uid, r.name, "Absent", "row-late-danger") in shown <==> r.uid !in present
    {
      if Tagged(r.uid, r.name, "Absent", "row-late-danger") in shown {
        var i :| 0 <= i < |shown| && shown[i] == Tagged(r.uid, r.name, "Absent", "row-late-danger");
        assert absent[i] in absent;
      }
      if r.uid !in present {
        assert r in absent;
        var i :| 0 <= i < |absent| && absent[i] == r;
        assert shown[i] == Tagged(r.uid, r.name, "Absent", "row-late-danger");
      }
    }
  }

  /** Rows shown one for one as the tagged absent rows carry those rows' UIDs and names. */
  lemma AbsentTagged(present: set<string>, absent: seq<RosterRow>, shown: seq<ShownRow>)
    requires |shown| == |absent|
    requires forall i :: 0 <= i < |absent| ==> shown[i] == Tagged(absent[i].uid, absent[i].name, "Absent", "row-late-danger")
    ensures forall s :: s in shown ==> s.Tagged? && s.priority == "Absent" && s.rowClass == "row-late-danger" && ShownMs(s) == 0
  {
    forall s | s in shown
      ensures s.Tagged? && s.priority == "Absent" && s.rowClass == "row-late-danger" && ShownMs(s) == 0
    {
      var i :| 0 <= i < |shown| && shown[i] == s;
    }
  }

  /** On a holiday the table lists the whole roster tagged `'Holiday'`, whatever the filter. */
  lemma HolidayShowsRoster(allData: seq<ProcessedRow>, roster: seq<RosterRow>, filter: FilterType)
    ensures var shown := FilteredData(allData, roster, filter, "", true);
      |shown| == |roster|
      && forall i :: 0 <= i < |roster| ==> shown[i] == Tagged(roster[i].uid, roster[i].name, "Holiday", "row-good")
  {
  }

  /** With no search, each clickable KPI card's number equals the number of rows
      its filter shows (on coherent rows, for `onTime`). */
  lemma KpiCardsMatchFilters(allData: seq<ProcessedRow>, roster: seq<RosterRow>)
    requires forall p :: p in allData ==> Coherent(p)
    ensures var k := KpiData(allData, roster, false, false);
      && k.present == |FilteredData(allData, roster, PresentFilter, "", false)|
      && k.onTime == |FilteredData(allData, roster, OnTimeFilter, "", false)|
      && k.exceptions == |FilteredData(allData, roster, ExceptionsFilter, "", false)|
      && k.absent == |FilteredData(allData, roster, AbsentFilter, "", false)|
      && k.present + k.absent == |FilteredData(allData, roster, AllRosterFilter, "", false)|
  {
    OnTimeIsGood(allData);
  }

  /** Searching a concatenation searches each part: rows keep their order, so in
      the `'all_roster'` view matching daily rows still come before matching absent rows. */
  lemma {:induction false} SearchDistributes(a: seq<ShownRow>, b: seq<ShownRow>, term: string)
    ensures SearchRows(a + b, term) == SearchRows(a, term) + SearchRows(b, term)
  {
    if a != [] {
      assert (a + b)[1..] == a[1..] + b;
      SearchDistributes(a[1..], b, term);
    } else {
      assert a + b == b;
    }
  }

  /** Searching twice for the same term changes nothing more. */
  lemma {:induction false} SearchIdempotent(rows: seq<ShownRow>, term: string)
    ensures SearchRows(SearchRows(rows, term), term) == SearchRows(rows, term)
  {
    if rows != [] {
      var head := if NameMatches(ShownName(rows[0]), term) then [rows[0]] else [];
      SearchIdempotent(rows[1..], term);
      SearchDistributes(head, SearchRows(rows[1..], term), term);
    }
  }

  // ---------------------------------------------------------------- headers

  /** The highest pair number among a row's `Check-in N`/`Check-out N` keys:
      a daily row has columns 1..|pairs|, a roster row has none. */
  function PairColumns(s: ShownRow): nat
  {
    match s
    case Daily(p) => |p.row.pairs|
    case Tagged(_, _, _, _) => 0
  }

  /** `maxPairs` after `forEach` has visited `rows`. */
  function MaxPairColumns(rows: seq<ShownRow>): nat
  {
    if rows == [] then 0
    else
      var before := MaxPairColumns(rows[..|rows| - 1]);
      var here := PairColumns(rows[|rows| - 1]);
      if here > before then here else before
  }

  /** `maxPairs` is the largest pair number of any row, and some row has it. */
  lemma {:induction false} MaxPairColumnsIsMax(rows: seq<ShownRow>)
    ensures forall s :: s in rows ==> PairColumns(s) <= MaxPairColumns(rows)
    ensures rows != [] ==> exists s :: s in rows && PairColumns(s) == MaxPairColumns(rows)
  {
    if rows != [] {
      var init := rows[..|rows| - 1];
      MaxPairColumnsIsMax(init);
      assert rows == init + [rows[|rows| - 1]];
      if init != [] && MaxPairColumns(rows) == MaxPairColumns(init) {
        var s :| s in init && PairColumns(s) == MaxPairColumns(init);
        assert s in rows;
      } else {
        assert rows[|rows| - 1] in rows;
      }
    }
  }

  function CheckInHeader(i: nat): string { "Check-in " + NatToString(i) }

  function CheckOutHeader(i: nat): string { "Check-out " + NatToString(i) }

  /** `Check-in 1`, `Check-out 1`, …, `Check-in n`, `Check-out n`. */
  function PairHeaders(n: nat): (h: seq<string>)
    ensures |h| == 2 * n
  {
    if n == 0 then [] else PairHeaders(n - 1) + [CheckInHeader(n), CheckOutHeader(n)]
  }

  /** `getTableHeaders` shows only `Name` and `Status` for the absent filter, on
      a holiday, and when roster rows are shown without any daily data. */
  predicate NameStatusOnly(filter: FilterType, holiday: bool, dailyCount: nat, shownCount: nat)
  {
    filter == AbsentFilter || holiday || (dailyCount == 0 && shownCount > 0)
  }

  /** `getTableHeaders`. */
  method TableHeaders(filtered: seq<ShownRow>, filter: FilterType, holiday: bool, dailyCount: nat)
    returns (h: seq<string>)
    ensures NameStatusOnly(filter, holiday, dailyCount, |filtered|) ==> h == ["Name", "Status"]
    ensures !NameStatusOnly(filter, holiday, dailyCount, |filtered|) ==>
      h == FullHeaders(MaxPairColumns(filtered))
  {
    var maxPairs := 0;
    var k := 0;
    while k < |filtered|
      invariant 0 <= k <= |filtered|
      invariant maxPairs == MaxPairColumns(filtered[..k])
    {
      assert filtered[..k + 1][..k] == filtered[..k];
      var num := PairColumns(filtered[k]);
      if num > maxPairs {
        maxPairs := num;
      }
      k := k + 1;
    }
    assert filtered[..k] == filtered;
    if filter == AbsentFilter || holiday || (dailyCount == 0 && |filtered| > 0) {
      return ["Name", "Status"];
    }
    h := ["Name", "Status"];
    var i := 1;
    while i <= maxPairs
      invariant 1 <= i <= maxPairs + 1
      invariant h == ["Name", "Status"] + PairHeaders(i - 1)
    {
      h := h + [CheckInHeader(i)];
      h := h + [CheckOutHeader(i)];
      i := i + 1;
    }
    h := h + ["Total Work"];
  }

  /** Pair headers alternate: position 2(i-1) is `Check-in i`, the next is `Check-out i`. */
  lemma {:induction false} PairHeaderAt(n: nat, k: nat)
    requires k < 2 * n
    ensures PairHeaders(n)[k] == if k % 2 == 0 then CheckInHeader(k / 2 + 1) else CheckOutHeader(k / 2 + 1)
  {
    if k < 2 * (n - 1) {
      PairHeaderAt(n - 1, k);
    }
  }

  lemma NatToStringInjective(a: nat, b: nat)
    requires NatToString(a) == NatToString(b)
    ensures a == b
  {
    DigitsRoundTrip(a);
    DigitsRoundTrip(b);
  }

  /** The headers `getTableHeaders` returns when it lists pairs 1..n. */
  function FullHeaders(n: nat): (h: seq<string>)
    ensures |h| == 2 * n + 3
  {
    ["Name", "Status"] + PairHeaders(n) + ["Total Work"]
  }

  /** Which header sits at each position. */
  lemma FullHeaderAt(n: nat, a: nat)
    requires a < 2 * n + 3
    ensures FullHeaders(n)[a] ==
      if a == 0 then "Name" else if a == 1 then "Status"
      else if a < 2 * n + 2 then (if (a - 2) % 2 == 0 then CheckInHeader((a - 2) / 2 + 1) else CheckOutHeader((a - 2) / 2 + 1))
      else "Total Work"
  {
    var p := PairHeaders(n);
    var h := FullHeaders(n);
    assert h == ["Name", "Status"] + p + ["Total Work"];
    if a < 2 {
      assert h[a] == ["Name", "Status"][a];
    } else if a < 2 * n + 2 {
      assert h[a] == p[a - 2];
      PairHeaderAt(n, a - 2);
    } else {
      assert h[a] == "Total Work";
    }
  }

  /** `Check-in`/`Check-out` headers differ from each other unless they are the
      same kind with the same number, and from the three fixed headers. */
  lemma PairHeaderNames(i: nat, j: nat)
    ensures CheckInHeader(i) != CheckOutHeader(j)
    ensures CheckInHeader(i) == CheckInHeader(j) ==> i == j
    ensures CheckOutHeader(i) == CheckOutHeader(j) ==> i == j
    ensures CheckInHeader(i)[0] == 'C' && CheckOutHeader(i)[0] == 'C'
  {
    assert CheckInHeader(i)[6] == 'i' && CheckOutHeader(j)[6] == 'o';
    if CheckInHeader(i) == CheckInHeader(j) {
      assert NatToString(i) == CheckInHeader(i)[9..];
      assert NatToString(j) == CheckInHeader(j)[9..];
      NatToStringInjective(i, j);
    }
    if CheckOutHeader(i) == CheckOutHeader(j) {
      assert NatToString(i) == CheckOutHeader(i)[10..];
      assert NatToString(j) == CheckOutHeader(j)[10..];
      NatToStringInjective(i, j);
    }
  }

  lemma FullHeaderPairDistinct(n: nat, a: nat, b: nat)
    requires a < b < 2 * n + 3
    ensures FullHeaders(n)[a] != FullHeaders(n)[b]
  {
    FullHeaderAt(n, a);
    FullHeaderAt(n, b);
    HeaderTextsDiffer(n, a, b, FullHeaders(n)[a], FullHeaders(n)[b]);
  }

  /** The header texts that `FullHeaderAt` gives for two different positions differ. */
  lemma HeaderTextsDiffer(n: nat, a: nat, b: nat, ha: string, hb: string)
    requires a < b < 2 * n + 3
    requires ha ==
      if a == 0 then "Name" else if a == 1 then "Status"
      else if a < 2 * n + 2 then (if (a - 2) % 2 == 0 then CheckInHeader((a - 2) / 2 + 1) else CheckOutHeader((a - 2) / 2 + 1))
      else "Total Work"
    requires hb ==
      if b == 0 then "Name" else if b == 1 then "Status"
      else if b < 2 * n + 2 then (if (b - 2) % 2 == 0 then CheckInHeader((b - 2) / 2 + 1) else CheckOutHeader((b - 2) / 2 + 1))
      else "Total Work"
    ensures ha != hb
  {
    var pairA, pairB := 2 <= a < 2 * n + 2, 2 <= b < 2 * n + 2;
    if pairA && pairB {
      PairHeadersDiffer(a - 2, b - 2);
    } else if pairA {
      PairHeaderNotFixed((a - 2) / 2 + 1);
    } else if pairB {
      PairHeaderNotFixed((b - 2) / 2 + 1);
    } else {
      assert ha in ["Name", "Status"] && hb != ha;
    }
  }

  /** Two different positions among the pair headers hold different headers. */
  lemma PairHeadersDiffer(a: nat, b: nat)
    requires a < b
    ensures (if a % 2 == 0 then CheckInHeader(a / 2 + 1) else CheckOutHeader(a / 2 + 1))
         != (if b % 2 == 0 then CheckInHeader(b / 2 + 1) else CheckOutHeader(b / 2 + 1))
  {
    var i, j := a / 2 + 1, b / 2 + 1;
    if a % 2 == b % 2 {
      assert i != j;
    }
    PairHeaderNames(i, j);
    PairHeaderNames(j, i);
  }

  /** A pair header is none of `Name`, `Status` and `Total Work`. */
  lemma PairHeaderNotFixed(k: nat)
    ensures CheckInHeader(k) !in ["Name", "Status", "Total Work"]
    ensures CheckOutHeader(k) !in ["Name", "Status", "Total Work"]
  {
    PairHeaderNames(k, k);
    assert "Name"[0] == 'N' && "Status"[0] == 'S' && "Total Work"[0] == 'T';
  }

  /** The header list never repeats a header, so each column key is unique. */
  lemma HeadersDistinct(n: nat)
    ensures forall a, b :: 0 <= a < b < |FullHeaders(n)| ==> FullHeaders(n)[a] != FullHeaders(n)[b]
  {
    forall a, b | 0 <= a < b < |FullHeaders(n)|
      ensures FullHeaders(n)[a] != FullHeaders(n)[b]
    {
      FullHeaderPairDistinct(n, a, b);
    }
  }
}
