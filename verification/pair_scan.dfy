/** The pair scan both `processRowData` loops perform over the columns
    `Check-in 1`/`Check-out 1` … `Check-in 10`/`Check-out 10` of one
    employee-day row. Each function below is what the loop variables hold
    after pairs 1..k; the lemmas say what those values mean. */
module PairScan {
  import opened Wrappers
  import opened TimeParse

  /** Both loops stop at pair 10. */
  const MAX_PAIRS: nat := 10

  /** The raw `Check-in i` and `Check-out i` cells; `None` is a missing or null cell. */
  datatype Pair = Pair(checkIn: Option<string>, checkOut: Option<string>)

  /** One row of a daily sheet: `UID`, `Name` and its pair columns 1..|pairs|. */
  datatype DailyRow = DailyRow(uid: string, name: string, pairs: seq<Pair>)

  /** The cells of pair `i` (1-based); columns the row does not have read as missing. */
  function PairAt(pairs: seq<Pair>, i: nat): Pair
    requires i >= 1
  {
    if i <= |pairs| then pairs[i - 1] else Pair(None, None)
  }

  function InAt(host: Host, pairs: seq<Pair>, i: nat): Option<Stamp>
    requires i >= 1
  {
    ParseTime(host, PairAt(pairs, i).checkIn)
  }

  function OutAt(host: Host, pairs: seq<Pair>, i: nat): Option<Stamp>
    requires i >= 1
  {
    ParseTime(host, PairAt(pairs, i).checkOut)
  }

  /** Pair `i` has a check-in or a check-out that parses (Invalid Date included). */
  predicate HasEvent(host: Host, pairs: seq<Pair>, i: nat)
    requires i >= 1
  {
    InAt(host, pairs, i).Some? || OutAt(host, pairs, i).Some?
  }

  /** Pair `i` is a correctly ordered interval: both sides are valid dates and the
      check-out is strictly later than the check-in. */
  predicate Ordered(host: Host, pairs: seq<Pair>, i: nat)
    requires i >= 1
  {
    var cin, cout := InAt(host, pairs, i), OutAt(host, pairs, i);
    cin.Some? && cin.value.At? && cout.Some? && cout.value.At? && cout.value.ms > cin.value.ms
  }

  /** What pair `i` adds to `totalWorkMilliseconds`. */
  function PairWork(host: Host, pairs: seq<Pair>, i: nat): (w: int)
    requires i >= 1
    ensures w >= 0
    ensures w > 0 <==> Ordered(host, pairs, i)
  {
    if Ordered(host, pairs, i) then OutAt(host, pairs, i).value.ms - InAt(host, pairs, i).value.ms else 0
  }

  /** `totalWorkMilliseconds` after pairs 1..k. */
  function WorkUpTo(host: Host, pairs: seq<Pair>, k: nat): (w: int)
    ensures w >= 0
  {
    if k == 0 then 0 else WorkUpTo(host, pairs, k - 1) + PairWork(host, pairs, k)
  }

  /** The index of the pair whose check-in `firstCheckIn` holds after pairs 1..k. */
  function FirstInUpTo(host: Host, pairs: seq<Pair>, k: nat): (r: Option<nat>)
    ensures r.Some? ==> 1 <= r.value <= k && InAt(host, pairs, r.value).Some?
  {
    if k == 0 then None
    else
      var earlier := FirstInUpTo(host, pairs, k - 1);
      if earlier.Some? then earlier
      else if InAt(host, pairs, k).Some? then Some(k)
      else None
  }

  /** The index of the pair whose check-out `lastCheckOut` holds after pairs 1..k. */
  function LastOutUpTo(host: Host, pairs: seq<Pair>, k: nat): (r: Option<nat>)
    ensures r.Some? ==> 1 <= r.value <= k && OutAt(host, pairs, r.value).Some?
  {
    if k == 0 then None
    else if OutAt(host, pairs, k).Some? then Some(k)
    else LastOutUpTo(host, pairs, k - 1)
  }

  /** The parsed `firstCheckIn` after pairs 1..k (`null` when there is none). */
  function FirstInStamp(host: Host, pairs: seq<Pair>, k: nat): Option<Stamp>
  {
    var j := FirstInUpTo(host, pairs, k);
    if j.Some? then InAt(host, pairs, j.value) else None
  }

  /** The parsed `lastCheckOut` after pairs 1..k (`null` when there is none). */
  function LastOutStamp(host: Host, pairs: seq<Pair>, k: nat): Option<Stamp>
  {
    var j := LastOutUpTo(host, pairs, k);
    if j.Some? then OutAt(host, pairs, j.value) else None
  }

  /** The scan's verdict: `'—'`, `'Checked In'` or `'Checked Out'`. */
  datatype ScanStatus = NoEvents | CheckedIn | CheckedOut

  /** `status` after pairs 1..k (a check-out in a pair overrides its check-in).
      A `'Checked In'` status comes with a first check-in, a `'Checked Out'`
      status with a last check-out. */
  function StatusUpTo(host: Host, pairs: seq<Pair>, k: nat): (r: ScanStatus)
    ensures r == CheckedIn ==> FirstInUpTo(host, pairs, k).Some?
    ensures r == CheckedOut ==> LastOutUpTo(host, pairs, k).Some?
  {
    if k == 0 then NoEvents
    else if OutAt(host, pairs, k).Some? then CheckedOut
    else if InAt(host, pairs, k).Some? then CheckedIn
    else StatusUpTo(host, pairs, k - 1)
  }

  /** The total is a sum of non-negative contributions: never negative, so the
      source's `Math.max(0, …)` changes nothing. It is zero exactly when no pair
      is correctly ordered. */
  lemma {:induction false} WorkNonNegative(host: Host, pairs: seq<Pair>, k: nat)
    ensures WorkUpTo(host, pairs, k) >= 0
    ensures WorkUpTo(host, pairs, k) == 0 <==> forall i :: 1 <= i <= k ==> !Ordered(host, pairs, i)
  {
    if k > 0 {
      WorkNonNegative(host, pairs, k - 1);
    }
  }

  /** Adding a pair never lowers the total. */
  lemma {:induction false} WorkMonotone(host: Host, pairs: seq<Pair>, j: nat, k: nat)
    requires j <= k
    ensures WorkUpTo(host, pairs, j) <= WorkUpTo(host, pairs, k)
  {
    if j < k {
      WorkMonotone(host, pairs, j, k - 1);
    }
  }

  /** `firstCheckIn` is the check-in of the lowest-index pair that has one. */
  lemma {:induction false} FirstInIsFirst(host: Host, pairs: seq<Pair>, k: nat)
    ensures FirstInUpTo(host, pairs, k) == None <==> forall i :: 1 <= i <= k ==> InAt(host, pairs, i) == None
    ensures FirstInUpTo(host, pairs, k).Some? ==>
      var j := FirstInUpTo(host, pairs, k).value;
      1 <= j <= k && InAt(host, pairs, j).Some? && forall i :: 1 <= i < j ==> InAt(host, pairs, i) == None
  {
    if k > 0 {
      FirstInIsFirst(host, pairs, k - 1);
    }
  }

  /** `lastCheckOut` is the check-out of the highest-index pair that has one. */
  lemma {:induction false} LastOutIsLast(host: Host, pairs: seq<Pair>, k: nat)
    ensures LastOutUpTo(host, pairs, k) == None <==> forall i :: 1 <= i <= k ==> OutAt(host, pairs, i) == None
    ensures LastOutUpTo(host, pairs, k).Some? ==>
      var j := LastOutUpTo(host, pairs, k).value;
      1 <= j <= k && OutAt(host, pairs, j).Some? && forall i :: j < i <= k ==> OutAt(host, pairs, i) == None
  {
    if k > 0 {
      LastOutIsLast(host, pairs, k - 1);
    }
  }

  /** The status is `'—'` exactly when no pair has an event. */
  lemma {:induction false} NoEventsIff(host: Host, pairs: seq<Pair>, k: nat)
    ensures StatusUpTo(host, pairs, k) == NoEvents <==> forall i :: 1 <= i <= k ==> !HasEvent(host, pairs, i)
  {
    if k > 0 {
      NoEventsIff(host, pairs, k - 1);
      if HasEvent(host, pairs, k) {
        assert StatusUpTo(host, pairs, k) != NoEvents;
      } else {
        assert StatusUpTo(host, pairs, k) == StatusUpTo(host, pairs, k - 1);
      }
    }
  }

  /** Otherwise the highest-index pair with any event decides: `'Checked Out'` when
      it has a check-out, `'Checked In'` when it has only a check-in. */
  lemma {:induction false} LastEventDecides(host: Host, pairs: seq<Pair>, k: nat, j: nat)
    requires 1 <= j <= k && HasEvent(host, pairs, j)
    requires forall i :: j < i <= k ==> !HasEvent(host, pairs, i)
    ensures StatusUpTo(host, pairs, k) == if OutAt(host, pairs, j).Some? then CheckedOut else CheckedIn
  {
    if j < k {
      assert !HasEvent(host, pairs, k);
      LastEventDecides(host, pairs, k - 1, j);
    }
  }

  /** Conversely, any status other than `'—'` was decided by such a pair. */
  lemma {:induction false} LastEventWitness(host: Host, pairs: seq<Pair>, k: nat)
    requires StatusUpTo(host, pairs, k) != NoEvents
    ensures exists j ::
              && 1 <= j <= k && HasEvent(host, pairs, j)
              && (forall i :: j < i <= k ==> !HasEvent(host, pairs, i))
              && StatusUpTo(host, pairs, k) == (if OutAt(host, pairs, j).Some? then CheckedOut else CheckedIn)
  {
    if !HasEvent(host, pairs, k) {
      LastEventWitness(host, pairs, k - 1);
      var j :| 1 <= j <= k - 1 && HasEvent(host, pairs, j)
        && (forall i :: j < i <= k - 1 ==> !HasEvent(host, pairs, i))
        && StatusUpTo(host, pairs, k - 1) == (if OutAt(host, pairs, j).Some? then CheckedOut else CheckedIn);
      assert forall i :: j < i <= k ==> !HasEvent(host, pairs, i);
    }
  }

  /** A `'—'` status comes with no first check-in, no last check-out and no work
      (the other two statuses carry their witnesses in `StatusUpTo`'s contract). */
  lemma {:induction false} StatusWitnesses(host: Host, pairs: seq<Pair>, k: nat)
    ensures StatusUpTo(host, pairs, k) == NoEvents ==>
      FirstInUpTo(host, pairs, k) == None && LastOutUpTo(host, pairs, k) == None && WorkUpTo(host, pairs, k) == 0
  {
    if k > 0 {
      StatusWitnesses(host, pairs, k - 1);
      FirstInIsFirst(host, pairs, k - 1);
    }
  }

  /** Columns after pair `k` play no part in the scan of pairs 1..k; with
      k = `MAX_PAIRS`, pairs 11 and beyond are ignored. */
  lemma {:induction false} LaterColumnsIgnored(host: Host, pairs: seq<Pair>, more: seq<Pair>, k: nat)
    requires k <= |pairs|
    ensures WorkUpTo(host, pairs + more, k) == WorkUpTo(host, pairs, k)
    ensures FirstInUpTo(host, pairs + more, k) == FirstInUpTo(host, pairs, k)
    ensures LastOutUpTo(host, pairs + more, k) == LastOutUpTo(host, pairs, k)
    ensures StatusUpTo(host, pairs + more, k) == StatusUpTo(host, pairs, k)
  {
    if k > 0 {
      assert PairAt(pairs + more, k) == PairAt(pairs, k);
      assert InAt(host, pairs + more, k) == InAt(host, pairs, k);
      assert OutAt(host, pairs + more, k) == OutAt(host, pairs, k);
      assert PairWork(host, pairs + more, k) == PairWork(host, pairs, k);
      LaterColumnsIgnored(host, pairs, more, k - 1);
    }
  }
}
