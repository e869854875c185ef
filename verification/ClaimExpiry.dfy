/** Where a record stands against its horizon, day by day
    (crates/aep-backend-markdown/src/claim.rs:196-221). */
module ClaimExpiry {
  import opened Wrappers
  import opened Dates
  import opened Calendar
  import opened Claims
  import opened ClaimCounting
  import opened ClaimRoundTrip
  import opened ClaimMeaning

  datatype ClaimState = Ok(remainingDays: nat) | Expiring(remainingDays: nat) | Expired(overrunDays: nat)

  /** `u32::try_from` with the largest value where the number does not fit. */
  function Cut(days: nat): nat { if days <= U32_MAX then days else U32_MAX }

  /** `ClaimRecord::state`. */
  function StateAt(r: ClaimRecord, at: CivilDate, warnDays: nat): ClaimState {
    var remaining := r.horizon.days - DaysSince(at, r.date);
    if remaining < 0 then Expired(Cut(-remaining))
    else if Cut(remaining) <= warnDays then Expiring(Cut(remaining))
    else ClaimState.Ok(Cut(remaining))
  }

  /** The day that comes `n` days after. */
  function DaysLater(date: CivilDate, n: nat): CivilDate { if n == 0 then date else NextDay(DaysLater(date, n - 1)) }

  lemma {:induction false} LaterIsCounted(date: CivilDate, n: nat)
    requires date.Exists()
    ensures DaysLater(date, n).Exists() && DaysSince(DaysLater(date, n), date) == n
  {
    hide DaysFromEpoch, NextDay, CivilDate.Exists;
    if n > 0 {
      LaterIsCounted(date, n - 1);
      NumbersCountDays(DaysLater(date, n - 1));
    }
  }

  /** A record holds through the day it was observed on and as many days after as its horizon says, the last
      of them included; the days left count down to zero over them, it is expiring for the last of them that
      the warning names, and from then on the days over count up. */
  lemma HorizonCoversExactly(r: ClaimRecord, n: nat, warnDays: nat)
    requires r.date.Exists() && r.horizon.Accepted()
    ensures var state, days := StateAt(r, DaysLater(r.date, n), warnDays), r.horizon.days;
            if n > days then state == Expired(if n - days <= 0xFFFF_FFFF then n - days else 0xFFFF_FFFF)
            else if days - n <= warnDays then state == Expiring(days - n)
            else state == ClaimState.Ok(days - n)
  {
    hide DaysFromEpoch, CivilDate.Exists;
    LaterIsCounted(r.date, n);
  }

  /** A record scanned with a reference date never has more days left then than its horizon allows. */
  lemma NoneOutlivesItsHorizon(text: string, now: CivilDate, r: ClaimRecord, warnDays: nat)
    requires now.Exists() && r in Scan(text, Some(now)).records
    ensures !StateAt(r, now, warnDays).Expired? ==> StateAt(r, now, warnDays).remainingDays <= r.horizon.days <= 3650
  {
    hide DaysFromEpoch, CivilDate.Exists, Scan;
    NoRecordIsBeyond(text, now, r);
    var i :| 0 <= i < |Scan(text, Some(now)).records| && Scan(text, Some(now)).records[i] == r;
    ScannedIsNormal(text, Some(now), i);
  }
}
