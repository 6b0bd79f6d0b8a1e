/** Choosing the ephemeris valid at an observation time: the two copies of
    find_closest_eph_idx (src/satellites.c keyed on time_of_week,
    src/satellite_position_eci.c keyed on gps_toe). */
module EphSelect {
  import opened Gnss
  import opened DfParser

  /** The index the scan returns over `keys`: the LAST index whose key is the
      greatest key not after t, or -1 when every key is after t. The scan
      starts with best_time = 0 and replaces on `>=`, so later ties win. */
  function BestIndex(keys: seq<nat>, t: nat): (r: int)
    ensures -1 <= r < |keys|
  {
    if |keys| == 0 then -1
    else
      var n := |keys| - 1;
      var b := BestIndex(keys[..n], t);
      if keys[n] <= t && keys[n] >= (if b < 0 then 0 else keys[b]) then n else b
  }

  /** BestIndex finds the latest-starting record valid at t: -1 exactly when
      no key is at or before t; otherwise its key is at or before t, no key
      at or before t is larger, and no later index has the same key. */
  lemma {:induction false} BestIndexCorrect(keys: seq<nat>, t: nat)
    ensures BestIndex(keys, t) == -1 <==> forall i :: 0 <= i < |keys| ==> keys[i] > t
    ensures var r := BestIndex(keys, t);
      r >= 0 ==>
        && keys[r] <= t
        && (forall i :: 0 <= i < |keys| && keys[i] <= t ==> keys[i] <= keys[r])
        && (forall i :: r < i < |keys| && keys[i] <= t ==> keys[i] < keys[r])
  {
    if |keys| > 0 {
      var n := |keys| - 1;
      BestIndexCorrect(keys[..n], t);
      assert forall i :: 0 <= i < n ==> keys[..n][i] == keys[i];
    }
  }

  /** The loop of find_closest_eph_idx over a list of keys. */
  method ClosestIndex(keys: seq<nat>, t: nat) returns (bestIdx: int)
    ensures bestIdx == BestIndex(keys, t)
  {
    bestIdx := -1;
    var bestTime: nat := 0;
    var i := 0;
    while i < |keys|
      invariant 0 <= i <= |keys|
      invariant bestIdx == BestIndex(keys[..i], t)
      invariant bestTime == if bestIdx < 0 then 0 else keys[bestIdx]
    {
      assert keys[..i + 1][..i] == keys[..i];
      var toe := keys[i];
      if toe <= t && toe >= bestTime {
        bestTime := toe;
        bestIdx := i;
      }
      i := i + 1;
    }
    assert keys[..i] == keys;
  }

  /** Records actually held in a history: the counter can run past the capacity. */
  function Stored(h: EphHistory): (n: nat)
    ensures n <= h.count && n <= |h.eph|
  {
    Min(h.count, |h.eph|)
  }

  function TimeOfWeekKeys(h: EphHistory): (keys: seq<nat>)
    ensures |keys| == Stored(h)
  {
    seq(Stored(h), i requires 0 <= i < Stored(h) => h.eph[i].timeOfWeek)
  }

  function ToeKeys(h: EphHistory): (keys: seq<nat>)
    ensures |keys| == Stored(h)
  {
    seq(Stored(h), i requires 0 <= i < Stored(h) => h.eph[i].gpsToe)
  }

  /** find_closest_eph_idx of src/satellites.c, scanning only stored records. */
  method FindClosestByTimeOfWeek(h: EphHistory, t: nat) returns (idx: int)
    ensures idx == BestIndex(TimeOfWeekKeys(h), t)
    ensures -1 <= idx < Stored(h)
  {
    idx := ClosestIndex(TimeOfWeekKeys(h), t);
  }

  /** find_closest_eph_idx of src/satellite_position_eci.c, scanning only stored records. */
  method FindClosestByToe(h: EphHistory, t: nat) returns (idx: int)
    ensures idx == BestIndex(ToeKeys(h), t)
    ensures -1 <= idx < Stored(h)
  {
    idx := ClosestIndex(ToeKeys(h), t);
  }

  /** Every decoded record carries its toe in both fields, so the two copies
      choose the same record. */
  lemma BothSelectorsAgree(h: EphHistory, t: nat)
    requires forall i :: 0 <= i < |h.eph| ==> h.eph[i].gpsToe == h.eph[i].timeOfWeek
    ensures BestIndex(TimeOfWeekKeys(h), t) == BestIndex(ToeKeys(h), t)
  {
    assert TimeOfWeekKeys(h) == ToeKeys(h);
  }

  /** The loop of find_closest_eph_idx as written, from iteration i with
      best_idx and best_time: it walks i < count and reads eph[i], so an
      index at or past the array's length is a read outside the history
      (modelled as None: no defined result). The scan reads time_of_week as
      src/satellites.c does; the gps_toe copy of src/satellite_position_eci.c
      walks the same `i < count` bound, and on decoded records, which carry
      toe in both fields, BothSelectorsAgree makes its choice the same. */
  function ScanAsWritten(h: EphHistory, t: nat, i: nat, bestIdx: int, bestTime: nat): Option<int>
    decreases h.count - i
  {
    if i >= h.count then Some(bestIdx)
    else if i >= |h.eph| then None
    else
      var toe := h.eph[i].timeOfWeek;
      if toe <= t && toe >= bestTime then ScanAsWritten(h, t, i + 1, i, toe)
      else ScanAsWritten(h, t, i + 1, bestIdx, bestTime)
  }

  /** find_closest_eph_idx as written: the scan from best_idx = -1, best_time = 0. */
  function FindClosestAsWritten(h: EphHistory, t: nat): Option<int>
  {
    ScanAsWritten(h, t, 0, -1, 0)
  }

  /** Continuing the as-written scan from a state that agrees with BestIndex
      on the records visited so far reads past the array exactly when count
      exceeds the capacity, and otherwise ends at BestIndex of all records. */
  lemma {:induction false} ScanAsWrittenFrom(h: EphHistory, t: nat, i: nat, bestIdx: int, bestTime: nat)
    requires i <= Stored(h)
    requires bestIdx == BestIndex(TimeOfWeekKeys(h)[..i], t)
    requires bestTime == if bestIdx < 0 then 0 else TimeOfWeekKeys(h)[bestIdx]
    ensures ScanAsWritten(h, t, i, bestIdx, bestTime).Some? <==> h.count <= |h.eph|
    ensures h.count <= |h.eph| ==> ScanAsWritten(h, t, i, bestIdx, bestTime) == Some(BestIndex(TimeOfWeekKeys(h), t))
    decreases h.count - i
  {
    var keys := TimeOfWeekKeys(h);
    if i == Stored(h) {
      assert keys[..i] == keys;
    } else {
      assert keys[..i + 1][..i] == keys[..i];
      var toe := h.eph[i].timeOfWeek;
      if toe <= t && toe >= bestTime {
        ScanAsWrittenFrom(h, t, i + 1, i, toe);
      } else {
        ScanAsWrittenFrom(h, t, i + 1, bestIdx, bestTime);
      }
    }
  }

  /** The as-written scan has a defined result exactly when count is within
      the capacity, and then it is the bounded scan's choice. */
  lemma FindClosestAsWrittenMeaning(h: EphHistory, t: nat)
    ensures FindClosestAsWritten(h, t).Some? <==> h.count <= |h.eph|
    ensures h.count <= |h.eph| ==> FindClosestAsWritten(h, t) == Some(BestIndex(TimeOfWeekKeys(h), t))
  {
    ScanAsWrittenFrom(h, t, 0, -1, 0);
  }

  /** A full history (count == capacity) that receives one more record makes
      the as-written scan read past the array, for every observation time. */
  lemma AsWrittenOverrunsAfterOverflow(h: EphHistory, e: Ephemeris, t: nat)
    requires h.count == |h.eph|
    ensures FindClosestAsWritten(EphAppend(h, e), t).None?
    ensures FindClosestAsWritten(h, t).Some?
  {
    FindClosestAsWrittenMeaning(EphAppend(h, e), t);
    FindClosestAsWrittenMeaning(h, t);
  }

  /** The bounded scan still answers after overflow, and the extra record is
      dropped: it chooses as it did before the overflowing store. */
  lemma {:induction false} BoundedScanIgnoresOverflow(h: EphHistory, e: Ephemeris, t: nat)
    requires h.count >= |h.eph|
    ensures BestIndex(TimeOfWeekKeys(EphAppend(h, e)), t) == BestIndex(TimeOfWeekKeys(h), t)
  {
    assert TimeOfWeekKeys(EphAppend(h, e)) == TimeOfWeekKeys(h);
  }
}
