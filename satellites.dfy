/** sort_satellites (src/satellites.c): regroup the MSM4 history per PRN into
    gps_list, pairing each stored observation with the ephemeris valid at
    its time. */
module Satellites {
  import opened Gnss
  import opened DfParser
  import opened EphSelect

  /** Epoch k of one satellite in gps_list: the pseudorange, its time and the
      orbital elements of the chosen ephemeris (all zero when absent). */
  datatype Slot = Slot(
    pseudorange: real,
    timeOfPseudorange: nat,
    eccentricity: real,
    inclination: real,
    meanAnomaly: real,
    semiMajorAxis: real,
    rightAscension: real,
    argumentOfPeriapsis: real,
    timeOfEphemeris: real)

  const ZeroSlot: Slot := Slot(0.0, 0, 0.0, 0.0, 0.0, 0.0, 0.0, 0.0, 0.0)

  /** gps_satellite_data_t, one row of MAX_EPOCHS slots. */
  datatype SatelliteData = SatelliteData(prn: real, slots: seq<Slot>)

  /** An entry of gps_list after the memset. */
  function EmptySatellite(maxEpochs: nat): (s: SatelliteData)
    ensures s.prn == 0.0 && |s.slots| == maxEpochs
    ensures forall k :: 0 <= k < maxEpochs ==> s.slots[k] == ZeroSlot
  {
    SatelliteData(0.0, seq(maxEpochs, _ => ZeroSlot))
  }

  /** The slot written for an observation (pr, t): the orbital elements of the
      ephemeris chosen for t, or zeros when none is valid at t. */
  function ObservedSlot(pr: real, t: nat, h: EphHistory): Slot
  {
    var idx := BestIndex(TimeOfWeekKeys(h), t);
    if idx < 0 then ZeroSlot.(pseudorange := pr, timeOfPseudorange := t)
    else
      var e := h.eph[idx];
      Slot(pr, t, e.eccentricity, e.inclination, e.meanAnomaly, e.semiMajorAxis,
           e.rightAscension, e.argumentOfPeriapsis, e.timeOfWeek as real)
  }

  /** The slot sort_satellites writes for PRN p from one stored MSM4 record:
      the record's entry for p's first position in its satellite list, or
      zeros when p is not listed. */
  function SlotFor(m: Msm4, h: EphHistory, p: int): Slot
    requires m.Valid()
  {
    var j := FirstIndexOf<int>(m.Prns(), p);
    if j < 0 then ZeroSlot else ObservedSlot(m.pseudorange[j], m.timeOfPseudorange, h)
  }

  /** The whole row sort_satellites builds for PRN p. */
  function RowFor(count: nat, history: seq<Msm4>, h: EphHistory, p: int, maxEpochs: nat): (row: seq<Slot>)
    requires Msm4RowOk(history, maxEpochs)
    ensures |row| == maxEpochs
  {
    seq(maxEpochs, k requires 0 <= k < maxEpochs => if k < count then SlotFor(history[k], h, p) else ZeroSlot)
  }

  /** What a slot holds: zeros when the satellite is not in the record;
      otherwise the pseudorange at the satellite's first position and the
      record time, and the orbital elements and time of week of record c =
      BestIndex of the stored times of week: zeros when c is -1, which
      happens exactly when every stored record starts after the record
      time; otherwise all six elements of the latest-starting stored record
      not after that time. */
  lemma SlotForMeaning(m: Msm4, h: EphHistory, p: int)
    requires m.Valid()
    ensures (forall k :: 0 <= k < m.nSat ==> m.sats[k].prn != p) ==> SlotFor(m, h, p) == ZeroSlot
    ensures var t := m.timeOfPseudorange;
      var c := BestIndex(TimeOfWeekKeys(h), t);
      && (c == -1 <==> forall i :: 0 <= i < Stored(h) ==> h.eph[i].timeOfWeek > t)
      && (c >= 0 ==>
            && c < Stored(h)
            && h.eph[c].timeOfWeek <= t
            && forall i :: 0 <= i < Stored(h) && h.eph[i].timeOfWeek <= t ==> h.eph[i].timeOfWeek <= h.eph[c].timeOfWeek)
    ensures var s := SlotFor(m, h, p);
      var t := m.timeOfPseudorange;
      var c := BestIndex(TimeOfWeekKeys(h), t);
      forall j :: 0 <= j < m.nSat && m.sats[j].prn == p && (forall k :: 0 <= k < j ==> m.sats[k].prn != p) ==>
        && s.pseudorange == m.pseudorange[j]
        && s.timeOfPseudorange == t
        && (c < 0 ==> s == ZeroSlot.(pseudorange := m.pseudorange[j], timeOfPseudorange := t))
        && (c >= 0 ==>
              && s.eccentricity == h.eph[c].eccentricity
              && s.inclination == h.eph[c].inclination
              && s.meanAnomaly == h.eph[c].meanAnomaly
              && s.semiMajorAxis == h.eph[c].semiMajorAxis
              && s.rightAscension == h.eph[c].rightAscension
              && s.argumentOfPeriapsis == h.eph[c].argumentOfPeriapsis
              && s.timeOfEphemeris == h.eph[c].timeOfWeek as real)
  {
    var keys := TimeOfWeekKeys(h);
    var t := m.timeOfPseudorange;
    BestIndexCorrect(keys, t);
    var prns := m.Prns();
    assert forall k :: 0 <= k < m.nSat ==> prns[k] == m.sats[k].prn;
    assert forall i :: 0 <= i < Stored(h) ==> keys[i] == h.eph[i].timeOfWeek;
  }

  /** sort_satellites: clear gps_list, then for every PRN 1..32 fill the
      first min(msm4_count, MAX_EPOCHS) slots from its MSM4 history. */
  method SortSatellites(gpsList: array<SatelliteData>, ephHistory: seq<EphHistory>,
                        msm4Count: seq<nat>, msm4History: seq<seq<Msm4>>, maxEpochs: nat)
    returns (rc: int)
    requires gpsList.Length == MAX_SAT + 1
    requires |ephHistory| == MAX_SAT + 1 && |msm4Count| == MAX_SAT + 1 && |msm4History| == MAX_SAT + 1
    requires forall p :: 0 <= p <= MAX_SAT ==> Msm4RowOk(msm4History[p], maxEpochs)
    modifies gpsList
    ensures rc == 0
    ensures gpsList[0] == EmptySatellite(maxEpochs)
    ensures forall p :: 1 <= p <= MAX_SAT ==>
              gpsList[p] == SatelliteData(p as real, RowFor(msm4Count[p], msm4History[p], ephHistory[p], p, maxEpochs))
  {
    var q := 0;
    while q < gpsList.Length
      invariant 0 <= q <= gpsList.Length
      invariant forall r :: 0 <= r < q ==> gpsList[r] == EmptySatellite(maxEpochs)
    {
      gpsList[q] := EmptySatellite(maxEpochs);
      q := q + 1;
    }

    var prn := 1;
    while prn <= MAX_SAT
      invariant 1 <= prn <= MAX_SAT + 1
      invariant gpsList[0] == EmptySatellite(maxEpochs)
      invariant forall p :: 1 <= p < prn ==>
                  gpsList[p] == SatelliteData(p as real, RowFor(msm4Count[p], msm4History[p], ephHistory[p], p, maxEpochs))
    {
      var row := RowForPrn(msm4Count[prn], msm4History[prn], ephHistory[prn], prn, maxEpochs);
      gpsList[prn] := SatelliteData(prn as real, row);
      prn := prn + 1;
    }
    rc := 0;
  }

  /** The body of sort_satellites for one PRN: the slot loop with its inner
      search for the PRN in each record's satellite list. */
  method RowForPrn(count: nat, history: seq<Msm4>, h: EphHistory, prn: int, maxEpochs: nat)
    returns (row: seq<Slot>)
    requires Msm4RowOk(history, maxEpochs)
    ensures row == RowFor(count, history, h, prn, maxEpochs)
  {
    row := seq(maxEpochs, _ => ZeroSlot);
    var i := 0;
    while i < count && i < maxEpochs
      invariant 0 <= i <= maxEpochs && |row| == maxEpochs
      invariant i <= count
      invariant forall k :: 0 <= k < i ==> row[k] == SlotFor(history[k], h, prn)
      invariant forall k :: i <= k < maxEpochs ==> row[k] == ZeroSlot
    {
      var m := history[i];
      var j := 0;
      while j < m.nSat && m.sats[j].prn != prn
        invariant 0 <= j <= m.nSat
        invariant forall k :: 0 <= k < j ==> m.sats[k].prn != prn
      {
        j := j + 1;
      }
      var slot := ZeroSlot;
      if j < m.nSat {
        var idx := FindClosestByTimeOfWeek(h, m.timeOfPseudorange);
        if idx >= 0 {
          var e := h.eph[idx];
          slot := Slot(m.pseudorange[j], m.timeOfPseudorange, e.eccentricity, e.inclination, e.meanAnomaly,
                       e.semiMajorAxis, e.rightAscension, e.argumentOfPeriapsis, e.timeOfWeek as real);
        } else {
          slot := ZeroSlot.(pseudorange := m.pseudorange[j], timeOfPseudorange := m.timeOfPseudorange);
        }
      }
      assert forall k :: 0 <= k < m.nSat ==> m.Prns()[k] == m.sats[k].prn;
      assert slot == SlotFor(m, h, prn);
      row := row[i := slot];
      i := i + 1;
    }
  }
}
