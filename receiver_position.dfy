/** The per-epoch part of estimate_receiver_positions (src/receiver_position.c):
    for every unique pseudorange time, gather the first matching measurement
    of each PRN, skip the epoch below four satellites, run the Newton solver
    and store the position (and its geodetic form) by epoch index. */
module ReceiverPosition {
  import opened Gnss
  import opened Satellites
  import opened SatellitePositionEcef
  import opened ReceiverEpochs
  import opened ReceiverSolver

  /** Fewer gathered satellites than this and the epoch is skipped. */
  const MIN_SATS: nat := 4

  /** One gathered measurement: svs[i], pr_indices[i], ecefs[i] and
      pseudoranges[i] of the source. */
  datatype Gathered = Gathered(prn: nat, index: nat, sat: Sat)

  /** The ECEF histories line up slot by slot with the satellite tables. */
  predicate EcefTables(glist: seq<SatelliteData>, ecef: seq<seq<EcefSample>>)
  {
    |glist| == MAX_SAT + 1 && |ecef| == MAX_SAT + 1 &&
    forall p :: 0 <= p <= MAX_SAT ==> |ecef[p]| == |glist[p].slots|
  }

  // ---------------------------------------------------------------------
  // Gathering one epoch
  // ---------------------------------------------------------------------

  /** What PRN p contributes at time t: its first scanned slot with that
      time, the ECEF sample of the same slot and its pseudorange; nothing
      when no scanned slot has the time. */
  function MatchFor(glist: seq<SatelliteData>, counts: seq<nat>, ecef: seq<seq<EcefSample>>, t: nat, p: nat)
    : (m: Option<Gathered>)
    requires Tables(glist, counts) && EcefTables(glist, ecef) && 1 <= p <= MAX_SAT
    ensures m.Some? <==> t in Row(glist, counts, p)
    ensures m.Some? ==>
              var k := m.value.index;
              && m.value.prn == p
              && k < PrCount(counts[p], glist[p].slots)
              && glist[p].slots[k].timeOfPseudorange == t
              && (forall j :: 0 <= j < k ==> glist[p].slots[j].timeOfPseudorange != t)
              && m.value.sat == Sat(ecef[p][k].pos, glist[p].slots[k].pseudorange)
  {
    var row := Row(glist, counts, p);
    var k := FirstIndexOf(row, t);
    if k < 0 then None
    else Some(Gathered(p, k, Sat(ecef[p][k].pos, glist[p].slots[k].pseudorange)))
  }

  /** The measurements gathered from PRNs 1..p, in PRN order. */
  function GatherUpTo(glist: seq<SatelliteData>, counts: seq<nat>, ecef: seq<seq<EcefSample>>, t: nat, p: nat)
    : (g: seq<Gathered>)
    requires Tables(glist, counts) && EcefTables(glist, ecef) && p <= MAX_SAT
    ensures |g| <= p
  {
    if p == 0 then []
    else
      var prev := GatherUpTo(glist, counts, ecef, t, p - 1);
      match MatchFor(glist, counts, ecef, t, p)
      case None => prev
      case Some(m) => prev + [m]
  }

  function Gather(glist: seq<SatelliteData>, counts: seq<nat>, ecef: seq<seq<EcefSample>>, t: nat): seq<Gathered>
    requires Tables(glist, counts) && EcefTables(glist, ecef)
  {
    GatherUpTo(glist, counts, ecef, t, MAX_SAT)
  }

  /** Every entry is the first match of a PRN in 1..p. */
  predicate FirstMatches(glist: seq<SatelliteData>, counts: seq<nat>, ecef: seq<seq<EcefSample>>, t: nat,
                         g: seq<Gathered>, p: nat)
    requires Tables(glist, counts) && EcefTables(glist, ecef) && p <= MAX_SAT
  {
    forall i :: 0 <= i < |g| ==> 1 <= g[i].prn <= p && MatchFor(glist, counts, ecef, t, g[i].prn) == Some(g[i])
  }

  /** PRNs in strictly ascending order. */
  predicate AscendingPrns(g: seq<Gathered>)
  {
    forall i, j :: 0 <= i < j < |g| ==> g[i].prn < g[j].prn
  }

  /** Some entry is PRN q's. */
  predicate HasPrn(g: seq<Gathered>, q: nat)
  {
    exists i :: 0 <= i < |g| && g[i].prn == q
  }

  /** The gathered list visits PRNs in strictly ascending order, holds each
      PRN's first match and nothing else, and holds a PRN exactly when one
      of its scanned slots has the epoch's time. */
  lemma GatherMeaning(glist: seq<SatelliteData>, counts: seq<nat>, ecef: seq<seq<EcefSample>>, t: nat, p: nat)
    requires Tables(glist, counts) && EcefTables(glist, ecef) && p <= MAX_SAT
    ensures FirstMatches(glist, counts, ecef, t, GatherUpTo(glist, counts, ecef, t, p), p)
    ensures AscendingPrns(GatherUpTo(glist, counts, ecef, t, p))
    ensures forall q :: 1 <= q <= p ==>
              (t in Row(glist, counts, q) <==> HasPrn(GatherUpTo(glist, counts, ecef, t, p), q))
  {
    GatherEntries(glist, counts, ecef, t, p);
    GatherAscending(glist, counts, ecef, t, p);
    forall q | 1 <= q <= p
      ensures t in Row(glist, counts, q) <==> HasPrn(GatherUpTo(glist, counts, ecef, t, p), q)
    {
      GatherComplete(glist, counts, ecef, t, p, q);
    }
  }

  lemma {:induction false} GatherEntries(glist: seq<SatelliteData>, counts: seq<nat>, ecef: seq<seq<EcefSample>>,
                                         t: nat, p: nat)
    requires Tables(glist, counts) && EcefTables(glist, ecef) && p <= MAX_SAT
    ensures FirstMatches(glist, counts, ecef, t, GatherUpTo(glist, counts, ecef, t, p), p)
  {
    if p > 0 {
      var prev := GatherUpTo(glist, counts, ecef, t, p - 1);
      var g := GatherUpTo(glist, counts, ecef, t, p);
      GatherEntries(glist, counts, ecef, t, p - 1);
      forall i | 0 <= i < |g|
        ensures 1 <= g[i].prn <= p && MatchFor(glist, counts, ecef, t, g[i].prn) == Some(g[i])
      {
        if i < |prev| {
          assert g[i] == prev[i];
        }
      }
    }
  }

  lemma {:induction false} GatherAscending(glist: seq<SatelliteData>, counts: seq<nat>, ecef: seq<seq<EcefSample>>,
                                           t: nat, p: nat)
    requires Tables(glist, counts) && EcefTables(glist, ecef) && p <= MAX_SAT
    ensures AscendingPrns(GatherUpTo(glist, counts, ecef, t, p))
  {
    if p > 0 {
      var prev := GatherUpTo(glist, counts, ecef, t, p - 1);
      var g := GatherUpTo(glist, counts, ecef, t, p);
      GatherAscending(glist, counts, ecef, t, p - 1);
      GatherEntries(glist, counts, ecef, t, p - 1);
      forall i, j | 0 <= i < j < |g|
        ensures g[i].prn < g[j].prn
      {
        assert g[i] == prev[i];
        if j < |prev| {
          assert g[j] == prev[j];
        }
      }
    }
  }

  /** PRN q appears in the gathered list exactly when it has a match. */
  lemma {:induction false} GatherComplete(glist: seq<SatelliteData>, counts: seq<nat>, ecef: seq<seq<EcefSample>>,
                                          t: nat, p: nat, q: nat)
    requires Tables(glist, counts) && EcefTables(glist, ecef) && 1 <= q <= p <= MAX_SAT
    ensures MatchFor(glist, counts, ecef, t, q).Some? <==> HasPrn(GatherUpTo(glist, counts, ecef, t, p), q)
  {
    var prev := GatherUpTo(glist, counts, ecef, t, p - 1);
    var g := GatherUpTo(glist, counts, ecef, t, p);
    GatherEntries(glist, counts, ecef, t, p - 1);
    if q < p {
      GatherComplete(glist, counts, ecef, t, p - 1, q);
    }
    match MatchFor(glist, counts, ecef, t, p)
    case None =>
      assert g == prev;
      if q == p {
        assert forall i :: 0 <= i < |g| ==> g[i].prn < p;
      }
    case Some(m) =>
      assert g == prev + [m];
      if q < p {
        if HasPrn(g, q) {
          var i :| 0 <= i < |g| && g[i].prn == q;
          assert i < |prev| && prev[i].prn == q;
        }
        if HasPrn(prev, q) {
          var i :| 0 <= i < |prev| && prev[i].prn == q;
          assert g[i].prn == q;
        }
      } else {
        assert g[|g| - 1].prn == q;
      }
  }

  /** The gather loop for time t. The `n_svs < MAX_SAT` test never stops it
      early: each PRN adds at most one entry. */
  method GatherEpoch(glist: seq<SatelliteData>, counts: seq<nat>, ecef: seq<seq<EcefSample>>, t: nat)
    returns (svs: seq<Gathered>)
    requires Tables(glist, counts) && EcefTables(glist, ecef)
    ensures svs == Gather(glist, counts, ecef, t)
    ensures |svs| <= MAX_SAT
  {
    svs := [];
    var prn := 1;
    while prn <= MAX_SAT && |svs| < MAX_SAT
      invariant 1 <= prn <= MAX_SAT + 1
      invariant svs == GatherUpTo(glist, counts, ecef, t, prn - 1)
    {
      var nPr := PrCountForPrn(counts[prn], glist[prn].slots);
      ghost var row := Row(glist, counts, prn);
      var k := 0;
      while k < nPr
        invariant 0 <= k <= nPr
        invariant svs == GatherUpTo(glist, counts, ecef, t, prn - 1)
        invariant forall j :: 0 <= j < k ==> row[j] != t
      {
        if glist[prn].slots[k].timeOfPseudorange != t {
          k := k + 1;
          continue;
        }
        assert row[k] == t;
        assert FirstIndexOf(row, t) == k;
        svs := svs + [Gathered(prn, k, Sat(ecef[prn][k].pos, glist[prn].slots[k].pseudorange))];
        break;
      }
      prn := prn + 1;
    }
  }

  /** The satellites handed to the solver. */
  function EpochSats(g: seq<Gathered>): (sats: seq<Sat>)
    ensures |sats| == |g|
    ensures forall i :: 0 <= i < |g| ==> sats[i] == g[i].sat
  {
    seq(|g|, i requires 0 <= i < |g| => g[i].sat)
  }

  // ---------------------------------------------------------------------
  // One epoch
  // ---------------------------------------------------------------------

  /** The position estimated at time t: none when fewer than four
      satellites are gathered or a step is singular. */
  function EpochFix(math: Math, glist: seq<SatelliteData>, counts: seq<nat>, ecef: seq<seq<EcefSample>>, t: nat)
    : Option<Vec3>
    requires Tables(glist, counts) && EcefTables(glist, ecef)
  {
    var g := Gather(glist, counts, ecef, t);
    if |g| < MIN_SATS then None
    else
      match SolveEpoch(math, EpochSats(g))
      case None => None
      case Some(e) => Some(e.pos)
  }

  /** An epoch is stored only with at least four satellites, and then it is
      the position after ten Newton iterations from the origin. */
  lemma EpochFixMeaning(math: Math, glist: seq<SatelliteData>, counts: seq<nat>, ecef: seq<seq<EcefSample>>, t: nat)
    requires Tables(glist, counts) && EcefTables(glist, ecef)
    ensures var g := Gather(glist, counts, ecef, t);
            var fix := EpochFix(math, glist, counts, ecef, t);
            && (fix.Some? ==> MIN_SATS <= |g| <= MAX_SAT)
            && (fix.Some? <==> |g| >= MIN_SATS && Iterate(math, EpochSats(g), Estimate(Origin, 0.0), ITERATIONS).Some?)
            && (fix.Some? ==> fix.value == Iterate(math, EpochSats(g), Estimate(Origin, 0.0), ITERATIONS).value.pos)
  {
    SolveEpochRunsTenIterations(math, EpochSats(Gather(glist, counts, ecef, t)));
  }

  /** Gather, skip below four satellites, solve. */
  method SolveEpochAt(math: Math, glist: seq<SatelliteData>, counts: seq<nat>, ecef: seq<seq<EcefSample>>, t: nat)
    returns (fix: Option<Vec3>)
    requires Tables(glist, counts) && EcefTables(glist, ecef)
    ensures fix == EpochFix(math, glist, counts, ecef, t)
  {
    var svs := GatherEpoch(glist, counts, ecef, t);
    if |svs| < MIN_SATS {
      return None;
    }
    var res := SolveEpochLoop(math, EpochSats(svs));
    if res.None? {
      return None;
    }
    fix := Some(res.value.pos);
  }

  // ---------------------------------------------------------------------
  // Storing by epoch index
  // ---------------------------------------------------------------------

  /** The outputs after epochs 0..|fixes|-1: epoch i's value goes to index
      i when it was solved and i is inside the output array; nothing is
      written past its end. */
  function StoreAll<T>(out: seq<T>, fixes: seq<Option<T>>): (r: seq<T>)
    ensures |r| == |out|
    ensures forall i :: 0 <= i < |out| ==>
              r[i] == if i < |fixes| && fixes[i].Some? then fixes[i].value else out[i]
  {
    if |fixes| == 0 then out
    else
      var ti := |fixes| - 1;
      StoreAt(StoreAll(out, fixes[..ti]), ti, fixes[ti])
  }

  /** The guarded store of epoch ti. */
  function StoreAt<T>(out: seq<T>, ti: nat, fix: Option<T>): (r: seq<T>)
    ensures |r| == |out|
    ensures forall i :: 0 <= i < |out| && i != ti ==> r[i] == out[i]
    ensures ti < |out| ==> r[ti] == if fix.Some? then fix.value else out[ti]
  {
    match fix
    case None => out
    case Some(p) => if ti < |out| then out[ti := p] else out
  }

  /** The ECEF store as written: estimated_positions_ecef.x[ti] is assigned
      with no ti < MAX_EPOCHS test, so a solved epoch past the end writes
      outside the array (None here). */
  function StoreAllAsWritten<T>(out: seq<T>, fixes: seq<Option<T>>): Option<seq<T>>
  {
    if |fixes| == 0 then Some(out)
    else
      var ti := |fixes| - 1;
      match StoreAllAsWritten(out, fixes[..ti])
      case None => None
      case Some(prev) =>
        match fixes[ti]
        case None => Some(prev)
        case Some(p) => if ti < |prev| then Some(prev[ti := p]) else None
  }

  /** A solved epoch whose index is MAX_EPOCHS or more makes the unguarded
      store write out of bounds. */
  lemma {:induction false} AsWrittenOverruns<T>(out: seq<T>, fixes: seq<Option<T>>, i: nat)
    requires |out| <= i < |fixes| && fixes[i].Some?
    ensures StoreAllAsWritten(out, fixes).None?
  {
    var ti := |fixes| - 1;
    if i < ti {
      assert fixes[..ti][i] == fixes[i];
      AsWrittenOverruns(out, fixes[..ti], i);
    } else {
      AsWrittenAgreesWithStoreAll(out, fixes[..ti]);
    }
  }

  /** Without such an epoch the unguarded store and the guarded one agree. */
  lemma {:induction false} AsWrittenAgreesInBounds<T>(out: seq<T>, fixes: seq<Option<T>>)
    requires forall i :: |out| <= i < |fixes| ==> fixes[i].None?
    ensures StoreAllAsWritten(out, fixes) == Some(StoreAll(out, fixes))
  {
    if |fixes| > 0 {
      var ti := |fixes| - 1;
      assert forall i :: |out| <= i < ti ==> fixes[..ti][i] == fixes[i];
      AsWrittenAgreesInBounds(out, fixes[..ti]);
    }
  }

  /** Whenever the unguarded store stays in bounds its result is the
      guarded one's. */
  lemma {:induction false} AsWrittenAgreesWithStoreAll<T>(out: seq<T>, fixes: seq<Option<T>>)
    ensures StoreAllAsWritten(out, fixes).Some? ==> StoreAllAsWritten(out, fixes).value == StoreAll(out, fixes)
  {
    if |fixes| > 0 {
      AsWrittenAgreesWithStoreAll(out, fixes[..|fixes| - 1]);
    }
  }

  /** The geodetic form of a position: ecef_to_geodetic's outputs. */
  datatype Geodetic = Geodetic(latDeg: real, lonDeg: real, altM: real)

  /** The latitude stored for each epoch's fix. */
  function Latitudes(fixes: seq<Option<Vec3>>, toGeodetic: Vec3 -> Geodetic): (r: seq<Option<real>>)
    ensures |r| == |fixes|
    ensures forall i :: 0 <= i < |fixes| ==>
              r[i] == if fixes[i].Some? then Some(toGeodetic(fixes[i].value).latDeg) else None
  {
    seq(|fixes|, i requires 0 <= i < |fixes| =>
      if fixes[i].Some? then Some(toGeodetic(fixes[i].value).latDeg) else None)
  }

  /** The longitude stored for each epoch's fix. */
  function Longitudes(fixes: seq<Option<Vec3>>, toGeodetic: Vec3 -> Geodetic): (r: seq<Option<real>>)
    ensures |r| == |fixes|
    ensures forall i :: 0 <= i < |fixes| ==>
              r[i] == if fixes[i].Some? then Some(toGeodetic(fixes[i].value).lonDeg) else None
  {
    seq(|fixes|, i requires 0 <= i < |fixes| =>
      if fixes[i].Some? then Some(toGeodetic(fixes[i].value).lonDeg) else None)
  }

  /** Epoch i's fix for every collected time. */
  function Fixes(math: Math, glist: seq<SatelliteData>, counts: seq<nat>, ecef: seq<seq<EcefSample>>, times: seq<nat>)
    : (fixes: seq<Option<Vec3>>)
    requires Tables(glist, counts) && EcefTables(glist, ecef)
    ensures |fixes| == |times|
    ensures forall i :: 0 <= i < |times| ==> fixes[i] == EpochFix(math, glist, counts, ecef, times[i])
  {
    seq(|times|, i requires 0 <= i < |times| => EpochFix(math, glist, counts, ecef, times[i]))
  }

  /** A latitude and a longitude are stored exactly where a position is:
      index i of all three outputs is written when epoch i has a fix (the
      position and its geodetic coordinates), and all three keep their old
      values otherwise. */
  lemma StoredTogether(est: seq<Vec3>, lat: seq<real>, lon: seq<real>, fixes: seq<Option<Vec3>>,
                       toGeodetic: Vec3 -> Geodetic, i: nat)
    requires |lat| == |est| && |lon| == |est| && i < |est|
    ensures i < |fixes| && fixes[i].Some? ==>
              && StoreAll(est, fixes)[i] == fixes[i].value
              && StoreAll(lat, Latitudes(fixes, toGeodetic))[i] == toGeodetic(fixes[i].value).latDeg
              && StoreAll(lon, Longitudes(fixes, toGeodetic))[i] == toGeodetic(fixes[i].value).lonDeg
    ensures !(i < |fixes| && fixes[i].Some?) ==>
              && StoreAll(est, fixes)[i] == est[i]
              && StoreAll(lat, Latitudes(fixes, toGeodetic))[i] == lat[i]
              && StoreAll(lon, Longitudes(fixes, toGeodetic))[i] == lon[i]
  {
  }

  /** The stores of epoch ti, guarded by the output arrays' length. */
  method StoreEpoch(est: array<Vec3>, lat: array<real>, lon: array<real>, ti: nat, fix: Option<Vec3>,
                    toGeodetic: Vec3 -> Geodetic)
    requires lat.Length == est.Length && lon.Length == est.Length && lat != lon
    modifies est, lat, lon
    ensures est[..] == StoreAt(old(est[..]), ti, fix)
    ensures lat[..] == StoreAt(old(lat[..]), ti, Latitudes([fix], toGeodetic)[0])
    ensures lon[..] == StoreAt(old(lon[..]), ti, Longitudes([fix], toGeodetic)[0])
  {
    if fix.Some? && ti < est.Length {
      var p := fix.value;
      est[ti] := p;
      var g := toGeodetic(p);
      lat[ti] := g.latDeg;
      lon[ti] := g.lonDeg;
    }
  }

  /** Storing one more epoch extends the prefix of epochs stored. */
  lemma StoreAllStep<T>(out: seq<T>, fixes: seq<Option<T>>, ti: nat)
    requires ti < |fixes|
    ensures StoreAll(out, fixes[..ti + 1]) == StoreAt(StoreAll(out, fixes[..ti]), ti, fixes[ti])
  {
    assert fixes[..ti + 1][..ti] == fixes[..ti];
  }

  /** The epoch loop: solve each collected time and store it by its index. */
  method StoreEpochs(math: Math, glist: seq<SatelliteData>, counts: seq<nat>, ecef: seq<seq<EcefSample>>,
                     times: seq<nat>, toGeodetic: Vec3 -> Geodetic,
                     est: array<Vec3>, lat: array<real>, lon: array<real>)
    requires Tables(glist, counts) && EcefTables(glist, ecef)
    requires lat.Length == est.Length && lon.Length == est.Length && lat != lon
    modifies est, lat, lon
    ensures est[..] == StoreAll(old(est[..]), Fixes(math, glist, counts, ecef, times))
    ensures lat[..] == StoreAll(old(lat[..]), Latitudes(Fixes(math, glist, counts, ecef, times), toGeodetic))
    ensures lon[..] == StoreAll(old(lon[..]), Longitudes(Fixes(math, glist, counts, ecef, times), toGeodetic))
  {
    ghost var fixes := Fixes(math, glist, counts, ecef, times);
    ghost var lats := Latitudes(fixes, toGeodetic);
    ghost var lons := Longitudes(fixes, toGeodetic);
    ghost var est0, lat0, lon0 := est[..], lat[..], lon[..];
    for ti := 0 to |times|
      invariant est[..] == StoreAll(est0, fixes[..ti])
      invariant lat[..] == StoreAll(lat0, lats[..ti])
      invariant lon[..] == StoreAll(lon0, lons[..ti])
    {
      var fix := SolveEpochAt(math, glist, counts, ecef, times[ti]);
      assert fix == fixes[ti];
      assert lats[ti] == Latitudes([fix], toGeodetic)[0];
      assert lons[ti] == Longitudes([fix], toGeodetic)[0];
      StoreAllStep(est0, fixes, ti);
      StoreAllStep(lat0, lats, ti);
      StoreAllStep(lon0, lons, ti);
      StoreEpoch(est, lat, lon, ti, fix, toGeodetic);
    }
    assert fixes[..|times|] == fixes;
    assert lats[..|times|] == lats;
    assert lons[..|times|] == lons;
  }

  /** estimate_receiver_positions: collect the epochs, then solve and store
      each one by its index. The ECEF store is guarded by the same
      `ti < MAX_EPOCHS` test as the geodetic one (MAX_EPOCHS being the
      output arrays' length). */
  method EstimateReceiverPositions(math: Math, glist: seq<SatelliteData>, counts: seq<nat>,
                                   ecef: seq<seq<EcefSample>>, maxUniqueEpochs: nat,
                                   toGeodetic: Vec3 -> Geodetic,
                                   est: array<Vec3>, lat: array<real>, lon: array<real>)
    returns (rc: int, nTimes: nat)
    requires Tables(glist, counts) && EcefTables(glist, ecef)
    requires lat.Length == est.Length && lon.Length == est.Length && lat != lon
    modifies est, lat, lon
    ensures rc == 0
    ensures nTimes == |UniqueTimes(glist, counts, maxUniqueEpochs)|
    ensures est[..] == StoreAll(old(est[..]), Fixes(math, glist, counts, ecef, UniqueTimes(glist, counts, maxUniqueEpochs)))
    ensures lat[..] == StoreAll(old(lat[..]),
                                Latitudes(Fixes(math, glist, counts, ecef, UniqueTimes(glist, counts, maxUniqueEpochs)), toGeodetic))
    ensures lon[..] == StoreAll(old(lon[..]),
                                Longitudes(Fixes(math, glist, counts, ecef, UniqueTimes(glist, counts, maxUniqueEpochs)), toGeodetic))
  {
    var allTimes := new nat[maxUniqueEpochs](_ => 0);
    nTimes := CollectUniquePrTimes(glist, counts, allTimes);
    var times := allTimes[..nTimes];
    assert times == UniqueTimes(glist, counts, maxUniqueEpochs);
    StoreEpochs(math, glist, counts, ecef, times, toGeodetic, est, lat, lon);
    rc := 0;
  }
}
