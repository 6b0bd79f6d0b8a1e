/** RTCM decoding (unit conversions, L1 cell compaction) and the per-PRN
    capacity-bounded stores filled by the message parser (src/df_parser.c).
    Field extraction from the text line is not modelled: each message
    arrives as an already-decoded record of its DFxxx fields. */
module DfParser {
  import opened Gnss

  // ---------------------------------------------------------------------
  // RTCM 1019: GPS ephemeris
  // ---------------------------------------------------------------------

  /** The DF fields of a 1019 message the model uses, in transmitted units. */
  datatype RawEphemeris = RawEphemeris(
    satelliteId: uint8,  // DF009
    weekNumber: nat,     // DF076
    m0: real,            // DF088, semicircles
    eccentricity: real,  // DF090, units of 2^-33
    sqrtA: real,         // DF092, sqrt(metres)
    toe: nat,            // DF093, seconds
    omega0: real,        // DF095, semicircles
    i0: real,            // DF097, semicircles
    omega: real)         // DF099, semicircles

  /** An ephemeris record after scaling to SI units and radians. */
  datatype Ephemeris = Ephemeris(
    satelliteId: uint8,
    weekNumber: nat,
    gpsToe: nat,
    timeOfWeek: nat,
    timeSinceEpoch: nat,
    meanAnomaly: real,
    eccentricity: real,
    semiMajorAxis: real,
    rightAscension: real,
    inclination: real,
    argumentOfPeriapsis: real)

  const ZeroEphemeris: Ephemeris := Ephemeris(0, 0, 0, 0, 0, 0.0, 0.0, 0.0, 0.0, 0.0, 0.0)

  const TWO_POW_32: real := 4294967296.0
  const TWO_POW_33: real := 8589934592.0
  const SECONDS_PER_WEEK: nat := 604800

  /** The scalings parse_rtcm_1019 applies (IS-GPS-200 Table 20-III):
      a = sqrt_a^2, e = DF090 * 2^-33, angles = semicircles * pi. DF090 is
      an unsigned 32-bit field, so a decoded eccentricity is below 1/2. */
  function ScaleEphemeris(raw: RawEphemeris): (eph: Ephemeris)
    ensures eph.satelliteId == raw.satelliteId
    ensures eph.gpsToe == raw.toe && eph.timeOfWeek == raw.toe
    ensures eph.timeSinceEpoch == raw.weekNumber * SECONDS_PER_WEEK + raw.toe
    ensures eph.semiMajorAxis >= 0.0
    ensures 0.0 <= raw.eccentricity < TWO_POW_32 ==> 0.0 <= eph.eccentricity < 0.5
  {
    Ephemeris(
      raw.satelliteId,
      raw.weekNumber,
      raw.toe,
      raw.toe,
      raw.weekNumber * SECONDS_PER_WEEK + raw.toe,
      raw.m0 * PI,
      raw.eccentricity * (1.0 / TWO_POW_33),
      raw.sqrtA * raw.sqrtA,
      raw.omega0 * PI,
      raw.i0 * PI,
      raw.omega * PI)
  }

  /** The scaling loses nothing: every transmitted quantity is recovered from
      the scaled record (sqrt_a up to its sign, and DF092 is unsigned). */
  lemma {:induction false} ScaleEphemerisInvertible(raw: RawEphemeris, s: real)
    requires raw.sqrtA >= 0.0 && s >= 0.0
    ensures var eph := ScaleEphemeris(raw);
      && eph.eccentricity * TWO_POW_33 == raw.eccentricity
      && eph.meanAnomaly / PI == raw.m0
      && eph.rightAscension / PI == raw.omega0
      && eph.inclination / PI == raw.i0
      && eph.argumentOfPeriapsis / PI == raw.omega
      && (s * s == eph.semiMajorAxis <==> s == raw.sqrtA)
  {
    SquareInjective(s, raw.sqrtA);
  }

  lemma SquareInjective(s: real, q: real)
    requires s >= 0.0 && q >= 0.0
    ensures s * s == q * q ==> s == q
  {
    if s > q {
      SquareStrict(s, q);
    } else if s < q {
      SquareStrict(q, s);
    }
  }

  lemma SquareStrict(a: real, b: real)
    requires a > b >= 0.0
    ensures a * a > b * b
  {
    var d := a - b;
    assert a * a == b * b + d * (a + b);
    assert d * (a + b) > 0.0;
  }

  // ---------------------------------------------------------------------
  // Pseudorange assembly
  // ---------------------------------------------------------------------

  /** Metres of range per millisecond of signal travel (c / 1000). */
  const METRES_PER_MS: real := 299792.458

  /** compute_pseudorange: only the integer-millisecond term is scaled by c;
      the modulo-1s and fine terms are added as they are. */
  function ComputePseudorange(integerMs: nat, mod1s: real, fine: real): (r: real)
    ensures r - mod1s - fine == METRES_PER_MS * (integerMs as real)
  {
    SPEED_OF_LIGHT * ((integerMs as real) * 0.001) + mod1s + fine
  }

  /** The formula in compute_pseudorange's doc comment, which scales all
      three terms by c. */
  function DocumentedPseudorange(integerMs: nat, mod1s: real, fine: real): real
  {
    SPEED_OF_LIGHT * ((integerMs as real) * 0.001 + mod1s + fine)
  }

  /** The code and its doc comment agree exactly when the two fractional
      terms cancel. */
  lemma CodeMatchesDocumentationIff(integerMs: nat, mod1s: real, fine: real)
    ensures ComputePseudorange(integerMs, mod1s, fine) == DocumentedPseudorange(integerMs, mod1s, fine)
            <==> mod1s + fine == 0.0
  {
  }

  /** compute_pseudorange_msm1: amb * 299792.458 + rem. */
  function ComputePseudorangeMsm1(amb: real, rem: real): (r: real)
    ensures r - rem == amb * METRES_PER_MS
  {
    amb * (SPEED_OF_LIGHT / 1000.0) + rem
  }

  /** The MSM4 and legacy decoders convert the rough range the same way. */
  lemma DecodersAgreeOnRoughRange(integerMs: nat, rem: real)
    ensures ComputePseudorange(integerMs, rem, 0.0) == ComputePseudorangeMsm1(integerMs as real, rem)
  {
  }

  // ---------------------------------------------------------------------
  // RTCM 1074 (GPS MSM4): L1 "1C" cell compaction
  // ---------------------------------------------------------------------

  /** One satellite's rough range: PRN_xx, DF397_xx (integer ms), DF398_xx. */
  datatype SatRough = SatRough(prn: uint8, integerMs: uint8, mod1s: real)

  /** One cell as decoded: CELLPRN_xx (0 when absent), CELLSIG_xx (None when
      the key is absent), DF400..DF403. */
  datatype RawCell = RawCell(prn: uint8, sig: Option<string>, fine: real, phaseRange: real, lockTime: uint8, cnr: uint8)

  /** A cell as stored in the message record; `sig` is 1 for L1 C/A. */
  datatype L1Cell = L1Cell(prn: uint8, sig: uint8, fine: real, phaseRange: real, lockTime: uint8, cnr: uint8)

  const ZeroCell: L1Cell := L1Cell(0, 0, 0.0, 0.0, 0, 0)

  predicate IsL1(c: RawCell)
  {
    c.sig == Some("1C")
  }

  function ToL1(c: RawCell): L1Cell
  {
    L1Cell(c.prn, 1, c.fine, c.phaseRange, c.lockTime, c.cnr)
  }

  /** The cells parse_rtcm_1074 keeps, in the order it writes them. */
  function L1Cells(cells: seq<RawCell>): seq<L1Cell>
  {
    if |cells| == 0 then []
    else L1Cells(cells[..|cells| - 1]) + (if IsL1(cells[|cells| - 1]) then [ToL1(cells[|cells| - 1])] else [])
  }

  /** Positions of the "1C" cells in the message, ascending. */
  function L1Positions(cells: seq<RawCell>): seq<nat>
  {
    if |cells| == 0 then []
    else L1Positions(cells[..|cells| - 1]) + (if IsL1(cells[|cells| - 1]) then [|cells| - 1] else [])
  }

  /** The compaction keeps exactly the "1C" cells, in their original order:
      the i-th kept cell is the cell at the i-th "1C" position. */
  lemma L1CellsSelectsExactly(cells: seq<RawCell>)
    ensures |L1Cells(cells)| == |L1Positions(cells)| <= |cells|
    ensures forall i :: 0 <= i < |L1Positions(cells)| ==>
              L1Positions(cells)[i] < |cells| && L1Cells(cells)[i] == ToL1(cells[L1Positions(cells)[i]])
    ensures forall i, j :: 0 <= i < j < |L1Positions(cells)| ==> L1Positions(cells)[i] < L1Positions(cells)[j]
    ensures forall k :: 0 <= k < |cells| ==> (IsL1(cells[k]) <==> k in L1Positions(cells))
  {
    L1Shape(cells);
    L1Ascending(cells);
    L1Membership(cells);
  }

  lemma {:induction false} L1Shape(cells: seq<RawCell>)
    ensures |L1Cells(cells)| == |L1Positions(cells)| <= |cells|
    ensures forall i :: 0 <= i < |L1Positions(cells)| ==>
              L1Positions(cells)[i] < |cells| && L1Cells(cells)[i] == ToL1(cells[L1Positions(cells)[i]])
  {
    if |cells| > 0 {
      var n := |cells| - 1;
      var pre := cells[..n];
      L1Shape(pre);
      var ps, cs := L1Positions(pre), L1Cells(pre);
      forall i | 0 <= i < |ps|
        ensures cells[ps[i]] == pre[ps[i]]
      {
      }
      if IsL1(cells[n]) {
        assert L1Positions(cells) == ps + [n];
        assert L1Cells(cells) == cs + [ToL1(cells[n])];
      } else {
        assert L1Positions(cells) == ps;
        assert L1Cells(cells) == cs;
      }
    }
  }

  lemma {:induction false} L1Ascending(cells: seq<RawCell>)
    ensures forall i :: 0 <= i < |L1Positions(cells)| ==> L1Positions(cells)[i] < |cells|
    ensures forall i, j :: 0 <= i < j < |L1Positions(cells)| ==> L1Positions(cells)[i] < L1Positions(cells)[j]
  {
    if |cells| > 0 {
      var n := |cells| - 1;
      L1Ascending(cells[..n]);
      var ps := L1Positions(cells[..n]);
      if IsL1(cells[n]) {
        assert L1Positions(cells) == ps + [n];
      } else {
        assert L1Positions(cells) == ps;
      }
    }
  }

  lemma {:induction false} L1Membership(cells: seq<RawCell>)
    ensures forall k :: 0 <= k < |cells| ==> (IsL1(cells[k]) <==> k in L1Positions(cells))
    ensures forall k :: k in L1Positions(cells) ==> k < |cells|
  {
    if |cells| > 0 {
      var n := |cells| - 1;
      var pre := cells[..n];
      L1Membership(pre);
      var ps := L1Positions(pre);
      assert forall k :: 0 <= k < n ==> cells[k] == pre[k];
      if IsL1(cells[n]) {
        assert L1Positions(cells) == ps + [n];
      } else {
        assert L1Positions(cells) == ps;
      }
    }
  }

  /** Step 6 of parse_rtcm_1074: walk the cells with a running output index
      and keep only those whose CELLSIG is "1C". */
  method FilterL1Cells(cells: seq<RawCell>) returns (kept: seq<L1Cell>)
    ensures kept == L1Cells(cells)
    ensures |kept| <= |cells|
    ensures forall i :: 0 <= i < |kept| ==> kept[i].sig == 1
  {
    kept := [];
    var i := 0;
    while i < |cells|
      invariant 0 <= i <= |cells|
      invariant kept == L1Cells(cells[..i])
      invariant |kept| <= i
      invariant forall j :: 0 <= j < |kept| ==> kept[j].sig == 1
    {
      assert cells[..i + 1][..i] == cells[..i];
      if cells[i].sig == Some("1C") {
        kept := kept + [ToL1(cells[i])];
      }
      i := i + 1;
    }
    assert cells[..i] == cells;
  }

  /** A decoded 1074 message: DF004 and the per-satellite and per-cell lists. */
  datatype RawMsm4 = RawMsm4(epochTime: nat, sats: seq<SatRough>, cells: seq<RawCell>)

  /** The rtcm_1074_msm4_t record. Its per-satellite and per-cell arrays are
      fixed-size; `sats`, `cells` and `pseudorange` hold the whole arrays
      (one common capacity), of which the first nSat / nCell entries are
      meaningful. */
  datatype Msm4 = Msm4(
    timeOfPseudorange: nat,
    nSat: nat,
    sats: seq<SatRough>,
    nCell: nat,
    cells: seq<L1Cell>,
    pseudorange: seq<real>)
  {
    function Capacity(): nat
    {
      |sats|
    }

    predicate Valid()
    {
      |cells| == |sats| && |pseudorange| == |sats| && nSat <= |sats| && nCell <= |sats|
    }

    /** The PRN list the store functions walk: prn[0 .. n_sat). */
    function Prns(): (ps: seq<uint8>)
      requires Valid()
      ensures |ps| == nSat
    {
      seq(nSat, i requires 0 <= i < nSat => sats[i].prn)
    }
  }

  const EmptyMsm4: Msm4 := Msm4(0, 0, [], 0, [], [])

  /** Step 7 of parse_rtcm_1074: for each kept cell i, the assembled range when
      the cell has a PRN and is L1, else the invalid marker -1.0. The rough
      range is read from the per-satellite arrays at the CELL index i. Entries
      from nCell on keep what the record held. */
  method AssemblePseudoranges(sats: seq<SatRough>, cells: seq<L1Cell>, nCell: nat, previous: seq<real>)
    returns (pr: seq<real>)
    requires nCell <= |sats| && nCell <= |cells| && nCell <= |previous|
    ensures |pr| == |previous|
    ensures forall i :: 0 <= i < nCell ==>
              pr[i] == if cells[i].prn > 0 && cells[i].sig == 1
                       then ComputePseudorange(sats[i].integerMs, sats[i].mod1s, cells[i].fine)
                       else -1.0
    ensures pr[nCell..] == previous[nCell..]
  {
    pr := previous;
    var i := 0;
    while i < nCell
      invariant 0 <= i <= nCell
      invariant |pr| == |previous|
      invariant forall j :: 0 <= j < i ==>
                  pr[j] == if cells[j].prn > 0 && cells[j].sig == 1
                           then ComputePseudorange(sats[j].integerMs, sats[j].mod1s, cells[j].fine)
                           else -1.0
      invariant pr[i..] == previous[i..]
    {
      if cells[i].prn > 0 && cells[i].sig == 1 {
        pr := pr[i := ComputePseudorange(sats[i].integerMs, sats[i].mod1s, cells[i].fine)];
      } else {
        pr := pr[i := -1.0];
      }
      assert pr[i + 1..] == previous[i + 1..];
      i := i + 1;
    }
  }

  /** The part of parse_rtcm_1074 after field extraction: copy the satellite
      list, compact the cells to L1 and assemble the pseudoranges, writing
      into the record `previous` (the struct the caller passes). */
  method ParseRtcm1074(raw: RawMsm4, previous: Msm4) returns (msg: Msm4)
    requires previous.Valid()
    requires |raw.sats| <= previous.Capacity() && |L1Positions(raw.cells)| <= previous.Capacity()
    ensures msg.Valid() && msg.Capacity() == previous.Capacity()
    ensures msg.timeOfPseudorange == raw.epochTime
    ensures msg.nSat == |raw.sats| && msg.sats[..msg.nSat] == raw.sats
    ensures msg.nCell == |L1Positions(raw.cells)| <= |raw.cells|
    ensures msg.cells[..msg.nCell] == L1Cells(raw.cells)
    ensures forall i :: 0 <= i < msg.nCell ==>
              msg.cells[i].sig == 1
              && (msg.cells[i].prn == 0 ==> msg.pseudorange[i] == -1.0)
              && (msg.cells[i].prn > 0 ==>
                    msg.pseudorange[i] == ComputePseudorange(msg.sats[i].integerMs, msg.sats[i].mod1s, msg.cells[i].fine))
    ensures msg.pseudorange[msg.nCell..] == previous.pseudorange[msg.nCell..]
    ensures msg.sats[msg.nSat..] == previous.sats[msg.nSat..]
    ensures msg.cells[msg.nCell..] == previous.cells[msg.nCell..]
  {
    var sats := raw.sats + previous.sats[|raw.sats|..];
    L1CellsSelectsExactly(raw.cells);
    var kept := FilterL1Cells(raw.cells);
    var cells := kept + previous.cells[|kept|..];
    assert cells[..|kept|] == kept;
    var pr := AssemblePseudoranges(sats, cells, |kept|, previous.pseudorange);
    msg := Msm4(raw.epochTime, |raw.sats|, sats, |kept|, cells, pr);
    assert sats[..|raw.sats|] == raw.sats;
  }

  // ---------------------------------------------------------------------
  // RTCM 1002 (legacy L1 observables)
  // ---------------------------------------------------------------------

  /** One satellite of a 1002 message: DF009 PRN, DF014 ambiguity (ms), DF011 remainder (m). */
  datatype Msm1Sat = Msm1Sat(sv: uint8, ambiguity: uint8, remainder: real)

  /** The rtcm_1002_msm1_t record; `sats` is the fixed-size array. */
  datatype Msm1 = Msm1(timeOfWeek: nat, numSatellites: nat, sats: seq<Msm1Sat>)
  {
    predicate Valid()
    {
      numSatellites <= |sats|
    }

    function Svs(): (ps: seq<uint8>)
      requires Valid()
      ensures |ps| == numSatellites
    {
      seq(numSatellites, i requires 0 <= i < numSatellites => sats[i].sv)
    }
  }

  const EmptyMsm1: Msm1 := Msm1(0, 0, [])

  // ---------------------------------------------------------------------
  // Per-PRN append with capacity
  // ---------------------------------------------------------------------

  /** How many entries of `prns` name satellite p (entries outside 1..32 are
      skipped and never counted). */
  function Hits(prns: seq<uint8>, p: int): (n: nat)
    ensures n <= |prns|
  {
    if |prns| == 0 then 0
    else Hits(prns[..|prns| - 1], p) + (if prns[|prns| - 1] == p && InPrnRange(p) then 1 else 0)
  }

  /** The values listed for satellite p, in message order. */
  function Picked<T>(prns: seq<uint8>, vals: seq<T>, p: int): (s: seq<T>)
    requires |vals| == |prns|
    ensures |s| == Hits(prns, p)
  {
    if |prns| == 0 then []
    else
      var n := |prns| - 1;
      Picked(prns[..n], vals[..n], p) + (if prns[n] == p && InPrnRange(p) then [vals[n]] else [])
  }

  /** Row p of a history after appending, in order, the values listed for p,
      starting at slot `start` (the old count); a slot at or beyond the row's
      capacity is not written. */
  function AppendRow<T>(row: seq<T>, start: nat, prns: seq<uint8>, vals: seq<T>, p: int): (r: seq<T>)
    requires |vals| == |prns|
    ensures |r| == |row|
  {
    if |prns| == 0 then row
    else
      var n := |prns| - 1;
      var before := AppendRow(row, start, prns[..n], vals[..n], p);
      var slot := start + Hits(prns[..n], p);
      if prns[n] == p && InPrnRange(p) && slot < |before| then before[slot := vals[n]] else before
  }

  /** Appending fills slots start .. start + hits - 1 (as far as the capacity
      allows) with the listed values in order and leaves every other slot. */
  lemma {:induction false} AppendRowMeaning<T>(row: seq<T>, start: nat, prns: seq<uint8>, vals: seq<T>, p: int)
    requires |vals| == |prns|
    ensures forall k :: 0 <= k < |row| ==>
              AppendRow(row, start, prns, vals, p)[k]
                == if start <= k < start + Hits(prns, p) then Picked(prns, vals, p)[k - start] else row[k]
  {
    if |prns| > 0 {
      var n := |prns| - 1;
      AppendRowMeaning(row, start, prns[..n], vals[..n], p);
    }
  }

  /** Every value listed for p is one of the message's values. */
  lemma {:induction false} PickedFromValues<T>(prns: seq<uint8>, vals: seq<T>, p: int)
    requires |vals| == |prns|
    ensures forall x :: x in Picked(prns, vals, p) ==> x in vals
  {
    if |prns| > 0 {
      var n := |prns| - 1;
      PickedFromValues(prns[..n], vals[..n], p);
      assert forall x :: x in vals[..n] ==> x in vals;
    }
  }

  /** The loop shared by store_msm4, store_msm1, store_pseudorange and
      store_pseudorange_msm1: for each listed satellite i whose PRN is in
      1..32, post-increment count[prn] and store vals[i] at the old count
      when it is below the row capacity. */
  method AppendPerPrn<T>(count: array<nat>, hist: array<seq<T>>, prns: seq<uint8>, vals: seq<T>, maxEpochs: nat)
    requires count.Length == MAX_SAT + 1 && hist.Length == MAX_SAT + 1
    requires |vals| == |prns|
    requires forall p :: 0 <= p < hist.Length ==> |hist[p]| == maxEpochs
    modifies count, hist
    ensures forall p :: 0 <= p < count.Length ==> count[p] == old(count[p]) + Hits(prns, p)
    ensures forall p :: 0 <= p < hist.Length ==> hist[p] == AppendRow(old(hist[p]), old(count[p]), prns, vals, p)
  {
    var i := 0;
    while i < |prns|
      invariant 0 <= i <= |prns|
      invariant forall p :: 0 <= p < count.Length ==> count[p] == old(count[p]) + Hits(prns[..i], p)
      invariant forall p :: 0 <= p < hist.Length ==>
                  hist[p] == AppendRow(old(hist[p]), old(count[p]), prns[..i], vals[..i], p)
    {
      assert prns[..i + 1][..i] == prns[..i];
      assert vals[..i + 1][..i] == vals[..i];
      var prn := prns[i];
      if 1 <= prn <= MAX_SAT {
        var epochIdx := count[prn];
        count[prn] := epochIdx + 1;
        if epochIdx < maxEpochs {
          hist[prn] := hist[prn][epochIdx := vals[i]];
        }
      }
      i := i + 1;
    }
    assert prns[..i] == prns;
    assert vals[..i] == vals;
  }

  // ---------------------------------------------------------------------
  // Ephemeris history
  // ---------------------------------------------------------------------

  /** eph_history[prn]: a counter and a fixed-capacity array of records. */
  datatype EphHistory = EphHistory(count: nat, eph: seq<Ephemeris>)

  /** What store_ephemeris does to one PRN's history: the record goes to slot
      `count` only while it is below the capacity, the counter always grows. */
  function EphAppend(h: EphHistory, e: Ephemeris): (h': EphHistory)
    ensures h'.count == h.count + 1 && |h'.eph| == |h.eph|
    ensures h.count < |h.eph| ==> h'.eph[..h.count] == h.eph[..h.count] && h'.eph[h.count] == e
    ensures h.count >= |h.eph| ==> h'.eph == h.eph
  {
    EphHistory(h.count + 1, if h.count < |h.eph| then h.eph[h.count := e] else h.eph)
  }

  // ---------------------------------------------------------------------
  // The parser's global tables
  // ---------------------------------------------------------------------

  predicate Msm4RowOk(row: seq<Msm4>, maxEpochs: nat)
  {
    |row| == maxEpochs && forall k :: 0 <= k < |row| ==> row[k].Valid()
  }

  predicate Msm1RowOk(row: seq<Msm1>, maxEpochs: nat)
  {
    |row| == maxEpochs && forall k :: 0 <= k < |row| ==> row[k].Valid()
  }

  /** A zero-initialised eph_history entry: no record received, every slot zero. */
  function EmptyEphHistory(maxEphHistory: nat): (h: EphHistory)
    ensures h.count == 0 && |h.eph| == maxEphHistory
    ensures forall i :: 0 <= i < maxEphHistory ==> h.eph[i] == ZeroEphemeris
  {
    EphHistory(0, seq(maxEphHistory, _ => ZeroEphemeris))
  }

  /** A zero-initialised msm4_history row. */
  function EmptyMsm4Row(maxEpochs: nat): (row: seq<Msm4>)
    ensures |row| == maxEpochs
    ensures forall k :: 0 <= k < maxEpochs ==> row[k] == EmptyMsm4
  {
    seq(maxEpochs, _ => EmptyMsm4)
  }

  /** A zero-initialised msm1_history row. */
  function EmptyMsm1Row(maxEpochs: nat): (row: seq<Msm1>)
    ensures |row| == maxEpochs
    ensures forall k :: 0 <= k < maxEpochs ==> row[k] == EmptyMsm1
  {
    seq(maxEpochs, _ => EmptyMsm1)
  }

  /** A zero-initialised pseudorange_history row. */
  function ZeroRow(maxEpochs: nat): (row: seq<real>)
    ensures |row| == maxEpochs
    ensures forall k :: 0 <= k < maxEpochs ==> row[k] == 0.0
  {
    seq(maxEpochs, _ => 0.0)
  }

  lemma EmptyRowsOk(maxEpochs: nat)
    ensures Msm4RowOk(EmptyMsm4Row(maxEpochs), maxEpochs)
    ensures Msm1RowOk(EmptyMsm1Row(maxEpochs), maxEpochs)
  {
  }

  /** eph_history, eph_table, eph_available, the MSM4/MSM1 histories and the
      pseudorange history with their per-PRN counters. */
  class ParserState {
    const maxEpochs: nat
    const maxEphHistory: nat
    const ephHistory: array<EphHistory>
    const ephTable: array<Ephemeris>
    const ephAvailable: array<bool>
    const msm4Count: array<nat>
    const msm4History: array<seq<Msm4>>
    const msm1Count: array<nat>
    const msm1History: array<seq<Msm1>>
    const pseudorangeCount: array<nat>
    const pseudorangeHistory: array<seq<real>>

    ghost predicate Valid()
      reads ephHistory, msm4History, msm1History, pseudorangeHistory
    {
      && ephHistory.Length == MAX_SAT + 1
      && ephTable.Length == MAX_SAT + 1
      && ephAvailable.Length == MAX_SAT + 1
      && msm4Count.Length == MAX_SAT + 1
      && msm4History.Length == MAX_SAT + 1
      && msm1Count.Length == MAX_SAT + 1
      && msm1History.Length == MAX_SAT + 1
      && pseudorangeCount.Length == MAX_SAT + 1
      && pseudorangeHistory.Length == MAX_SAT + 1
      && msm4Count != msm1Count && msm4Count != pseudorangeCount && msm1Count != pseudorangeCount
      && (forall p :: 0 <= p < ephHistory.Length ==> |ephHistory[p].eph| == maxEphHistory)
      && (forall p :: 0 <= p < msm4History.Length ==> Msm4RowOk(msm4History[p], maxEpochs))
      && (forall p :: 0 <= p < msm1History.Length ==> Msm1RowOk(msm1History[p], maxEpochs))
      && (forall p :: 0 <= p < pseudorangeHistory.Length ==> |pseudorangeHistory[p]| == maxEpochs)
    }

    /** The zero-initialised globals. */
    constructor (maxEpochs: nat, maxEphHistory: nat)
      ensures Valid()
      ensures this.maxEpochs == maxEpochs && this.maxEphHistory == maxEphHistory
      ensures forall p :: 0 <= p <= MAX_SAT ==>
                ephHistory[p].count == 0 && msm4Count[p] == 0 && msm1Count[p] == 0
                && pseudorangeCount[p] == 0 && !ephAvailable[p]
    ensures forall p :: 0 <= p <= MAX_SAT ==> ephHistory[p] == EmptyEphHistory(maxEphHistory)
    ensures forall p :: 0 <= p <= MAX_SAT ==> ephTable[p] == ZeroEphemeris
    ensures forall p :: 0 <= p <= MAX_SAT ==> msm4History[p] == EmptyMsm4Row(maxEpochs)
    ensures forall p :: 0 <= p <= MAX_SAT ==> msm1History[p] == EmptyMsm1Row(maxEpochs)
    ensures forall p :: 0 <= p <= MAX_SAT ==> pseudorangeHistory[p] == ZeroRow(maxEpochs)
    {
      this.maxEpochs := maxEpochs;
      this.maxEphHistory := maxEphHistory;
      ephHistory := new EphHistory[MAX_SAT + 1](_ => EmptyEphHistory(maxEphHistory));
      ephTable := new Ephemeris[MAX_SAT + 1](_ => ZeroEphemeris);
      ephAvailable := new bool[MAX_SAT + 1](_ => false);
      msm4Count := new nat[MAX_SAT + 1](_ => 0);
      msm4History := new seq<Msm4>[MAX_SAT + 1](_ => EmptyMsm4Row(maxEpochs));
      msm1Count := new nat[MAX_SAT + 1](_ => 0);
      msm1History := new seq<Msm1>[MAX_SAT + 1](_ => EmptyMsm1Row(maxEpochs));
      pseudorangeCount := new nat[MAX_SAT + 1](_ => 0);
      pseudorangeHistory := new seq<real>[MAX_SAT + 1](_ => ZeroRow(maxEpochs));
      new;
      EmptyRowsOk(maxEpochs);
    }

    /** store_ephemeris: -1 for a missing record, -2 for a PRN outside 1..32
        (nothing changes on either), otherwise append to the PRN's history and
        overwrite eph_table[prn] unconditionally (the latest record wins). */
    method StoreEphemeris(newEph: Option<Ephemeris>) returns (rc: int)
      requires Valid()
      modifies ephHistory, ephTable, ephAvailable
      ensures Valid()
      ensures newEph.None? ==> rc == -1
      ensures newEph.Some? && !InPrnRange(newEph.value.satelliteId) ==> rc == -2
      ensures rc != 0 ==> unchanged(ephHistory) && unchanged(ephTable) && unchanged(ephAvailable)
      ensures newEph.Some? && InPrnRange(newEph.value.satelliteId) ==>
                var prn := newEph.value.satelliteId;
                && rc == 0
                && ephHistory[..] == old(ephHistory[..])[prn := EphAppend(old(ephHistory[prn]), newEph.value)]
                && ephTable[..] == old(ephTable[..])[prn := newEph.value]
                && ephAvailable[..] == old(ephAvailable[..])[prn := true]
    {
      if newEph.None? {
        return -1;
      }
      var prn := newEph.value.satelliteId;
      if prn < 1 || prn > MAX_SAT {
        return -2;
      }
      var h := ephHistory[prn];
      var idx := h.count;
      if idx < maxEphHistory {
        ephHistory[prn] := EphHistory(idx + 1, h.eph[idx := newEph.value]);
      } else {
        ephHistory[prn] := EphHistory(idx + 1, h.eph);
      }
      ephTable[prn] := newEph.value;
      ephAvailable[prn] := true;
      rc := 0;
    }

    /** store_msm4: the whole record is appended to the history of every listed PRN. */
    method StoreMsm4(newMsm4: Option<Msm4>) returns (rc: int)
      requires Valid() && (newMsm4.Some? ==> newMsm4.value.Valid())
      modifies msm4Count, msm4History
      ensures Valid()
      ensures newMsm4.None? ==> rc == -1 && unchanged(msm4Count) && unchanged(msm4History)
      ensures newMsm4.Some? ==>
                var prns := newMsm4.value.Prns();
                var vals := seq(|prns|, _ => newMsm4.value);
                && rc == 0
                && (forall p :: 0 <= p <= MAX_SAT ==> msm4Count[p] == old(msm4Count[p]) + Hits(prns, p))
                && (forall p :: 0 <= p <= MAX_SAT ==>
                      msm4History[p] == AppendRow(old(msm4History[p]), old(msm4Count[p]), prns, vals, p))
    {
      if newMsm4.None? {
        return -1;
      }
      var prns := newMsm4.value.Prns();
      var vals := seq(|prns|, _ => newMsm4.value);
      AppendPerPrn(msm4Count, msm4History, prns, vals, maxEpochs);
      forall p | 0 <= p < msm4History.Length
        ensures Msm4RowOk(msm4History[p], maxEpochs)
      {
        var row, start := old(msm4History[p]), old(msm4Count[p]);
        AppendRowMeaning(row, start, prns, vals, p);
        PickedFromValues(prns, vals, p);
        forall k | 0 <= k < |row|
          ensures msm4History[p][k].Valid()
        {
          if start <= k < start + Hits(prns, p) {
            assert Picked(prns, vals, p)[k - start] in vals;
          }
        }
      }
      rc := 0;
    }

    /** store_msm1: the whole record is appended to the history of every listed PRN. */
    method StoreMsm1(newMsm1: Option<Msm1>) returns (rc: int)
      requires Valid() && (newMsm1.Some? ==> newMsm1.value.Valid())
      modifies msm1Count, msm1History
      ensures Valid()
      ensures newMsm1.None? ==> rc == -1 && unchanged(msm1Count) && unchanged(msm1History)
      ensures newMsm1.Some? ==>
                var prns := newMsm1.value.Svs();
                var vals := seq(|prns|, _ => newMsm1.value);
                && rc == 0
                && (forall p :: 0 <= p <= MAX_SAT ==> msm1Count[p] == old(msm1Count[p]) + Hits(prns, p))
                && (forall p :: 0 <= p <= MAX_SAT ==>
                      msm1History[p] == AppendRow(old(msm1History[p]), old(msm1Count[p]), prns, vals, p))
    {
      if newMsm1.None? {
        return -1;
      }
      var prns := newMsm1.value.Svs();
      var vals := seq(|prns|, _ => newMsm1.value);
      AppendPerPrn(msm1Count, msm1History, prns, vals, maxEpochs);
      forall p | 0 <= p < msm1History.Length
        ensures Msm1RowOk(msm1History[p], maxEpochs)
      {
        var row, start := old(msm1History[p]), old(msm1Count[p]);
        AppendRowMeaning(row, start, prns, vals, p);
        PickedFromValues(prns, vals, p);
        forall k | 0 <= k < |row|
          ensures msm1History[p][k].Valid()
        {
          if start <= k < start + Hits(prns, p) {
            assert Picked(prns, vals, p)[k - start] in vals;
          }
        }
      }
      rc := 0;
    }

    /** store_pseudorange: satellite i's entry of the record's pseudorange
        array is appended to its PRN's pseudorange history. */
    method StorePseudorange(newMsm4: Option<Msm4>) returns (rc: int)
      requires Valid() && (newMsm4.Some? ==> newMsm4.value.Valid())
      modifies pseudorangeCount, pseudorangeHistory
      ensures Valid()
      ensures newMsm4.None? ==> rc == -1 && unchanged(pseudorangeCount) && unchanged(pseudorangeHistory)
      ensures newMsm4.Some? ==>
                var prns := newMsm4.value.Prns();
                var vals := newMsm4.value.pseudorange[..newMsm4.value.nSat];
                && rc == 0
                && (forall p :: 0 <= p <= MAX_SAT ==> pseudorangeCount[p] == old(pseudorangeCount[p]) + Hits(prns, p))
                && (forall p :: 0 <= p <= MAX_SAT ==>
                      pseudorangeHistory[p]
                        == AppendRow(old(pseudorangeHistory[p]), old(pseudorangeCount[p]), prns, vals, p))
    {
      if newMsm4.None? {
        return -1;
      }
      var prns := newMsm4.value.Prns();
      var vals := newMsm4.value.pseudorange[..newMsm4.value.nSat];
      AppendPerPrn(pseudorangeCount, pseudorangeHistory, prns, vals, maxEpochs);
      rc := 0;
    }

    /** store_pseudorange_msm1: the range computed from ambiguity and remainder
        is appended to its PRN's pseudorange history. */
    method StorePseudorangeMsm1(newMsm1: Option<Msm1>) returns (rc: int)
      requires Valid() && (newMsm1.Some? ==> newMsm1.value.Valid())
      modifies pseudorangeCount, pseudorangeHistory
      ensures Valid()
      ensures newMsm1.None? ==> rc == -1 && unchanged(pseudorangeCount) && unchanged(pseudorangeHistory)
      ensures newMsm1.Some? ==>
                var m := newMsm1.value;
                var prns := m.Svs();
                var vals := seq(m.numSatellites, i requires 0 <= i < m.numSatellites =>
                                  ComputePseudorangeMsm1(m.sats[i].ambiguity as real, m.sats[i].remainder));
                && rc == 0
                && (forall p :: 0 <= p <= MAX_SAT ==> pseudorangeCount[p] == old(pseudorangeCount[p]) + Hits(prns, p))
                && (forall p :: 0 <= p <= MAX_SAT ==>
                      pseudorangeHistory[p]
                        == AppendRow(old(pseudorangeHistory[p]), old(pseudorangeCount[p]), prns, vals, p))
    {
      if newMsm1.None? {
        return -1;
      }
      var m := newMsm1.value;
      var prns := m.Svs();
      var vals := seq(m.numSatellites, i requires 0 <= i < m.numSatellites =>
                        ComputePseudorangeMsm1(m.sats[i].ambiguity as real, m.sats[i].remainder));
      AppendPerPrn(pseudorangeCount, pseudorangeHistory, prns, vals, maxEpochs);
      rc := 0;
    }
  }
}
