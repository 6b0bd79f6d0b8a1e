# GNSS single-point positioning core, modelled in Dafny

This project models the bookkeeping and control logic of a small GPS
positioning engine written in C. The engine does the following:

- It decodes RTCM 1019 ephemeris, 1002 legacy L1 and 1074 MSM4 messages into per-satellite (per-PRN) history tables with capacity-bounded appends.
- It builds a per-satellite table pairing each stored observation with the ephemeris valid at its time.
- It propagates each satellite to an Earth-centred inertial (ECI) position with a bounded Kepler iteration, then rotates it to Earth-centred Earth-fixed (ECEF) coordinates.
- It collects the distinct observation epochs, sorted and de-duplicated.
- For each epoch it gathers one measurement per satellite and runs a fixed ten-step Newton least-squares solver. Each step solves the 4x4 normal equations through Gauss-Jordan inversion with partial pivoting.
- It stores each position by its epoch index.

Numbers are Dafny `real`s. `sin`, `cos`, `sqrt` and `atan2` are opaque function values bundled in `Gnss.Math`. A lemma that needs a fact about them says so in its `requires`: `CosBounded` (cos stays in [-1, 1]), `PythagoreanEverywhere` (sin² + cos² = 1) or `SqrtExact`. What is proved is therefore about:

- indexing and capacities;
- which slots are written and when one is skipped;
- selection and ordering;
- loop bounds and abort paths;
- the exact-arithmetic meaning of the linear algebra, such as rotations keeping lengths and the computed inverse really being an inverse.

The modules follow the C files:

| module | file | source |
|---|---|---|
| `Gnss` | gnss.dfy | shared constants (`MAX_SAT` = 32, c, π, μ), `Vec3`, `Option`, the `Math` functions |
| `DfParser` | df_parser.dfy | src/df_parser.c |
| `EphSelect` | eph_select.dfy | the two `find_closest_eph_idx` copies |
| `Satellites` | satellites.dfy | `sort_satellites` in src/satellites.c |
| `SatellitePositionEci` | satellite_position_eci.dfy | src/satellite_position_eci.c |
| `SatellitePositionEcef` | satellite_position_ecef.dfy | src/satellite_position_ecef.c |
| `ReceiverEpochs` | receiver_epochs.dfy | epoch collection in src/receiver_position.c |
| `ReceiverInverse` | receiver_inverse.dfy | `invert_4x4` |
| `ReceiverSolver` | receiver_solver.dfy | `pinv_normal_eq_apply` and the Newton loop |
| `ReceiverPosition` | receiver_position.dfy | per-epoch gather, solve and store |

Models of the state-changing C functions:

- Global per-PRN tables are Dafny arrays of 33 rows; row 0 is unused.
- The parser's globals are the `DfParser.ParserState` class.
- Loops are `while`/`for` loops with invariants. Each one is proved equal to a specification function, and the lemmas state what that function promises.

`MAX_EPOCHS`, `MAX_EPH_HISTORY` and `MAX_UNIQUE_EPOCHS` are not defined in the source files modelled here. They are parameters: the row lengths of the arrays passed in.

## Model

| member | source | states |
|---|---|---|
| DfParser.ScaleEphemeris | src/df_parser.c:307-346 | satellite id and toe are copied; toe goes to both `gps_toe` and `time_of_week`; time since epoch is week·604800 + toe; a = sqrt_a² is never negative; a 32-bit DF090 gives an eccentricity in [0, 1/2) |
| DfParser.ScaleEphemerisInvertible | src/df_parser.c:322-340 | every scaling can be undone: e·2³³ and each angle/π give back the transmitted field, and a non-negative s squares to a exactly when s is sqrt_a |
| DfParser.ComputePseudorange | src/df_parser.c:365-368 | without the modulo-1 s and fine terms, what is left is 299792.458 m per integer millisecond |
| DfParser.CodeMatchesDocumentationIff | src/df_parser.c:354-368 | the code equals the documented formula c·(ms·1e-3 + mod1s + fine) exactly when mod1s + fine = 0 |
| DfParser.ComputePseudorangeMsm1 | src/df_parser.c:384-391 | result minus remainder is amb·299792.458 |
| DfParser.DecodersAgreeOnRoughRange | src/df_parser.c:365-391 | the MSM4 and legacy conversions give the same range for the same rough range |
| DfParser.L1CellsSelectsExactly | src/df_parser.c:174-204 | the kept cells are exactly the "1C" cells, in original order, with count at most the original |
| DfParser.FilterL1Cells | src/df_parser.c:207-265 | the running-index loop yields the L1 compaction; every kept cell has sig 1 |
| DfParser.AssemblePseudoranges | src/df_parser.c:267-282 | each cell i < n_cell holds the assembled range when prn > 0 and sig = 1, else -1.0; entries from n_cell on are untouched |
| DfParser.ParseRtcm1074 | src/df_parser.c:131-282 | the record keeps DF004 as its time, copies the satellite list, holds the L1 compaction with n_cell its count, and assembles the pseudoranges as above; the satellite entries from n_sat on, the cells from n_cell on and the pseudoranges from n_cell on keep the record's old values; it needs only the satellites and the kept "1C" cells to fit the record, however many other cells the message lists |
| DfParser.AppendRowMeaning | src/df_parser.c:447-462 | appending fills slots count .. count+hits-1 (those below capacity) with the listed values in order and leaves every other slot |
| DfParser.AppendPerPrn | src/df_parser.c:447-462 | for every PRN the counter grows by the number of in-range listings and the row is the append above |
| DfParser.EphAppend | src/df_parser.c:413-422 | the counter always grows by one; the record lands at slot count only while count < capacity; otherwise the history is unchanged |
| DfParser.ParserState.constructor | src/df_parser.c:20-27 | all counters are zero, no ephemeris is available, and every history row, eph_table entry and pseudorange row is the zero record |
| DfParser.ParserState.StoreEphemeris | src/df_parser.c:404-429 | -1 for a missing record and -2 for a PRN outside 1..32, with no state change on either; otherwise 0, the PRN's history gets `EphAppend`, and `eph_table[prn]` and `eph_available[prn]` are overwritten (latest wins) |
| DfParser.ParserState.StoreMsm4 | src/df_parser.c:442-464 | -1 and no change for a missing record; otherwise 0 and the whole record is appended for every listed in-range PRN |
| DfParser.ParserState.StoreMsm1 | src/df_parser.c:477-504 | as `StoreMsm4`, over the 1002 satellite list |
| DfParser.ParserState.StorePseudorange | src/df_parser.c:517-539 | -1 and no change for a missing record; otherwise 0 and satellite i's pseudorange is appended to its PRN's history |
| DfParser.ParserState.StorePseudorangeMsm1 | src/df_parser.c:552-583 | as `StorePseudorange`, with the value `compute_pseudorange_msm1(amb, rem)` |
| EphSelect.BestIndexCorrect | src/satellites.c:23-37 | -1 exactly when every key is after t; otherwise the chosen key is ≤ t, no key ≤ t is larger, and no later index has the same key (ties go to the later entry) |
| EphSelect.ClosestIndex | src/satellites.c:25-36 | the best_idx/best_time loop returns `BestIndex` |
| EphSelect.FindClosestByTimeOfWeek | src/satellites.c:23-37 | the time_of_week scan over the stored records returns `BestIndex`, an index below the stored count |
| EphSelect.FindClosestByToe | src/satellite_position_eci.c:25-39 | the gps_toe scan returns `BestIndex` over the toe keys |
| EphSelect.BothSelectorsAgree | src/satellite_position_eci.c:31 | decoded records carry toe in both fields, so the two copies choose the same record |
| EphSelect.ScanAsWrittenFrom | src/satellites.c:25-36 | the `i < count` loop, continued from a state that agrees with `BestIndex` on the records visited so far, reads past the array exactly when count > capacity, and otherwise ends at `BestIndex` of all records |
| EphSelect.FindClosestAsWrittenMeaning | src/satellites.c:23-37 | the scan as written has a defined result exactly when count ≤ capacity, and that result is the bounded scan's choice |
| EphSelect.AsWrittenOverrunsAfterOverflow | src/df_parser.c:413 | one store into a full history makes the as-written scan read past the array |
| EphSelect.BoundedScanIgnoresOverflow | src/df_parser.c:413-422 | the scan bounded by capacity chooses after an overflowing store as it did before |
| Satellites.EmptySatellite | src/satellites.c:41 | the memset leaves prn 0 and every slot zero |
| Satellites.SlotForMeaning | src/satellites.c:50-98 | zeros when the PRN is not listed; otherwise the pseudorange at its first position and the record time; with c the `BestIndex` choice, zeros exactly when every stored record starts after that time, else all six orbital elements and the time of week of record c, the latest-starting stored record not after that time |
| Satellites.SortSatellites | src/satellites.c:39-102 | entry 0 is cleared; entry p gets prn = p and `RowFor`, so only the first min(count, MAX_EPOCHS) slots are filled |
| Satellites.RowForPrn | src/satellites.c:47-98 | the slot loop with its inner PRN search builds `RowFor` |
| SatellitePositionEci.RzPreservesNorm | src/satellite_position_eci.c:143-156 | with c² + s² = 1 a z-rotation keeps length and z |
| SatellitePositionEci.RxPreservesNorm | src/satellite_position_eci.c:148-151 | with c² + s² = 1 an x-rotation keeps length and x |
| SatellitePositionEci.Mat3x3Vec3Mult | src/satellite_position_eci.c:16-22 | out[i] = Σⱼ mat[i][j]·vec[j] |
| SatellitePositionEci.ApplyMatrix | src/satellite_position_eci.c:158-162 | multiplying through the C arrays gives the matrix product M·v |
| SatellitePositionEci.ObsTimeSeconds | src/satellite_position_eci.c:57-60 | a time above 604800 is divided by 1000, others are kept; the result is never negative |
| SatellitePositionEci.LookupTime | src/satellite_position_eci.c:63 | the lookup key is t/1000 (integer division) above 604800, else t |
| SatellitePositionEci.Fmod | src/satellite_position_eci.c:98 | C `fmod` for a positive divisor: below the divisor in size, sign of x, x minus whole multiples |
| SatellitePositionEci.NormalizeMeanAnomaly | src/satellite_position_eci.c:97-101 | the result lies in [-π, π) and differs from M by whole turns |
| SatellitePositionEci.KeplerLoopBound | src/satellite_position_eci.c:104-113 | between 1 and 10 steps run; every step before the last has abs(dE) ≥ 1e-12; fewer than 10 steps means the last one had abs(dE) < 1e-12 |
| SatellitePositionEci.CircularOrbitOneStep | src/satellite_position_eci.c:104-113 | for e = 0 the loop stops after one step with E = M |
| SatellitePositionEci.SolveKepler | src/satellite_position_eci.c:104-113 | the loop leaves E = `KeplerSolve` |
| SatellitePositionEci.OrbitRadius | src/satellite_position_eci.c:124 | r = a(1 - e·cos E) is positive for a > 0 and 0 ≤ e < 1 |
| SatellitePositionEci.EciWrittenIff | src/satellite_position_eci.c:46-87 | a slot is written exactly when the PRN has history, the time is non-zero, the lookup finds a record (exactly when some stored toe ≤ the lookup time), and that record has a > 0 and 0 ≤ e < 1 |
| SatellitePositionEci.PerifocalDistance | src/satellite_position_eci.c:123-132 | the perifocal point lies at distance r |
| SatellitePositionEci.OrbitToEciKeepsDistance | src/satellite_position_eci.c:136-162 | Rz(Ω)·Rx(i)·Rz(ω) keeps length |
| SatellitePositionEci.EciDistanceIsOrbitRadius | src/satellite_position_eci.c:90-167 | a written ECI position lies at the orbit radius r from the Earth's centre |
| SatellitePositionEci.ComputeEciSlot | src/satellite_position_eci.c:54-87 | the guards and lookup of one slot give `EciForSlot` |
| SatellitePositionEci.Propagate | src/satellite_position_eci.c:89-162 | mean anomaly, Kepler, true anomaly, radius and the three rotations give the ECI position |
| SatellitePositionEci.EciRowForPrn | src/satellite_position_eci.c:52-170 | the slot loop writes only slot k of the PRN's row, with the slot's result |
| SatellitePositionEci.SatellitePositionEci | src/satellite_position_eci.c:41-173 | returns 0; row 0 is unchanged; every PRN row is `EciRow` (unchanged for PRNs without history) |
| SatellitePositionEcef.NormalizeTimeSeconds | src/satellite_position_ecef.c:20-28 | above 1e6 the time is divided by 1000, else kept; a non-negative time never grows |
| SatellitePositionEcef.ThresholdsDisagree | src/satellite_position_ecef.c:25 | the ECI and ECEF passes read a stored time differently exactly when it is in (604800, 1000000] |
| SatellitePositionEcef.DayFraction | src/satellite_position_ecef.c:52-54 | the day fraction lies in [0, 1) and differs from t/86400 by whole days |
| SatellitePositionEcef.EarthRotationAngle | src/satellite_position_ecef.c:55 | θ lies in [0, 2π) |
| SatellitePositionEcef.EarthRotationAngleDaily | src/satellite_position_ecef.c:50-55 | θ is the same one solar day later |
| SatellitePositionEcef.RzT | src/satellite_position_ecef.c:61-64 | the built matrix is the transpose of Rz(θ) |
| SatellitePositionEcef.RzTRotates | src/satellite_position_ecef.c:60-72 | Rzᵀ·v = (c·x + s·y, -s·x + c·y, z); with c² + s² = 1 it keeps x² + y² and the length |
| SatellitePositionEcef.RzUndoesRzT | src/satellite_position_ecef.c:57-72 | with c² + s² = 1, Rz undoes the rotation |
| SatellitePositionEcef.EcefForSlotMeaning | src/satellite_position_ecef.c:38-76 | a slot is written exactly when the ECI position is non-zero and the time is set; the written position keeps z and length |
| SatellitePositionEcef.EcefRow | src/satellite_position_ecef.c:74-76 | only positions are written; every time stamp `t_ms` is kept |
| SatellitePositionEcef.EcefRowForPrn | src/satellite_position_ecef.c:35-81 | the slot loop builds `EcefRow` |
| SatellitePositionEcef.SatellitePositionEcef | src/satellite_position_ecef.c:30-84 | returns 0; row 0 is unchanged; every PRN row is `EcefRow` |
| ReceiverEpochs.CmpU32 | src/receiver_position.c:39-43 | -1, 0 or 1 exactly for a < b, a = b, a > b |
| ReceiverEpochs.PrCount | src/receiver_position.c:45-56 | the stored count when it is in 1..MAX_EPOCHS, else the number of non-zero times; never above MAX_EPOCHS |
| ReceiverEpochs.PrCountForPrn | src/receiver_position.c:45-56 | the counting loop returns `PrCount` |
| ReceiverEpochs.AllTimesAreRecorded | src/receiver_position.c:63-74 | a time is scanned exactly when it is non-zero and stored within some PRN's first `pr_count_for_prn` slots |
| ReceiverEpochs.SortSeq | src/receiver_position.c:81 | the sort leaves an ascending permutation |
| ReceiverEpochs.DedupAdjacent | src/receiver_position.c:83-88 | the write-index pass keeps the same values and the last element |
| ReceiverEpochs.DedupSortedIsStrict | src/receiver_position.c:81-88 | on sorted input the pass leaves a strictly increasing sequence |
| ReceiverEpochs.UniqueTimesMeaning | src/receiver_position.c:58-90 | the epochs are strictly increasing and non-zero, each a scanned time, at most the cap; none exactly when nothing was scanned; below the cap, exactly the set of scanned times |
| ReceiverEpochs.CollectTimes | src/receiver_position.c:61-75 | the collection loops leave the capped scan in out[0..n) |
| ReceiverEpochs.ScanRow | src/receiver_position.c:66-74 | one PRN's row is appended without zeros, stopping when the output is full |
| ReceiverEpochs.SortPrefix | src/receiver_position.c:81 | out[0..n) is sorted and the rest of out is unchanged |
| ReceiverEpochs.DedupInPlace | src/receiver_position.c:83-89 | out[0..w) is the de-duplicated prefix |
| ReceiverEpochs.CollectUniquePrTimes | src/receiver_position.c:58-90 | out[0..w) = `UniqueTimes` with w ≤ the capacity |
| ReceiverInverse.PivotUpTo | src/receiver_position.c:110-120 | the pivot is the first row of maximal magnitude in the column (strict `>`) |
| ReceiverInverse.StepKeepsReduced | src/receiver_position.c:121-143 | a successful pass turns column col into a unit column and keeps the earlier ones |
| ReceiverInverse.InvertReducesToIdentity | src/receiver_position.c:108-144 | on success the left half is the identity |
| ReceiverInverse.ZeroColumnIsSingular | src/receiver_position.c:121-122 | a zero first column aborts with 0 |
| ReceiverInverse.IdentityInvertsToItself | src/receiver_position.c:98-149 | the identity inverts to itself |
| ReceiverInverse.StepKeepsConsistent | src/receiver_position.c:123-143 | swap, scale and eliminate keep each row's left half equal to its right half times A |
| ReceiverInverse.InvertIsLeftInverse | src/receiver_position.c:98-149 | on success, inv·A = I in exact arithmetic |
| ReceiverInverse.FindPivot | src/receiver_position.c:110-120 | the scan returns `PivotUpTo` and its magnitude |
| ReceiverInverse.AugmentInPlace | src/receiver_position.c:100-107 | aug holds [A I] |
| ReceiverInverse.EliminationStep | src/receiver_position.c:108-143 | false exactly when the pivot magnitude is ≤ 1e-18; otherwise aug holds the next matrix |
| ReceiverInverse.Invert4x4 | src/receiver_position.c:98-149 | returns 1 exactly when `Invert` succeeds, with the right half in inv; on 0, inv is untouched |
| ReceiverSolver.NormalMatrixSymmetric | src/receiver_position.c:163-171 | GᵀG is symmetric |
| ReceiverSolver.NormalSolveInvertsNormalMatrix | src/receiver_position.c:182-192 | when the step succeeds, the matrix applied inverts GᵀG |
| ReceiverSolver.TransposeRows | src/receiver_position.c:158-161 | AT[i][j] = G[j][i] |
| ReceiverSolver.NormalMatrixLoop | src/receiver_position.c:163-171 | the accumulation loops give GᵀG of the first m rows |
| ReceiverSolver.NormalRhsLoop | src/receiver_position.c:173-180 | the loops give Gᵀy |
| ReceiverSolver.ApplyInverse | src/receiver_position.c:186-192 | out[r] = Σ_c inv[r][c]·ATy[c] |
| ReceiverSolver.PinvNormalEqApply | src/receiver_position.c:152-194 | returns 1 with out = (GᵀG)⁻¹Gᵀy exactly when the inversion succeeds; on 0, out is untouched |
| ReceiverSolver.SafeRange | src/receiver_position.c:309-311 | a non-positive range becomes 1.0; a positive one is kept; the result is positive |
| ReceiverSolver.GeometryRow | src/receiver_position.c:321-329 | a row of G has four entries with 1 in the clock column |
| ReceiverSolver.GeometryRowIsUnit | src/receiver_position.c:305-316 | away from the satellite, the first three entries of a row form a unit vector |
| ReceiverSolver.NormalMatrixClockEntry | src/receiver_position.c:163-171 | entry (3,3) of GᵀG is the number of satellites |
| ReceiverSolver.SolveFromIsIterate | src/receiver_position.c:297-351 | the loop from iteration it is 10 - it iterations |
| ReceiverSolver.IterateFromNone | src/receiver_position.c:333-338 | a singular iteration fails the whole run |
| ReceiverSolver.SolveEpochRunsTenIterations | src/receiver_position.c:294-297 | the result is the tenth iterate from (0,0,0) with clock bias 0 |
| ReceiverSolver.BuildGeometry | src/receiver_position.c:303-329 | the loop fills G and delta_tau as `Geometry` and `Residuals` |
| ReceiverSolver.NormalStep | src/receiver_position.c:299-333 | computes the step the normal equations give |
| ReceiverSolver.IterationStep | src/receiver_position.c:299-343 | one pass returns `Iteration`: position and bias advanced by the step, or None when singular |
| ReceiverSolver.SolveEpochLoop | src/receiver_position.c:293-351 | the Newton loop returns `SolveEpoch` |
| ReceiverPosition.MatchFor | src/receiver_position.c:273-287 | a PRN contributes exactly when its scanned row holds t, from its first such slot k, with the ECEF sample and pseudorange of that same k |
| ReceiverPosition.GatherMeaning | src/receiver_position.c:271-288 | PRNs come in strictly ascending order; each entry is the PRN's first match; a PRN appears exactly when its scanned row holds t |
| ReceiverPosition.GatherEpoch | src/receiver_position.c:264-288 | the gather loop returns `Gather` with at most 32 entries |
| ReceiverPosition.EpochFixMeaning | src/receiver_position.c:290-353 | an epoch has a fix exactly when at least 4 satellites are gathered and 10 iterations succeed; the fix is the tenth iterate's position |
| ReceiverPosition.SolveEpochAt | src/receiver_position.c:262-351 | gather, the skip below 4 satellites and the solve give `EpochFix` |
| ReceiverPosition.StoreAll | src/receiver_position.c:353-371 | output i holds epoch i's fix when it was solved and i is in range; otherwise it keeps its old value |
| ReceiverPosition.StoredTogether | src/receiver_position.c:356-371 | index i of position, latitude and longitude is written exactly when epoch i has a fix (with the fix and its geodetic latitude and longitude); otherwise all three keep their old values |
| ReceiverPosition.StoreEpoch | src/receiver_position.c:353-371 | one epoch's guarded stores |
| ReceiverPosition.StoreEpochs | src/receiver_position.c:260-378 | after the epoch loop, positions, latitudes and longitudes are `StoreAll` of the epochs' fixes |
| ReceiverPosition.EstimateReceiverPositions | src/receiver_position.c:197-382 | returns 0 and the number of unique epochs; the outputs are the guarded stores of every epoch's fix |
| ReceiverPosition.AsWrittenOverruns | src/receiver_position.c:356-358 | an epoch with index ≥ MAX_EPOCHS that is solved makes the unguarded store write past the array |
| ReceiverPosition.AsWrittenAgreesInBounds | src/receiver_position.c:353-371 | without such an epoch the unguarded and guarded stores agree |

## Left out

- Text field extraction (`strstr`, `sscanf`, the `EXTRACT` macro) is not modelled, because the macro is not part of this model. Each message arrives as a record of its decoded DF fields. A DF400..DF403 key missing from the line leaves the old struct value in the C code; the model instead takes the value as decoded.
- `parse_rtcm_1002` is not modelled beyond its record shape: it is pure field extraction. Only the 1019 scalings and the 1074 cell compaction and pseudorange assembly are modelled.
- The null-pointer checks of `parse_rtcm_1074`/`parse_rtcm_1019` and the header fields that are only copied (DF002, DF003, DF393 and the like) are left out.
- Floating-point rounding, NaN and infinity are not modelled: every `real` is finite. So the `isfinite` guards (src/satellite_position_eci.c:83, 125; src/receiver_position.c:310) cannot fire, and `SafeRange` tests only `r > 0`.
- `sin`, `cos`, `sqrt`, `atan2` and `fmax` have no numeric model. The first four are uninterpreted function values, given only the facts each lemma's `requires` names.
- The accuracy of the Kepler solution and the convergence of the Newton solver are not claimed.
- `ecef_to_geodetic` (src/ecef_to_latlong.c) is a function parameter. The altitude it returns is not stored, as in the source.
- The `malloc` failure path of `estimate_receiver_positions` (return -1) is left out: allocation cannot fail in Dafny. The buffer is created zero-filled.
- The progress `printf`s, the per-PRN summary (src/receiver_position.c:210-257) and the unused rms computation (src/receiver_position.c:346-349) are output only and are left out.
- `n_times` and the clock bias are not kept as globals after the call: `EstimateReceiverPositions` returns the epoch count.
- In the C code `estimate_receiver_positions` is defined with no parameters but declared in include/receiver.h with two. `estimated_positions_ecef` is declared there as an array but defined as one struct. The model follows the definitions in the .c file.
- `sort_satellites` looks up the index in the global `eph_history` but reads the record from its `eph_history_table` argument. The model passes one history for both, which is what the caller does.
- The `[MAX_SAT][MAX_EPOCHS]` parameter bound of `sort_satellites` is not modelled: the array it receives, `msm4_history` (src/df_parser.c:26), has `MAX_SAT + 1` rows, and the model indexes rows 1..32 of that.
- `SatellitePositionEci.Propagate`: does not test `r > 0` (src/satellite_position_eci.c:125), because `OrbitRadius` proves r is always positive for elements that passed the sanity guard. `EciForSlot` keeps the test.
- The `assumed_ranges` and `unit_vectors` arrays of the Newton loop are folded into the rows of G. Only G and `delta_tau` are arrays in the model.
- `EphSelect.FindClosestByTimeOfWeek`, `EphSelect.FindClosestByToe`, and through them `Satellites.SortSatellites` and `SatellitePositionEci.EciForSlot`: scan the stored records `i < min(count, MAX_EPH_HISTORY)` rather than `i < count` as src/satellites.c:27 and src/satellite_position_eci.c:29 do. They follow the corrected loop of the second Findings row; `EphSelect.FindClosestAsWritten` is the loop as written, and it agrees with them whenever count is within the capacity.
- `Satellites.SlotFor` reads `pseudorange[j]` at the satellite's position j in the satellite list (src/satellites.c:56), while `parse_rtcm_1074` fills `pseudorange[]` by L1-cell index (src/df_parser.c:268-281). The model keeps this indexing as written; the two agree only when the i-th L1 cell belongs to the i-th listed satellite.
- `Satellites.ObservedSlot` compares the DF004 time (milliseconds) against the ephemeris `time_of_week` (seconds) with no conversion (src/satellites.c:60), unlike the 604800 normalisation of src/satellite_position_eci.c:58-60. The model keeps the comparison as written.
- `uint32_t` and `size_t` widths are not modelled: times and counters are unbounded naturals, and no wrap-around occurs in the model.
- `ReceiverSolver.GeometryRowIsUnit`: needs `sqrt` to return the exact root; the source relies on libm for that.

## Findings

| source | as written | input that shows it | evidently intended | confidence | as-written member | corrected member |
|---|---|---|---|---|---|---|
| src/receiver_position.c:356-358 | the ECEF estimate is stored at index `ti` with no bound check; only the geodetic store is guarded by `ti < MAX_EPOCHS` | `MAX_UNIQUE_EPOCHS` > `MAX_EPOCHS`, and an epoch with index ≥ `MAX_EPOCHS` that gathers four satellites and solves | both stores guarded by `ti < MAX_EPOCHS` | medium, not executed; depends on the two capacities, which are not defined in the modelled files | ReceiverPosition.AsWrittenOverruns | ReceiverPosition.EstimateReceiverPositions |
| src/satellites.c:27, src/satellite_position_eci.c:29 | `find_closest_eph_idx` scans `i < count`, but `store_ephemeris` keeps incrementing `count` past `MAX_EPH_HISTORY` (src/df_parser.c:413) | a PRN receiving `MAX_EPH_HISTORY + 1` ephemerides; the next lookup reads `eph[MAX_EPH_HISTORY]` | scan `i < min(count, MAX_EPH_HISTORY)` | high, not executed | EphSelect.AsWrittenOverrunsAfterOverflow | EphSelect.BoundedScanIgnoresOverflow |
