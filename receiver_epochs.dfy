/** Epoch collection in src/receiver_position.c: the distinct non-zero
    observation times over all satellites, gathered up to a cap, sorted and
    deduplicated in place. */
module ReceiverEpochs {
  import opened Gnss
  import opened Satellites

  // ---------------------------------------------------------------------
  // Helpers
  // ---------------------------------------------------------------------

  /** cmp_u32: the qsort comparator (A > B) - (A < B). */
  function CmpU32(a: nat, b: nat): (r: int)
    ensures r == -1 <==> a < b
    ensures r == 0 <==> a == b
    ensures r == 1 <==> a > b
  {
    (if a > b then 1 else 0) - (if a < b then 1 else 0)
  }

  /** The observation times of one gps_list row. */
  function Times(slots: seq<Slot>): (ts: seq<nat>)
    ensures |ts| == |slots|
    ensures forall k :: 0 <= k < |slots| ==> ts[k] == slots[k].timeOfPseudorange
  {
    seq(|slots|, k requires 0 <= k < |slots| => slots[k].timeOfPseudorange)
  }

  /** The non-zero entries of s, in order. */
  function NonZero(s: seq<nat>): (r: seq<nat>)
    ensures |r| <= |s|
    ensures forall x :: x in r <==> x in s && x != 0
  {
    if |s| == 0 then []
    else
      var n := |s| - 1;
      assert forall x :: x in s <==> x in s[..n] || x == s[n];
      NonZero(s[..n]) + (if s[n] == 0 then [] else [s[n]])
  }

  lemma {:induction false} NonZeroAppend(a: seq<nat>, b: seq<nat>)
    ensures NonZero(a + b) == NonZero(a) + NonZero(b)
    decreases |b|
  {
    if |b| > 0 {
      var n := |b| - 1;
      assert (a + b)[..|a + b| - 1] == a + b[..n];
      NonZeroAppend(a, b[..n]);
    } else {
      assert a + b == a;
    }
  }

  /** pr_count_for_prn: the stored pseudorange count when it is in
      1..MAX_EPOCHS, otherwise the number of non-zero times in the row. It
      never exceeds the row length. */
  function PrCount(count: nat, slots: seq<Slot>): (n: nat)
    ensures n <= |slots|
    ensures 0 < count <= |slots| ==> n == count
    ensures !(0 < count <= |slots|) ==> n == |NonZero(Times(slots))|
  {
    if 0 < count <= |slots| then count else |NonZero(Times(slots))|
  }

  /** The counting loop of pr_count_for_prn. */
  method PrCountForPrn(count: nat, slots: seq<Slot>) returns (n: nat)
    ensures n == PrCount(count, slots)
  {
    if 0 < count <= |slots| {
      return count;
    }
    var ts := Times(slots);
    var c := 0;
    var k := 0;
    while k < |slots|
      invariant 0 <= k <= |slots|
      invariant c == |NonZero(ts[..k])|
    {
      assert ts[..k + 1][..k] == ts[..k];
      if slots[k].timeOfPseudorange != 0 {
        c := c + 1;
      }
      k := k + 1;
    }
    assert ts[..k] == ts;
    n := c;
  }

  // ---------------------------------------------------------------------
  // What is collected
  // ---------------------------------------------------------------------

  predicate Tables(glist: seq<SatelliteData>, counts: seq<nat>)
  {
    |glist| == MAX_SAT + 1 && |counts| == MAX_SAT + 1
  }

  /** The times scanned for one PRN: the first pr_count_for_prn entries. */
  function Row(glist: seq<SatelliteData>, counts: seq<nat>, p: nat): seq<nat>
    requires Tables(glist, counts) && p <= MAX_SAT
  {
    Times(glist[p].slots)[..PrCount(counts[p], glist[p].slots)]
  }

  /** The rows of PRNs 1..p one after another, zeros included. */
  function RawTimes(glist: seq<SatelliteData>, counts: seq<nat>, p: nat): seq<nat>
    requires Tables(glist, counts) && p <= MAX_SAT
  {
    if p == 0 then [] else RawTimes(glist, counts, p - 1) + Row(glist, counts, p)
  }

  /** Every non-zero time the scan visits, in visiting order. */
  function AllTimes(glist: seq<SatelliteData>, counts: seq<nat>): seq<nat>
    requires Tables(glist, counts)
  {
    NonZero(RawTimes(glist, counts, MAX_SAT))
  }

  /** What the collection loop leaves in out_times_ms before sorting: the
      first `cap` visited non-zero times. */
  function Collected(glist: seq<SatelliteData>, counts: seq<nat>, cap: nat): (c: seq<nat>)
    requires Tables(glist, counts)
    ensures |c| <= cap
  {
    var all := AllTimes(glist, counts);
    if |all| <= cap then all else all[..cap]
  }

  /** A later prefix of the scan extends an earlier one. */
  lemma {:induction false} RawTimesExtend(glist: seq<SatelliteData>, counts: seq<nat>, p: nat, q: nat)
    returns (b: seq<nat>)
    requires Tables(glist, counts) && p <= q <= MAX_SAT
    ensures RawTimes(glist, counts, q) == RawTimes(glist, counts, p) + b
    decreases q
  {
    if p == q {
      b := [];
      assert RawTimes(glist, counts, q) + [] == RawTimes(glist, counts, q);
    } else {
      var b0 := RawTimesExtend(glist, counts, p, q - 1);
      b := b0 + Row(glist, counts, q);
    }
  }

  /** x is visited by the scan of PRNs 1..q exactly when some PRN p <= q has
      it within its first pr_count_for_prn entries. */
  lemma {:induction false} RawTimesMembers(glist: seq<SatelliteData>, counts: seq<nat>, q: nat, x: nat)
    requires Tables(glist, counts) && q <= MAX_SAT
    ensures x in RawTimes(glist, counts, q) <==>
              exists p, k :: 1 <= p <= q && 0 <= k < |Row(glist, counts, p)| && Row(glist, counts, p)[k] == x
  {
    if q > 0 {
      RawTimesMembers(glist, counts, q - 1, x);
      var prev := RawTimes(glist, counts, q - 1);
      var row := Row(glist, counts, q);
      assert x in prev + row <==> x in prev || x in row;
      if x in row {
        var k :| 0 <= k < |row| && row[k] == x;
        assert Row(glist, counts, q)[k] == x;
      }
    }
  }

  /** The collected times are exactly the non-zero times recorded within each
      PRN's pr_count_for_prn entries. */
  lemma AllTimesAreRecorded(glist: seq<SatelliteData>, counts: seq<nat>, x: nat)
    requires Tables(glist, counts)
    ensures x in AllTimes(glist, counts) <==>
              x != 0 && exists p, k :: 1 <= p <= MAX_SAT && 0 <= k < PrCount(counts[p], glist[p].slots)
                                       && glist[p].slots[k].timeOfPseudorange == x
  {
    RawTimesMembers(glist, counts, MAX_SAT, x);
    if x in RawTimes(glist, counts, MAX_SAT) {
      var p, k :| 1 <= p <= MAX_SAT && 0 <= k < |Row(glist, counts, p)| && Row(glist, counts, p)[k] == x;
      assert glist[p].slots[k].timeOfPseudorange == x;
    }
    if exists p, k :: 1 <= p <= MAX_SAT && 0 <= k < PrCount(counts[p], glist[p].slots)
                      && glist[p].slots[k].timeOfPseudorange == x {
      var p, k :| 1 <= p <= MAX_SAT && 0 <= k < PrCount(counts[p], glist[p].slots)
                  && glist[p].slots[k].timeOfPseudorange == x;
      assert Row(glist, counts, p)[k] == x;
    }
  }

  // ---------------------------------------------------------------------
  // Sorting and deduplication
  // ---------------------------------------------------------------------

  predicate SortedAsc(s: seq<nat>)
  {
    forall i, j :: 0 <= i < j < |s| ==> s[i] <= s[j]
  }

  predicate StrictlyIncreasing(s: seq<nat>)
  {
    forall i, j :: 0 <= i < j < |s| ==> s[i] < s[j]
  }

  function Insert(x: nat, s: seq<nat>): (r: seq<nat>)
    requires SortedAsc(s)
    ensures SortedAsc(r)
    ensures multiset(r) == multiset(s) + multiset{x}
  {
    if |s| == 0 then [x]
    else if CmpU32(x, s[0]) <= 0 then [x] + s
    else
      var rest := Insert(x, s[1..]);
      assert s == [s[0]] + s[1..];
      BoundedBelow(s[0], rest, s[1..], x);
      [s[0]] + rest
  }

  /** A permutation of t with x added keeps a common lower bound of both. */
  lemma BoundedBelow(lo: nat, r: seq<nat>, t: seq<nat>, x: nat)
    requires multiset(r) == multiset(t) + multiset{x}
    requires lo <= x && forall k :: 0 <= k < |t| ==> lo <= t[k]
    ensures forall i :: 0 <= i < |r| ==> lo <= r[i]
  {
    forall i | 0 <= i < |r|
      ensures lo <= r[i]
    {
      assert r[i] in multiset(r);
      if r[i] != x {
        assert r[i] in multiset(t);
      }
    }
  }

  /** The order qsort with cmp_u32 leaves: ascending, with the same elements.
      For plain integers every sort gives this same sequence. */
  function SortSeq(s: seq<nat>): (r: seq<nat>)
    ensures SortedAsc(r)
    ensures multiset(r) == multiset(s)
  {
    if |s| == 0 then []
    else
      assert s == [s[0]] + s[1..];
      Insert(s[0], SortSeq(s[1..]))
  }

  /** The write-index pass: keep an element only when it differs from the
      last one kept. */
  function DedupAdjacent(s: seq<nat>): (r: seq<nat>)
    ensures |r| <= |s|
    ensures |s| > 0 ==> |r| > 0 && r[|r| - 1] == s[|s| - 1]
    ensures forall x :: x in r <==> x in s
  {
    if |s| == 0 then []
    else
      var n := |s| - 1;
      var d := DedupAdjacent(s[..n]);
      assert forall x :: x in s <==> x in s[..n] || x == s[n];
      if |d| > 0 && d[|d| - 1] == s[n] then d else d + [s[n]]
  }

  /** On a sorted sequence the pass leaves a strictly increasing one. */
  lemma {:induction false} DedupSortedIsStrict(s: seq<nat>)
    requires SortedAsc(s)
    ensures StrictlyIncreasing(DedupAdjacent(s))
  {
    if |s| > 0 {
      var n := |s| - 1;
      assert SortedAsc(s[..n]);
      DedupSortedIsStrict(s[..n]);
      var d := DedupAdjacent(s[..n]);
      forall y | y in d
        ensures y <= s[n]
      {
        assert y in s[..n];
      }
    }
  }

  /** What collect_unique_pr_times_ms returns in out_times_ms[0..n). */
  function UniqueTimes(glist: seq<SatelliteData>, counts: seq<nat>, cap: nat): seq<nat>
    requires Tables(glist, counts)
  {
    DedupAdjacent(SortSeq(Collected(glist, counts, cap)))
  }

  /** Sorting and deduplicating keep exactly the collected values. */
  lemma UniqueTimesMembers(glist: seq<SatelliteData>, counts: seq<nat>, cap: nat)
    requires Tables(glist, counts)
    ensures forall x :: x in UniqueTimes(glist, counts, cap) <==> x in Collected(glist, counts, cap)
  {
    var c := Collected(glist, counts, cap);
    var sorted := SortSeq(c);
    forall x
      ensures x in sorted <==> x in c
    {
      assert x in sorted <==> x in multiset(sorted);
      assert x in c <==> x in multiset(c);
    }
  }

  /** Sorting keeps the number of collected times. */
  lemma SortedLength(glist: seq<SatelliteData>, counts: seq<nat>, cap: nat)
    requires Tables(glist, counts)
    ensures |SortSeq(Collected(glist, counts, cap))| == |Collected(glist, counts, cap)|
  {
    var c := Collected(glist, counts, cap);
    assert |multiset(SortSeq(c))| == |multiset(c)|;
  }

  /** There are no unique times exactly when no non-zero time was recorded. */
  lemma UniqueTimesEmpty(glist: seq<SatelliteData>, counts: seq<nat>, cap: nat)
    requires Tables(glist, counts) && cap > 0
    ensures |UniqueTimes(glist, counts, cap)| == 0 <==> |AllTimes(glist, counts)| == 0
  {
    SortedLength(glist, counts, cap);
    var c := Collected(glist, counts, cap);
    assert |c| == 0 <==> |AllTimes(glist, counts)| == 0;
  }

  /** Every unique time is a non-zero recorded time. */
  lemma UniqueTimesRecorded(glist: seq<SatelliteData>, counts: seq<nat>, cap: nat)
    requires Tables(glist, counts)
    ensures forall x :: x in UniqueTimes(glist, counts, cap) ==> x != 0 && x in AllTimes(glist, counts)
  {
    UniqueTimesMembers(glist, counts, cap);
    var all := AllTimes(glist, counts);
    var c := Collected(glist, counts, cap);
    assert forall x :: x in c ==> x in all;
  }

  /** The epochs are strictly increasing, never zero, each a recorded time,
      at most `cap` of them, none only when nothing was recorded (for a
      positive cap), and all distinct recorded times when they fit under the
      cap. */
  lemma UniqueTimesMeaning(glist: seq<SatelliteData>, counts: seq<nat>, cap: nat)
    requires Tables(glist, counts)
    ensures StrictlyIncreasing(UniqueTimes(glist, counts, cap))
    ensures |UniqueTimes(glist, counts, cap)| <= cap
    ensures forall i :: 0 <= i < |UniqueTimes(glist, counts, cap)| ==>
              UniqueTimes(glist, counts, cap)[i] != 0 && UniqueTimes(glist, counts, cap)[i] in AllTimes(glist, counts)
    ensures cap > 0 ==> (|UniqueTimes(glist, counts, cap)| == 0 <==> |AllTimes(glist, counts)| == 0)
    ensures |AllTimes(glist, counts)| <= cap ==>
              forall x :: x in UniqueTimes(glist, counts, cap) <==> x in AllTimes(glist, counts)
  {
    DedupSortedIsStrict(SortSeq(Collected(glist, counts, cap)));
    SortedLength(glist, counts, cap);
    UniqueTimesRecorded(glist, counts, cap);
    UniqueTimesMembers(glist, counts, cap);
    var u := UniqueTimes(glist, counts, cap);
    assert forall i :: 0 <= i < |u| ==> u[i] in u;
    if |AllTimes(glist, counts)| <= cap {
      assert Collected(glist, counts, cap) == AllTimes(glist, counts);
    }
    if cap > 0 {
      UniqueTimesEmpty(glist, counts, cap);
    }
  }

  // ---------------------------------------------------------------------
  // collect_unique_pr_times_ms
  // ---------------------------------------------------------------------

  /** The collection loops: non-zero times from the first pr_count_for_prn
      slots of PRNs 1..32, stopping at the first time that finds the buffer
      full (the `goto SORT_AND_DEDUP`). */
  method CollectTimes(glist: seq<SatelliteData>, counts: seq<nat>, out: array<nat>) returns (n: nat)
    requires Tables(glist, counts)
    modifies out
    ensures n <= out.Length
    ensures out[..n] == Collected(glist, counts, out.Length)
  {
    n := 0;
    var prn := 1;
    while prn <= MAX_SAT
      invariant 1 <= prn <= MAX_SAT + 1
      invariant n <= out.Length
      invariant out[..n] == NonZero(RawTimes(glist, counts, prn - 1))
    {
      var full;
      n, full := ScanRow(glist, counts, prn, out, n, RawTimes(glist, counts, prn - 1));
      if full {
        ghost var b := RawTimesExtend(glist, counts, prn, MAX_SAT);
        NonZeroAppend(RawTimes(glist, counts, prn), b);
        return;
      }
      prn := prn + 1;
    }
  }

  /** One more element of the row adds itself when non-zero. */
  lemma NonZeroStep(prev: seq<nat>, row: seq<nat>, k: nat)
    requires k < |row|
    ensures NonZero(prev + row[..k + 1]) == NonZero(prev + row[..k]) + (if row[k] == 0 then [] else [row[k]])
  {
    assert (prev + row[..k + 1])[..|prev + row[..k + 1]| - 1] == prev + row[..k];
  }

  /** Stopping at a non-zero row[k] leaves a strict prefix of what the whole
      row would have contributed. */
  lemma NonZeroStopsShort(prev: seq<nat>, row: seq<nat>, k: nat)
    requires k < |row| && row[k] != 0
    ensures |NonZero(prev + row)| > |NonZero(prev + row[..k])|
    ensures NonZero(prev + row)[..|NonZero(prev + row[..k])|] == NonZero(prev + row[..k])
  {
    assert prev + row == (prev + row[..k]) + row[k..];
    NonZeroAppend(prev + row[..k], row[k..]);
    assert row[k] in NonZero(row[k..]) by {
      assert row[k..][0] == row[k];
    }
  }

  /** The inner loop for one PRN, appending after the n0 times already held
      (the non-zero times of `prev`). On `full` it stopped at a non-zero time
      with no room left, holding a strict prefix of what it would have added. */
  method ScanRow(glist: seq<SatelliteData>, counts: seq<nat>, prn: nat, out: array<nat>, n0: nat,
                 ghost prev: seq<nat>)
    returns (n: nat, full: bool)
    requires Tables(glist, counts) && 1 <= prn <= MAX_SAT
    requires n0 <= out.Length && out[..n0] == NonZero(prev)
    modifies out
    ensures n <= out.Length
    ensures !full ==> out[..n] == NonZero(prev + Row(glist, counts, prn))
    ensures full ==> n == out.Length && |NonZero(prev + Row(glist, counts, prn))| > n
                     && NonZero(prev + Row(glist, counts, prn))[..n] == out[..n]
  {
    n := n0;
    full := false;
    var nPr := PrCountForPrn(counts[prn], glist[prn].slots);
    ghost var row := Row(glist, counts, prn);
    var k := 0;
    assert prev + row[..0] == prev;
    while k < nPr
      invariant 0 <= k <= nPr && n <= out.Length
      invariant out[..n] == NonZero(prev + row[..k])
    {
      var t := glist[prn].slots[k].timeOfPseudorange;
      assert t == row[k];
      NonZeroStep(prev, row, k);
      if t == 0 {
        k := k + 1;
        continue;
      }
      if n >= out.Length {
        NonZeroStopsShort(prev, row, k);
        full := true;
        return;
      }
      out[n] := t;
      n := n + 1;
      k := k + 1;
    }
    assert row[..nPr] == row;
  }

  /** qsort(out_times_ms, n, ...) with cmp_u32, on the first n entries. */
  method SortPrefix(out: array<nat>, n: nat)
    requires n <= out.Length
    modifies out
    ensures out[..n] == SortSeq(old(out[..n]))
    ensures out[n..] == old(out[n..])
  {
    var sorted := SortSeq(out[..n]);
    var i := 0;
    while i < n
      invariant 0 <= i <= n
      invariant out[..i] == sorted[..i]
      invariant out[i..] == old(out[i..])
    {
      out[i] := sorted[i];
      i := i + 1;
    }
  }

  /** The in-place pass with write index w over out_times_ms[0..n). */
  method DedupInPlace(out: array<nat>, n: nat) returns (w: nat)
    requires 0 < n <= out.Length
    modifies out
    ensures w <= n
    ensures out[..w] == DedupAdjacent(old(out[..n]))
  {
    ghost var s := out[..n];
    w := 1;
    var i := 1;
    assert s[..1] == [s[0]];
    while i < n
      invariant 1 <= w <= i <= n
      invariant out[..w] == DedupAdjacent(s[..i])
      invariant forall j :: i <= j < n ==> out[j] == s[j]
    {
      assert s[..i + 1][..i] == s[..i];
      assert out[i] == s[i];
      if out[i] != out[w - 1] {
        out[w] := out[i];
        w := w + 1;
      }
      i := i + 1;
    }
    assert s[..n] == s;
  }

  /** collect_unique_pr_times_ms: the returned count and the prefix of
      out_times_ms it describes. */
  method CollectUniquePrTimes(glist: seq<SatelliteData>, counts: seq<nat>, out: array<nat>) returns (w: nat)
    requires Tables(glist, counts)
    modifies out
    ensures w <= out.Length
    ensures out[..w] == UniqueTimes(glist, counts, out.Length)
  {
    var n := CollectTimes(glist, counts, out);
    if n == 0 {
      return 0;
    }
    SortPrefix(out, n);
    w := DedupInPlace(out, n);
  }
}
