/**
 * calculateHashStatistics of js/statistics.js, restricted to its integer
 * fields: the count of ones and zeros, the runs of equal bits (how many,
 * the longest, how many of each colour) and the number of distinct bytes.
 */
module Statistics {
  import opened Common
  import Utils

  /** A maximal block of equal bits: its colour and its length. */
  datatype Run = Run(value: bit, length: nat)

  /** The integer fields of the object calculateHashStatistics returns. */
  datatype Stats = Stats(
    totalBits: nat,
    ones: nat,
    zeros: int,
    runs: nat,
    maxRun: nat,
    runs1: nat,
    runs0: nat,
    totalBytes: nat,
    uniqueBytes: nat,
    hexLength: nat)

  // ---------------------------------------------------------------------------
  // Specification functions
  // ---------------------------------------------------------------------------

  /** bits.reduce((sum, bit) => sum + bit, 0) */
  function Ones(bits: seq<bit>): (n: nat)
    ensures n <= |bits|
  {
    if bits == [] then 0 else Ones(bits[..|bits| - 1]) + bits[|bits| - 1]
  }

  /** The decomposition of bits into maximal blocks of equal bits, left to right. */
  function Runs(bits: seq<bit>): (r: seq<Run>)
    ensures bits == [] <==> r == []
    ensures r != [] ==> r[|r| - 1].value == bits[|bits| - 1]
  {
    if bits == [] then [] else Extend(Runs(bits[..|bits| - 1]), bits[|bits| - 1])
  }

  /** The runs after one more bit b: the last run grows when it has colour b, else a new run starts. */
  function Extend(r: seq<Run>, b: bit): (r': seq<Run>)
    ensures r' != [] && r'[|r'| - 1].value == b
  {
    if r != [] && r[|r| - 1].value == b then r[..|r| - 1] + [Run(b, r[|r| - 1].length + 1)]
    else r + [Run(b, 1)]
  }

  /** Number of positions i >= 1 with bits[i] != bits[i - 1]. */
  function Changes(bits: seq<bit>): nat
  {
    if |bits| <= 1 then 0
    else Changes(bits[..|bits| - 1]) + (if bits[|bits| - 1] != bits[|bits| - 2] then 1 else 0)
  }

  /** Length of the longest run (0 for no runs). */
  function MaxLen(runs: seq<Run>): nat
  {
    if runs == [] then 0 else Max(MaxLen(runs[..|runs| - 1]), runs[|runs| - 1].length)
  }

  /** Number of runs of colour v. */
  function CountOf(runs: seq<Run>, v: bit): nat
  {
    if runs == [] then 0
    else CountOf(runs[..|runs| - 1], v) + (if runs[|runs| - 1].value == v then 1 else 0)
  }

  /** The bits a run list stands for. */
  function Expand(runs: seq<Run>): seq<bit>
  {
    if runs == [] then []
    else Expand(runs[..|runs| - 1]) + Block(runs[|runs| - 1].value, runs[|runs| - 1].length)
  }

  /** n copies of bit v. */
  function Block(v: bit, n: nat): (s: seq<bit>)
    ensures |s| == n
    ensures forall i :: 0 <= i < n ==> s[i] == v
  {
    if n == 0 then [] else Block(v, n - 1) + [v]
  }

  /** A run list in which every run is non-empty and neighbouring runs differ in colour. */
  predicate Maximal(runs: seq<Run>)
  {
    (forall j :: 0 <= j < |runs| ==> runs[j].length >= 1) &&
    (forall j :: 0 < j < |runs| ==> runs[j].value != runs[j - 1].value)
  }

  /** The distinct byte values of the digest. */
  function Distinct(bytes: seq<byte>): set<byte>
  {
    set b | b in bytes
  }

  /**
   * What calculateHashStatistics reports, stated through the run decomposition:
   * for empty bits no run is counted and maxRun keeps its initial value 1.
   */
  function HashStatistics(hashBytes: seq<byte>, bits: seq<bit>): (s: Stats)
    ensures s.ones + s.zeros == s.totalBits == |bits| && s.zeros >= 0
    ensures s.runs1 + s.runs0 == s.runs
    ensures s.hexLength == 2 * s.totalBytes && s.totalBytes == |hashBytes|
  {
    var r := Runs(bits);
    CountsAddUp(r);
    Stats(
      totalBits := |bits|,
      ones := Ones(bits),
      zeros := |bits| - Ones(bits),
      runs := |r|,
      maxRun := if bits == [] then 1 else MaxLen(r),
      runs1 := CountOf(r, 1),
      runs0 := CountOf(r, 0),
      totalBytes := |hashBytes|,
      uniqueBytes := |Distinct(hashBytes)|,
      hexLength := 2 * |hashBytes|)
  }

  // ---------------------------------------------------------------------------
  // calculateHashStatistics
  // ---------------------------------------------------------------------------

  /** calculateHashStatistics: the reduce for ones, the run scan and the byte tally. */
  method CalculateHashStatistics(hashBytes: seq<byte>, bits: seq<bit>) returns (s: Stats)
    ensures s == HashStatistics(hashBytes, bits)
  {
    var total := |bits|;
    var ones := Ones(bits);
    var zeros := total - ones;
    var runs, maxRun, runs1, runs0 := ScanRuns(bits);
    var uniqueBytes := CountUniqueBytes(hashBytes);
    s := Stats(total, ones, zeros, runs, maxRun, runs1, runs0, |hashBytes|, uniqueBytes, |hashBytes| * 2);
  }

  /**
   * The run loop: runs, currentRun, maxRun, runs1 and runs0 are updated bit by
   * bit, and the still-open last run is closed after the loop when bits is non-empty.
   */
  method ScanRuns(bits: seq<bit>) returns (runs: nat, maxRun: nat, runs1: nat, runs0: nat)
    ensures runs == |Runs(bits)|
    ensures maxRun == if bits == [] then 1 else MaxLen(Runs(bits))
    ensures runs1 == CountOf(Runs(bits), 1) && runs0 == CountOf(Runs(bits), 0)
  {
    runs := 0;
    var currentRun: nat := 1;
    maxRun := 1;
    runs1 := 0;
    runs0 := 0;
    var i := 1;
    while i < |bits|
      invariant |bits| > 0 ==> 1 <= i <= |bits|
      invariant |bits| == 0 ==> runs == 0 && maxRun == 1 && runs1 == 0 && runs0 == 0
      invariant |bits| > 0 ==> RunLoopState(bits[..i], runs, currentRun, maxRun, runs1, runs0)
    {
      assert bits[..i + 1] == bits[..i] + [bits[i]];
      if bits[i] == bits[i - 1] {
        RunStepSame(bits[..i], bits[i], runs, currentRun, maxRun, runs1, runs0);
        currentRun := currentRun + 1;
      } else {
        RunStepChange(bits[..i], bits[i], runs, currentRun, maxRun, runs1, runs0);
        if bits[i - 1] == 1 {
          runs1 := runs1 + 1;
        } else {
          runs0 := runs0 + 1;
        }
        maxRun := Max(maxRun, currentRun);
        currentRun := 1;
        runs := runs + 1;
      }
      i := i + 1;
    }
    if |bits| > 0 {
      assert bits[..i] == bits;
      RunFinish(bits, runs, currentRun, maxRun, runs1, runs0);
      if bits[|bits| - 1] == 1 {
        runs1 := runs1 + 1;
      } else {
        runs0 := runs0 + 1;
      }
      maxRun := Max(maxRun, currentRun);
      runs := runs + 1;
    }
  }

  /** A bit equal to the previous one lengthens the open run. */
  lemma RunStepSame(p: seq<bit>, b: bit, runs: nat, currentRun: nat, maxRun: nat, runs1: nat, runs0: nat)
    requires p != [] && p[|p| - 1] == b
    requires RunLoopState(p, runs, currentRun, maxRun, runs1, runs0)
    ensures RunLoopState(p + [b], runs, currentRun + 1, maxRun, runs1, runs0)
  {
    var r := Runs(p);
    assert (p + [b])[..|p|] == p;
    var r' := Runs(p + [b]);
    assert r' == Extend(r, b);
    assert r'[..|r'| - 1] == r[..|r| - 1];
  }

  /** A bit different from the previous one closes the open run and starts a new one. */
  lemma RunStepChange(p: seq<bit>, b: bit, runs: nat, currentRun: nat, maxRun: nat, runs1: nat, runs0: nat)
    requires p != [] && p[|p| - 1] != b
    requires RunLoopState(p, runs, currentRun, maxRun, runs1, runs0)
    ensures RunLoopState(p + [b], runs + 1, 1, Max(maxRun, currentRun),
      runs1 + (if p[|p| - 1] == 1 then 1 else 0), runs0 + (if p[|p| - 1] == 1 then 0 else 1))
  {
    var r := Runs(p);
    assert (p + [b])[..|p|] == p;
    var r' := Runs(p + [b]);
    assert r' == Extend(r, b);
    assert r'[..|r'| - 1] == r;
  }

  /** Closing the last run after the loop gives the values over all runs. */
  lemma RunFinish(bits: seq<bit>, runs: nat, currentRun: nat, maxRun: nat, runs1: nat, runs0: nat)
    requires bits != []
    requires RunLoopState(bits, runs, currentRun, maxRun, runs1, runs0)
    ensures runs + 1 == |Runs(bits)|
    ensures Max(maxRun, currentRun) == MaxLen(Runs(bits))
    ensures runs1 + (if bits[|bits| - 1] == 1 then 1 else 0) == CountOf(Runs(bits), 1)
    ensures runs0 + (if bits[|bits| - 1] == 1 then 0 else 1) == CountOf(Runs(bits), 0)
  {
    RunLengthsPositive(bits);
    var r := Runs(bits);
    assert r[|r| - 1].length >= 1;
  }

  /** The byteFreq tally over all 256 values, then the count of non-zero buckets. */
  method CountUniqueBytes(hashBytes: seq<byte>) returns (uniqueBytes: nat)
    ensures uniqueBytes == |Distinct(hashBytes)|
  {
    var byteFreq := new nat[256](_ => 0);
    var k := 0;
    while k < |hashBytes|
      invariant 0 <= k <= |hashBytes|
      invariant forall v :: 0 <= v < 256 ==> byteFreq[v] == Occurrences(hashBytes[..k], v)
    {
      assert hashBytes[..k + 1][..k] == hashBytes[..k];
      byteFreq[hashBytes[k]] := byteFreq[hashBytes[k]] + 1;
      k := k + 1;
    }
    assert hashBytes[..k] == hashBytes;

    uniqueBytes := 0;
    var v := 0;
    while v < 256
      invariant 0 <= v <= 256
      invariant forall u :: 0 <= u < 256 ==> byteFreq[u] == Occurrences(hashBytes, u)
      invariant uniqueBytes == |DistinctBelow(hashBytes, v)|
    {
      DistinctBelowStep(hashBytes, v);
      if byteFreq[v] > 0 {
        uniqueBytes := uniqueBytes + 1;
      }
      v := v + 1;
    }
    DistinctBelowAll(hashBytes);
  }

  /**
   * The loop variables after reading the non-empty prefix p: all runs of p but
   * the last are closed and counted, the last is still open with length currentRun.
   */
  ghost predicate RunLoopState(p: seq<bit>, runs: nat, currentRun: nat, maxRun: nat, runs1: nat, runs0: nat)
  {
    var r := Runs(p);
    r != [] &&
    var closed := r[..|r| - 1];
    runs == |closed| &&
    currentRun == r[|r| - 1].length &&
    maxRun == Max(1, MaxLen(closed)) &&
    runs1 == CountOf(closed, 1) &&
    runs0 == CountOf(closed, 0)
  }

  /** The byte values below v that occur in bytes. */
  ghost function DistinctBelow(bytes: seq<byte>, v: nat): set<byte>
  {
    set b: byte | b < v && b in bytes
  }

  lemma DistinctBelowStep(bytes: seq<byte>, v: nat)
    requires v < 256
    ensures |DistinctBelow(bytes, v + 1)| ==
      |DistinctBelow(bytes, v)| + (if Occurrences(bytes, v) > 0 then 1 else 0)
  {
    if v in bytes {
      assert DistinctBelow(bytes, v + 1) == DistinctBelow(bytes, v) + {v as byte};
    } else {
      assert DistinctBelow(bytes, v + 1) == DistinctBelow(bytes, v);
    }
  }

  lemma DistinctBelowAll(bytes: seq<byte>)
    ensures DistinctBelow(bytes, 256) == Distinct(bytes)
  {
  }

  // ---------------------------------------------------------------------------
  // Properties of the run decomposition
  // ---------------------------------------------------------------------------

  /** Every run is non-empty and no run is longer than the bits (lengths sum to |bits|). */
  lemma {:induction false} RunLengthsPositive(bits: seq<bit>)
    ensures forall j :: 0 <= j < |Runs(bits)| ==> 1 <= Runs(bits)[j].length
    ensures |Runs(bits)| <= |bits|
    ensures MaxLen(Runs(bits)) <= |bits|
    decreases |bits|
  {
    if bits != [] {
      var init := bits[..|bits| - 1];
      RunLengthsPositive(init);
      ExtendBounds(Runs(init), bits[|bits| - 1], |init|);
    }
  }

  /** One more bit keeps every run non-empty and raises the count and the longest run by at most one. */
  lemma ExtendBounds(r: seq<Run>, b: bit, n: nat)
    requires forall j :: 0 <= j < |r| ==> 1 <= r[j].length
    requires |r| <= n && MaxLen(r) <= n
    ensures var r' := Extend(r, b);
      (forall j :: 0 <= j < |r'| ==> 1 <= r'[j].length) && |r'| <= n + 1 && MaxLen(r') <= n + 1
  {
    var r' := Extend(r, b);
    if r != [] && r[|r| - 1].value == b {
      var init := r[..|r| - 1];
      assert r'[..|r'| - 1] == init;
      assert MaxLen(init) <= MaxLen(r);
      assert forall j :: 0 <= j < |init| ==> r'[j] == r[j];
    } else {
      assert r'[..|r'| - 1] == r;
      assert forall j :: 0 <= j < |r| ==> r'[j] == r[j];
    }
  }

  /** Runs is a decomposition into maximal blocks: non-empty runs, alternating colours. */
  lemma {:induction false} RunsMaximal(bits: seq<bit>)
    ensures Maximal(Runs(bits))
    decreases |bits|
  {
    if bits != [] {
      RunsMaximal(bits[..|bits| - 1]);
      ExtendMaximal(Runs(bits[..|bits| - 1]), bits[|bits| - 1]);
    }
  }

  lemma ExtendMaximal(r: seq<Run>, b: bit)
    requires Maximal(r)
    ensures Maximal(Extend(r, b))
  {
    var r' := Extend(r, b);
    if r != [] && r[|r| - 1].value == b {
      assert forall j :: 0 <= j < |r| - 1 ==> r'[j] == r[j];
    } else {
      assert forall j :: 0 <= j < |r| ==> r'[j] == r[j];
    }
  }

  /** The decomposition expands back to the bits it came from. */
  lemma {:induction false} RunsExpand(bits: seq<bit>)
    ensures Expand(Runs(bits)) == bits
    decreases |bits|
  {
    if bits != [] {
      var init, b := bits[..|bits| - 1], bits[|bits| - 1];
      var r := Runs(init);
      assert bits == init + [b];
      assert Expand(Runs(bits)) == init + [b] by {
        assert Runs(bits) == Extend(r, b);
        RunsExpand(init);
        ExtendExpand(r, b);
      }
    }
  }

  lemma ExtendExpand(r: seq<Run>, b: bit)
    ensures Expand(Extend(r, b)) == Expand(r) + [b]
  {
    var r' := Extend(r, b);
    if r != [] && r[|r| - 1].value == b {
      var last := r[|r| - 1];
      assert r'[..|r'| - 1] == r[..|r| - 1];
    } else {
      assert r'[..|r'| - 1] == r;
    }
  }

  /** For non-empty bits there is one run more than there are colour changes. */
  lemma {:induction false} RunsCountIsChanges(bits: seq<bit>)
    requires bits != []
    ensures |Runs(bits)| == 1 + Changes(bits)
    decreases |bits|
  {
    if |bits| > 1 {
      var init := bits[..|bits| - 1];
      RunsCountIsChanges(init);
      assert init[|init| - 1] == bits[|bits| - 2];
    } else {
      assert bits[..0] == [];
    }
  }

  /** Every run has one of the two colours. */
  lemma {:induction false} CountsAddUp(runs: seq<Run>)
    ensures CountOf(runs, 1) + CountOf(runs, 0) == |runs|
    decreases |runs|
  {
    if runs != [] {
      CountsAddUp(runs[..|runs| - 1]);
    }
  }

  /** MaxLen is the length of a longest run. */
  lemma {:induction false} MaxLenIsLongest(runs: seq<Run>)
    ensures forall j :: 0 <= j < |runs| ==> runs[j].length <= MaxLen(runs)
    ensures runs != [] ==> exists j :: 0 <= j < |runs| && runs[j].length == MaxLen(runs)
    decreases |runs|
  {
    if runs != [] {
      var init := runs[..|runs| - 1];
      MaxLenIsLongest(init);
      if init != [] && MaxLen(init) >= runs[|runs| - 1].length {
        var j :| 0 <= j < |init| && init[j].length == MaxLen(init);
        assert runs[j] == init[j];
      } else {
        assert runs[|runs| - 1].length == MaxLen(runs);
      }
    }
  }

  /** ones counts the 1 bits and zeros the 0 bits. */
  lemma {:induction false} OnesCounts(bits: seq<bit>)
    ensures Ones(bits) == Occurrences(bits, 1)
    ensures |bits| - Ones(bits) == Occurrences(bits, 0)
    decreases |bits|
  {
    if bits != [] {
      OnesCounts(bits[..|bits| - 1]);
    }
  }

  /** The integer laws of calculateHashStatistics. */
  lemma StatisticsLaws(hashBytes: seq<byte>, bits: seq<bit>)
    ensures var s := HashStatistics(hashBytes, bits);
      s.ones == Occurrences(bits, 1) && s.zeros == Occurrences(bits, 0) &&
      s.ones + s.zeros == s.totalBits == |bits| &&
      s.runs1 + s.runs0 == s.runs &&
      s.totalBytes == |hashBytes| && s.hexLength == 2 * s.totalBytes &&
      (bits != [] ==> s.runs == 1 + Changes(bits) && 1 <= s.runs <= |bits|) &&
      (bits != [] ==> 1 <= s.maxRun <= |bits|) &&
      (bits == [] ==> s.runs == 0 && s.runs1 == 0 && s.runs0 == 0 && s.maxRun == 1)
  {
    OnesCounts(bits);
    CountsAddUp(Runs(bits));
    if bits != [] {
      RunFieldLaws(bits);
    }
  }

  /** For non-empty bits: one run more than colour changes, and the longest run between 1 and |bits|. */
  lemma RunFieldLaws(bits: seq<bit>)
    requires bits != []
    ensures |Runs(bits)| == 1 + Changes(bits) && 1 <= |Runs(bits)| <= |bits|
    ensures 1 <= MaxLen(Runs(bits)) <= |bits|
  {
    var r := Runs(bits);
    RunLengthsPositive(bits);
    RunsCountIsChanges(bits);
    MaxLenIsLongest(r);
    assert r[0].length <= MaxLen(r);
  }

  /** uniqueBytes is the number of distinct byte values, at most 256 and at most totalBytes. */
  lemma UniqueBytesBound(hashBytes: seq<byte>, bits: seq<bit>)
    ensures HashStatistics(hashBytes, bits).uniqueBytes <= Min(256, |hashBytes|)
  {
    DistinctBelowAll(hashBytes);
    DistinctWithin256(hashBytes);
    DistinctAtMostLength(hashBytes);
  }

  lemma DistinctWithin256(bytes: seq<byte>)
    ensures |Distinct(bytes)| <= 256
  {
    DistinctBelowBound(bytes, 256);
    DistinctBelowAll(bytes);
  }

  lemma {:induction false} DistinctBelowBound(bytes: seq<byte>, v: nat)
    requires v <= 256
    ensures |DistinctBelow(bytes, v)| <= v
    decreases v
  {
    if v > 0 {
      DistinctBelowBound(bytes, v - 1);
      DistinctBelowStep(bytes, v - 1);
    }
  }

  lemma {:induction false} DistinctAtMostLength(bytes: seq<byte>)
    ensures |Distinct(bytes)| <= |bytes|
    decreases |bytes|
  {
    if bytes != [] {
      var init := bytes[..|bytes| - 1];
      DistinctAtMostLength(init);
      assert bytes == init + [bytes[|bytes| - 1]];
      assert Distinct(bytes) == Distinct(init) + {bytes[|bytes| - 1]};
    }
  }

  /**
   * Runs is the only decomposition into maximal blocks: any list of non-empty,
   * alternating runs that expands to bits is Runs(bits).  So maxRun is the
   * length of the longest maximal block of equal bits, whichever way the
   * blocks are found.
   */
  lemma {:induction false} RunsUnique(r: seq<Run>, bits: seq<bit>)
    requires Maximal(r) && Expand(r) == bits
    ensures r == Runs(bits)
    decreases |bits|, 1
  {
    if r != [] {
      if r[|r| - 1].length == 1 {
        RunsUniqueNewLast(r, bits);
      } else {
        RunsUniqueLongLast(r, bits);
      }
    }
  }

  /** The case of RunsUnique where the last run has length 1. */
  lemma {:induction false} RunsUniqueNewLast(r: seq<Run>, bits: seq<bit>)
    requires Maximal(r) && Expand(r) == bits
    requires r != [] && r[|r| - 1].length == 1
    ensures r == Runs(bits)
    decreases |bits|, 0
  {
    var init, b := r[..|r| - 1], r[|r| - 1].value;
    assert bits == Expand(init) + [b] by {
      assert Block(b, 1) == [b];
    }
    var p := bits[..|bits| - 1];
    assert Expand(init) == p;
    RunsUnique(init, p);
    assert r == init + [Run(b, 1)];
    RunsSnocNew(init, b, p);
    assert bits == p + [b];
  }

  /** The case of RunsUnique where the last run is longer than 1. */
  lemma {:induction false} RunsUniqueLongLast(r: seq<Run>, bits: seq<bit>)
    requires Maximal(r) && Expand(r) == bits
    requires r != [] && r[|r| - 1].length > 1
    ensures r == Runs(bits)
    decreases |bits|, 0
  {
    var init, last := r[..|r| - 1], r[|r| - 1];
    var b, len := last.value, last.length - 1;
    assert r == init + [Run(b, len + 1)];
    var r' := init + [Run(b, len)];
    ShortenLast(init, b, len);
    var p := Expand(r');
    RunsUnique(r', p);
    RunsSnocGrow(init, b, len, p);
  }

  /** Taking one bit off a last run of length len + 1 >= 2 keeps a maximal list, expanding to one bit less. */
  lemma ShortenLast(init: seq<Run>, b: bit, len: nat)
    requires len >= 1 && Maximal(init + [Run(b, len + 1)])
    ensures Maximal(init + [Run(b, len)])
    ensures Expand(init + [Run(b, len + 1)]) == Expand(init + [Run(b, len)]) + [b]
  {
    var r, r' := init + [Run(b, len + 1)], init + [Run(b, len)];
    assert r[..|r| - 1] == init && r'[..|r'| - 1] == init;
    assert forall j :: 0 <= j < |init| ==> r'[j] == r[j];
    assert Block(b, len + 1) == Block(b, len) + [b];
    assert Expand(r) == Expand(init) + Block(b, len + 1);
    assert Expand(r') == Expand(init) + Block(b, len);
  }

  lemma RunsSnocNew(init: seq<Run>, b: bit, p: seq<bit>)
    requires Runs(p) == init && Maximal(init + [Run(b, 1)])
    ensures Runs(p + [b]) == init + [Run(b, 1)]
  {
    RunsSnoc(p, b);
    if init != [] {
      assert (init + [Run(b, 1)])[|init|].value != (init + [Run(b, 1)])[|init| - 1].value;
    }
  }

  lemma RunsSnocGrow(init: seq<Run>, b: bit, len: nat, p: seq<bit>)
    requires Runs(p) == init + [Run(b, len)]
    ensures Runs(p + [b]) == init + [Run(b, len + 1)]
  {
    RunsSnoc(p, b);
    assert (init + [Run(b, len)])[..|init|] == init;
  }

  lemma RunsSnoc(p: seq<bit>, b: bit)
    ensures Runs(p + [b]) == Extend(Runs(p), b)
  {
    assert (p + [b])[..|p|] == p;
  }

  /** bytesToBits([0xFF, 0x00]) is eight ones followed by eight zeros. */
  lemma FF00Bits()
    ensures Utils.BitsOf([0xFF, 0x00]) == Block(1, 8) + Block(0, 8)
  {
  }

  /** The statistics of the digest [0xFF, 0x00] with its bytesToBits bits. */
  lemma ExampleFF00()
    ensures HashStatistics([0xFF, 0x00], Utils.BitsOf([0xFF, 0x00])) ==
      Stats(totalBits := 16, ones := 8, zeros := 8, runs := 2, maxRun := 8, runs1 := 1, runs0 := 1,
            totalBytes := 2, uniqueBytes := 2, hexLength := 4)
  {
    FF00Bits();
    var bits: seq<bit> := Block(1, 8) + Block(0, 8);
    var r := [Run(1, 8), Run(0, 8)];
    assert r[..1] == [Run(1, 8)] && r[..1][..0] == [];
    assert Expand(r) == bits;
    RunsUnique(r, bits);
    assert MaxLen(r) == 8;
    assert CountOf(r, 1) == 1 && CountOf(r, 0) == 1;
    assert Ones(bits) == 8 by {
      OnesOfBlock(1, 8);
      OnesOfBlock(0, 8);
      OnesAppend(Block(1, 8), Block(0, 8));
    }
    var bytes: seq<byte> := [0xFF, 0x00];
    assert Distinct(bytes) == {0xFF, 0x00};
  }

  lemma {:induction false} OnesOfBlock(v: bit, n: nat)
    ensures Ones(Block(v, n)) == n * v
    decreases n
  {
    if n > 0 {
      assert Block(v, n)[..n - 1] == Block(v, n - 1);
      OnesOfBlock(v, n - 1);
    }
  }

  lemma {:induction false} OnesAppend(a: seq<bit>, b: seq<bit>)
    ensures Ones(a + b) == Ones(a) + Ones(b)
    decreases |b|
  {
    if b == [] {
      assert a + b == a;
    } else {
      assert (a + b)[..|a + b| - 1] == a + b[..|b| - 1];
      OnesAppend(a, b[..|b| - 1]);
    }
  }
}
