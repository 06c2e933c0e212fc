/** Consolidating a list of ports into ranges, with the 32-bit arithmetic of the source. */
module PortRanges {
  const MIN32 := -0x8000_0000
  const MAX32 := 0x7FFF_FFFF

  type int32 = x: int | MIN32 <= x <= MAX32

  /** 32-bit `x + 1`. */
  function Next32(x: int32): int32 {
    if x == MAX32 then MIN32 else x + 1
  }

  datatype PortRange = PortRange(fromPort: int32, toPort: int32)

  predicate InRange(port: int, r: PortRange) {
    r.fromPort <= port <= r.toPort
  }

  predicate InRanges(port: int, ranges: seq<PortRange>) {
    exists i :: 0 <= i < |ranges| && InRange(port, ranges[i])
  }

  method IsPortInRanges(port: int32, portRanges: seq<PortRange>) returns (found: bool)
    ensures found <==> InRanges(port, portRanges)
  {
    for i := 0 to |portRanges|
      invariant forall k :: 0 <= k < i ==> !InRange(port, portRanges[k])
    {
      if portRanges[i].fromPort <= port && port <= portRanges[i].toPort {
        return true;
      }
    }
    found := false;
  }

  predicate Ascending(ports: seq<int32>) {
    forall i, j :: 0 <= i < j < |ports| ==> ports[i] <= ports[j]
  }

  ghost predicate Covers(ranges: seq<PortRange>, ports: seq<int32>) {
    forall p: int :: InRanges(p, ranges) <==> p in ports
  }

  /** Non-empty ranges in ascending order with an uncovered port between neighbours. */
  predicate Separated(ranges: seq<PortRange>) {
    && (forall i :: 0 <= i < |ranges| ==> ranges[i].fromPort <= ranges[i].toPort)
    && (forall i, j :: 0 <= i < j < |ranges| ==> ranges[i].toPort + 1 < ranges[j].fromPort)
  }

  /** How often the largest 32-bit number is repeated. */
  function Surplus(ports: seq<int32>): nat {
    var count := multiset(ports)[MAX32];
    if count == 0 then 0 else count - 1
  }

  const LARGEST := PortRange(MAX32, MAX32)

  /** The ranges without the redundant ones at the end. */
  function Base(ranges: seq<PortRange>, surplus: nat): seq<PortRange> {
    if surplus <= |ranges| then ranges[..|ranges| - surplus] else []
  }

  /** What the scan returns: separated ranges that cover exactly the ports, followed by one redundant
      range for each repetition of the largest 32-bit number. */
  ghost predicate Consolidates(ranges: seq<PortRange>, ports: seq<int32>) {
    var k := Surplus(ports);
    && k <= |ranges| && Separated(Base(ranges, k)) && Covers(Base(ranges, k), ports)
    && forall i :: |ranges| - k <= i < |ranges| ==> ranges[i] == LARGEST
  }

  /** The last range ends with the last port. */
  ghost predicate EndsWith(ranges: seq<PortRange>, ports: seq<int32>) {
    ranges != [] && ports != [] && ranges[|ranges| - 1].toPort == ports[|ports| - 1]
  }

  lemma NoSurplusBelowLargest(ports: seq<int32>, p: int32)
    requires ports != [] && Ascending(ports) && ports[|ports| - 1] < MAX32
    ensures Surplus(ports) == 0 && Surplus(ports + [p]) == 0
  {
    assert MAX32 !in ports;
    assert multiset(ports + [p]) == multiset(ports) + multiset{p};
  }

  lemma FirstPort(p: int32)
    ensures Consolidates([PortRange(p, p)], [p])
  {
    var r := PortRange(p, p);
    assert Surplus([p]) == 0 by {
      assert multiset([p]) == multiset{p};
    }
    assert Base([r], 0) == [r];
    forall x: int ensures InRanges(x, [r]) <==> x in [p] {
      if x == p {
        assert InRange(x, [r][0]);
      }
    }
  }

  /** A port that repeats the last one is covered already. */
  lemma RepeatedPort(ranges: seq<PortRange>, ports: seq<int32>, p: int32)
    requires Consolidates(ranges, ports) && ports != [] && Ascending(ports) && p == ports[|ports| - 1] < MAX32
    ensures Consolidates(ranges, ports + [p])
  {
    NoSurplusBelowLargest(ports, p);
    assert forall x: int :: x in ports + [p] <==> x in ports;
  }

  /** The port after the last one extends the last range. */
  lemma NextPort(ranges: seq<PortRange>, last: PortRange, ports: seq<int32>, p: int32)
    requires Consolidates(ranges + [last], ports) && EndsWith(ranges + [last], ports) && Ascending(ports)
    requires ports[|ports| - 1] < MAX32 && p == ports[|ports| - 1] + 1
    ensures Consolidates(ranges + [PortRange(last.fromPort, p)], ports + [p])
  {
    NoSurplusBelowLargest(ports, p);
    var before, after := ranges + [last], ranges + [PortRange(last.fromPort, p)];
    assert Base(before, 0) == before && Base(after, 0) == after;
    assert before[|ranges|] == last && after[|ranges|].fromPort == last.fromPort;
    assert forall i :: 0 <= i < |ranges| ==> after[i] == before[i];
    InRangesSnoc(ranges, last);
    InRangesSnoc(ranges, PortRange(last.fromPort, p));
    assert forall x: int :: InRange(x, PortRange(last.fromPort, p)) <==> InRange(x, last) || x == p;
  }

  /** A port further on starts a new range. */
  lemma LaterPort(ranges: seq<PortRange>, ports: seq<int32>, p: int32)
    requires Consolidates(ranges, ports) && EndsWith(ranges, ports) && Ascending(ports)
    requires ports[|ports| - 1] < MAX32 && p > ports[|ports| - 1] + 1
    ensures Consolidates(ranges + [PortRange(p, p)], ports + [p])
  {
    NoSurplusBelowLargest(ports, p);
    var after := ranges + [PortRange(p, p)];
    assert Base(ranges, 0) == ranges && Base(after, 0) == after;
    assert forall i :: 0 <= i < |ranges| ==> ranges[i].toPort <= ranges[|ranges| - 1].toPort;
    InRangesSnoc(ranges, PortRange(p, p));
    assert forall x: int :: InRange(x, PortRange(p, p)) <==> x == p;
  }

  /** Repeating the largest number adds a redundant range, because the addition wraps. */
  lemma RepeatedLargest(ranges: seq<PortRange>, ports: seq<int32>)
    requires Consolidates(ranges, ports) && ports != [] && ports[|ports| - 1] == MAX32
    ensures Consolidates(ranges + [LARGEST], ports + [MAX32])
  {
    var p: int32 := MAX32;
    assert multiset(ports + [p]) == multiset(ports) + multiset{p};
    assert Surplus(ports + [MAX32]) == Surplus(ports) + 1;
    assert Base(ranges + [LARGEST], Surplus(ports) + 1) == Base(ranges, Surplus(ports));
    assert forall x: int :: x in ports + [MAX32] <==> x in ports;
  }

  /** The scan over the sorted ports. */
  method ScanSorted(ports: seq<int32>) returns (result: seq<PortRange>)
    requires Ascending(ports)
    ensures Consolidates(result, ports)
  {
    if |ports| == 0 {
      return [];
    }
    result := [];
    var rangeStart: int32, rangeEnd: int32 := ports[0], ports[0];
    FirstPort(ports[0]);
    assert ports[..1] == [ports[0]] && [] + [PortRange(rangeStart, rangeEnd)] == [PortRange(rangeStart, rangeEnd)];
    for i := 1 to |ports|
      invariant rangeEnd == ports[i - 1]
      invariant Consolidates(result + [PortRange(rangeStart, rangeEnd)], ports[..i])
    {
      ghost var seen := ports[..i];
      assert ports[..i + 1] == seen + [ports[i]] && Ascending(seen) && seen[|seen| - 1] == rangeEnd;
      result, rangeStart, rangeEnd := ScanOne(result, rangeStart, rangeEnd, ports[i], seen);
    }
    assert ports[..|ports|] == ports;
    result := result + [PortRange(rangeStart, rangeEnd)];
  }

  /** The body of the loop. */
  method ScanOne(result0: seq<PortRange>, rangeStart0: int32, rangeEnd0: int32, port: int32, ghost seen: seq<int32>)
    returns (result: seq<PortRange>, rangeStart: int32, rangeEnd: int32)
    requires Consolidates(result0 + [PortRange(rangeStart0, rangeEnd0)], seen)
    requires seen != [] && Ascending(seen) && seen[|seen| - 1] == rangeEnd0 <= port
    ensures rangeEnd == port && Consolidates(result + [PortRange(rangeStart, rangeEnd)], seen + [port])
  {
    result, rangeStart, rangeEnd := result0, rangeStart0, rangeEnd0;
    if port == Next32(rangeEnd) {
      NextPort(result0, PortRange(rangeStart0, rangeEnd0), seen, port);
      rangeEnd := port;
    } else if port > Next32(rangeEnd) {
      if rangeEnd0 == MAX32 {
        RepeatedLargest(result0 + [PortRange(rangeStart0, rangeEnd0)], seen);
      } else {
        LaterPort(result0 + [PortRange(rangeStart0, rangeEnd0)], seen, port);
      }
      result := result + [PortRange(rangeStart, rangeEnd)];
      rangeStart, rangeEnd := port, port;
    } else {
      RepeatedPort(result0 + [PortRange(rangeStart0, rangeEnd0)], seen, port);
    }
  }

  lemma InRangesSnoc(ranges: seq<PortRange>, r: PortRange)
    ensures forall p: int :: InRanges(p, ranges + [r]) <==> InRanges(p, ranges) || InRange(p, r)
  {
    forall p: int ensures InRanges(p, ranges + [r]) <==> InRanges(p, ranges) || InRange(p, r) {
      if InRanges(p, ranges) {
        var i :| 0 <= i < |ranges| && InRange(p, ranges[i]);
        assert InRange(p, (ranges + [r])[i]);
      }
      if InRange(p, r) {
        assert InRange(p, (ranges + [r])[|ranges|]);
      }
      if InRanges(p, ranges + [r]) {
        var i :| 0 <= i < |ranges + [r]| && InRange(p, (ranges + [r])[i]);
        assert i < |ranges| ==> InRange(p, ranges[i]);
      }
    }
  }

  method Swap(a: array<int32>, j: nat)
    requires 0 < j < a.Length
    modifies a
    ensures a[j - 1] == old(a[j]) && a[j] == old(a[j - 1]) && forall k :: 0 <= k < a.Length && k != j && k != j - 1 ==> a[k] == old(a[k])
    ensures multiset(a[..]) == multiset(old(a[..]))
  {
    a[j - 1], a[j] := a[j], a[j - 1];
  }

  /** One port moves down to its place among the sorted ones before it. */
  method Sink(a: array<int32>, i: nat)
    requires i < a.Length && forall x, y :: 0 <= x < y < i ==> a[x] <= a[y]
    modifies a
    ensures forall x, y :: 0 <= x < y <= i ==> a[x] <= a[y]
    ensures multiset(a[..]) == multiset(old(a[..]))
  {
    var j := i;
    while j > 0 && a[j - 1] > a[j]
      invariant 0 <= j <= i
      invariant forall x, y :: 0 <= x < y <= i && y != j ==> a[x] <= a[y]
      invariant multiset(a[..]) == multiset(old(a[..]))
    {
      Swap(a, j);
      j := j - 1;
    }
  }

  /** `sort.Slice` on the caller's slice. */
  method SortPorts(a: array<int32>)
    modifies a
    ensures Ascending(a[..]) && multiset(a[..]) == multiset(old(a[..]))
  {
    for i := 0 to a.Length
      invariant forall x, y :: 0 <= x < y < i ==> a[x] <= a[y]
      invariant multiset(a[..]) == multiset(old(a[..]))
    {
      Sink(a, i);
    }
  }

  /** Sorts the caller's slice in place and returns the ranges. They are the fewest that cover exactly
      the ports iff the largest 32-bit number is not repeated. */
  method ConsolidatePortRanges(ports: array<int32>) returns (result: seq<PortRange>)
    modifies ports
    ensures Ascending(ports[..]) && multiset(ports[..]) == multiset(old(ports[..]))
    ensures Consolidates(result, old(ports[..])) && Covers(result, old(ports[..]))
    ensures Fewest(result, old(ports[..])) <==> Surplus(old(ports[..])) == 0
    ensures Separated(result) <==> Surplus(old(ports[..])) == 0
  {
    SortPorts(ports);
    result := ScanSorted(ports[..]);
    ConsolidatesIgnoresOrder(result, ports[..], old(ports[..]));
    FewestExactlyWhenLargestOnce(result, old(ports[..]));
  }

  lemma ConsolidatesIgnoresOrder(ranges: seq<PortRange>, ports: seq<int32>, others: seq<int32>)
    requires Consolidates(ranges, ports) && multiset(ports) == multiset(others)
    ensures Consolidates(ranges, others)
  {
    forall p: int ensures p in ports <==> p in others {
      if MIN32 <= p <= MAX32 {
        assert p in ports <==> p in multiset(ports);
        assert p in others <==> p in multiset(others);
      }
    }
  }

  // ---------------------------------------------------------------- fewest ranges

  lemma {:induction false} DistinctBelow(f: seq<nat>, n: nat)
    requires forall i :: 0 <= i < |f| ==> f[i] < n
    requires forall i, j :: 0 <= i < j < |f| ==> f[i] != f[j]
    ensures |f| <= n
  {
    if f != [] {
      assert f[0] < n;
      if k :| 0 <= k < |f| && f[k] == n - 1 {
        DistinctBelow(f[..k] + f[k + 1..], n - 1);
      } else {
        DistinctBelow(f, n - 1);
      }
    }
  }

  ghost function RangeHolding(port: int, cover: seq<PortRange>): (k: nat)
    requires InRanges(port, cover)
    ensures k < |cover| && InRange(port, cover[k])
  {
    var i :| 0 <= i < |cover| && InRange(port, cover[i]); i
  }

  lemma GapUncovered(ranges: seq<PortRange>, i: nat)
    requires Separated(ranges) && i < |ranges|
    ensures !InRanges(ranges[i].toPort + 1, ranges)
  {
    forall k | 0 <= k < |ranges| ensures !InRange(ranges[i].toPort + 1, ranges[k]) {}
  }

  lemma OneRangeHoldsOneStart(ranges: seq<PortRange>, cover: seq<PortRange>, i: nat, j: nat, k: nat)
    requires Separated(ranges) && forall p: int :: InRanges(p, ranges) <==> InRanges(p, cover)
    requires i < j < |ranges| && k < |cover| && InRange(ranges[i].fromPort, cover[k])
    ensures !InRange(ranges[j].fromPort, cover[k])
  {
    GapUncovered(ranges, i);
    assert !InRanges(ranges[i].toPort + 1, cover);
    assert !InRange(ranges[i].toPort + 1, cover[k]);
  }

  /** Separated ranges are the fewest that cover their ports. */
  lemma SeparatedIsFewest(ranges: seq<PortRange>, cover: seq<PortRange>)
    requires Separated(ranges) && forall p: int :: InRanges(p, ranges) <==> InRanges(p, cover)
    ensures |ranges| <= |cover|
  {
    forall i | 0 <= i < |ranges| ensures InRanges(ranges[i].fromPort, cover) {
      assert InRange(ranges[i].fromPort, ranges[i]);
    }
    var f := seq(|ranges|, i requires 0 <= i < |ranges| => RangeHolding(ranges[i].fromPort, cover));
    forall i, j | 0 <= i < j < |f| ensures f[i] != f[j] {
      OneRangeHoldsOneStart(ranges, cover, i, j, f[i]);
    }
    DistinctBelow(f, |cover|);
  }

  ghost predicate Fewest(ranges: seq<PortRange>, ports: seq<int32>) {
    forall cover: seq<PortRange> :: Covers(cover, ports) ==> |ranges| <= |cover|
  }

  lemma {:induction false} RedundantRangesCover(ranges: seq<PortRange>, base: seq<PortRange>)
    requires base <= ranges && InRanges(MAX32, base) && forall i :: |base| <= i < |ranges| ==> ranges[i] == LARGEST
    ensures forall p: int :: InRanges(p, ranges) <==> InRanges(p, base)
    decreases |ranges|
  {
    if |ranges| > |base| {
      var front := ranges[..|ranges| - 1];
      RedundantRangesCover(front, base);
      assert ranges == front + [LARGEST];
      InRangesSnoc(front, LARGEST);
    } else {
      assert ranges == base;
    }
  }

  lemma SurplusMeansLargest(ports: seq<int32>)
    requires Surplus(ports) > 0
    ensures MAX32 in ports
  {
    assert MAX32 in multiset(ports);
  }

  lemma LargestEndsBase(base: seq<PortRange>)
    requires Separated(base) && InRanges(MAX32, base)
    ensures base != [] && base[|base| - 1].toPort == MAX32
  {
    var i :| 0 <= i < |base| && InRange(MAX32, base[i]);
  }

  /** The result covers exactly the ports, and is separated, hence a smallest cover, exactly when the
      largest 32-bit number is not repeated. */
  lemma FewestExactlyWhenLargestOnce(result: seq<PortRange>, ports: seq<int32>)
    requires Consolidates(result, ports)
    ensures Covers(result, ports)
    ensures Fewest(result, ports) <==> Surplus(ports) == 0
    ensures Separated(result) <==> Surplus(ports) == 0
  {
    var base := Base(result, Surplus(ports));
    if Surplus(ports) == 0 {
      assert base == result;
      forall cover: seq<PortRange> | Covers(cover, ports) ensures |result| <= |cover| {
        SeparatedIsFewest(result, cover);
      }
    } else {
      SurplusMeansLargest(ports);
      assert InRanges(MAX32, base);
      RedundantRangesCover(result, base);
      LargestEndsBase(base);
      assert result[|base| - 1].toPort + 1 >= result[|base|].fromPort;
      assert Covers(base, ports) && |base| < |result|;
    }
  }

  lemma FirstRangesAgree(a: seq<PortRange>, b: seq<PortRange>)
    requires Separated(a) && Separated(b) && a != [] && b != []
    requires forall p: int :: InRanges(p, a) <==> InRanges(p, b)
    ensures a[0].fromPort >= b[0].fromPort
    ensures a[0].fromPort == b[0].fromPort ==> a[0].toPort <= b[0].toPort
  {
    assert InRange(a[0].fromPort, a[0]);
    assert InRanges(a[0].fromPort, b);
    GapUncovered(b, 0);
    assert !InRanges(b[0].toPort + 1, a);
    assert !InRange(b[0].toPort + 1, a[0]);
  }

  lemma NonEmptyCovers(a: seq<PortRange>)
    requires Separated(a) && a != []
    ensures InRanges(a[0].fromPort, a)
  {
    assert InRange(a[0].fromPort, a[0]);
  }

  /** Separated ranges are determined by the set of ports they cover. */
  lemma {:induction false} SeparatedIsCanonical(a: seq<PortRange>, b: seq<PortRange>)
    requires Separated(a) && Separated(b) && forall p: int :: InRanges(p, a) <==> InRanges(p, b)
    ensures a == b
  {
    if a == [] {
      if b != [] {
        NonEmptyCovers(b);
      }
    } else if b == [] {
      NonEmptyCovers(a);
    } else {
      FirstRangesAgree(a, b);
      FirstRangesAgree(b, a);
      forall p: int ensures InRanges(p, a[1..]) <==> InRanges(p, b[1..]) {
        InRangesTail(a, p);
        InRangesTail(b, p);
      }
      SeparatedIsCanonical(a[1..], b[1..]);
      assert a == [a[0]] + a[1..] && b == [b[0]] + b[1..];
    }
  }

  lemma InRangesTail(a: seq<PortRange>, p: int)
    requires Separated(a) && a != []
    ensures InRanges(p, a[1..]) <==> InRanges(p, a) && !InRange(p, a[0])
  {
    if InRanges(p, a[1..]) {
      var i :| 0 <= i < |a[1..]| && InRange(p, a[1..][i]);
      assert InRange(p, a[i + 1]);
    }
    if InRanges(p, a) && !InRange(p, a[0]) {
      var i :| 0 <= i < |a| && InRange(p, a[i]);
      assert InRange(p, a[1..][i - 1]);
    }
  }

  /** Exactly how far the result depends on the set of ports only: for the same set the results are
      the same iff the largest 32-bit number is repeated equally often. Order never matters. */
  lemma ResultsEqualExactlyWhenSurplusEqual(ports: seq<int32>, others: seq<int32>, a: seq<PortRange>, b: seq<PortRange>)
    requires Consolidates(a, ports) && Consolidates(b, others) && forall p: int :: p in ports <==> p in others
    ensures a == b <==> Surplus(ports) == Surplus(others)
  {
    var k, l := Surplus(ports), Surplus(others);
    SeparatedIsCanonical(Base(a, k), Base(b, l));
    assert |a| == |Base(a, k)| + k && |b| == |Base(b, l)| + l;
    if k == l {
      forall i | 0 <= i < |a| ensures a[i] == b[i] {
        if i < |a| - k {
          assert a[i] == Base(a, k)[i] && b[i] == Base(b, l)[i];
        }
      }
    }
  }

  /** In particular order and repetition do not matter as long as the largest number is not repeated. */
  lemma ConsolidationDependsOnSet(ports: seq<int32>, others: seq<int32>, a: seq<PortRange>, b: seq<PortRange>)
    requires Consolidates(a, ports) && Consolidates(b, others) && forall p: int :: p in ports <==> p in others
    ensures Surplus(ports) == 0 && Surplus(others) == 0 ==> a == b
    ensures multiset(ports) == multiset(others) ==> a == b
  {
    ResultsEqualExactlyWhenSurplusEqual(ports, others, a, b);
  }

  /** The same set of ports, but different results: repeating the largest number gives a redundant
      range. */
  lemma RepeatedLargestIsRedundant(once: seq<PortRange>, twice: seq<PortRange>)
    requires Consolidates(once, [MAX32]) && Consolidates(twice, [MAX32, MAX32])
    ensures once == [LARGEST] && twice == [LARGEST, LARGEST] && !Fewest(twice, [MAX32, MAX32])
  {
    FirstPort(MAX32);
    RepeatedLargest([LARGEST], [MAX32]);
    assert [LARGEST] + [LARGEST] == [LARGEST, LARGEST] && [MAX32] + [MAX32] == [MAX32, MAX32];
    ResultsEqualExactlyWhenSurplusEqual([MAX32], [MAX32], once, [LARGEST]);
    ResultsEqualExactlyWhenSurplusEqual([MAX32, MAX32], [MAX32, MAX32], twice, [LARGEST, LARGEST]);
    assert multiset([MAX32, MAX32])[MAX32] == 2;
    FewestExactlyWhenLargestOnce(twice, [MAX32, MAX32]);
  }
}
