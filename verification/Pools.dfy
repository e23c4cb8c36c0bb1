/**
 * DHCP pool validation: every range of the right family with start below end, and no
 * two ranges of a family sharing an address. All builds check for overflow, so counting
 * the addresses of the full IPv4 range panics and validation never returns.
 */
module Pools {
  import opened Basics
  import opened Net

  datatype DhcpRange = DhcpRange(start: IpAddr, end: IpAddr, interface: string, leaseSeconds: Option<nat>)

  datatype Family = IPv4 | IPv6

  datatype Warning = LargeDhcpRange(addressCount: nat) | UnusualLeaseTime(seconds: nat, interface: string)

  datatype PoolError = BadRange(family: Family, index: nat) | Overlap(family: Family, first: nat, second: nat)

  // What a call comes to: acceptance, an error, or a panic at an IPv4 range.
  datatype Outcome = Accepted | Refused(error: PoolError) | Aborts(index: nat)

  const MAXLEASES: nat := 1000

  predicate InFamily(f: Family, a: IpAddr) {
    if f == IPv4 then a.V4? else a.V6?
  }

  predicate WellFormed(f: Family, r: DhcpRange) {
    InFamily(f, r.start) && InFamily(f, r.end) && r.start.Value() < r.end.Value()
  }

  ghost function Interval(lo: int, hi: int): (s: set<int>)
    ensures forall x :: x in s <==> lo <= x <= hi
    ensures |s| == if lo <= hi then hi - lo + 1 else 0
    decreases hi - lo
  {
    if lo > hi then {} else Interval(lo, hi - 1) + {hi}
  }

  // The addresses of a range, both ends included.
  ghost function Addresses(r: DhcpRange): (s: set<int>)
    ensures forall x :: x in s <==> r.start.Value() <= x <= r.end.Value()
    ensures r.start.Value() <= r.end.Value() ==> |s| == r.end.Value() - r.start.Value() + 1
  {
    Interval(r.start.Value(), r.end.Value())
  }

  // The program's overlap test.
  predicate Apart(a: DhcpRange, b: DhcpRange) {
    a.end.Value() < b.start.Value() || b.end.Value() < a.start.Value()
  }

  ghost predicate AllWellFormed(f: Family, ranges: seq<DhcpRange>) {
    forall i :: 0 <= i < |ranges| ==> WellFormed(f, ranges[i])
  }

  ghost predicate PairwiseDisjoint(ranges: seq<DhcpRange>) {
    forall i, j :: 0 <= i < j < |ranges| ==> Addresses(ranges[i]) !! Addresses(ranges[j])
  }

  // Every range runs upwards between addresses of its family, and no two of a family meet.
  ghost predicate Acceptable(v4: seq<DhcpRange>, v6: seq<DhcpRange>) {
    && (forall i :: 0 <= i < |v4| ==>
          v4[i].start.V4? && v4[i].end.V4? && v4[i].start.Value() < v4[i].end.Value())
    && (forall i :: 0 <= i < |v6| ==>
          v6[i].start.V6? && v6[i].end.V6? && v6[i].start.Value() < v6[i].end.Value())
    && PairwiseDisjoint(v4) && PairwiseDisjoint(v6)
  }

  lemma AcceptableExactly(v4: seq<DhcpRange>, v6: seq<DhcpRange>)
    ensures Acceptable(v4, v6) <==>
      AllWellFormed(IPv4, v4) && AllWellFormed(IPv6, v6) && PairwiseDisjoint(v4) && PairwiseDisjoint(v6)
  {
  }

  // The one IPv4 range whose number of addresses does not fit 32 bits.
  predicate IsFull(r: DhcpRange) {
    r.start.V4? && r.end.V4? && r.start.Value() == 0 && r.end.Value() == 0xFFFF_FFFF
  }

  // ---- Warnings ---------------------------------------------------------------

  // end - start + 1 in checked 32-bit arithmetic.
  function AddressCount(r: DhcpRange): Option<u32>
    requires WellFormed(IPv4, r)
  {
    var last: u32 := r.end.Value() - r.start.Value();
    if last == 0xFFFF_FFFF then None else Some(last + 1)
  }

  // The range can be counted.
  predicate Countable(f: Family, r: DhcpRange)
    requires WellFormed(f, r)
  {
    f == IPv4 ==> AddressCount(r).Some?
  }

  function SizeWarnings(f: Family, r: DhcpRange): seq<Warning>
    requires WellFormed(f, r) && Countable(f, r)
  {
    if f == IPv4 && AddressCount(r).value > MAXLEASES then [LargeDhcpRange(AddressCount(r).value)] else []
  }

  function Clamp32(n: nat): nat {
    if n < 0x1_0000_0000 then n else 0xFFFF_FFFF
  }

  function LeaseWarnings(r: DhcpRange): seq<Warning> {
    if r.leaseSeconds.Some? && (r.leaseSeconds.value < 300 || r.leaseSeconds.value > 604_800) then
      [UnusualLeaseTime(Clamp32(r.leaseSeconds.value), r.interface)]
    else []
  }

  // The loop over the ranges goes on past this one.
  predicate Passes(f: Family, r: DhcpRange) {
    WellFormed(f, r) && Countable(f, r)
  }

  // The position of the first range the loop stops at, or the number of ranges.
  function FirstStop(f: Family, ranges: seq<DhcpRange>): (n: nat)
    ensures n <= |ranges|
    ensures forall i :: 0 <= i < n ==> Passes(f, ranges[i])
    ensures n < |ranges| ==> !Passes(f, ranges[n])
  {
    if ranges == [] || !Passes(f, ranges[0]) then 0
    else
      assert forall i :: 0 < i < |ranges| ==> ranges[i] == ranges[1..][i - 1];
      1 + FirstStop(f, ranges[1..])
  }

  // The warnings of the first n ranges.
  function Warnings(f: Family, ranges: seq<DhcpRange>, n: nat): seq<Warning>
    requires n <= FirstStop(f, ranges)
  {
    if n == 0 then []
    else Warnings(f, ranges, n - 1) + SizeWarnings(f, ranges[n - 1]) + LeaseWarnings(ranges[n - 1])
  }

  // ---- The verdict ------------------------------------------------------------

  // What the loop over one family makes of the range it stops at.
  function Stopped(f: Family, r: DhcpRange, index: nat): Outcome {
    if WellFormed(f, r) then Aborts(index) else Refused(BadRange(f, index))
  }

  // The first overlapping pair from (i, j) on, in the order of the nested loops.
  function OverlapFrom(ranges: seq<DhcpRange>, i: nat, j: nat): Option<(nat, nat)>
    decreases |ranges| - i, |ranges| - j
  {
    if i >= |ranges| then None
    else if j >= |ranges| then OverlapFrom(ranges, i + 1, i + 2)
    else if !Apart(ranges[i], ranges[j]) then Some((i, j))
    else OverlapFrom(ranges, i, j + 1)
  }

  function Verdict(v4: seq<DhcpRange>, v6: seq<DhcpRange>): Outcome {
    var n4, n6 := FirstStop(IPv4, v4), FirstStop(IPv6, v6);
    if n4 < |v4| then Stopped(IPv4, v4[n4], n4)
    else if n6 < |v6| then Stopped(IPv6, v6[n6], n6)
    else
      match OverlapFrom(v4, 0, 1)
      case Some(p) => Refused(Overlap(IPv4, p.0, p.1))
      case None =>
        match OverlapFrom(v6, 0, 1)
        case Some(p) => Refused(Overlap(IPv6, p.0, p.1))
        case None => Accepted
  }

  class ConfigValidator {
    const v4Ranges: seq<DhcpRange>
    const v6Ranges: seq<DhcpRange>
    var warnings: seq<Warning>

    constructor (v4: seq<DhcpRange>, v6: seq<DhcpRange>)
      ensures v4Ranges == v4 && v6Ranges == v6 && warnings == []
    {
      v4Ranges := v4;
      v6Ranges := v6;
      warnings := [];
    }

    // The loop over the ranges of one family: warnings until it stops.
    method CheckRanges(f: Family, ranges: seq<DhcpRange>) returns (stop: Option<Outcome>)
      modifies this
      ensures
        var n := FirstStop(f, ranges);
        && stop == (if n < |ranges| then Some(Stopped(f, ranges[n], n)) else None)
        && warnings == old(warnings) + Warnings(f, ranges, n)
    {
      ghost var start := warnings;
      for i := 0 to |ranges|
        invariant i <= FirstStop(f, ranges)
        invariant warnings == start + Warnings(f, ranges, i)
      {
        var r := ranges[i];
        if !InFamily(f, r.start) || !InFamily(f, r.end) { return Some(Refused(BadRange(f, i))); }
        if r.start.Value() >= r.end.Value() { return Some(Refused(BadRange(f, i))); }
        if f == IPv4 && AddressCount(r).None? { return Some(Aborts(i)); }
        assert i != FirstStop(f, ranges);
        var size, lease := SizeWarnings(f, r), LeaseWarnings(r);
        AppendTwice(start, Warnings(f, ranges, i), size, lease);
        warnings := warnings + size;
        warnings := warnings + lease;
      }
      return None;
    }

    // The nested loop over the pairs of one family.
    static method FindOverlap(ranges: seq<DhcpRange>) returns (r: Option<(nat, nat)>)
      ensures r == OverlapFrom(ranges, 0, 1)
    {
      for i := 0 to |ranges|
        invariant OverlapFrom(ranges, 0, 1) == OverlapFrom(ranges, i, i + 1)
      {
        for j := i + 1 to |ranges|
          invariant OverlapFrom(ranges, 0, 1) == OverlapFrom(ranges, i, j)
        {
          if !Apart(ranges[i], ranges[j]) { return Some((i, j)); }
        }
      }
      return None;
    }

    method ValidateDhcpPools() returns (r: Outcome)
      modifies this
      ensures r == Verdict(v4Ranges, v6Ranges)
      ensures
        var n4, n6 := FirstStop(IPv4, v4Ranges), FirstStop(IPv6, v6Ranges);
        warnings == old(warnings) + Warnings(IPv4, v4Ranges, n4)
                    + (if n4 == |v4Ranges| then Warnings(IPv6, v6Ranges, n6) else [])
    {
      var stop4 := CheckRanges(IPv4, v4Ranges);
      if stop4.Some? {
        assert warnings + [] == warnings;
        return stop4.value;
      }
      var stop6 := CheckRanges(IPv6, v6Ranges);
      if stop6.Some? { return stop6.value; }
      var overlap4 := FindOverlap(v4Ranges);
      if overlap4.Some? { return Refused(Overlap(IPv4, overlap4.value.0, overlap4.value.1)); }
      var overlap6 := FindOverlap(v6Ranges);
      if overlap6.Some? { return Refused(Overlap(IPv6, overlap6.value.0, overlap6.value.1)); }
      return Accepted;
    }
  }

  lemma AppendTwice(a: seq<Warning>, b: seq<Warning>, c: seq<Warning>, d: seq<Warning>)
    ensures a + (b + c + d) == a + b + c + d
  {
  }

  // The endpoint test decides disjointness.
  lemma {:induction false} ApartIsDisjoint(f: Family, a: DhcpRange, b: DhcpRange)
    requires WellFormed(f, a) && WellFormed(f, b)
    ensures Apart(a, b) <==> Addresses(a) !! Addresses(b)
  {
    if !Apart(a, b) {
      var x := if a.start.Value() <= b.start.Value() then b.start.Value() else a.start.Value();
      assert x in Addresses(a) && x in Addresses(b);
    }
  }

  /** Counting overflows for exactly the full IPv4 range; of the others, exactly those of
      more than 1000 addresses get a size warning, with their true size. */
  lemma {:induction false} SizeWarningExactly(r: DhcpRange)
    requires WellFormed(IPv4, r)
    ensures AddressCount(r).None? <==> IsFull(r)
    ensures !IsFull(r) ==>
      SizeWarnings(IPv4, r) == if |Addresses(r)| > MAXLEASES then [LargeDhcpRange(|Addresses(r)|)] else []
  {
    if !IsFull(r) { assert AddressCount(r) == Some(|Addresses(r)|); }
  }

  /** A lease warning is given for exactly the lease times below five minutes or above
      seven days, with the seconds, capped at 32 bits, and the interface. */
  lemma LeaseWarningExactly(r: DhcpRange)
    ensures LeaseWarnings(r) ==
      match r.leaseSeconds
      case None => []
      case Some(n) =>
        if 5 * 60 <= n <= 7 * 24 * 60 * 60 then []
        else [UnusualLeaseTime(if n >= 0x1_0000_0000 then 0x1_0000_0000 - 1 else n, r.interface)]
  {
  }

  // What a range gives cause to warn of.
  ghost predicate Warrants(f: Family, r: DhcpRange, w: Warning) {
    match w
    case LargeDhcpRange(n) => f == IPv4 && n == |Addresses(r)| > 1000
    case UnusualLeaseTime(n, interface) =>
      && interface == r.interface && r.leaseSeconds.Some?
      && (r.leaseSeconds.value < 300 || r.leaseSeconds.value > 604_800)
      && n == (if r.leaseSeconds.value < 0x1_0000_0000 then r.leaseSeconds.value else 0xFFFF_FFFF)
  }

  lemma WarrantedByRange(f: Family, r: DhcpRange, w: Warning)
    requires Passes(f, r)
    ensures w in SizeWarnings(f, r) + LeaseWarnings(r) <==> Warrants(f, r, w)
  {
    if f == IPv4 { SizeWarningExactly(r); }
    LeaseWarningExactly(r);
  }

  // Each range in turn adds its size warning, if any, and then its lease warning, if any.
  lemma WarningsInOrder(f: Family, ranges: seq<DhcpRange>, n: nat)
    requires n < FirstStop(f, ranges)
    ensures
      var r := ranges[n];
      Warnings(f, ranges, n + 1) ==
        Warnings(f, ranges, n)
        + (if f == IPv4 && |Addresses(r)| > 1000 then [LargeDhcpRange(|Addresses(r)|)] else [])
        + (if r.leaseSeconds.Some? && !(300 <= r.leaseSeconds.value <= 604_800)
           then [UnusualLeaseTime(if r.leaseSeconds.value < 0x1_0000_0000 then r.leaseSeconds.value else 0xFFFF_FFFF,
                                  r.interface)]
           else [])
  {
    if f == IPv4 { SizeWarningExactly(ranges[n]); }
    LeaseWarningExactly(ranges[n]);
  }

  // One of the first n ranges gives cause for the warning.
  ghost predicate Warranted(f: Family, ranges: seq<DhcpRange>, n: nat, w: Warning)
    requires n <= |ranges|
  {
    exists i :: 0 <= i < n && Warrants(f, ranges[i], w)
  }

  lemma WarrantedOneMore(f: Family, ranges: seq<DhcpRange>, n: nat, w: Warning)
    requires n < |ranges|
    ensures Warranted(f, ranges, n + 1, w) <==> Warranted(f, ranges, n, w) || Warrants(f, ranges[n], w)
  {
    if Warranted(f, ranges, n, w) {
      var i :| 0 <= i < n && Warrants(f, ranges[i], w);
    }
  }

  // The warnings are exactly those the ranges passed give cause for.
  lemma {:induction false} WarningsExactly(f: Family, ranges: seq<DhcpRange>, n: nat, w: Warning)
    requires n <= FirstStop(f, ranges)
    ensures w in Warnings(f, ranges, n) <==> Warranted(f, ranges, n, w)
  {
    if n > 0 {
      WarningsExactly(f, ranges, n - 1, w);
      WarrantedByRange(f, ranges[n - 1], w);
      WarrantedOneMore(f, ranges, n - 1, w);
      InEither(Warnings(f, ranges, n - 1), SizeWarnings(f, ranges[n - 1]), LeaseWarnings(ranges[n - 1]), w);
    }
  }

  lemma InEither(a: seq<Warning>, b: seq<Warning>, c: seq<Warning>, w: Warning)
    ensures w in a + b + c <==> w in a || w in b + c
  {
  }

  // ---- What the verdict says --------------------------------------------------

  // Pairs at or after (i, j) in the order of the nested loops.
  predicate PairFrom(i: nat, j: nat, m: nat, n: nat) {
    m < n && (m > i || (m == i && n >= j))
  }

  lemma {:induction false} OverlapFromExactly(ranges: seq<DhcpRange>, i: nat, j: nat)
    requires i < j
    ensures
      match OverlapFrom(ranges, i, j)
      case None => forall m: nat, n: nat :: n < |ranges| && PairFrom(i, j, m, n) ==> Apart(ranges[m], ranges[n])
      case Some(p) =>
        && p.0 < p.1 < |ranges| && !Apart(ranges[p.0], ranges[p.1])
        && forall m: nat, n: nat :: PairFrom(i, j, m, n) && n < |ranges| && !PairFrom(p.0, p.1, m, n) ==>
             Apart(ranges[m], ranges[n])
    decreases |ranges| - i, |ranges| - j
  {
    if i < |ranges| {
      if j >= |ranges| {
        OverlapFromExactly(ranges, i + 1, i + 2);
      } else if Apart(ranges[i], ranges[j]) {
        OverlapFromExactly(ranges, i, j + 1);
      }
    }
  }

  ghost predicate AllApart(ranges: seq<DhcpRange>) {
    forall i, j :: 0 <= i < j < |ranges| ==> Apart(ranges[i], ranges[j])
  }

  lemma AllApartIsDisjoint(f: Family, ranges: seq<DhcpRange>)
    requires AllWellFormed(f, ranges)
    ensures AllApart(ranges) <==> PairwiseDisjoint(ranges)
  {
    forall i, j | 0 <= i < j < |ranges|
      ensures Apart(ranges[i], ranges[j]) <==> Addresses(ranges[i]) !! Addresses(ranges[j])
    {
      ApartIsDisjoint(f, ranges[i], ranges[j]);
    }
  }

  // The pair found is the first in the order of the nested loops.
  lemma OverlapIsFirst(ranges: seq<DhcpRange>, m: nat, n: nat)
    requires OverlapFrom(ranges, 0, 1).Some? && m < n < |ranges|
    requires
      var p := OverlapFrom(ranges, 0, 1).value;
      m < p.0 || (m == p.0 && n < p.1)
    ensures Apart(ranges[m], ranges[n])
  {
    OverlapFromExactly(ranges, 0, 1);
    assert PairFrom(0, 1, m, n);
  }

  lemma OverlapMeansNotApart(ranges: seq<DhcpRange>)
    ensures OverlapFrom(ranges, 0, 1).None? <==> AllApart(ranges)
  {
    OverlapFromExactly(ranges, 0, 1);
    if OverlapFrom(ranges, 0, 1).None? {
      forall i: nat, j: nat | i < j < |ranges| ensures Apart(ranges[i], ranges[j]) {
        assert PairFrom(0, 1, i, j);
      }
    }
  }

  // The nested loops find a pair that shares an address exactly when there is one.
  lemma OverlapDecidesDisjointness(f: Family, ranges: seq<DhcpRange>)
    requires AllWellFormed(f, ranges)
    ensures OverlapFrom(ranges, 0, 1).None? <==> PairwiseDisjoint(ranges)
    ensures OverlapFrom(ranges, 0, 1).Some? ==>
      var p := OverlapFrom(ranges, 0, 1).value;
      p.0 < p.1 < |ranges| && !(Addresses(ranges[p.0]) !! Addresses(ranges[p.1]))
  {
    OverlapMeansNotApart(ranges);
    AllApartIsDisjoint(f, ranges);
    OverlapFromExactly(ranges, 0, 1);
    var overlap := OverlapFrom(ranges, 0, 1);
    if overlap.Some? { ApartIsDisjoint(f, ranges[overlap.value.0], ranges[overlap.value.1]); }
  }

  // The full range is reached: every IPv4 range listed before one is well formed.
  ghost predicate FullReached(v4: seq<DhcpRange>) {
    exists i :: 0 <= i < |v4| && IsFull(v4[i]) && forall j :: 0 <= j < i ==> WellFormed(IPv4, v4[j])
  }

  lemma StopIsFull(v4: seq<DhcpRange>)
    ensures
      var n := FirstStop(IPv4, v4);
      FullReached(v4) <==> n < |v4| && IsFull(v4[n])
  {
    forall i | 0 <= i < |v4| && WellFormed(IPv4, v4[i]) ensures AddressCount(v4[i]).None? <==> IsFull(v4[i]) {
      SizeWarningExactly(v4[i]);
    }
  }

  /** Validation panics exactly when the full IPv4 range comes before any ill-formed IPv4
      range. Otherwise the configuration is accepted exactly when every range is well formed
      and the ranges of each family are pairwise disjoint. */
  lemma VerdictExactly(v4: seq<DhcpRange>, v6: seq<DhcpRange>)
    ensures Verdict(v4, v6).Aborts? <==> FullReached(v4)
    ensures Verdict(v4, v6).Accepted? <==> Acceptable(v4, v6) && !FullReached(v4)
  {
    StopIsFull(v4);
    AcceptableExactly(v4, v6);
    var n4, n6 := FirstStop(IPv4, v4), FirstStop(IPv6, v6);
    if n4 < |v4| {
      if WellFormed(IPv4, v4[n4]) { SizeWarningExactly(v4[n4]); }
    } else if n6 == |v6| {
      OverlapDecidesDisjointness(IPv4, v4);
      OverlapDecidesDisjointness(IPv6, v6);
    }
  }

  // An error points at the first ill-formed range, or at two ranges that share an address.
  lemma ErrorsPointAtFaults(v4: seq<DhcpRange>, v6: seq<DhcpRange>)
    requires Verdict(v4, v6).Refused?
    ensures
      var e := Verdict(v4, v6).error;
      var ranges := if e.family == IPv4 then v4 else v6;
      match e
      case BadRange(f, i) =>
        i < |ranges| && !WellFormed(f, ranges[i]) && forall j :: 0 <= j < i ==> WellFormed(f, ranges[j])
      case Overlap(_, i, j) => i < j < |ranges| && !(Addresses(ranges[i]) !! Addresses(ranges[j]))
  {
    if FirstStop(IPv4, v4) == |v4| && FirstStop(IPv6, v6) == |v6| {
      OverlapDecidesDisjointness(IPv4, v4);
      OverlapDecidesDisjointness(IPv6, v6);
    }
  }

  /** Which fault is reported when there are several: an ill-formed IPv4 range before an
      IPv6 one, both before overlaps, and IPv4 overlaps before IPv6 ones. */
  lemma FaultsInOrder(v4: seq<DhcpRange>, v6: seq<DhcpRange>)
    requires Verdict(v4, v6).Refused?
    ensures
      var e := Verdict(v4, v6).error;
      if !AllWellFormed(IPv4, v4) then e.BadRange? && e.family == IPv4
      else if !AllWellFormed(IPv6, v6) then e.BadRange? && e.family == IPv6
      else if !PairwiseDisjoint(v4) then e.Overlap? && e.family == IPv4
      else e.Overlap? && e.family == IPv6
  {
    StopIsFull(v4);
    if FirstStop(IPv4, v4) == |v4| && FirstStop(IPv6, v6) == |v6| {
      OverlapDecidesDisjointness(IPv4, v4);
      OverlapDecidesDisjointness(IPv6, v6);
    }
  }

  // A configuration with nothing wrong that is nevertheless not accepted.
  lemma FullRangeIsNotAccepted(interface: string)
    ensures
      var full := DhcpRange(V4([0, 0, 0, 0]), V4([255, 255, 255, 255]), interface, None);
      Acceptable([full], []) && Verdict([full], []) == Aborts(0)
  {
    var full := DhcpRange(V4([0, 0, 0, 0]), V4([255, 255, 255, 255]), interface, None);
    FourOctets([0, 0, 0, 0]);
    FourOctets([255, 255, 255, 255]);
    assert !Passes(IPv4, [full][0]);
  }

  // ---- Counting ---------------------------------------------------------------

  ghost function Union(ranges: seq<DhcpRange>): set<int> {
    if ranges == [] then {} else Union(ranges[..|ranges| - 1]) + Addresses(ranges[|ranges| - 1])
  }

  // Some range holds the address.
  ghost predicate Covered(ranges: seq<DhcpRange>, x: int) {
    exists r :: r in ranges && x in Addresses(r)
  }

  lemma MemberOrLast(ranges: seq<DhcpRange>, r: DhcpRange)
    requires ranges != []
    ensures r in ranges <==> r in ranges[..|ranges| - 1] || r == ranges[|ranges| - 1]
  {
    assert ranges == ranges[..|ranges| - 1] + [ranges[|ranges| - 1]];
  }

  lemma CoveredByLast(ranges: seq<DhcpRange>, x: int)
    requires ranges != []
    ensures Covered(ranges, x) <==> Covered(ranges[..|ranges| - 1], x) || x in Addresses(ranges[|ranges| - 1])
  {
    forall r ensures r in ranges <==> r in ranges[..|ranges| - 1] || r == ranges[|ranges| - 1] {
      MemberOrLast(ranges, r);
    }
  }

  // The union holds the addresses of the ranges and no others.
  lemma {:induction false} InUnion(ranges: seq<DhcpRange>, x: int)
    ensures x in Union(ranges) <==> Covered(ranges, x)
  {
    if ranges != [] {
      InUnion(ranges[..|ranges| - 1], x);
      CoveredByLast(ranges, x);
    }
  }

  ghost function TotalSize(ranges: seq<DhcpRange>): int {
    if ranges == [] then 0
    else
      var r := ranges[|ranges| - 1];
      TotalSize(ranges[..|ranges| - 1]) + (r.end.Value() - r.start.Value() + 1)
  }

  lemma LastIsDisjoint(ranges: seq<DhcpRange>, x: int)
    requires ranges != [] && PairwiseDisjoint(ranges)
    requires x in Union(ranges[..|ranges| - 1])
    ensures x !in Addresses(ranges[|ranges| - 1])
  {
    var n := |ranges| - 1;
    InUnion(ranges[..n], x);
    var r :| r in ranges[..n] && x in Addresses(r);
    var i :| 0 <= i < n && ranges[..n][i] == r;
    assert Addresses(ranges[i]) !! Addresses(ranges[n]);
  }

  lemma DisjointSizes(a: set<int>, b: set<int>)
    requires a !! b
    ensures |a + b| == |a| + |b|
  {
  }

  // The sizes of disjoint ranges add up to the size of their union.
  lemma {:induction false} SizesAddUp(f: Family, ranges: seq<DhcpRange>)
    requires AllWellFormed(f, ranges) && PairwiseDisjoint(ranges)
    ensures TotalSize(ranges) == |Union(ranges)|
  {
    if ranges != [] {
      var n := |ranges| - 1;
      SizesAddUp(f, ranges[..n]);
      forall x | x in Union(ranges[..n]) ensures x !in Addresses(ranges[n]) { LastIsDisjoint(ranges, x); }
      DisjointSizes(Union(ranges[..n]), Addresses(ranges[n]));
    }
  }

  // Accepted IPv4 pools hold no more addresses than there are.
  lemma PoolsFitAddressSpace(ranges: seq<DhcpRange>)
    requires AllWellFormed(IPv4, ranges) && PairwiseDisjoint(ranges)
    ensures TotalSize(ranges) == |Union(ranges)| <= 0x1_0000_0000
  {
    SizesAddUp(IPv4, ranges);
    var space := Interval(0, 0xFFFF_FFFF);
    forall x | x in Union(ranges) ensures x in space {
      InUnion(ranges, x);
    }
    SubsetSize(Union(ranges), space);
  }
}
