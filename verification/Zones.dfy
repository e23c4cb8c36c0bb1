/**
 * Subdomains and the choice of the authoritative zone: among the matching zones the one
 * with the longest domain string. That is the most specific zone, because the names
 * above a given name form a chain.
 */
module Zones {
  import opened Separators
  import opened Basics
  import opened Names

  // Strictly below: more labels, the last of which are those of `b`, ignoring case.
  predicate IsSubdomain(a: DomainName, b: DomainName) {
    var la, lb := Labels(a), Labels(b);
    |la| > |lb| && SameLabels(la[|la| - |lb|..], lb)
  }

  predicate EqualOrBelow(a: DomainName, b: DomainName) {
    SameName(a, b) || IsSubdomain(a, b)
  }

  datatype Zone = Zone(domain: DomainName, records: seq<string>)

  predicate IsMatch(z: Zone, q: DomainName) {
    SameName(q, z.domain) || IsSubdomain(q, z.domain)
  }

  // Which zones match.
  function Hits(zones: seq<Zone>, q: DomainName): (h: seq<bool>)
    ensures |h| == |zones|
    ensures forall i :: 0 <= i < |zones| ==> h[i] == IsMatch(zones[i], q)
  {
    seq(|zones|, i requires 0 <= i < |zones| => IsMatch(zones[i], q))
  }

  // Of the first n zones, those hit, the one with the longest domain, the last one on ties.
  function LastLongest(zones: seq<Zone>, hits: seq<bool>, n: nat): (r: Option<nat>)
    requires n <= |zones| == |hits|
    ensures r.Some? ==> r.value < n
  {
    if n == 0 then None
    else
      var best := LastLongest(zones, hits, n - 1);
      if !hits[n - 1] then best
      else if best.None? || |zones[n - 1].domain| >= |zones[best.value].domain| then Some(n - 1)
      else best
  }

  function FindZone(zones: seq<Zone>, q: DomainName): Option<Zone> {
    var best := LastLongest(zones, Hits(zones, q), |zones|);
    if best.None? then None else Some(zones[best.value])
  }

  // ---- The order of names -----------------------------------------------------

  lemma SameLabelsSlice(a: seq<string>, b: seq<string>, i: nat)
    requires SameLabels(a, b) && i <= |a|
    ensures SameLabels(a[i..], b[i..])
  {
    forall j | 0 <= j < |a| - i ensures SameName(a[i..][j], b[i..][j]) {
      assert SameName(a[i + j], b[i + j]);
    }
  }

  // The labels end in the labels of another name, ignoring case.
  predicate EndsIn(la: seq<string>, lb: seq<string>) {
    |la| >= |lb| && SameLabels(la[|la| - |lb|..], lb)
  }

  // A name is equal to or below another exactly when it ends in its labels.
  lemma EqualOrBelowIsSuffix(a: DomainName, b: DomainName)
    ensures EqualOrBelow(a, b) <==> EndsIn(Labels(a), Labels(b))
    ensures IsSubdomain(a, b) <==> EndsIn(Labels(a), Labels(b)) && |Labels(a)| > |Labels(b)|
  {
    SameNameIsSameLabels(a, b);
    assert Labels(a)[0..] == Labels(a);
  }

  lemma IsSubdomainIrreflexive(a: DomainName, b: DomainName)
    requires SameName(a, b)
    ensures !IsSubdomain(a, b)
  {
    SameNameIsSameLabels(a, b);
  }

  // Being equal or below is transitive, and strict as soon as one of the two steps is.
  lemma EqualOrBelowTransitive(a: DomainName, b: DomainName, c: DomainName)
    requires EqualOrBelow(a, b) && EqualOrBelow(b, c)
    ensures EqualOrBelow(a, c)
    ensures IsSubdomain(a, b) || IsSubdomain(b, c) ==> IsSubdomain(a, c)
  {
    EqualOrBelowIsSuffix(a, b);
    EqualOrBelowIsSuffix(b, c);
    EqualOrBelowIsSuffix(a, c);
    SuffixTransitive(Labels(a), Labels(b), Labels(c));
  }

  lemma SuffixTransitive(la: seq<string>, lb: seq<string>, lc: seq<string>)
    requires EndsIn(la, lb) && EndsIn(lb, lc)
    ensures EndsIn(la, lc)
  {
    var i, j := |la| - |lb|, |lb| - |lc|;
    SameLabelsSlice(la[i..], lb, j);
    assert la[i..][j..] == la[i + j..];
    forall n | 0 <= n < |lc| ensures SameName(la[i + j..][n], lc[n]) {
      assert SameName(la[i + j..][n], lb[j..][n]);
      assert SameName(lb[j..][n], lc[n]);
    }
  }

  // Two names above the same name are comparable, and the longer string is the lower one.
  lemma AncestorsFormAChain(q: DomainName, a: DomainName, b: DomainName)
    requires EqualOrBelow(q, a) && EqualOrBelow(q, b)
    ensures EqualOrBelow(a, b) || EqualOrBelow(b, a)
    ensures |a| >= |b| <==> EqualOrBelow(a, b)
    ensures |a| == |b| <==> SameName(a, b)
  {
    EqualOrBelowIsSuffix(q, a);
    EqualOrBelowIsSuffix(q, b);
    var lq, la, lb := Labels(q), Labels(a), Labels(b);
    if |la| >= |lb| {
      LowerInChain(q, a, b);
    }
    if |lb| >= |la| {
      LowerInChain(q, b, a);
    }
    SameNameIsSameLabels(a, b);
  }

  lemma LowerInChain(q: DomainName, a: DomainName, b: DomainName)
    requires EqualOrBelow(q, a) && EqualOrBelow(q, b) && |Labels(a)| >= |Labels(b)|
    ensures EqualOrBelow(a, b)
    ensures |Labels(a)| > |Labels(b)| ==> |a| > |b| && !EqualOrBelow(b, a)
    ensures |Labels(a)| == |Labels(b)| ==> |a| == |b| && SameName(a, b)
  {
    SuffixesNest(q, a, b);
    EqualOrBelowIsSuffix(a, b);
    EqualOrBelowIsSuffix(b, a);
    SameNameIsSameLabels(a, b);
    SuffixStringLength(q, a);
    SuffixStringLength(q, b);
    var n := |Labels(q)|;
    if |Labels(a)| > |Labels(b)| { SuffixLength(Labels(q), n - |Labels(a)|, n - |Labels(b)|); }
    assert Labels(a)[0..] == Labels(a);
  }

  // Of two label suffixes of one name, the longer ends in the shorter.
  lemma SuffixesNest(q: DomainName, a: DomainName, b: DomainName)
    requires EqualOrBelow(q, a) && EqualOrBelow(q, b) && |Labels(a)| >= |Labels(b)|
    ensures EndsIn(Labels(a), Labels(b))
  {
    EqualOrBelowIsSuffix(q, a);
    EqualOrBelowIsSuffix(q, b);
    CommonSuffix(Labels(q), Labels(a), Labels(b));
  }

  lemma CommonSuffix(lq: seq<string>, la: seq<string>, lb: seq<string>)
    requires EndsIn(lq, la) && EndsIn(lq, lb) && |la| >= |lb|
    ensures EndsIn(la, lb)
  {
    var i, j := |lq| - |la|, |la| - |lb|;
    SameLabelsSlice(lq[i..], la, j);
    assert lq[i..][j..] == lq[i + j..];
    forall n | 0 <= n < |lb| ensures SameName(la[j..][n], lb[n]) {
      assert SameName(lq[i + j..][n], la[j..][n]);
      assert SameName(lq[i + j..][n], lb[n]);
    }
  }

  // Names with the same labels up to case have strings of the same length.
  lemma SuffixStringLength(q: DomainName, a: DomainName)
    requires EqualOrBelow(q, a)
    ensures |Labels(q)| >= |Labels(a)|
    ensures |a| == |Join(Labels(q)[|Labels(q)| - |Labels(a)|..])|
  {
    EqualOrBelowIsSuffix(q, a);
    JoinOfSplit(a);
    var sfx := Labels(q)[|Labels(q)| - |Labels(a)|..];
    KeyEqualityIsLabelEquality(sfx, Labels(a));
    assert |Lower(Join(sfx))| == |Lower(a)|;
  }

  // A zone matches exactly the names that end in its labels.
  lemma IsMatchExactly(z: Zone, q: DomainName)
    ensures IsMatch(z, q) <==> EndsIn(Labels(q), Labels(z.domain))
  {
    EqualOrBelowIsSuffix(q, z.domain);
  }

  // ---- The root ---------------------------------------------------------------

  // The last label of a name other than the root is not empty.
  lemma {:induction false} LastLabel(s: string)
    requires s != "" && s[|s| - 1] != '.'
    ensures var ls := Split(s); ls[|ls| - 1] != ""
  {
    var rest := Split(s[1..]);
    if |s| > 1 { LastLabel(s[1..]); }
  }

  /** Nothing is below the root: the root has one empty label, which no other name ends
      in. So a zone for the root matches the root alone. */
  lemma RootHasNoSubdomains(q: DomainName, z: Zone)
    ensures !IsSubdomain(q, "")
    ensures z.domain == "" ==> (IsMatch(z, q) <==> q == "")
  {
    assert Labels("") == [""];
    if q != "" {
      LastLabel(q);
      var lq := Labels(q);
      assert lq[|lq| - 1..][0] == lq[|lq| - 1];
      assert |Lower(lq[|lq| - 1])| != |Lower("")|;
    }
    assert |Lower(q)| == |q|;
  }

  // ---- Names that keep their trailing dots ------------------------------------

  // `is_subdomain_of` on any strings: the labels are those of the trimmed strings.
  predicate IsSubdomainOf(a: string, b: string) {
    IsSubdomain(TrimEnd(a, '.'), TrimEnd(b, '.'))
  }

  /** On any strings it is a strict partial order, the names above a name form a chain, and
      trailing dots make no difference. */
  lemma TrailingDotsDoNotMatter(a: string, b: string, c: string)
    ensures !IsSubdomainOf(a, a)
    ensures IsSubdomainOf(a, b) && IsSubdomainOf(b, c) ==> IsSubdomainOf(a, c)
    ensures IsSubdomainOf(a, b) && IsSubdomainOf(a, c) ==>
      IsSubdomainOf(b, c) || IsSubdomainOf(c, b) || SameName(TrimEnd(b, '.'), TrimEnd(c, '.'))
    ensures IsSubdomainOf(a + ".", b) == IsSubdomainOf(a, b) == IsSubdomainOf(a, b + ".")
  {
    var a', b', c' := TrimEnd(a, '.'), TrimEnd(b, '.'), TrimEnd(c, '.');
    IsSubdomainIrreflexive(a', a');
    if IsSubdomain(a', b') && IsSubdomain(b', c') { EqualOrBelowTransitive(a', b', c'); }
    if IsSubdomain(a', b') && IsSubdomain(a', c') { AncestorsFormAChain(a', b', c'); }
    assert (a + ".")[..|a|] == a && (b + ".")[..|b|] == b;
  }

  // ---- The zone chosen --------------------------------------------------------

  // No zone hit among the first n has a longer domain than zone b, nor one as long listed
  // after it.
  ghost predicate Longest(zones: seq<Zone>, hits: seq<bool>, b: nat, n: nat)
    requires b < n <= |zones| == |hits|
  {
    && hits[b]
    && forall i :: 0 <= i < n && hits[i] ==>
         |zones[i].domain| <= |zones[b].domain| && (i > b ==> |zones[i].domain| < |zones[b].domain|)
  }

  lemma {:induction false} LastLongestIsLongest(zones: seq<Zone>, hits: seq<bool>, n: nat)
    requires n <= |zones| == |hits|
    ensures
      match LastLongest(zones, hits, n)
      case None => forall i :: 0 <= i < n ==> !hits[i]
      case Some(b) => Longest(zones, hits, b, n)
  {
    if n > 0 { LastLongestIsLongest(zones, hits, n - 1); }
  }

  /** find_zone returns no zone exactly when none matches; otherwise a matching zone equal
      to or below every matching zone, the last listed of those with its name. */
  lemma FindZoneIsMostSpecific(zones: seq<Zone>, q: DomainName)
    ensures FindZone(zones, q).None? <==> forall i :: 0 <= i < |zones| ==> !IsMatch(zones[i], q)
    ensures FindZone(zones, q).Some? ==>
      var z := FindZone(zones, q).value;
      && IsMatch(z, q)
      && (forall i :: 0 <= i < |zones| && IsMatch(zones[i], q) ==> EqualOrBelow(z.domain, zones[i].domain))
      && exists b :: 0 <= b < |zones| && zones[b] == z
           && forall i :: b < i < |zones| && IsMatch(zones[i], q) ==> IsSubdomain(z.domain, zones[i].domain)
  {
    var hits := Hits(zones, q);
    LastLongestIsLongest(zones, hits, |zones|);
    var best := LastLongest(zones, hits, |zones|);
    if best.Some? {
      var b := best.value;
      forall i | 0 <= i < |zones| && IsMatch(zones[i], q)
        ensures EqualOrBelow(zones[b].domain, zones[i].domain)
        ensures b < i ==> IsSubdomain(zones[b].domain, zones[i].domain)
      {
        AncestorsFormAChain(q, zones[b].domain, zones[i].domain);
      }
    }
  }
}
