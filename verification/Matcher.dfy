/**
 * The domain pattern matcher: a map from folded dotted patterns to servers, probed with
 * every suffix of the query. It must agree with a scan of all the patterns.
 */
module Matcher {
  import opened Basics
  import opened Names

  datatype PatternEntry<S> = PatternEntry(domain: DomainName, servers: seq<S>, isWildcard: bool, labelCount: nat)

  datatype MatchResult<S> = MatchResult(domain: DomainName, servers: seq<S>, isWildcardMatch: bool, matchLength: nat)

  type Patterns<S> = map<string, PatternEntry<S>>

  // ---- What a pattern matches, label by label ---------------------------------

  predicate IsWildcard(p: DomainName) {
    |p| >= 2 && p[0] == '*' && p[1] == '.'
  }

  // The labels of the pattern that stand for themselves.
  function Literal(p: DomainName): (ls: seq<Label>)
    ensures |ls| == |Labels(p)| - (if IsWildcard(p) then 1 else 0)
  {
    if IsWildcard(p) then Labels(p)[1..] else Labels(p)
  }

  /** An exact pattern matches a name that ends in its labels; `*.S` matches a name that
      ends in the labels of S and has at least one more. Case does not matter. */
  predicate Matches(p: DomainName, q: DomainName) {
    var lit, ql := Literal(p), Labels(q);
    && |lit| + (if IsWildcard(p) then 1 else 0) <= |ql|
    && SameLabels(ql[|ql| - |lit|..], lit)
  }

  // Literal labels first, exact before wildcard on ties.
  function Rank(p: DomainName): nat {
    2 * |Literal(p)| + (if IsWildcard(p) then 0 else 1)
  }

  // All labels first, exact before wildcard on ties.
  function Weight(p: DomainName): nat {
    2 * |Labels(p)| + (if IsWildcard(p) then 0 else 1)
  }

  // ---- The pattern map --------------------------------------------------------

  function EntryFor<S>(p: DomainName, servers: seq<S>): PatternEntry<S> {
    PatternEntry(p, servers, IsWildcard(p), |Labels(p)|)
  }

  function ResultOf<S>(e: PatternEntry<S>): MatchResult<S> {
    MatchResult(e.domain, e.servers, e.isWildcard, e.labelCount)
  }

  ghost predicate Indexed<S>(patterns: Patterns<S>) {
    forall k :: k in patterns ==>
      k == Lower(patterns[k].domain) && patterns[k] == EntryFor(patterns[k].domain, patterns[k].servers)
  }

  // Some stored pattern is a wildcard.
  ghost predicate SomeWildcard<S>(patterns: Patterns<S>) {
    exists k :: k in patterns && patterns[k].isWildcard
  }

  // The stored pattern under key k matches the query.
  predicate Hit<S>(patterns: Patterns<S>, q: DomainName, k: string) {
    k in patterns && Matches(patterns[k].domain, q)
  }

  // ---- The probes -------------------------------------------------------------

  function ExactKey(ql: seq<Label>, i: nat): string
    requires i < |ql|
  {
    Lower(Join(ql[i..]))
  }

  function WildcardKey(ql: seq<Label>, i: nat): string
    requires i < |ql|
  {
    Lower("*." + Join(ql[i..]))
  }

  function ExactProbe<S>(patterns: Patterns<S>, ql: seq<Label>, i: nat): Option<PatternEntry<S>>
    requires i < |ql|
  {
    var k := ExactKey(ql, i);
    if k in patterns && !patterns[k].isWildcard then Some(patterns[k]) else None
  }

  function WildcardProbe<S>(patterns: Patterns<S>, hasWildcards: bool, ql: seq<Label>, i: nat): Option<PatternEntry<S>>
    requires i < |ql|
  {
    var k := WildcardKey(ql, i);
    if hasWildcards && i > 0 && k in patterns && patterns[k].isWildcard then Some(patterns[k]) else None
  }

  // The first successful probe, longest suffix first.
  function LongestFrom<S>(patterns: Patterns<S>, hasWildcards: bool, ql: seq<Label>, i: nat): Option<MatchResult<S>>
    requires i <= |ql|
    decreases |ql| - i
  {
    if i == |ql| then None
    else
      var exact, wild := ExactProbe(patterns, ql, i), WildcardProbe(patterns, hasWildcards, ql, i);
      if exact.Some? then Some(ResultOf(exact.value))
      else if wild.Some? then Some(ResultOf(wild.value))
      else LongestFrom(patterns, hasWildcards, ql, i + 1)
  }

  function ToSeq<S>(e: Option<PatternEntry<S>>): seq<MatchResult<S>> {
    if e.Some? then [ResultOf(e.value)] else []
  }

  // The successful probes of the suffixes that start before label i, in probing order.
  function AllBefore<S>(patterns: Patterns<S>, hasWildcards: bool, ql: seq<Label>, i: nat): seq<MatchResult<S>>
    requires i <= |ql|
  {
    if i == 0 then []
    else
      AllBefore(patterns, hasWildcards, ql, i - 1)
      + ToSeq(ExactProbe(patterns, ql, i - 1))
      + ToSeq(WildcardProbe(patterns, hasWildcards, ql, i - 1))
  }

  // ---- Histories --------------------------------------------------------------

  // What a caller can do to the patterns.
  datatype Change<S> = Add(domain: DomainName, servers: seq<S>) | Reset

  function PatternsAfter<S>(changes: seq<Change<S>>): Patterns<S> {
    if changes == [] then map[]
    else
      match changes[|changes| - 1]
      case Add(p, servers) => PatternsAfter(changes[..|changes| - 1])[Lower(p) := EntryFor(p, servers)]
      case Reset => map[]
  }

  function FlagAfter<S>(changes: seq<Change<S>>): bool {
    if changes == [] then false
    else
      match changes[|changes| - 1]
      case Add(p, _) => FlagAfter(changes[..|changes| - 1]) || IsWildcard(p)
      case Reset => false
  }

  // ---- Stable sort by descending match length ---------------------------------

  function InsertByLength<S>(m: MatchResult<S>, ms: seq<MatchResult<S>>): seq<MatchResult<S>> {
    if ms == [] then [m]
    else if ms[0].matchLength > m.matchLength then [ms[0]] + InsertByLength(m, ms[1..])
    else [m] + ms
  }

  function SortByLength<S>(ms: seq<MatchResult<S>>): seq<MatchResult<S>> {
    if ms == [] then [] else InsertByLength(ms[0], SortByLength(ms[1..]))
  }

  function FindLongest<S>(patterns: Patterns<S>, hasWildcards: bool, q: DomainName): Option<MatchResult<S>> {
    LongestFrom(patterns, hasWildcards, Labels(q), 0)
  }

  function FindAll<S>(patterns: Patterns<S>, hasWildcards: bool, q: DomainName): seq<MatchResult<S>> {
    SortByLength(AllBefore(patterns, hasWildcards, Labels(q), |Labels(q)|))
  }

  class DomainMatcher<S> {
    var patterns: Patterns<S>
    var hasWildcards: bool
    ghost var changes: seq<Change<S>>

    // The state is what the changes so far make it.
    ghost predicate Valid()
      reads this
    {
      patterns == PatternsAfter(changes) && hasWildcards == FlagAfter(changes)
    }

    constructor ()
      ensures Valid() && changes == []
    {
      patterns := map[];
      hasWildcards := false;
      changes := [];
    }

    method AddPattern(domain: DomainName, servers: seq<S>)
      requires Valid()
      modifies this
      ensures Valid() && changes == old(changes) + [Add(domain, servers)]
    {
      var isWildcard := |domain| >= 2 && domain[..2] == "*.";
      if isWildcard { hasWildcards := true; }
      var key := Lower(domain);
      var entry := PatternEntry(domain, servers, isWildcard, |Labels(domain)|);
      assert isWildcard == IsWildcard(domain);
      HistoryOneMore(changes, Add(domain, servers));
      patterns := patterns[key := entry];
      changes := changes + [Add(domain, servers)];
    }

    method FindLongestMatch(q: DomainName) returns (r: Option<MatchResult<S>>)
      ensures r == FindLongest(patterns, hasWildcards, q)
    {
      var ql := Labels(q);
      for i := 0 to |ql|
        invariant FindLongest(patterns, hasWildcards, q) == LongestFrom(patterns, hasWildcards, ql, i)
      {
        var suffix := Join(ql[i..]);
        if Lower(suffix) in patterns {
          var entry := patterns[Lower(suffix)];
          if !entry.isWildcard {
            return Some(MatchResult(entry.domain, entry.servers, false, entry.labelCount));
          }
        }
        if hasWildcards && i > 0 {
          var pattern := Lower("*." + suffix);
          if pattern in patterns {
            var entry := patterns[pattern];
            if entry.isWildcard {
              return Some(MatchResult(entry.domain, entry.servers, true, entry.labelCount));
            }
          }
        }
      }
      return None;
    }

    method FindAllMatches(q: DomainName) returns (ms: seq<MatchResult<S>>)
      ensures ms == FindAll(patterns, hasWildcards, q)
    {
      var ql := Labels(q);
      ms := [];
      for i := 0 to |ql|
        invariant ms == AllBefore(patterns, hasWildcards, ql, i)
      {
        ghost var before := ms;
        var suffix := Join(ql[i..]);
        if Lower(suffix) in patterns {
          var entry := patterns[Lower(suffix)];
          if !entry.isWildcard {
            ms := ms + [MatchResult(entry.domain, entry.servers, false, entry.labelCount)];
          }
        }
        assert ms == before + ToSeq(ExactProbe(patterns, ql, i));
        if hasWildcards && i > 0 {
          var pattern := Lower("*." + suffix);
          if pattern in patterns {
            var entry := patterns[pattern];
            if entry.isWildcard {
              ms := ms + [MatchResult(entry.domain, entry.servers, true, entry.labelCount)];
            }
          }
        }
        assert ms == before + ToSeq(ExactProbe(patterns, ql, i)) + ToSeq(WildcardProbe(patterns, hasWildcards, ql, i));
      }
      ms := SortMatches(ms);
    }

    // The stable sort by descending match length.
    static method SortMatches(ms: seq<MatchResult<S>>) returns (r: seq<MatchResult<S>>)
      ensures r == SortByLength(ms)
    {
      r := [];
      for i := |ms| downto 0
        invariant r == SortByLength(ms[i..])
      {
        var k := 0;
        while k < |r| && r[k].matchLength > ms[i].matchLength
          invariant k <= |r|
          invariant InsertByLength(ms[i], r) == r[..k] + InsertByLength(ms[i], r[k..])
        {
          InsertPasses(ms[i], r, k);
          k := k + 1;
        }
        assert ms[i..][1..] == ms[i + 1..];
        r := r[..k] + ([ms[i]] + r[k..]);
      }
      assert ms[0..] == ms;
    }

    method Clear()
      modifies this
      ensures Valid() && changes == old(changes) + [Reset]
    {
      patterns := map[];
      hasWildcards := false;
      HistoryOneMore(changes, Reset);
      changes := changes + [Reset];
    }
  }

  lemma HistoryOneMore<S>(changes: seq<Change<S>>, c: Change<S>)
    ensures PatternsAfter(changes + [c]) ==
      match c
      case Add(p, servers) => PatternsAfter(changes)[Lower(p) := EntryFor(p, servers)]
      case Reset => map[]
    ensures FlagAfter(changes + [c]) == (c.Add? && (FlagAfter(changes) || IsWildcard(c.domain)))
  {
    assert (changes + [c])[..|changes|] == changes;
  }

  lemma InsertPasses<S>(m: MatchResult<S>, r: seq<MatchResult<S>>, k: nat)
    requires k < |r| && r[k].matchLength > m.matchLength
    ensures r[..k] + InsertByLength(m, r[k..]) == r[..k + 1] + InsertByLength(m, r[k + 1..])
  {
    assert r[k..][1..] == r[k + 1..];
    assert r[..k] + [r[k]] == r[..k + 1];
  }

  lemma FoldedWildcard(a: DomainName, b: DomainName)
    requires Lower(a) == Lower(b)
    ensures IsWildcard(a) <==> IsWildcard(b)
  {
    assert |a| == |Lower(a)| == |Lower(b)| == |b|;
    if |a| >= 2 {
      assert Lower(a)[0] == Lower(b)[0] && Lower(a)[1] == Lower(b)[1];
    }
  }

  // A pattern stored under an existing key is a wildcard exactly when the old one was.
  lemma OverwriteKeepsWildness<S>(patterns: Patterns<S>, p: DomainName, servers: seq<S>)
    requires Indexed(patterns)
    ensures
      var next := patterns[Lower(p) := EntryFor(p, servers)];
      Indexed(next) && (SomeWildcard(next) <==> SomeWildcard(patterns) || IsWildcard(p))
  {
    var next := patterns[Lower(p) := EntryFor(p, servers)];
    if Lower(p) in patterns { FoldedWildcard(p, patterns[Lower(p)].domain); }
    if IsWildcard(p) { assert next[Lower(p)].isWildcard; }
    if SomeWildcard(patterns) {
      var k :| k in patterns && patterns[k].isWildcard;
      assert next[k].isWildcard;
    }
  }

  // ---- Probes and the label-wise meaning --------------------------------------

  lemma {:induction false} WildcardLabels(p: DomainName)
    ensures IsWildcard(p) <==> |Labels(p)| >= 2 && Labels(p)[0] == "*"
  {
    JoinOfSplit(p);
    if IsWildcard(p) {
      var s := p[1..];
      assert s[0] == '.';
      assert Split(s) == [""] + Split(s[1..]);
      assert Split(p) == [[p[0]] + Split(s)[0]] + Split(s)[1..];
      assert ['*'] + "" == "*";
    }
  }

  // The exact probe of a suffix finds the exact pattern with those labels.
  lemma ExactKeyFinds(ql: seq<Label>, i: nat, p: DomainName)
    requires i < |ql|
    ensures ExactKey(ql, i) == Lower(p) <==> SameLabels(ql[i..], Labels(p))
  {
    JoinOfSplit(p);
    KeyEqualityIsLabelEquality(ql[i..], Labels(p));
  }

  // The wildcard probe of a suffix finds the wildcard pattern with those literal labels.
  lemma WildcardKeyFinds(ql: seq<Label>, i: nat, p: DomainName)
    requires i < |ql| && IsWildcard(p)
    ensures WildcardKey(ql, i) == Lower(p) <==> SameLabels(ql[i..], Literal(p))
  {
    WildcardLabels(p);
    JoinOfSplit(p);
    var probe: seq<Label> := ["*"] + ql[i..];
    assert probe[1..] == ql[i..];
    assert Join(probe) == "*" + "." + Join(ql[i..]) == "*." + Join(ql[i..]);
    KeyEqualityIsLabelEquality(probe, Labels(p));
    var lit := Literal(p);
    if SameLabels(probe, Labels(p)) {
      forall j | 0 <= j < |lit| ensures SameName(ql[i..][j], lit[j]) {
        assert SameName(probe[j + 1], Labels(p)[j + 1]);
      }
    }
    if SameLabels(ql[i..], lit) {
      forall j | 0 <= j < |probe| ensures SameName(probe[j], Labels(p)[j]) {
        if j > 0 { assert SameName(ql[i..][j - 1], lit[j - 1]); }
      }
    }
  }

  // A stored pattern that matches is found by the probe its literal labels call for.
  lemma HitIsProbed<S>(patterns: Patterns<S>, q: DomainName, k: string, i: int)
    requires Indexed(patterns) && Hit(patterns, q, k)
    requires i == |Labels(q)| - |Literal(patterns[k].domain)|
    ensures
      var ql, p := Labels(q), patterns[k].domain;
      && 0 <= i < |ql|
      && (IsWildcard(p) ==>
            i > 0 && k == WildcardKey(ql, i) && WildcardProbe(patterns, true, ql, i) == Some(patterns[k]))
      && (!IsWildcard(p) ==> k == ExactKey(ql, i) && ExactProbe(patterns, ql, i) == Some(patterns[k]))
  {
    var ql, p := Labels(q), patterns[k].domain;
    WildcardLabels(p);
    if IsWildcard(p) { WildcardKeyFinds(ql, i, p); } else { ExactKeyFinds(ql, i, p); }
  }

  lemma ProbeIsHit<S>(patterns: Patterns<S>, q: DomainName, i: nat)
    requires Indexed(patterns) && i < |Labels(q)|
    ensures
      var ql := Labels(q);
      var e := ExactProbe(patterns, ql, i);
      e.Some? ==>
        Hit(patterns, q, ExactKey(ql, i)) && !IsWildcard(e.value.domain) && |Literal(e.value.domain)| == |ql| - i
    ensures
      var ql := Labels(q);
      var e := WildcardProbe(patterns, true, ql, i);
      e.Some? ==>
        Hit(patterns, q, WildcardKey(ql, i)) && IsWildcard(e.value.domain) && |Literal(e.value.domain)| == |ql| - i
  {
    var ql := Labels(q);
    var exact, wild := ExactProbe(patterns, ql, i), WildcardProbe(patterns, true, ql, i);
    if exact.Some? { ExactKeyFinds(ql, i, exact.value.domain); }
    if wild.Some? { WildcardKeyFinds(ql, i, wild.value.domain); }
  }

  // ---- The longest match ------------------------------------------------------

  // Skipping the wildcard probes when there is no wildcard changes nothing.
  lemma {:induction false} FlagIsSound<S>(patterns: Patterns<S>, hasWildcards: bool, ql: seq<Label>, i: nat)
    requires hasWildcards <==> SomeWildcard(patterns)
    requires i <= |ql|
    ensures LongestFrom(patterns, hasWildcards, ql, i) == LongestFrom(patterns, true, ql, i)
    ensures AllBefore(patterns, hasWildcards, ql, i) == AllBefore(patterns, true, ql, i)
    decreases |ql| - i
  {
    forall j: nat | j < |ql|
      ensures WildcardProbe(patterns, hasWildcards, ql, j) == WildcardProbe(patterns, true, ql, j)
    {
    }
    if i < |ql| { FlagIsSound(patterns, hasWildcards, ql, i + 1); }
    FlagIsSoundBefore(patterns, hasWildcards, ql, i);
  }

  lemma {:induction false} FlagIsSoundBefore<S>(patterns: Patterns<S>, hasWildcards: bool, ql: seq<Label>, i: nat)
    requires i <= |ql|
    requires forall j: nat :: j < |ql| ==>
      WildcardProbe(patterns, hasWildcards, ql, j) == WildcardProbe(patterns, true, ql, j)
    ensures AllBefore(patterns, hasWildcards, ql, i) == AllBefore(patterns, true, ql, i)
  {
    if i > 0 { FlagIsSoundBefore(patterns, hasWildcards, ql, i - 1); }
  }

  // No stored pattern with more literal labels than n matches.
  ghost predicate NoneLonger<S>(patterns: Patterns<S>, q: DomainName, n: int) {
    forall k :: Hit(patterns, q, k) ==> |Literal(patterns[k].domain)| <= n
  }

  // The key is that of a matching pattern that outranks every other matching one.
  ghost predicate Best<S>(patterns: Patterns<S>, q: DomainName, k: string) {
    && Hit(patterns, q, k)
    && forall k' :: Hit(patterns, q, k') && k' != k ==> Rank(patterns[k'].domain) < Rank(patterns[k].domain)
  }

  lemma ExactIsBest<S>(patterns: Patterns<S>, q: DomainName, i: nat)
    requires Indexed(patterns) && i < |Labels(q)| && NoneLonger(patterns, q, |Labels(q)| - i)
    requires ExactProbe(patterns, Labels(q), i).Some?
    ensures Best(patterns, q, ExactKey(Labels(q), i))
  {
    var k := ExactKey(Labels(q), i);
    ProbeIsHit(patterns, q, i);
    forall k' | Hit(patterns, q, k') && k' != k
      ensures Rank(patterns[k'].domain) < Rank(patterns[k].domain)
    {
      if |Literal(patterns[k'].domain)| == |Labels(q)| - i { HitIsProbed(patterns, q, k', i); }
    }
  }

  lemma WildcardIsBest<S>(patterns: Patterns<S>, q: DomainName, i: nat)
    requires Indexed(patterns) && i < |Labels(q)| && NoneLonger(patterns, q, |Labels(q)| - i)
    requires ExactProbe(patterns, Labels(q), i).None?
    requires WildcardProbe(patterns, true, Labels(q), i).Some?
    ensures Best(patterns, q, WildcardKey(Labels(q), i))
  {
    var k := WildcardKey(Labels(q), i);
    ProbeIsHit(patterns, q, i);
    forall k' | Hit(patterns, q, k') && k' != k
      ensures Rank(patterns[k'].domain) < Rank(patterns[k].domain)
    {
      if |Literal(patterns[k'].domain)| == |Labels(q)| - i { HitIsProbed(patterns, q, k', i); }
    }
  }

  lemma FailedProbesShorten<S>(patterns: Patterns<S>, q: DomainName, i: nat)
    requires Indexed(patterns) && i < |Labels(q)| && NoneLonger(patterns, q, |Labels(q)| - i)
    requires ExactProbe(patterns, Labels(q), i).None?
    requires WildcardProbe(patterns, true, Labels(q), i).None?
    ensures NoneLonger(patterns, q, |Labels(q)| - (i + 1))
  {
    forall k | Hit(patterns, q, k) ensures |Literal(patterns[k].domain)| <= |Labels(q)| - (i + 1) {
      if |Literal(patterns[k].domain)| == |Labels(q)| - i { HitIsProbed(patterns, q, k, i); }
    }
  }

  // Nothing, and no stored pattern matches; or else the best of those that do.
  ghost predicate BestResult<S>(patterns: Patterns<S>, q: DomainName, r: Option<MatchResult<S>>) {
    match r
    case None => forall k :: !Hit(patterns, q, k)
    case Some(m) =>
      && Lower(m.domain) in patterns
      && m == ResultOf(patterns[Lower(m.domain)])
      && Best(patterns, q, Lower(m.domain))
  }

  lemma NoneLeft<S>(patterns: Patterns<S>, q: DomainName)
    requires Indexed(patterns) && NoneLonger(patterns, q, 0)
    ensures BestResult(patterns, q, None)
  {
    forall k | Hit(patterns, q, k) ensures false {
      HitIsProbed(patterns, q, k, |Labels(q)| - |Literal(patterns[k].domain)|);
    }
  }

  lemma {:induction false} LongestFromIsBest<S>(patterns: Patterns<S>, q: DomainName, i: nat)
    requires Indexed(patterns) && i <= |Labels(q)| && NoneLonger(patterns, q, |Labels(q)| - i)
    ensures BestResult(patterns, q, LongestFrom(patterns, true, Labels(q), i))
    decreases |Labels(q)| - i
  {
    var ql := Labels(q);
    if i == |ql| {
      NoneLeft(patterns, q);
    } else if ExactProbe(patterns, ql, i).Some? {
      ExactIsBest(patterns, q, i);
    } else if WildcardProbe(patterns, true, ql, i).Some? {
      WildcardIsBest(patterns, q, i);
    } else {
      FailedProbesShorten(patterns, q, i);
      LongestFromIsBest(patterns, q, i + 1);
      assert LongestFrom(patterns, true, ql, i) == LongestFrom(patterns, true, ql, i + 1);
    }
  }

  /** The probing search answers as a scan of all patterns would: nothing exactly when
      no stored pattern matches, and otherwise the one stored match that outranks all
      others by literal labels, exact before wildcard. */
  lemma {:induction false} LongestAgreesWithScan<S>(patterns: Patterns<S>, hasWildcards: bool, q: DomainName)
    requires Indexed(patterns) && (hasWildcards <==> SomeWildcard(patterns))
    ensures
      var r := FindLongest(patterns, hasWildcards, q);
      && (r.None? <==> forall k :: k in patterns ==> !Matches(patterns[k].domain, q))
      && (r.Some? ==>
            var k := Lower(r.value.domain);
            && k in patterns && r.value == ResultOf(patterns[k])
            && Best(patterns, q, k))
  {
    FlagIsSound(patterns, hasWildcards, Labels(q), 0);
    forall k | Hit(patterns, q, k) ensures |Literal(patterns[k].domain)| <= |Labels(q)| {
      HitIsProbed(patterns, q, k, |Labels(q)| - |Literal(patterns[k].domain)|);
    }
    LongestFromIsBest(patterns, q, 0);
    var r := FindLongest(patterns, hasWildcards, q);
    if r.None? {
      forall k | k in patterns ensures !Matches(patterns[k].domain, q) { assert !Hit(patterns, q, k); }
    } else {
      assert Hit(patterns, q, Lower(r.value.domain));
    }
  }

  // ---- All matches ------------------------------------------------------------

  // The result is that of a stored pattern that matches.
  ghost predicate StoredMatch<S>(patterns: Patterns<S>, q: DomainName, m: MatchResult<S>) {
    Hit(patterns, q, Lower(m.domain)) && m == ResultOf(patterns[Lower(m.domain)])
  }

  // Strictly descending by match length, exact before wildcard.
  ghost predicate Descending<S>(ms: seq<MatchResult<S>>) {
    forall i, j :: 0 <= i < j < |ms| ==> Weight(ms[i].domain) > Weight(ms[j].domain)
  }

  // Among results of equal length the earlier is exact and the later a wildcard.
  ghost predicate TiesExactFirst<S>(ms: seq<MatchResult<S>>) {
    forall i, j :: 0 <= i < j < |ms| && ms[i].matchLength == ms[j].matchLength ==>
      !IsWildcard(ms[i].domain) && IsWildcard(ms[j].domain)
  }

  ghost predicate Measured<S>(ms: seq<MatchResult<S>>) {
    forall i :: 0 <= i < |ms| ==> ms[i].matchLength == |Labels(ms[i].domain)|
  }

  lemma {:induction false} InsertAdds<S>(m: MatchResult<S>, ms: seq<MatchResult<S>>)
    ensures multiset(InsertByLength(m, ms)) == multiset(ms) + multiset{m}
  {
    if ms != [] {
      assert ms == [ms[0]] + ms[1..];
      InsertAdds(m, ms[1..]);
    }
  }

  lemma {:induction false} SortPermutes<S>(ms: seq<MatchResult<S>>)
    ensures multiset(SortByLength(ms)) == multiset(ms)
  {
    if ms != [] {
      assert ms == [ms[0]] + ms[1..];
      SortPermutes(ms[1..]);
      InsertAdds(ms[0], SortByLength(ms[1..]));
    }
  }

  lemma SameMembers<S>(a: seq<MatchResult<S>>, b: seq<MatchResult<S>>, m: MatchResult<S>)
    requires multiset(a) == multiset(b)
    ensures m in a <==> m in b
  {
    assert m in a <==> m in multiset(a);
    assert m in b <==> m in multiset(b);
  }

  ghost predicate Above<S>(m: MatchResult<S>, ms: seq<MatchResult<S>>) {
    forall x :: x in ms ==> Weight(m.domain) > Weight(x.domain)
  }

  lemma DescendingCons<S>(m: MatchResult<S>, ms: seq<MatchResult<S>>)
    ensures Descending([m] + ms) <==> Above(m, ms) && Descending(ms)
  {
    var r := [m] + ms;
    if Descending(r) {
      forall x | x in ms ensures Weight(m.domain) > Weight(x.domain) {
        var i :| 0 <= i < |ms| && ms[i] == x;
        assert r[0] == m && r[i + 1] == x;
      }
      forall i, j | 0 <= i < j < |ms| ensures Weight(ms[i].domain) > Weight(ms[j].domain) {
        assert r[i + 1] == ms[i] && r[j + 1] == ms[j];
      }
    }
    if Above(m, ms) && Descending(ms) {
      assert forall i :: 0 <= i < |ms| ==> ms[i] in ms;
    }
  }

  lemma {:induction false} InsertKeepsAbove<S>(top: MatchResult<S>, m: MatchResult<S>, ms: seq<MatchResult<S>>)
    requires Above(top, ms) && Weight(top.domain) > Weight(m.domain)
    ensures Above(top, InsertByLength(m, ms))
  {
    if ms != [] && ms[0].matchLength > m.matchLength {
      assert ms[0] in ms;
      InsertKeepsAbove(top, m, ms[1..]);
    }
  }

  lemma {:induction false} InsertSorts<S>(m: MatchResult<S>, ms: seq<MatchResult<S>>)
    requires Descending(ms) && Measured(ms) && m.matchLength == |Labels(m.domain)|
    requires forall x :: x in ms && x.matchLength == m.matchLength ==>
      !IsWildcard(m.domain) && IsWildcard(x.domain)
    ensures Descending(InsertByLength(m, ms)) && Measured(InsertByLength(m, ms))
  {
    if ms != [] {
      assert ms == [ms[0]] + ms[1..];
      assert ms[0] in ms;
      DescendingCons(ms[0], ms[1..]);
      if ms[0].matchLength > m.matchLength {
        InsertSorts(m, ms[1..]);
        InsertKeepsAbove(ms[0], m, ms[1..]);
        DescendingCons(ms[0], InsertByLength(m, ms[1..]));
      } else {
        assert Weight(m.domain) > Weight(ms[0].domain);
        DescendingCons(m, ms);
      }
    }
  }

  lemma {:induction false} SortSorts<S>(ms: seq<MatchResult<S>>)
    requires Measured(ms) && TiesExactFirst(ms)
    ensures Descending(SortByLength(ms)) && Measured(SortByLength(ms))
  {
    if ms != [] {
      SortSorts(ms[1..]);
      SortPermutes(ms[1..]);
      var rest := SortByLength(ms[1..]);
      forall x | x in rest && x.matchLength == ms[0].matchLength
        ensures !IsWildcard(ms[0].domain) && IsWildcard(x.domain)
      {
        SameMembers(rest, ms[1..], x);
        var j :| 0 <= j < |ms[1..]| && ms[1..][j] == x;
        assert ms[j + 1] == x;
      }
      InsertSorts(ms[0], rest);
    }
  }

  // Probing goes down the ranks: the results so far are all the matches from a rank up.
  ghost predicate AllRanked<S>(patterns: Patterns<S>, q: DomainName, ms: seq<MatchResult<S>>, bound: int) {
    && (forall i, j :: 0 <= i < j < |ms| ==> Rank(ms[i].domain) > Rank(ms[j].domain))
    && (forall m :: m in ms ==> StoredMatch(patterns, q, m) && Rank(m.domain) >= bound)
    && (forall k :: Hit(patterns, q, k) && Rank(patterns[k].domain) >= bound ==> ResultOf(patterns[k]) in ms)
  }

  // The entry is the stored match of that rank, if there is one.
  ghost predicate OfRank<S>(patterns: Patterns<S>, q: DomainName, e: Option<PatternEntry<S>>, bound: int) {
    && (e.Some? ==> StoredMatch(patterns, q, ResultOf(e.value)) && Rank(e.value.domain) == bound)
    && (forall k :: Hit(patterns, q, k) && Rank(patterns[k].domain) == bound ==> e == Some(patterns[k]))
  }

  // One probe takes the results one rank further down.
  lemma PushRank<S>(
    patterns: Patterns<S>, q: DomainName, ms: seq<MatchResult<S>>, e: Option<PatternEntry<S>>, bound: int)
    requires AllRanked(patterns, q, ms, bound + 1)
    requires OfRank(patterns, q, e, bound)
    ensures AllRanked(patterns, q, ms + ToSeq(e), bound)
  {
    var r := ms + ToSeq(e);
    forall m | m in r ensures StoredMatch(patterns, q, m) && Rank(m.domain) >= bound {
      if m !in ms { assert m == ResultOf(e.value); }
    }
    forall k | Hit(patterns, q, k) && Rank(patterns[k].domain) >= bound ensures ResultOf(patterns[k]) in r {
      if Rank(patterns[k].domain) == bound { assert r[|ms|] == ResultOf(patterns[k]); }
    }
    forall i, j | 0 <= i < j < |r| ensures Rank(r[i].domain) > Rank(r[j].domain) {
      if j == |ms| { assert r[i] in ms; }
    }
  }

  lemma ExactProbeOfRank<S>(patterns: Patterns<S>, q: DomainName, i: nat)
    requires Indexed(patterns) && i < |Labels(q)|
    ensures OfRank(patterns, q, ExactProbe(patterns, Labels(q), i), 2 * (|Labels(q)| - i) + 1)
  {
    ProbeIsHit(patterns, q, i);
    forall k | Hit(patterns, q, k) && Rank(patterns[k].domain) == 2 * (|Labels(q)| - i) + 1
      ensures ExactProbe(patterns, Labels(q), i) == Some(patterns[k])
    {
      HitIsProbed(patterns, q, k, i);
    }
  }

  lemma WildcardProbeOfRank<S>(patterns: Patterns<S>, q: DomainName, i: nat)
    requires Indexed(patterns) && i < |Labels(q)|
    ensures OfRank(patterns, q, WildcardProbe(patterns, true, Labels(q), i), 2 * (|Labels(q)| - i))
  {
    ProbeIsHit(patterns, q, i);
    forall k | Hit(patterns, q, k) && Rank(patterns[k].domain) == 2 * (|Labels(q)| - i)
      ensures WildcardProbe(patterns, true, Labels(q), i) == Some(patterns[k])
    {
      HitIsProbed(patterns, q, k, i);
    }
  }

  lemma NoneAboveQuery<S>(patterns: Patterns<S>, q: DomainName)
    requires Indexed(patterns)
    ensures AllRanked(patterns, q, [], 2 * |Labels(q)| + 2)
  {
    forall k | Hit(patterns, q, k) ensures Rank(patterns[k].domain) < 2 * |Labels(q)| + 2 {
      HitIsProbed(patterns, q, k, |Labels(q)| - |Literal(patterns[k].domain)|);
    }
  }

  // The two probes of one suffix take the results two ranks further down.
  lemma RankedStep<S>(patterns: Patterns<S>, q: DomainName, ms: seq<MatchResult<S>>, i: nat, n: int)
    requires Indexed(patterns) && i < |Labels(q)| && n == |Labels(q)| - i
    requires AllRanked(patterns, q, ms, 2 * n + 2)
    ensures
      var exact, wild := ExactProbe(patterns, Labels(q), i), WildcardProbe(patterns, true, Labels(q), i);
      AllRanked(patterns, q, ms + ToSeq(exact) + ToSeq(wild), 2 * n)
  {
    var exact, wild := ExactProbe(patterns, Labels(q), i), WildcardProbe(patterns, true, Labels(q), i);
    ExactProbeOfRank(patterns, q, i);
    WildcardProbeOfRank(patterns, q, i);
    PushRank(patterns, q, ms, exact, 2 * n + 1);
    PushRank(patterns, q, ms + ToSeq(exact), wild, 2 * n);
  }

  lemma {:induction false} AllBeforeIsRanked<S>(patterns: Patterns<S>, q: DomainName, i: nat)
    requires Indexed(patterns) && i <= |Labels(q)|
    ensures AllRanked(patterns, q, AllBefore(patterns, true, Labels(q), i), 2 * (|Labels(q)| - i) + 2)
  {
    if i == 0 {
      NoneAboveQuery(patterns, q);
    } else {
      var ql := Labels(q);
      AllBeforeIsRanked(patterns, q, i - 1);
      var ms := AllBefore(patterns, true, ql, i - 1);
      RankedStep(patterns, q, ms, i - 1, |ql| - i + 1);
    }
  }

  lemma RankedTies<S>(patterns: Patterns<S>, q: DomainName, ms: seq<MatchResult<S>>, bound: int)
    requires Indexed(patterns) && AllRanked(patterns, q, ms, bound)
    ensures Measured(ms) && TiesExactFirst(ms)
  {
    assert forall i :: 0 <= i < |ms| ==> ms[i] in ms;
  }

  /** find_all_matches returns every stored match exactly once, strictly descending by
      match length and, at equal length, exact before wildcard. */
  lemma AllMatchesOnceInOrder<S>(patterns: Patterns<S>, hasWildcards: bool, q: DomainName, m: MatchResult<S>)
    requires Indexed(patterns) && (hasWildcards <==> SomeWildcard(patterns))
    ensures m in FindAll(patterns, hasWildcards, q) <==> StoredMatch(patterns, q, m)
    ensures Descending(FindAll(patterns, hasWildcards, q))
    ensures Measured(FindAll(patterns, hasWildcards, q))
  {
    var n := |Labels(q)|;
    FlagIsSound(patterns, hasWildcards, Labels(q), n);
    AllBeforeIsRanked(patterns, q, n);
    var ms := AllBefore(patterns, true, Labels(q), n);
    RankedTies(patterns, q, ms, 2);
    SortSorts(ms);
    SortPermutes(ms);
    SameMembers(SortByLength(ms), ms, m);
    if StoredMatch(patterns, q, m) {
      HitIsProbed(patterns, q, Lower(m.domain), |Labels(q)| - |Literal(patterns[Lower(m.domain)].domain)|);
      assert Rank(m.domain) >= 2;
    }
  }

  // ---- The head of all matches and the longest match --------------------------

  lemma WildcardKeyOfExact(ql: seq<Label>, i: nat)
    requires i < |ql|
    ensures WildcardKey(ql, i) == "*." + ExactKey(ql, i)
  {
  }

  // If S is stored as an exact match of a longer query and `*.S` is stored, `*.S` matches.
  lemma WildcardTwinMatches<S>(patterns: Patterns<S>, q: DomainName, k: string)
    requires Indexed(patterns) && Hit(patterns, q, k) && !IsWildcard(patterns[k].domain)
    requires |Labels(patterns[k].domain)| < |Labels(q)| && "*." + k in patterns
    ensures Hit(patterns, q, "*." + k)
    ensures Weight(patterns["*." + k].domain) > Weight(patterns[k].domain)
  {
    var i := |Labels(q)| - |Labels(patterns[k].domain)|;
    HitIsProbed(patterns, q, k, i);
    WildcardKeyOfExact(Labels(q), i);
    var d := patterns["*." + k].domain;
    assert Lower(d)[0] == '*' && Lower(d)[1] == '.';
    assert IsWildcard(d);
    ProbeIsHit(patterns, q, i);
  }

  // A match heavier than the best-ranked one is its wildcard twin.
  lemma HeavierIsTwin<S>(patterns: Patterns<S>, q: DomainName, k: string, h: string)
    requires Indexed(patterns) && Best(patterns, q, k) && Hit(patterns, q, h)
    requires Weight(patterns[h].domain) > Weight(patterns[k].domain)
    ensures h == "*." + k && !IsWildcard(patterns[k].domain) && |Labels(patterns[k].domain)| < |Labels(q)|
  {
    var i := |Labels(q)| - |Literal(patterns[h].domain)|;
    assert h != k;
    assert Rank(patterns[h].domain) < Rank(patterns[k].domain);
    HitIsProbed(patterns, q, h, |Labels(q)| - |Literal(patterns[h].domain)|);
    HitIsProbed(patterns, q, h, i);
    HitIsProbed(patterns, q, k, i);
    WildcardKeyOfExact(Labels(q), i);
  }

  /** find_all_matches is empty exactly when find_longest_match finds nothing; otherwise
      it contains that result, and starts with another one exactly when the result is an
      exact S shorter than the query and `*.S` is stored too. */
  lemma HeadVersusLongest<S>(patterns: Patterns<S>, hasWildcards: bool, q: DomainName)
    requires Indexed(patterns) && (hasWildcards <==> SomeWildcard(patterns))
    ensures
      var all, r := FindAll(patterns, hasWildcards, q), FindLongest(patterns, hasWildcards, q);
      && (all == [] <==> r.None?)
      && (r.Some? ==>
            && r.value in all
            && (all[0] != r.value <==>
                  && !r.value.isWildcardMatch
                  && |Labels(r.value.domain)| < |Labels(q)|
                  && "*." + Lower(r.value.domain) in patterns))
  {
    var all, r := FindAll(patterns, hasWildcards, q), FindLongest(patterns, hasWildcards, q);
    LongestAgreesWithScan(patterns, hasWildcards, q);
    if r.None? {
      if all != [] { AllMatchesOnceInOrder(patterns, hasWildcards, q, all[0]); }
    } else {
      var k := Lower(r.value.domain);
      AllMatchesOnceInOrder(patterns, hasWildcards, q, r.value);
      AllMatchesOnceInOrder(patterns, hasWildcards, q, all[0]);
      if all[0] != r.value {
        HeavierIsTwin(patterns, q, k, Lower(all[0].domain));
      } else if !r.value.isWildcardMatch && |Labels(r.value.domain)| < |Labels(q)| && "*." + k in patterns {
        WildcardTwinMatches(patterns, q, k);
        var twin := ResultOf(patterns["*." + k]);
        AllMatchesOnceInOrder(patterns, hasWildcards, q, twin);
        assert false;
      }
    }
  }

  // ---- Over histories ---------------------------------------------------------

  // The flag is right after every history.
  lemma {:induction false} HistoryIsIndexed<S>(changes: seq<Change<S>>)
    ensures Indexed(PatternsAfter(changes))
    ensures FlagAfter(changes) <==> SomeWildcard(PatternsAfter(changes))
  {
    if changes != [] {
      var before, last := changes[..|changes| - 1], changes[|changes| - 1];
      HistoryIsIndexed(before);
      if last.Add? { OverwriteKeepsWildness(PatternsAfter(before), last.domain, last.servers); }
    }
  }

  // The pattern was added, and nothing since has cleared it or replaced it.
  ghost predicate InForce<S>(changes: seq<Change<S>>, i: nat) {
    && i < |changes| && changes[i].Add?
    && forall j :: i < j < |changes| ==> changes[j].Add? && !SameName(changes[j].domain, changes[i].domain)
  }

  lemma InForceBefore<S>(changes: seq<Change<S>>, i: nat)
    requires i < |changes| - 1
    ensures InForce(changes, i) <==>
      && InForce(changes[..|changes| - 1], i)
      && changes[|changes| - 1].Add?
      && !SameName(changes[|changes| - 1].domain, changes[i].domain)
  {
    var before := changes[..|changes| - 1];
    assert forall j :: 0 <= j < |before| ==> before[j] == changes[j];
  }

  // A result tells of an added pattern: its name, its servers, its kind and its length.
  ghost predicate Tells<S>(m: MatchResult<S>, c: Change<S>) {
    && c.Add?
    && m.domain == c.domain && m.servers == c.servers
    && (m.isWildcardMatch <==> |c.domain| >= 2 && c.domain[..2] == "*.")
    && m.matchLength == |Labels(c.domain)|
  }

  lemma EntryTells<S>(p: DomainName, servers: seq<S>)
    ensures Tells(ResultOf(EntryFor(p, servers)), Add(p, servers))
  {
  }

  // A pattern in force is stored.
  lemma {:induction false} InForceIsStored<S>(changes: seq<Change<S>>, i: nat)
    requires InForce(changes, i)
    ensures Lower(changes[i].domain) in PatternsAfter(changes)
    ensures PatternsAfter(changes)[Lower(changes[i].domain)] == EntryFor(changes[i].domain, changes[i].servers)
  {
    if i < |changes| - 1 {
      InForceBefore(changes, i);
      InForceIsStored(changes[..|changes| - 1], i);
    }
  }

  // A stored pattern is in force.
  lemma {:induction false} StoredIsInForce<S>(changes: seq<Change<S>>, k: string) returns (i: nat)
    requires k in PatternsAfter(changes)
    ensures InForce(changes, i) && k == Lower(changes[i].domain)
    ensures PatternsAfter(changes)[k] == EntryFor(changes[i].domain, changes[i].servers)
  {
    var n := |changes| - 1;
    if k == Lower(changes[n].domain) {
      i := n;
    } else {
      i := StoredIsInForce(changes[..n], k);
      InForceBefore(changes, i);
    }
  }

  // The pattern added at a position is in force and matches.
  ghost predicate Applies<S>(changes: seq<Change<S>>, q: DomainName, i: nat) {
    InForce(changes, i) && Matches(changes[i].domain, q)
  }

  lemma AppliesIsHit<S>(changes: seq<Change<S>>, q: DomainName, i: nat)
    requires Applies(changes, q, i)
    ensures Hit(PatternsAfter(changes), q, Lower(changes[i].domain))
    ensures PatternsAfter(changes)[Lower(changes[i].domain)] == EntryFor(changes[i].domain, changes[i].servers)
  {
    InForceIsStored(changes, i);
  }

  /** After any history the longest match is none exactly when no pattern in force matches.
      Otherwise it tells of one that does, and every other one that does has fewer literal
      labels, or as many and is the wildcard. */
  lemma LongestOverHistory<S>(changes: seq<Change<S>>, q: DomainName)
    ensures
      match FindLongest(PatternsAfter(changes), FlagAfter(changes), q)
      case None => forall i: nat :: !Applies(changes, q, i)
      case Some(m) =>
        exists i: nat :: Applies(changes, q, i) && Tells(m, changes[i])
          && forall j: nat :: Applies(changes, q, j) && j != i ==> Rank(changes[j].domain) < Rank(changes[i].domain)
  {
    var patterns, r := PatternsAfter(changes), FindLongest(PatternsAfter(changes), FlagAfter(changes), q);
    HistoryIsIndexed(changes);
    LongestAgreesWithScan(patterns, FlagAfter(changes), q);
    if r.None? {
      forall i: nat ensures !Applies(changes, q, i) {
        if Applies(changes, q, i) { AppliesIsHit(changes, q, i); }
      }
    } else {
      var i := StoredIsInForce(changes, Lower(r.value.domain));
      EntryTells(changes[i].domain, changes[i].servers);
      assert Applies(changes, q, i) && Tells(r.value, changes[i]);
      forall j: nat | Applies(changes, q, j) && j != i ensures Rank(changes[j].domain) < Rank(changes[i].domain) {
        AppliesIsHit(changes, q, j);
        InForceDiffer(changes, i, j);
      }
    }
  }

  lemma InForceDiffer<S>(changes: seq<Change<S>>, i: nat, j: nat)
    requires InForce(changes, i) && InForce(changes, j) && i != j
    ensures Lower(changes[i].domain) != Lower(changes[j].domain)
  {
  }

  // After any history all matches are the results that tell of patterns in force that match.
  lemma AllOverHistory<S>(changes: seq<Change<S>>, q: DomainName, m: MatchResult<S>)
    ensures m in FindAll(PatternsAfter(changes), FlagAfter(changes), q) <==>
      exists i: nat :: Applies(changes, q, i) && Tells(m, changes[i])
  {
    var patterns := PatternsAfter(changes);
    HistoryIsIndexed(changes);
    AllMatchesOnceInOrder(patterns, FlagAfter(changes), q, m);
    if StoredMatch(patterns, q, m) {
      var i := StoredIsInForce(changes, Lower(m.domain));
      EntryTells(changes[i].domain, changes[i].servers);
      assert Applies(changes, q, i) && Tells(m, changes[i]);
    }
    if i: nat :| Applies(changes, q, i) && Tells(m, changes[i]) {
      AppliesIsHit(changes, q, i);
      EntryTells(changes[i].domain, changes[i].servers);
    }
  }

  // The query x.c and the keys it probes.
  lemma ProbedKeys()
    ensures Labels("x.c") == ["x", "c"] && |Labels("c")| == 1 && |Labels("*.c")| == 2
    ensures ExactKey(["x", "c"], 0) == "x.c" && ExactKey(["x", "c"], 1) == "c"
    ensures WildcardKey(["x", "c"], 1) == "*.c"
  {
    assert Join(["c"]) == "c";
    assert ["x", "c"][1..] == ["c"] && ["*", "c"][1..] == ["c"] && ["x", "c"][0..] == ["x", "c"];
    assert Join(["x", "c"]) == "x.c" && Join(["*", "c"]) == "*.c";
    SplitOfJoin(["c"]);
    SplitOfJoin(["x", "c"]);
    SplitOfJoin(["*", "c"]);
    assert Lower("c") == "c" && Lower("x.c") == "x.c" && Lower("*." + "c") == "*.c";
  }

  // Only the shorter of two suffixes has patterns, an exact one and a longer wildcard.
  lemma LastSuffixOnly<S>(patterns: Patterns<S>, ql: seq<Label>, exact: PatternEntry<S>, wild: PatternEntry<S>)
    requires |ql| == 2 && exact.labelCount < wild.labelCount
    requires ExactProbe(patterns, ql, 0) == None && WildcardProbe(patterns, true, ql, 0) == None
    requires ExactProbe(patterns, ql, 1) == Some(exact) && WildcardProbe(patterns, true, ql, 1) == Some(wild)
    ensures LongestFrom(patterns, true, ql, 0) == Some(ResultOf(exact))
    ensures SortByLength(AllBefore(patterns, true, ql, 2)) == [ResultOf(wild), ResultOf(exact)]
  {
    assert LongestFrom(patterns, true, ql, 1) == Some(ResultOf(exact));
    assert AllBefore(patterns, true, ql, 1) == [];
    var all := AllBefore(patterns, true, ql, 2);
    assert all == [ResultOf(exact), ResultOf(wild)];
    assert all[1..] == [ResultOf(wild)] && [ResultOf(wild)][1..] == [];
    assert SortByLength(all[1..]) == [ResultOf(wild)];
    assert InsertByLength(ResultOf(exact), []) == [ResultOf(exact)];
    assert InsertByLength(ResultOf(exact), [ResultOf(wild)]) == [ResultOf(wild)] + [ResultOf(exact)];
  }

  /** An exact pattern and the wildcard for the names below it: a longer query finds the
      first as its longest match and the second at the head of all its matches. */
  lemma HeadCanDiffer<S>(exact: PatternEntry<S>, wild: PatternEntry<S>)
    requires exact == EntryFor("c", exact.servers) && wild == EntryFor("*.c", wild.servers)
    ensures
      var patterns := map["c" := exact, "*.c" := wild];
      && FindLongest(patterns, true, "x.c") == Some(ResultOf(exact))
      && FindAll(patterns, true, "x.c") == [ResultOf(wild), ResultOf(exact)]
  {
    var patterns := map["c" := exact, "*.c" := wild];
    var ql: seq<Label> := ["x", "c"];
    ProbedKeys();
    assert "x.c"[0] == 'x' && "*.c"[0] == '*' && |"c"| == 1;
    assert ExactProbe(patterns, ql, 0) == None;
    LastSuffixOnly(patterns, ql, exact, wild);
  }
}
