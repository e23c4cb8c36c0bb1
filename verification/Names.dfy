/**
 * Domain names as dotted strings: ASCII case folding, the split of a name into
 * labels at its dots, and the join of labels with dots.
 *
 * The names that reach the code modelled here come from the constructors of
 * `dns::protocol::name::DomainName` that take a string, which strip every trailing dot,
 * so a name is any string that does not end in a dot. The root name is "".
 */
module Names {
  import opened Separators

  type Label = s: string | '.' !in s

  type DomainName = s: string | |s| == 0 || s[|s| - 1] != '.'

  function LowerChar(c: char): char {
    if 'A' <= c <= 'Z' then (c as int + 32) as char else c
  }

  function Lower(s: string): (r: string)
    ensures |r| == |s|
    ensures forall i :: 0 <= i < |s| ==> r[i] == LowerChar(s[i])
  {
    seq(|s|, i requires 0 <= i < |s| => LowerChar(s[i]))
  }

  // Folding identifies the letters A to Z with a to z, and no other characters.
  lemma LowerCharExactly(a: char, b: char)
    ensures LowerChar(a) == LowerChar(b) <==>
      || a == b
      || ('A' <= a <= 'Z' && b as int - 'a' as int == a as int - 'A' as int)
      || ('A' <= b <= 'Z' && a as int - 'a' as int == b as int - 'A' as int)
  {
  }

  // Equality of names and labels, `eq_ignore_ascii_case`.
  predicate SameName(a: string, b: string) {
    Lower(a) == Lower(b)
  }

  // `name.split('.')`: never empty; the empty string splits into one empty label.
  function Split(s: string): (ls: seq<Label>)
    ensures |ls| >= 1
  {
    SplitAt(s, '.')
  }

  function Join(ls: seq<string>): string
    requires |ls| >= 1
  {
    JoinWith(ls, '.')
  }

  // Two strings are the same name exactly when they differ at most in the case of letters.
  lemma SameNameExactly(a: string, b: string)
    ensures SameName(a, b) <==> |a| == |b| && forall i :: 0 <= i < |a| ==> LowerChar(a[i]) == LowerChar(b[i])
  {
    if SameName(a, b) {
      assert |Lower(a)| == |Lower(b)|;
      forall i | 0 <= i < |a| ensures LowerChar(a[i]) == LowerChar(b[i]) { assert Lower(a)[i] == Lower(b)[i]; }
    }
  }

  function LowerAll(ls: seq<string>): (r: seq<string>)
    ensures |r| == |ls|
    ensures forall i :: 0 <= i < |ls| ==> r[i] == Lower(ls[i])
  {
    seq(|ls|, i requires 0 <= i < |ls| => Lower(ls[i]))
  }

  // Label-wise equality, ignoring case.
  predicate SameLabels(a: seq<string>, b: seq<string>) {
    |a| == |b| && forall i :: 0 <= i < |a| ==> SameName(a[i], b[i])
  }

  function Labels(n: DomainName): (ls: seq<Label>)
    ensures |ls| >= 1
  {
    Split(n)
  }

  lemma JoinOfSplit(s: string)
    ensures Join(Split(s)) == s
  {
    JoinOfSplitAt(s, '.');
  }

  lemma SplitOfJoin(ls: seq<string>)
    requires |ls| >= 1 && forall l :: l in ls ==> '.' !in l
    ensures Split(Join(ls)) == ls
  {
    SplitOfJoinWith(ls, '.');
  }

  // Joining dot-free labels with dots is injective.
  lemma JoinInjective(a: seq<string>, b: seq<string>)
    requires |a| >= 1 && |b| >= 1
    requires forall l :: l in a ==> '.' !in l
    requires forall l :: l in b ==> '.' !in l
    requires Join(a) == Join(b)
    ensures a == b
  {
    SplitOfJoin(a);
    SplitOfJoin(b);
  }

  lemma {:induction false} LowerOfJoin(ls: seq<string>)
    requires |ls| >= 1
    ensures Lower(Join(ls)) == Join(LowerAll(ls))
  {
    if |ls| > 1 {
      LowerOfJoin(ls[1..]);
      assert LowerAll(ls)[1..] == LowerAll(ls[1..]);
      assert Lower(Join(ls)) == Lower(ls[0]) + "." + Lower(Join(ls[1..]));
    }
  }

  lemma LowerKeepsDotFree(l: Label)
    ensures '.' !in Lower(l)
  {
    assert forall i :: 0 <= i < |l| ==> l[i] in l;
  }

  // Folded dotted strings are equal exactly when the labels are equal ignoring case.
  lemma {:induction false} KeyEqualityIsLabelEquality(a: seq<Label>, b: seq<Label>)
    requires |a| >= 1 && |b| >= 1
    ensures Lower(Join(a)) == Lower(Join(b)) <==> SameLabels(a, b)
  {
    LowerOfJoin(a);
    LowerOfJoin(b);
    forall l | l in LowerAll(a) ensures '.' !in l {
      var i :| 0 <= i < |a| && LowerAll(a)[i] == l;
      LowerKeepsDotFree(a[i]);
    }
    forall l | l in LowerAll(b) ensures '.' !in l {
      var i :| 0 <= i < |b| && LowerAll(b)[i] == l;
      LowerKeepsDotFree(b[i]);
    }
    if Lower(Join(a)) == Lower(Join(b)) {
      JoinInjective(LowerAll(a), LowerAll(b));
      assert forall i :: 0 <= i < |a| ==> LowerAll(a)[i] == LowerAll(b)[i];
    }
    if SameLabels(a, b) {
      assert LowerAll(a) == LowerAll(b);
    }
  }

  // Two names are equal exactly when their labels are.
  lemma SameNameIsSameLabels(a: DomainName, b: DomainName)
    ensures SameName(a, b) <==> SameLabels(Labels(a), Labels(b))
  {
    JoinOfSplit(a);
    JoinOfSplit(b);
    KeyEqualityIsLabelEquality(Labels(a), Labels(b));
  }

  // A longer label suffix is a strictly longer string.
  lemma {:induction false} SuffixLength(ls: seq<string>, i: nat, j: nat)
    requires i < j < |ls|
    ensures |Join(ls[j..])| < |Join(ls[i..])|
    decreases j - i
  {
    assert ls[i..][1..] == ls[i + 1..];
    if i + 1 < j {
      SuffixLength(ls, i + 1, j);
    }
  }
}
