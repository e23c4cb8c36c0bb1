/**
 * Sequences cut at a separator: splitting, joining and trimming. Names use it on
 * characters, names on the wire on the bytes of their text.
 */
module Separators {

  // `split(sep)`: never empty; the empty sequence splits into one empty piece.
  function SplitAt<T(==)>(s: seq<T>, sep: T): (ps: seq<seq<T>>)
    ensures |ps| >= 1
    ensures forall p :: p in ps ==> sep !in p
  {
    if s == [] then [[]]
    else
      var rest := SplitAt(s[1..], sep);
      if s[0] == sep then [[]] + rest else [[s[0]] + rest[0]] + rest[1..]
  }

  function JoinWith<T>(ps: seq<seq<T>>, sep: T): seq<T>
    requires |ps| >= 1
  {
    if |ps| == 1 then ps[0] else ps[0] + [sep] + JoinWith(ps[1..], sep)
  }

  // `trim_end_matches(sep)`.
  function TrimEnd<T(==)>(s: seq<T>, sep: T): (r: seq<T>)
    ensures |r| <= |s| && (r == [] || r[|r| - 1] != sep)
  {
    if s == [] || s[|s| - 1] != sep then s else TrimEnd(s[..|s| - 1], sep)
  }

  lemma {:induction false} JoinOfSplitAt<T>(s: seq<T>, sep: T)
    ensures JoinWith(SplitAt(s, sep), sep) == s
  {
    if s != [] {
      JoinOfSplitAt(s[1..], sep);
      var rest := SplitAt(s[1..], sep);
      if s[0] != sep && |rest| > 1 {
        assert SplitAt(s, sep)[1..] == rest[1..];
        assert s == [s[0]] + s[1..];
      }
    }
  }

  lemma {:induction false} SplitOfJoinWith<T>(ps: seq<seq<T>>, sep: T)
    requires |ps| >= 1 && forall p :: p in ps ==> sep !in p
    ensures SplitAt(JoinWith(ps, sep), sep) == ps
    decreases |ps|, |ps[0]|
  {
    var s := JoinWith(ps, sep);
    if |ps[0]| > 0 {
      var tl := [ps[0][1..]] + ps[1..];
      assert ps[0][0] in ps[0];
      forall p | p in tl ensures sep !in p {
        if p == ps[0][1..] {
          forall x | x in p ensures x in ps[0] {}
        }
      }
      SplitOfJoinWith(tl, sep);
      assert tl[1..] == ps[1..];
      assert s[1..] == JoinWith(tl, sep);
      assert s[0] == ps[0][0];
      assert [s[0]] + tl[0] == ps[0];
    } else if |ps| > 1 {
      SplitOfJoinWith(ps[1..], sep);
      assert s[1..] == JoinWith(ps[1..], sep);
    }
  }
}
