/**
 * UTF-8 text as `String::from_utf8_lossy` decodes it. A Rust string is its UTF-8 bytes, so
 * text is a well-formed byte sequence.
 */
module Utf8 {
  import opened Separators
  import opened Bytes

  predicate Cont(b: byte) {
    0x80 <= b < 0xC0
  }

  // What the second byte of a multi-byte sequence may be, by its first byte.
  predicate Second(b0: byte, b1: byte) {
    if b0 == 0xE0 then 0xA0 <= b1 < 0xC0
    else if b0 == 0xED then 0x80 <= b1 < 0xA0
    else if b0 == 0xF0 then 0x90 <= b1 < 0xC0
    else if b0 == 0xF4 then 0x80 <= b1 < 0x90
    else Cont(b1)
  }

  // Length of the sequence a first byte announces; 0 for a byte that cannot come first.
  function Width(b0: byte): (w: nat)
    ensures w <= 4
  {
    if b0 < 0x80 then 1
    else if 0xC2 <= b0 < 0xE0 then 2
    else if 0xE0 <= b0 < 0xF0 then 3
    else if 0xF0 <= b0 < 0xF5 then 4
    else 0
  }

  /** The first chunk of a non-empty byte string: a whole character, or else the longest
      prefix of one, at least one byte, which the decoder replaces. */
  datatype Chunk = Chunk(len: nat, good: bool)

  function First(s: seq<byte>): (c: Chunk)
    requires |s| > 0
    ensures 1 <= c.len <= |s| && c.len <= 4
    ensures c.good ==> c.len == Width(s[0])
    ensures !c.good && c.len == 3 ==> s[0] >= 0xF0
    ensures !c.good ==> c.len <= 3
  {
    var w := Width(s[0]);
    if w == 1 then Chunk(1, true)
    else if w == 0 || |s| < 2 || !Second(s[0], s[1]) then Chunk(1, false)
    else if w == 2 then Chunk(2, true)
    else if |s| < 3 || !Cont(s[2]) then Chunk(2, false)
    else if w == 3 then Chunk(3, true)
    else if |s| < 4 || !Cont(s[3]) then Chunk(3, false)
    else Chunk(4, true)
  }

  predicate Valid(s: seq<byte>) {
    s == [] || (First(s).good && Valid(s[First(s).len..]))
  }

  type Text = s: seq<byte> | Valid(s)

  // U+FFFD, the replacement character.
  const REPLACEMENT: seq<byte> := [0xEF, 0xBF, 0xBD]

  function Lossy(s: seq<byte>): (r: seq<byte>)
    ensures |r| >= |s|
  {
    if s == [] then []
    else
      var c := First(s);
      (if c.good then s[..c.len] else REPLACEMENT) + Lossy(s[c.len..])
  }

  // A whole character keeps its meaning whatever follows it.
  lemma FirstIgnoresRest(s: seq<byte>, t: seq<byte>)
    requires |s| > 0 && First(s).good && First(s).len == |s|
    ensures First(s + t) == First(s)
  {
  }

  // The decoder always yields text.
  lemma {:induction false} LossyIsValid(s: seq<byte>)
    ensures Valid(Lossy(s))
  {
    if s != [] {
      var c := First(s);
      LossyIsValid(s[c.len..]);
      var rest := Lossy(s[c.len..]);
      var head := if c.good then s[..c.len] else REPLACEMENT;
      assert First(head) == Chunk(|head|, true);
      FirstIgnoresRest(head, rest);
      assert (head + rest)[|head|..] == rest;
    }
  }

  // It changes nothing exactly when the bytes are text already.
  lemma {:induction false} LossyIdentity(s: seq<byte>)
    ensures Lossy(s) == s <==> Valid(s)
  {
    if s != [] {
      var c := First(s);
      LossyIdentity(s[c.len..]);
      assert s == s[..c.len] + s[c.len..];
      if c.good {
        if Lossy(s) == s {
          assert Lossy(s)[c.len..] == Lossy(s[c.len..]);
        }
      }
    }
  }

  function LossyText(s: seq<byte>): (r: Text)
    ensures Valid(s) <==> r == s
  {
    LossyIsValid(s);
    LossyIdentity(s);
    Lossy(s)
  }

  // Cutting text at an ASCII character gives text on both sides.
  lemma {:induction false} CutAtAscii(a: seq<byte>, d: byte, b: seq<byte>)
    requires d < 0x80 && Valid(a + [d] + b)
    ensures Valid(a) && Valid(b)
    decreases |a|
  {
    var s := a + [d] + b;
    if a == [] {
      assert s[1..] == b;
    } else {
      var n := First(s).len;
      assert s[|a|] == d;
      assert n <= |a| && First(a) == First(s);
      assert s[n..] == a[n..] + [d] + b;
      CutAtAscii(a[n..], d, b);
    }
  }

  lemma {:induction false} PiecesAreText(ps: seq<seq<byte>>, sep: byte)
    requires |ps| >= 1 && sep < 0x80 && Valid(JoinWith(ps, sep))
    ensures forall i :: 0 <= i < |ps| ==> Valid(ps[i])
  {
    if |ps| > 1 {
      CutAtAscii(ps[0], sep, JoinWith(ps[1..], sep));
      PiecesAreText(ps[1..], sep);
      assert forall i :: 0 < i < |ps| ==> ps[i] == ps[1..][i - 1];
    }
  }

  lemma {:induction false} TrimmedIsText(s: seq<byte>, sep: byte)
    requires sep < 0x80 && Valid(s)
    ensures Valid(TrimEnd(s, sep))
  {
    if s != [] && s[|s| - 1] == sep {
      assert s == s[..|s| - 1] + [sep] + [];
      CutAtAscii(s[..|s| - 1], sep, []);
      TrimmedIsText(s[..|s| - 1], sep);
    }
  }

  // ---- Code points (section 3 of RFC 3629) ------------------------------------

  predicate Scalar(cp: int) {
    0 <= cp <= 0x10FFFF && !(0xD800 <= cp <= 0xDFFF)
  }

  function Encode(cp: int): (e: seq<byte>)
    requires Scalar(cp)
  {
    if cp < 0x80 then [cp]
    else if cp < 0x800 then [0xC0 + cp / 64, 0x80 + cp % 64]
    else if cp < 0x1_0000 then [0xE0 + cp / 4096, 0x80 + cp / 64 % 64, 0x80 + cp % 64]
    else [0xF0 + cp / 262144, 0x80 + cp / 4096 % 64, 0x80 + cp / 64 % 64, 0x80 + cp % 64]
  }

  lemma EncodedBytes(cp: int)
    requires Scalar(cp)
    ensures
      var e := Encode(cp);
      && Width(e[0]) == |e|
      && (|e| > 1 ==> Second(e[0], e[1]))
      && (|e| > 2 ==> Cont(e[2]))
      && (|e| > 3 ==> Cont(e[3]))
  {
    if cp >= 0x1_0000 {
      var hi, mid := cp / 262144, cp / 4096 % 64;
      assert cp / 4096 == 64 * hi + mid;
    } else if cp >= 0x800 {
      var hi, mid := cp / 4096, cp / 64 % 64;
      assert cp / 64 == 64 * hi + mid;
    }
  }

  // The code point whose encoding a whole character is.
  lemma CharacterIsEncoded(s: seq<byte>) returns (cp: int)
    requires |s| > 0 && First(s).good
    ensures Scalar(cp) && s[..First(s).len] == Encode(cp)
  {
    var n := First(s).len;
    if n == 1 {
      cp := s[0];
      assert s[..1] == [s[0]];
    } else if n == 2 {
      Two(s[0], s[1]);
      cp := Join2(s[0] - 0xC0, s[1] - 0x80);
      assert s[..2] == [s[0], s[1]];
    } else if n == 3 {
      Three(s[0], s[1], s[2]);
      cp := Join2(Join2(s[0] - 0xE0, s[1] - 0x80), s[2] - 0x80);
      assert s[..3] == [s[0], s[1], s[2]];
    } else {
      Four(s[0], s[1], s[2], s[3]);
      cp := Join2(Join2(Join2(s[0] - 0xF0, s[1] - 0x80), s[2] - 0x80), s[3] - 0x80);
      assert s[..4] == [s[0], s[1], s[2], s[3]];
    }
  }

  function Join2(high: int, low: int): int {
    high * 64 + low
  }

  // High part and low part of a number of the joined bits.
  lemma Unjoin(high: int, low: int)
    requires 0 <= high && 0 <= low < 64
    ensures Join2(high, low) / 64 == high && Join2(high, low) % 64 == low
  {
  }

  lemma Two(a: byte, b: byte)
    requires Width(a) == 2 && Second(a, b)
    ensures
      var cp := Join2(a - 0xC0, b - 0x80);
      Scalar(cp) && Encode(cp) == [a, b]
  {
    Unjoin(a - 0xC0, b - 0x80);
  }

  lemma Three(a: byte, b: byte, c: byte)
    requires Width(a) == 3 && Second(a, b) && Cont(c)
    ensures
      var cp := Join2(Join2(a - 0xE0, b - 0x80), c - 0x80);
      Scalar(cp) && Encode(cp) == [a, b, c]
  {
    var x, y, z := a - 0xE0, b - 0x80, c - 0x80;
    Unjoin(x, y);
    Unjoin(Join2(x, y), z);
    assert Join2(Join2(x, y), z) / 4096 == x;
  }

  lemma Four(a: byte, b: byte, c: byte, d: byte)
    requires Width(a) == 4 && Second(a, b) && Cont(c) && Cont(d)
    ensures
      var cp := Join2(Join2(Join2(a - 0xF0, b - 0x80), c - 0x80), d - 0x80);
      Scalar(cp) && Encode(cp) == [a, b, c, d]
  {
    var w, x, y, z := a - 0xF0, b - 0x80, c - 0x80, d - 0x80;
    var cp := Join2(Join2(Join2(w, x), y), z);
    Unjoin(w, x);
    Unjoin(Join2(w, x), y);
    Unjoin(Join2(Join2(w, x), y), z);
    assert cp / 4096 == Join2(w, x);
    assert cp / 262144 == w;
  }

  lemma EncodedIsCharacter(cp: int, t: seq<byte>)
    requires Scalar(cp)
    ensures First(Encode(cp) + t) == Chunk(|Encode(cp)|, true)
  {
    EncodedBytes(cp);
  }

  ghost predicate AllScalar(cps: seq<int>) {
    forall i :: 0 <= i < |cps| ==> Scalar(cps[i])
  }

  function EncodeAll(cps: seq<int>): seq<byte>
    requires AllScalar(cps)
  {
    if cps == [] then [] else Encode(cps[0]) + EncodeAll(cps[1..])
  }

  lemma {:induction false} EncodedIsValid(cps: seq<int>)
    requires AllScalar(cps)
    ensures Valid(EncodeAll(cps))
  {
    if cps != [] {
      var e, rest := Encode(cps[0]), EncodeAll(cps[1..]);
      EncodedIsValid(cps[1..]);
      EncodedIsCharacter(cps[0], rest);
      assert (e + rest)[|e|..] == rest;
    }
  }

  lemma {:induction false} ValidHasCodePoints(s: seq<byte>) returns (cps: seq<int>)
    requires Valid(s)
    ensures AllScalar(cps) && EncodeAll(cps) == s
  {
    if s == [] {
      cps := [];
    } else {
      var n := First(s).len;
      var cp := CharacterIsEncoded(s);
      var rest := ValidHasCodePoints(s[n..]);
      cps := [cp] + rest;
      assert cps[1..] == rest;
      assert s == s[..n] + s[n..];
    }
  }

  // Text is exactly the encodings of Unicode scalar values.
  lemma ValidExactly(s: seq<byte>)
    ensures Valid(s) <==> exists cps :: AllScalar(cps) && EncodeAll(cps) == s
  {
    if Valid(s) { var cps := ValidHasCodePoints(s); }
    if cps :| AllScalar(cps) && EncodeAll(cps) == s { EncodedIsValid(cps); }
  }

  // The bytes start the encoding of some code point.
  ghost predicate StartsCharacter(p: seq<byte>) {
    exists cp :: Scalar(cp) && p <= Encode(cp)
  }

  /** What is replaced is the longest start of a character, and one byte if none is. */
  lemma BadChunkIsLongest(s: seq<byte>)
    requires |s| > 0 && !First(s).good
    ensures First(s).len > 1 ==> StartsCharacter(s[..First(s).len])
    ensures First(s).len < |s| ==> !StartsCharacter(s[..First(s).len + 1])
    ensures First(s).len == |s| == 1 || First(s).len < |s| || StartsCharacter(s)
  {
    var n := First(s).len;
    if n > 1 {
      var fill: seq<byte> := [0x80, 0x80];
      var whole := s[..n] + fill;
      assert First(whole).good && n <= First(whole).len;
      var cp := CharacterIsEncoded(whole);
      assert s[..n] <= Encode(cp);
      if n == |s| { assert s[..n] == s; }
    }
    if n < |s| {
      var p := s[..n + 1];
      assert p[0] == s[0] && p[1] == s[1] && (n > 1 ==> p[2] == s[2]) && (n > 2 ==> p[3] == s[3]);
      forall cp | Scalar(cp) ensures !(p <= Encode(cp)) { EncodedBytes(cp); }
    }
  }

  // Every bad chunk becomes one U+FFFD, and characters stay as they are.
  lemma LossyStep(s: seq<byte>)
    requires s != []
    ensures
      var c := First(s);
      Lossy(s) == (if c.good then s[..c.len] else Encode(0xFFFD)) + Lossy(s[c.len..])
  {
    assert Encode(0xFFFD) == [0xEF, 0xBF, 0xBD];
  }
}
