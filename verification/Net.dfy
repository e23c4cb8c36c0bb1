/**
 * IP addresses as their octets, and the numbers the octets stand for.
 */
module Net {
  import opened Bytes

  type Octets4 = s: seq<byte> | |s| == 4 witness [0, 0, 0, 0]
  type Octets16 = s: seq<byte> | |s| == 16
    witness [0, 0, 0, 0, 0, 0, 0, 0, 0, 0, 0, 0, 0, 0, 0, 0]

  type u32 = n: int | 0 <= n < 0x1_0000_0000

  function BigEndian(s: seq<byte>): nat {
    if s == [] then 0 else BigEndian(s[..|s| - 1]) * 0x100 + s[|s| - 1]
  }

  // Four octets make a number of 32 bits.
  lemma FourOctets(s: Octets4)
    ensures
      var a: int, b: int, c: int := s[0], s[1], s[2];
      BigEndian(s) == a * 0x100_0000 + b * 0x1_0000 + c * 0x100 + s[3]
  {
    var a: int, b: int, c: int := s[0], s[1], s[2];
    assert s[..3][..2] == s[..2] && s[..2][..1] == s[..1] && s[..1][..0] == [];
    assert BigEndian(s[..1]) == a;
    assert BigEndian(s[..2]) == a * 0x100 + b;
    assert BigEndian(s[..3]) == a * 0x1_0000 + b * 0x100 + c;
  }

  datatype IpAddr = V4(octets4: Octets4) | V6(octets6: Octets16)
  {
    function Octets(): seq<byte> {
      if V4? then octets4 else octets6
    }

    // Addresses of one family are ordered as these numbers are.
    function Value(): (n: nat)
      ensures V4? ==> n < 0x1_0000_0000
    {
      if V4? then FourOctets(octets4); BigEndian(octets4) else BigEndian(octets6)
    }
  }

  // The octets differ first at a place where `a` has the smaller one.
  ghost predicate Before(a: seq<byte>, b: seq<byte>) {
    exists i :: 0 <= i < |a| && i < |b| && a[..i] == b[..i] && a[i] < b[i]
  }

  lemma BeforeOneMore(a: seq<byte>, b: seq<byte>)
    requires |a| == |b| > 0
    ensures
      var n := |a| - 1;
      Before(a, b) <==> Before(a[..n], b[..n]) || (a[..n] == b[..n] && a[n] < b[n])
  {
    var n := |a| - 1;
    if Before(a[..n], b[..n]) {
      var i :| 0 <= i < n && a[..n][..i] == b[..n][..i] && a[..n][i] < b[..n][i];
      assert a[..i] == a[..n][..i] && b[..i] == b[..n][..i];
    }
    if Before(a, b) {
      var i :| 0 <= i < |a| && a[..i] == b[..i] && a[i] < b[i];
      if i < n { assert a[..n][..i] == a[..i] && b[..n][..i] == b[..i]; }
    }
  }

  // Big-endian numbers compare as their octets do, the first difference first.
  lemma {:induction false} BigEndianOrder(a: seq<byte>, b: seq<byte>)
    requires |a| == |b|
    ensures BigEndian(a) < BigEndian(b) <==> Before(a, b)
    ensures BigEndian(a) == BigEndian(b) <==> a == b
  {
    if a != [] {
      var n := |a| - 1;
      BigEndianOrder(a[..n], b[..n]);
      BeforeOneMore(a, b);
      Compare(BigEndian(a[..n]), a[n], BigEndian(b[..n]), b[n]);
      assert a == a[..n] + [a[n]] && b == b[..n] + [b[n]];
    }
  }

  lemma Compare(x: int, c: byte, y: int, d: byte)
    ensures x * 0x100 + c < y * 0x100 + d <==> x < y || (x == y && c < d)
    ensures x * 0x100 + c == y * 0x100 + d <==> x == y && c == d
  {
  }

  // Addresses of one family compare as their octets do.
  lemma ValueOrder(a: IpAddr, b: IpAddr)
    requires a.V4? == b.V4?
    ensures a.Value() < b.Value() <==> Before(a.Octets(), b.Octets())
    ensures a.Value() == b.Value() <==> a == b
  {
    BigEndianOrder(a.Octets(), b.Octets());
  }
}
