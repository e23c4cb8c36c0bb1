/**
 * The EDNS0 OPT record codec (sections 6.1.2 and 6.1.3 of RFC 6891) and its options:
 * client subnet (section 6 of RFC 7871), cookies (section 4 of RFC 7873), extended
 * errors (section 2 of RFC 8914), padding (section 3 of RFC 7830) and vendor options.
 */
module Edns0 {
  import opened Basics
  import opened Net
  import opened Bytes
  import Utf8

  type Octets6 = s: seq<byte> | |s| == 6 witness [0, 0, 0, 0, 0, 0]

  datatype Edns0Option =
    | ClientSubnet(family: u16, source: byte, scope: byte, address: IpAddr)
    | DnssecOk
    | Cookie(client: seq<byte>, server: Option<seq<byte>>)
    | ExtendedError(infoCode: u16, extraText: Utf8.Text)
    | Padding(length: nat)
    | Mac(mac: Octets6)
    | NomDeviceId(nomDevice: seq<byte>)
    | NomCpeId(nomCpe: seq<byte>)
    | Umbrella(umbrella: seq<byte>)
    | Unknown(unknownCode: u16, unknownData: seq<byte>)

  datatype OptRecord = OptRecord(
    udpPayloadSize: u16,
    extendedRcode: byte,
    version: byte,
    flags: u16,
    options: seq<Edns0Option>)

  datatype ParseError =
    | NotRootName
    | RecordTooShort
    | NotOptType(rrType: u16)
    | RdataTruncated
    | OptionHeaderTruncated
    | OptionDataTruncated(code: u16)
    | OptionRejected

  const T_OPT: u16 := 41
  const CLIENT_SUBNET: u16 := 8
  const COOKIE: u16 := 10
  const PADDING: u16 := 12
  const EXTENDED_ERROR: u16 := 15
  const MAC: u16 := 65001
  const NOM_DEVICE_ID: u16 := 65073
  const NOM_CPE_ID: u16 := 65074
  const UMBRELLA: u16 := 20292

  const OPT_HEADER := 11

  // ---- Options ----------------------------------------------------------------

  function Code(o: Edns0Option): u16 {
    match o
    case ClientSubnet(_, _, _, _) => CLIENT_SUBNET
    case DnssecOk => 0
    case Cookie(_, _) => COOKIE
    case ExtendedError(_, _) => EXTENDED_ERROR
    case Padding(_) => PADDING
    case Mac(_) => MAC
    case NomDeviceId(_) => NOM_DEVICE_ID
    case NomCpeId(_) => NOM_CPE_ID
    case Umbrella(_) => UMBRELLA
    case Unknown(code, _) => code
  }

  function Min(a: nat, b: nat): nat {
    if a < b then a else b
  }

  // Octets that carry `source` significant bits of an address of the given size.
  function SubnetBytes(source: byte, size: nat): nat {
    Min((source + 7) / 8, size)
  }

  function Zeros(n: nat): (r: seq<byte>)
    ensures |r| == n && forall i :: 0 <= i < n ==> r[i] == 0
  {
    seq(n, _ => 0)
  }

  // The option data on the wire, without code and length.
  function Data(o: Edns0Option): seq<byte> {
    match o
    case ClientSubnet(family, source, scope, address) =>
      ToBe16(family) + [source, scope] + address.Octets()[..SubnetBytes(source, |address.Octets()|)]
    case DnssecOk => []
    case Cookie(client, server) => client + (if server.Some? then server.value else [])
    case ExtendedError(infoCode, text) => ToBe16(infoCode) + text
    case Padding(length) => Zeros(length)
    case Mac(mac) => mac
    case NomDeviceId(id) => id
    case NomCpeId(id) => id
    case Umbrella(id) => id
    case Unknown(_, data) => data
  }

  // The length the program announces for the option data.
  function DataLen(o: Edns0Option): nat {
    match o
    case ClientSubnet(family, _, _, _) => 4 + (if family == 1 then 4 else 16)
    case DnssecOk => 0
    case Cookie(client, server) => |client| + (if server.Some? then |server.value| else 0)
    case ExtendedError(_, text) => 2 + |text|
    case Padding(length) => length
    case Mac(_) => 6
    case NomDeviceId(id) => |id|
    case NomCpeId(id) => |id|
    case Umbrella(id) => |id|
    case Unknown(_, data) => |data|
  }

  function ParseClientSubnet(data: seq<byte>): Result<Edns0Option, ParseError> {
    if |data| < 4 then Err(OptionRejected)
    else
      var family := FromBe16(data[0], data[1]);
      var addr := data[4..];
      if family == 1 && |addr| <= 4 then
        Ok(ClientSubnet(family, data[2], data[3], V4(addr + Zeros(4 - |addr|))))
      else if family == 2 && |addr| <= 16 then
        Ok(ClientSubnet(family, data[2], data[3], V6(addr + Zeros(16 - |addr|))))
      else Err(OptionRejected)
  }

  function ParseCookie(data: seq<byte>): Result<Edns0Option, ParseError> {
    if |data| < 8 then Err(OptionRejected)
    else if |data| == 8 then Ok(Cookie(data, None))
    else if |data| < 16 || |data| > 40 then Err(OptionRejected)
    else Ok(Cookie(data[..8], Some(data[8..])))
  }

  function ParseExtendedError(data: seq<byte>): Result<Edns0Option, ParseError> {
    if |data| < 2 then Err(OptionRejected)
    else Ok(ExtendedError(FromBe16(data[0], data[1]), Utf8.LossyText(data[2..])))
  }

  function ParseOption(code: u16, data: seq<byte>): Result<Edns0Option, ParseError> {
    if code == CLIENT_SUBNET then ParseClientSubnet(data)
    else if code == COOKIE then ParseCookie(data)
    else if code == EXTENDED_ERROR then ParseExtendedError(data)
    else if code == PADDING then Ok(Padding(|data|))
    else if code == MAC then (if |data| == 6 then Ok(Mac(data)) else Err(OptionRejected))
    else if code == NOM_DEVICE_ID then Ok(NomDeviceId(data))
    else if code == NOM_CPE_ID then Ok(NomCpeId(data))
    else if code == UMBRELLA then Ok(Umbrella(data))
    else Ok(Unknown(code, data))
  }

  // The record parser keeps an option its parser rejects as an unknown one.
  function Decode(code: u16, data: seq<byte>): Edns0Option {
    match ParseOption(code, data)
    case Ok(o) => o
    case Err(_) => Unknown(code, data)
  }

  // ---- When an option survives the wire ---------------------------------------

  // The data a recognised option code does not accept.
  predicate Rejects(code: u16, data: seq<byte>) {
    || (code == CLIENT_SUBNET &&
        (|data| < 4 ||
         !((data[0] == 0 && data[1] == 1 && |data| <= 8) || (data[0] == 0 && data[1] == 2 && |data| <= 20))))
    || (code == COOKIE && (|data| < 8 || 8 < |data| < 16 || |data| > 40))
    || (code == EXTENDED_ERROR && |data| < 2)
    || (code == MAC && |data| != 6)
  }

  predicate Recognised(code: u16) {
    code in {CLIENT_SUBNET, COOKIE, EXTENDED_ERROR, PADDING, MAC, NOM_DEVICE_ID, NOM_CPE_ID, UMBRELLA}
  }

  // Options that say on the wire all they hold.
  predicate Canonical(o: Edns0Option) {
    match o
    case ClientSubnet(family, source, _, V4(octets)) =>
      family == 1 && forall i :: SubnetBytes(source, 4) <= i < 4 ==> octets[i] == 0
    case ClientSubnet(family, source, _, V6(octets)) =>
      family == 2 && forall i :: SubnetBytes(source, 16) <= i < 16 ==> octets[i] == 0
    case DnssecOk => false
    case Cookie(client, server) =>
      |client| == 8 && (server.Some? ==> 8 <= |server.value| <= 32)
    case Unknown(code, data) => Recognised(code) ==> Rejects(code, data)
    case _ => true
  }

  // Option data the record writer reproduces.
  predicate Reproducible(code: u16, data: seq<byte>) {
    !Rejects(code, data) ==>
      && (code == CLIENT_SUBNET ==> |data| - 4 == SubnetBytes(data[2], if data[1] == 1 then 4 else 16))
      && (code == PADDING ==> forall i :: 0 <= i < |data| ==> data[i] == 0)
      && (code == EXTENDED_ERROR ==> Utf8.Valid(data[2..]))
  }

  // A known option is kept as unknown exactly when its data is malformed.
  lemma {:induction false} RejectedExactly(code: u16, data: seq<byte>)
    ensures ParseOption(code, data).Err? <==> Rejects(code, data)
    ensures Code(Decode(code, data)) == code
    ensures !Decode(code, data).DnssecOk?
  {
  }

  // The octets kept and zeros for the others are the octets exactly when the others are zero.
  lemma ZeroFilled(octets: seq<byte>, n: nat)
    requires n <= |octets|
    ensures octets[..n] + Zeros(|octets| - n) == octets <==> forall i :: n <= i < |octets| ==> octets[i] == 0
  {
    var back := octets[..n] + Zeros(|octets| - n);
    assert forall i :: 0 <= i < n ==> back[i] == octets[i];
    assert forall i :: n <= i < |octets| ==> back[i] == 0;
    if forall i :: n <= i < |octets| ==> octets[i] == 0 { assert back == octets; }
  }

  lemma SubnetData(o: Edns0Option)
    requires o.ClientSubnet?
    ensures
      var d := Data(o);
      && |d| >= 4 && FromBe16(d[0], d[1]) == o.family && d[2] == o.source && d[3] == o.scope
      && d[4..] == o.address.Octets()[..SubnetBytes(o.source, |o.address.Octets()|)]
  {
    var d := Data(o);
    Be16RoundTrip(o.family);
    assert d[0] == ToBe16(o.family)[0] && d[1] == ToBe16(o.family)[1];
  }

  lemma SubnetSurvives(o: Edns0Option)
    requires o.ClientSubnet?
    ensures ParseClientSubnet(Data(o)) == Ok(o) <==> Canonical(o)
  {
    SubnetData(o);
    ZeroFilled(o.address.Octets(), SubnetBytes(o.source, |o.address.Octets()|));
  }

  lemma CookieSurvives(o: Edns0Option)
    requires o.Cookie?
    ensures ParseCookie(Data(o)) == Ok(o) <==> Canonical(o)
  {
    var d := Data(o);
    if |o.client| == 8 {
      assert d[..8] == o.client;
      assert d[8..] == if o.server.Some? then o.server.value else [];
      if o.server.None? { assert d == o.client; }
    }
  }

  // Printing an option and parsing it gives the option back exactly when it is canonical.
  lemma {:induction false} OptionPrintThenParse(o: Edns0Option)
    requires !o.DnssecOk?
    ensures Decode(Code(o), Data(o)) == o <==> Canonical(o)
  {
    match o
    case ClientSubnet(_, _, _, _) => SubnetSurvives(o);
    case Cookie(_, _) => CookieSurvives(o);
    case ExtendedError(infoCode, text) => assert Data(o)[2..] == text;
    case Unknown(code, data) => RejectedExactly(code, data);
    case _ =>
  }

  lemma SubnetReproduces(data: seq<byte>)
    requires ParseClientSubnet(data).Ok?
    ensures Data(ParseClientSubnet(data).value) == data
       <==> |data| - 4 == SubnetBytes(data[2], if data[1] == 1 then 4 else 16)
  {
    var o := ParseClientSubnet(data).value;
    var size := if data[1] == 1 then 4 else 16;
    var n := SubnetBytes(data[2], size);
    var octets := data[4..] + Zeros(size - (|data| - 4));
    assert o.address.Octets() == octets;
    Be16Inverse(data[0], data[1]);
    assert Data(o) == [data[0], data[1]] + [data[2], data[3]] + octets[..n];
    assert |Data(o)| == 4 + n;
    if |data| - 4 == n {
      assert octets[..n] == data[4..];
      assert data == [data[0], data[1]] + [data[2], data[3]] + data[4..];
    }
  }

  lemma ExtendedErrorReproduces(data: seq<byte>)
    requires |data| >= 2
    ensures Data(ParseExtendedError(data).value) == data <==> Utf8.Valid(data[2..])
  {
    var text := Utf8.LossyText(data[2..]);
    Be16Inverse(data[0], data[1]);
    assert data == [data[0], data[1]] + data[2..];
    assert Data(ParseExtendedError(data).value) == [data[0], data[1]] + text;
    assert ([data[0], data[1]] + text)[2..] == text;
  }

  // Parsing option data and printing it gives the data back exactly when it is reproducible.
  lemma {:induction false} OptionParseThenPrint(code: u16, data: seq<byte>)
    ensures Data(Decode(code, data)) == data <==> Reproducible(code, data)
  {
    RejectedExactly(code, data);
    if code == CLIENT_SUBNET && !Rejects(code, data) {
      SubnetReproduces(data);
    } else if code == EXTENDED_ERROR && !Rejects(code, data) {
      ExtendedErrorReproduces(data);
    } else if code == COOKIE && !Rejects(code, data) {
      if |data| > 8 { assert data == data[..8] + data[8..]; }
    } else if code == PADDING {
      if forall i :: 0 <= i < |data| ==> data[i] == 0 { assert Zeros(|data|) == data; }
    }
  }

  // The address octets a subnet option writes, and those its family announces.
  function WrittenOctets(o: Edns0Option): nat
    requires o.ClientSubnet?
  {
    SubnetBytes(o.source, |o.address.Octets()|)
  }

  function AnnouncedOctets(o: Edns0Option): nat
    requires o.ClientSubnet?
  {
    if o.family == 1 then 4 else 16
  }

  // An IPv6 subnet address labelled as IPv4, with more than 32 significant bits.
  predicate Mislabelled(o: Edns0Option) {
    o.ClientSubnet? && o.family == 1 && o.address.V6? && o.source > 32
  }

  // Bytes written past the announced length, and bytes announced but not written.
  function Overrun(o: Edns0Option): nat {
    if o.ClientSubnet? && WrittenOctets(o) > AnnouncedOctets(o) then WrittenOctets(o) - AnnouncedOctets(o) else 0
  }

  function Shortfall(o: Edns0Option): nat {
    if o.ClientSubnet? && WrittenOctets(o) < AnnouncedOctets(o) then AnnouncedOctets(o) - WrittenOctets(o) else 0
  }

  /** The announced length is off by these two, and bounds the written one except for a
      mislabelled subnet. */
  lemma {:induction false} AnnouncedLength(o: Edns0Option)
    ensures |Data(o)| + Shortfall(o) == DataLen(o) + Overrun(o)
    ensures |Data(o)| <= DataLen(o) <==> !Mislabelled(o)
  {
  }

  // ---- Bytes ------------------------------------------------------------------

  /** The data of each option, byte for byte, and its code. */
  lemma DataImage(o: Edns0Option)
    ensures
      match o
      case ClientSubnet(family, source, scope, address) =>
        && Code(o) == 8
        && Data(o) == [family / 256, family % 256, source, scope]
           + address.Octets()[..if (source + 7) / 8 < |address.Octets()| then (source + 7) / 8 else |address.Octets()|]
      case DnssecOk => Data(o) == []
      case Cookie(client, server) => Code(o) == 10 && Data(o) == client + (if server.Some? then server.value else [])
      case ExtendedError(info, text) => Code(o) == 15 && Data(o) == [info / 256, info % 256] + text
      case Padding(n) => Code(o) == 12 && Data(o) == seq(n, _ => 0)
      case Mac(mac) => Code(o) == 65001 && Data(o) == mac
      case NomDeviceId(id) => Code(o) == 65073 && Data(o) == id
      case NomCpeId(id) => Code(o) == 65074 && Data(o) == id
      case Umbrella(id) => Code(o) == 20292 && Data(o) == id
      case Unknown(code, data) => Code(o) == code && Data(o) == data
  {
    if o.ClientSubnet? {
      assert ToBe16(o.family) + [o.source, o.scope] == [o.family / 256, o.family % 256, o.source, o.scope];
    }
  }

  /** What accepted subnet data says: family, prefix lengths, and the address octets, the
      missing ones zero. */
  lemma SubnetFields(data: seq<byte>)
    requires ParseClientSubnet(data).Ok?
    ensures
      var o := ParseClientSubnet(data).value;
      var high: int := data[0];
      && o.ClientSubnet?
      && o.family == 256 * high + data[1] && o.source == data[2] && o.scope == data[3]
      && o.address.V4? == (o.family == 1) && (o.family == 1 || o.family == 2)
      && forall i :: 0 <= i < |o.address.Octets()| ==>
           o.address.Octets()[i] == if 4 + i < |data| then data[4 + i] else 0
  {
  }

  // What other accepted data says.
  lemma OtherFields(code: u16, data: seq<byte>)
    requires ParseOption(code, data).Ok?
    ensures
      var o := ParseOption(code, data).value;
      && (code == 10 ==> o == Cookie(data[..8], if |data| > 8 then Some(data[8..]) else None))
      && (code == 15 ==> |data| >= 2 && o.ExtendedError? && o.extraText == Utf8.Lossy(data[2..]))
      && (code == 12 ==> o == Padding(|data|))
  {
  }
}
