/**
 * The OPT record on the wire: eleven header bytes, then RDATA as a run of options each
 * framed by its code and length. The writer truncates both length fields to 16 bits.
 */
module OptRecords {
  import opened Basics
  import opened Net
  import opened Bytes
  import opened Edns0

  // An option as framed in RDATA.
  datatype Frame = Frame(code: u16, data: seq<byte>)

  ghost predicate Short(fs: seq<Frame>) {
    forall i :: 0 <= i < |fs| ==> |fs[i].data| < 0x1_0000
  }

  function WireFrame(f: Frame): seq<byte> {
    ToBe16(f.code) + ToBe16(Truncate16(|f.data|)) + f.data
  }

  function Flatten(fs: seq<Frame>): seq<byte> {
    if fs == [] then [] else WireFrame(fs[0]) + Flatten(fs[1..])
  }

  // The 16-bit field at a position.
  function Be16At(s: seq<byte>, i: nat): u16
    requires i + 2 <= |s|
  {
    FromBe16(s[i], s[i + 1])
  }

  // Where the first frame of RDATA ends, by its length field.
  function FrameEnd(r: seq<byte>): nat
    requires |r| >= 4
  {
    4 + Be16At(r, 2)
  }

  function FirstFrame(r: seq<byte>): Frame
    requires |r| >= 4 && FrameEnd(r) <= |r|
  {
    Frame(Be16At(r, 0), r[4..FrameEnd(r)])
  }

  // What framing yields once the frames `fs` have been read.
  function Prepend(fs: seq<Frame>, rest: Result<seq<Frame>, ParseError>): Result<seq<Frame>, ParseError> {
    match rest
    case Ok(more) => Ok(fs + more)
    case Err(e) => Err(e)
  }

  // The framing of RDATA, or why it is malformed.
  function Frames(r: seq<byte>): Result<seq<Frame>, ParseError> {
    if r == [] then Ok([])
    else if |r| < 4 then Err(OptionHeaderTruncated)
    else if FrameEnd(r) > |r| then Err(OptionDataTruncated(Be16At(r, 0)))
    else Prepend([FirstFrame(r)], Frames(r[FrameEnd(r)..]))
  }

  // The writer drops the DO pseudo-option, which lives in the flags.
  function FramesOf(os: seq<Edns0Option>): seq<Frame> {
    if os == [] then []
    else if os[0].DnssecOk? then FramesOf(os[1..])
    else [Frame(Code(os[0]), Data(os[0]))] + FramesOf(os[1..])
  }

  function DecodeAll(fs: seq<Frame>): (os: seq<Edns0Option>)
    ensures |os| == |fs|
    ensures forall i :: 0 <= i < |fs| ==> os[i] == Decode(fs[i].code, fs[i].data)
  {
    seq(|fs|, i requires 0 <= i < |fs| => Decode(fs[i].code, fs[i].data))
  }

  // extended RCODE, version and flags packed into the 32-bit TTL field.
  function Ttl(r: OptRecord): (n: nat)
    ensures n < 0x1_0000_0000
  {
    r.extendedRcode * 0x100_0000 + r.version * 0x1_0000 + r.flags
  }

  function ToBe32(n: nat): (s: seq<byte>)
    requires n < 0x1_0000_0000
    ensures |s| == 4
  {
    ToBe16(n / 0x1_0000) + ToBe16(n % 0x1_0000)
  }

  function FromBe32(a: byte, b: byte, c: byte, d: byte): nat {
    FromBe16(a, b) * 0x1_0000 + FromBe16(c, d)
  }

  function Header(r: OptRecord, rdlength: nat): (h: seq<byte>)
    ensures |h| == OPT_HEADER
  {
    [0] + ToBe16(T_OPT) + ToBe16(r.udpPayloadSize) + ToBe32(Ttl(r)) + ToBe16(Truncate16(rdlength))
  }

  function Rdata(r: OptRecord): seq<byte> {
    Flatten(FramesOf(r.options))
  }

  function Serialize(r: OptRecord): seq<byte> {
    Header(r, |Rdata(r)|) + Rdata(r)
  }

  function WireSize(r: OptRecord): nat {
    OPT_HEADER + OptionSizes(r.options)
  }

  function OptionSizes(os: seq<Edns0Option>): nat {
    if os == [] then 0 else 4 + DataLen(os[0]) + OptionSizes(os[1..])
  }

  // The RDLENGTH of a record image.
  function RdLength(data: seq<byte>): u16
    requires |data| >= OPT_HEADER
  {
    Be16At(data, 9)
  }

  function Fields(data: seq<byte>, options: seq<Edns0Option>): OptRecord
    requires |data| >= OPT_HEADER
  {
    var ttl := FromBe32(data[5], data[6], data[7], data[8]);
    OptRecord(Be16At(data, 3), ttl / 0x100_0000 % 0x100, ttl / 0x1_0000 % 0x100,
              ttl % 0x1_0000, options)
  }

  // The record at the start of the bytes and the number of bytes it takes.
  function Parse(data: seq<byte>): Result<(OptRecord, nat), ParseError> {
    if |data| == 0 || data[0] != 0 then Err(NotRootName)
    else if |data| < OPT_HEADER then Err(RecordTooShort)
    else if Be16At(data, 1) != T_OPT then Err(NotOptType(Be16At(data, 1)))
    else
      var end := OPT_HEADER + RdLength(data);
      if |data| < end then Err(RdataTruncated)
      else
        match Frames(data[OPT_HEADER..end])
        case Err(e) => Err(e)
        case Ok(fs) => Ok((Fields(data, DecodeAll(fs)), end))
  }

  // ---- The imperative writer and parser ---------------------------------------

  lemma {:induction false} FramesOfAppend(os: seq<Edns0Option>, o: Edns0Option)
    ensures FramesOf(os + [o]) == FramesOf(os) + FramesOf([o])
  {
    if os == [] {
      assert [] + [o] == [o];
    } else {
      assert (os + [o])[1..] == os[1..] + [o];
      FramesOfAppend(os[1..], o);
    }
  }

  lemma {:induction false} FlattenAppend(a: seq<Frame>, b: seq<Frame>)
    ensures Flatten(a + b) == Flatten(a) + Flatten(b)
  {
    if a == [] {
      assert a + b == b;
    } else {
      assert (a + b)[1..] == a[1..] + b;
      FlattenAppend(a[1..], b);
    }
  }

  lemma FlattenOne(f: Frame)
    ensures Flatten([f]) == WireFrame(f)
  {
    assert [f][1..] == [];
  }

  // What the writer appends to RDATA for an option.
  function WireOption(o: Edns0Option): seq<byte> {
    if o.DnssecOk? then [] else WireFrame(Frame(Code(o), Data(o)))
  }

  lemma WriteOne(os: seq<Edns0Option>, i: nat)
    requires i < |os|
    ensures Flatten(FramesOf(os[..i + 1])) == Flatten(FramesOf(os[..i])) + WireOption(os[i])
  {
    var before, o := FramesOf(os[..i]), os[i];
    assert os[..i + 1] == os[..i] + [o];
    FramesOfAppend(os[..i], o);
    if o.DnssecOk? {
      assert FramesOf([o]) == [];
      assert before + [] == before;
    } else {
      assert FramesOf([o]) == [Frame(Code(o), Data(o))];
      FlattenAppend(before, FramesOf([o]));
      FlattenOne(Frame(Code(o), Data(o)));
    }
  }

  method ToWireFormat(r: OptRecord) returns (buf: seq<byte>)
    ensures buf == Serialize(r)
  {
    buf := [0] + ToBe16(T_OPT) + ToBe16(r.udpPayloadSize) + ToBe32(Ttl(r));
    var rdata: seq<byte> := [];
    for i := 0 to |r.options|
      invariant rdata == Flatten(FramesOf(r.options[..i]))
    {
      var o := r.options[i];
      WriteOne(r.options, i);
      if o.DnssecOk? { continue; }
      var data := Data(o);
      rdata := rdata + (ToBe16(Code(o)) + ToBe16(Truncate16(|data|)) + data);
    }
    assert r.options[..|r.options|] == r.options;
    buf := buf + ToBe16(Truncate16(|rdata|));
    buf := buf + rdata;
  }

  lemma PrependAssociates(a: seq<Frame>, b: seq<Frame>, rest: Result<seq<Frame>, ParseError>)
    ensures Prepend(a, Prepend(b, rest)) == Prepend(a + b, rest)
    ensures Prepend([], rest) == rest
  {
    if rest.Ok? {
      assert a + (b + rest.value) == a + b + rest.value;
      assert [] + rest.value == rest.value;
    }
  }

  // The loop over the options in data[start..end].
  method ParseOptions(data: seq<byte>, start: nat, end: nat) returns (res: Result<seq<Edns0Option>, ParseError>)
    requires start <= end <= |data|
    ensures
      match Frames(data[start..end])
      case Ok(fs) => res == Ok(DecodeAll(fs))
      case Err(e) => res == Err(e)
  {
    var options: seq<Edns0Option> := [];
    var offset := start;
    ghost var read: seq<Frame> := [];
    ghost var all := Frames(data[start..end]);
    PrependAssociates([], [], all);
    while offset < end
      invariant start <= offset <= end
      invariant options == DecodeAll(read)
      invariant all == Prepend(read, Frames(data[offset..end]))
    {
      ghost var here := data[offset..end];
      if offset + 4 > end { return Err(OptionHeaderTruncated); }
      var code, len := Be16At(data, offset), Be16At(data, offset + 2);
      offset := offset + 4;
      if offset + len > end { return Err(OptionDataTruncated(code)); }
      var optData := data[offset..offset + len];
      offset := offset + len;
      assert here[4..4 + len] == optData;
      assert FirstFrame(here) == Frame(code, optData) && here[FrameEnd(here)..] == data[offset..end];
      PrependAssociates(read, [FirstFrame(here)], Frames(data[offset..end]));
      options := options + [Decode(code, optData)];
      read := read + [Frame(code, optData)];
    }
    assert read + [] == read;
    return Ok(options);
  }

  method FromWireFormat(data: seq<byte>) returns (res: Result<(OptRecord, nat), ParseError>)
    ensures res == Parse(data)
  {
    if |data| == 0 || data[0] != 0 { return Err(NotRootName); }
    if |data| < OPT_HEADER { return Err(RecordTooShort); }
    var rrType := Be16At(data, 1);
    if rrType != T_OPT { return Err(NotOptType(rrType)); }
    var end := OPT_HEADER + RdLength(data);
    if |data| < end { return Err(RdataTruncated); }
    var parsed := ParseOptions(data, OPT_HEADER, end);
    match parsed {
      case Err(e) => return Err(e);
      case Ok(options) => return Ok((Fields(data, options), end));
    }
  }

  // ---- Framing ----------------------------------------------------------------

  // The framing bytes read back as code and length.
  lemma FrameReadsBack(f: Frame, rest: seq<byte>)
    requires |f.data| < 0x1_0000
    ensures
      var r := WireFrame(f) + rest;
      && FrameEnd(r) == |WireFrame(f)| == 4 + |f.data|
      && FirstFrame(r) == f
      && r[FrameEnd(r)..] == rest
  {
    var r, n := WireFrame(f) + rest, |f.data|;
    var code, len := ToBe16(f.code), ToBe16(n);
    assert r == code + len + f.data + rest;
    Be16RoundTrip(f.code);
    Be16RoundTrip(n);
    assert r[0] == code[0] && r[1] == code[1] && r[2] == len[0] && r[3] == len[1];
    assert r[4..4 + n] == f.data;
  }

  lemma FrameImage(r: seq<byte>)
    requires |r| >= 4 && FrameEnd(r) <= |r|
    ensures WireFrame(FirstFrame(r)) == r[..FrameEnd(r)]
    ensures |FirstFrame(r).data| < 0x1_0000
  {
    Be16Inverse(r[0], r[1]);
    Be16Inverse(r[2], r[3]);
    assert r[..FrameEnd(r)] == [r[0], r[1]] + [r[2], r[3]] + r[4..FrameEnd(r)];
  }

  // Headers and data tile the RDATA: framing loses nothing.
  lemma {:induction false} FramesTile(r: seq<byte>)
    requires Frames(r).Ok?
    ensures Flatten(Frames(r).value) == r
    ensures Short(Frames(r).value)
  {
    if r != [] {
      var rest := r[FrameEnd(r)..];
      FramesTile(rest);
      FrameImage(r);
      var fs := Frames(r).value;
      assert fs[1..] == Frames(rest).value;
      assert r == r[..FrameEnd(r)] + rest;
    }
  }

  // Reading what the writer framed gives the frames back.
  lemma {:induction false} FramesOfFlatten(fs: seq<Frame>)
    requires Short(fs)
    ensures Frames(Flatten(fs)) == Ok(fs)
  {
    if fs != [] {
      var rest := Flatten(fs[1..]);
      FramesOfFlatten(fs[1..]);
      FrameReadsBack(fs[0], rest);
      assert Flatten(fs) == WireFrame(fs[0]) + rest;
      assert Frames(Flatten(fs)) == Prepend([fs[0]], Frames(rest));
      assert [fs[0]] + fs[1..] == fs;
    }
  }

  lemma {:induction false} FlattenLength(fs: seq<Frame>)
    ensures forall i :: 0 <= i < |fs| ==> |fs[i].data| <= |Flatten(fs)|
    ensures |fs| <= |Flatten(fs)|
  {
    if fs != [] {
      FlattenLength(fs[1..]);
      forall i | 0 <= i < |fs| ensures |fs[i].data| <= |Flatten(fs)| {
        if i > 0 { assert fs[i] == fs[1..][i - 1]; }
      }
    }
  }

  // Short frames with the same bytes are the same frames.
  lemma FlattenInjective(a: seq<Frame>, b: seq<Frame>)
    requires Short(a) && Short(b) && Flatten(a) == Flatten(b)
    ensures a == b
  {
    FramesOfFlatten(a);
    FramesOfFlatten(b);
  }

  // A successful parse consumes the header and RDLENGTH bytes, which the options tile,
  // and does not look at what follows.
  lemma {:induction false} ParseIsFramed(data: seq<byte>, more: seq<byte>)
    requires Parse(data).Ok?
    ensures
      var (r, n) := Parse(data).value;
      && n == OPT_HEADER + RdLength(data) <= |data|
      && Frames(data[OPT_HEADER..n]).Ok?
      && Flatten(Frames(data[OPT_HEADER..n]).value) == data[OPT_HEADER..n]
      && r.options == DecodeAll(Frames(data[OPT_HEADER..n]).value)
    ensures Parse(data + more) == Parse(data)
  {
    var (r, n) := Parse(data).value;
    FramesTile(data[OPT_HEADER..n]);
    TrailingBytes(data, more, n);
  }

  lemma TrailingBytes(data: seq<byte>, more: seq<byte>, n: nat)
    requires Parse(data).Ok? && n == OPT_HEADER + RdLength(data)
    ensures Parse(data + more) == Parse(data)
  {
    var d := data + more;
    assert d[OPT_HEADER..n] == data[OPT_HEADER..n];
    assert RdLength(d) == RdLength(data) && Be16At(d, 1) == Be16At(data, 1) && d[0] == data[0];
    assert forall os :: Fields(d, os) == Fields(data, os);
  }

  // ---- Bytes ------------------------------------------------------------------

  function WireOptions(os: seq<Edns0Option>): seq<byte> {
    if os == [] then [] else WireOption(os[0]) + WireOptions(os[1..])
  }

  lemma {:induction false} RdataIsOptions(os: seq<Edns0Option>)
    ensures Flatten(FramesOf(os)) == WireOptions(os)
  {
    if os != [] {
      RdataIsOptions(os[1..]);
      if !os[0].DnssecOk? {
        var f := Frame(Code(os[0]), Data(os[0]));
        assert ([f] + FramesOf(os[1..]))[1..] == FramesOf(os[1..]);
      }
    }
  }

  // An option on the wire: code and length, high byte first, then the data.
  lemma OptionImage(o: Edns0Option)
    ensures
      var n := |Data(o)| % 0x1_0000;
      WireOption(o) == if o.DnssecOk? then [] else [Code(o) / 256, Code(o) % 256, n / 256, n % 256] + Data(o)
  {
    if !o.DnssecOk? {
      var n := |Data(o)| % 0x1_0000;
      assert ToBe16(Code(o)) + ToBe16(n) == [Code(o) / 256, Code(o) % 256, n / 256, n % 256];
    }
  }

  /** A record on the wire: the root name, type 41, the payload size, extended RCODE,
      version and flags, the length of the options, and the options in order. */
  lemma RecordImage(r: OptRecord)
    ensures
      var size, flags, n := r.udpPayloadSize, r.flags, |WireOptions(r.options)| % 0x1_0000;
      Serialize(r) ==
        [0, 0, 41, size / 256, size % 256, r.extendedRcode, r.version, flags / 256, flags % 256, n / 256, n % 256]
        + WireOptions(r.options)
  {
    RdataIsOptions(r.options);
    var size, flags, n := r.udpPayloadSize, r.flags, |Rdata(r)| % 0x1_0000;
    TtlImage(r);
    assert Header(r, |Rdata(r)|) ==
      [0, 0, 41, size / 256, size % 256, r.extendedRcode, r.version, flags / 256, flags % 256, n / 256, n % 256];
  }

  lemma TtlImage(r: OptRecord)
    ensures ToBe32(Ttl(r)) == [r.extendedRcode, r.version, r.flags / 256, r.flags % 256]
  {
    TtlFields(r);
    var hi := Ttl(r) / 0x1_0000;
    assert hi / 256 == r.extendedRcode && hi % 256 == r.version;
  }

  // ---- Refusals ---------------------------------------------------------------

  // RDATA is framed exactly when it is some frames one after another.
  lemma FramedExactly(r: seq<byte>)
    ensures Frames(r).Ok? <==> exists fs :: Short(fs) && Flatten(fs) == r
  {
    if Frames(r).Ok? { FramesTile(r); }
    if fs :| Short(fs) && Flatten(fs) == r { FramesOfFlatten(fs); }
  }

  // The number in two bytes, high byte first.
  function Number(high: int, low: int): int {
    256 * high + low
  }

  // Why the bytes after the last whole frame are none.
  ghost predicate CutShort(tail: seq<byte>, e: ParseError) {
    match e
    case OptionHeaderTruncated => 0 < |tail| < 4
    case OptionDataTruncated(code) =>
      |tail| >= 4 && code == Number(tail[0], tail[1]) && 4 + Number(tail[2], tail[3]) > |tail|
    case _ => false
  }

  lemma CutShortHere(r: seq<byte>)
    requires Frames(r).Err? && (|r| < 4 || FrameEnd(r) > |r|)
    ensures CutShort(r, Frames(r).error)
  {
  }

  lemma FirstFrameStands(r: seq<byte>)
    requires Frames(r).Err? && |r| >= 4 && FrameEnd(r) <= |r|
    ensures r == WireFrame(FirstFrame(r)) + r[FrameEnd(r)..]
    ensures Frames(r[FrameEnd(r)..]) == Frames(r)
  {
    FrameImage(r);
  }

  lemma FlattenWithFirst(f: Frame, fs: seq<Frame>, tail: seq<byte>)
    ensures Flatten([f] + fs) + tail == WireFrame(f) + (Flatten(fs) + tail)
  {
    assert ([f] + fs)[1..] == fs;
    assert Flatten([f] + fs) == WireFrame(f) + Flatten(fs);
  }

  // Malformed RDATA is whole frames and a rest that is cut short.
  lemma {:induction false} MalformedRdata(r: seq<byte>) returns (fs: seq<Frame>, tail: seq<byte>)
    requires Frames(r).Err?
    ensures r == Flatten(fs) + tail && CutShort(tail, Frames(r).error)
    decreases |r|
  {
    if |r| < 4 || FrameEnd(r) > |r| {
      CutShortHere(r);
      fs, tail := [], r;
      assert [] + r == r;
    } else {
      FirstFrameStands(r);
      fs, tail := MalformedRdata(r[FrameEnd(r)..]);
      FlattenWithFirst(FirstFrame(r), fs, tail);
      fs := [FirstFrame(r)] + fs;
    }
  }

  /** Every error of the parser, from the bytes. */
  lemma ParseErrorsExactly(data: seq<byte>)
    ensures Parse(data) == Err(NotRootName) <==> |data| == 0 || data[0] != 0
    ensures Parse(data) == Err(RecordTooShort) <==> 0 < |data| < 11 && data[0] == 0
    ensures |data| >= 11 && data[0] == 0 ==>
      var rrType, end := Number(data[1], data[2]), 11 + Number(data[9], data[10]);
      && (rrType != 41 ==> Parse(data) == Err(NotOptType(rrType)))
      && (rrType == 41 && |data| < end ==> Parse(data) == Err(RdataTruncated))
      && (rrType == 41 && |data| >= end ==>
            Parse(data).Err? == Frames(data[11..end]).Err?
            && (Frames(data[11..end]).Err? ==> Parse(data) == Err(Frames(data[11..end]).error)))
  {
    if |data| >= 11 && data[0] == 0 && Parse(data).Err? && Be16At(data, 1) == 41 && |data| >= 11 + RdLength(data) {
      FramesErrors(data[11..11 + RdLength(data)]);
    }
  }

  lemma {:induction false} FramesErrors(r: seq<byte>)
    ensures Frames(r).Err? ==> Frames(r).error.OptionHeaderTruncated? || Frames(r).error.OptionDataTruncated?
    decreases |r|
  {
    if |r| >= 4 && FrameEnd(r) <= |r| { FramesErrors(r[FrameEnd(r)..]); }
  }

  // ---- Print, then parse ------------------------------------------------------

  lemma Be32RoundTrip(n: nat)
    requires n < 0x1_0000_0000
    ensures var s := ToBe32(n); FromBe32(s[0], s[1], s[2], s[3]) == n
  {
    Be16RoundTrip(n / 0x1_0000);
    Be16RoundTrip(n % 0x1_0000);
  }

  lemma Be32Inverse(a: byte, b: byte, c: byte, d: byte)
    ensures FromBe32(a, b, c, d) < 0x1_0000_0000
    ensures ToBe32(FromBe32(a, b, c, d)) == [a, b, c, d]
  {
    var hi, lo := FromBe16(a, b), FromBe16(c, d);
    assert FromBe32(a, b, c, d) / 0x1_0000 == hi && FromBe32(a, b, c, d) % 0x1_0000 == lo;
    Be16Inverse(a, b);
    Be16Inverse(c, d);
  }

  lemma TtlFields(r: OptRecord)
    ensures Ttl(r) / 0x100_0000 % 0x100 == r.extendedRcode
    ensures Ttl(r) / 0x1_0000 % 0x100 == r.version
    ensures Ttl(r) % 0x1_0000 == r.flags
  {
  }

  // The header reads back, whatever comes after it.
  lemma HeaderReadsBack(r: OptRecord, rdlength: nat, rest: seq<byte>, os: seq<Edns0Option>)
    ensures
      var d := Header(r, rdlength) + rest;
      && d[0] == 0
      && Be16At(d, 1) == T_OPT
      && RdLength(d) == Truncate16(rdlength)
      && Fields(d, os) == r.(options := os)
  {
    var d := Header(r, rdlength) + rest;
    var t := ToBe32(Ttl(r));
    assert d[1] == ToBe16(T_OPT)[0] && d[2] == ToBe16(T_OPT)[1];
    assert d[3] == ToBe16(r.udpPayloadSize)[0] && d[4] == ToBe16(r.udpPayloadSize)[1];
    assert d[5] == t[0] && d[6] == t[1] && d[7] == t[2] && d[8] == t[3];
    assert d[9] == ToBe16(Truncate16(rdlength))[0] && d[10] == ToBe16(Truncate16(rdlength))[1];
    Be16RoundTrip(r.udpPayloadSize);
    Be16RoundTrip(Truncate16(rdlength));
    Be32RoundTrip(Ttl(r));
    TtlFields(r);
  }

  // A well-formed header and well-framed RDATA parse together.
  lemma ImageParses(h: seq<byte>, rdata: seq<byte>, fs: seq<Frame>)
    requires |h| == OPT_HEADER && h[0] == 0
    requires Be16At(h + rdata, 1) == T_OPT && RdLength(h + rdata) == |rdata|
    requires Frames(rdata) == Ok(fs)
    ensures Parse(h + rdata) == Ok((Fields(h + rdata, DecodeAll(fs)), |h + rdata|))
  {
    var d := h + rdata;
    assert d[OPT_HEADER..|d|] == rdata;
  }

  // What a written record that fits reads back as.
  lemma {:induction false} WrittenRecordParses(r: OptRecord)
    requires |Rdata(r)| < 0x1_0000
    ensures Parse(Serialize(r)) == Ok((r.(options := DecodeAll(FramesOf(r.options))), |Serialize(r)|))
  {
    var fs := FramesOf(r.options);
    FlattenLength(fs);
    FramesOfFlatten(fs);
    HeaderReadsBack(r, |Rdata(r)|, Rdata(r), DecodeAll(fs));
    ImageParses(Header(r, |Rdata(r)|), Rdata(r), fs);
  }

  ghost predicate AllCanonical(os: seq<Edns0Option>) {
    forall i :: 0 <= i < |os| ==> Canonical(os[i])
  }

  lemma AllCanonicalFirst(os: seq<Edns0Option>)
    requires os != []
    ensures AllCanonical(os) <==> Canonical(os[0]) && AllCanonical(os[1..])
  {
    assert forall i :: 0 < i < |os| ==> os[i] == os[1..][i - 1];
    assert forall i :: 0 <= i < |os[1..]| ==> os[1..][i] == os[i + 1];
  }

  lemma DecodeFirst(f: Frame, fs: seq<Frame>)
    ensures DecodeAll([f] + fs) == [Decode(f.code, f.data)] + DecodeAll(fs)
  {
  }

  lemma {:induction false} DecodedFramesAreTheOptions(os: seq<Edns0Option>)
    ensures |FramesOf(os)| <= |os|
    ensures DecodeAll(FramesOf(os)) == os <==> AllCanonical(os)
  {
    if os != [] {
      var o := os[0];
      DecodedFramesAreTheOptions(os[1..]);
      AllCanonicalFirst(os);
      if !o.DnssecOk? {
        OptionPrintThenParse(o);
        DecodeFirst(Frame(Code(o), Data(o)), FramesOf(os[1..]));
        SameHeadSameTail(Decode(Code(o), Data(o)), DecodeAll(FramesOf(os[1..])), os);
      }
    }
  }

  lemma SameHeadSameTail(o: Edns0Option, rest: seq<Edns0Option>, os: seq<Edns0Option>)
    requires os != []
    ensures [o] + rest == os <==> o == os[0] && rest == os[1..]
  {
    assert ([o] + rest)[1..] == rest;
    if o == os[0] && rest == os[1..] { assert [o] + rest == os; }
  }

  /** Printing a record and parsing it gives the same record back, consuming all the
      bytes written, exactly when its RDATA fits 16 bits and its options are canonical. */
  lemma PrintThenParse(r: OptRecord)
    ensures Parse(Serialize(r)) == Ok((r, |Serialize(r)|)) <==>
      |Rdata(r)| < 0x1_0000 && AllCanonical(r.options)
  {
    DecodedFramesAreTheOptions(r.options);
    if |Rdata(r)| < 0x1_0000 {
      WrittenRecordParses(r);
    } else {
      HeaderReadsBack(r, |Rdata(r)|, Rdata(r), []);
    }
  }

  // ---- Parse, then print ------------------------------------------------------

  lemma TtlWritesBack(data: seq<byte>, os: seq<Edns0Option>)
    requires |data| >= OPT_HEADER
    ensures ToBe32(Ttl(Fields(data, os))) == [data[5], data[6], data[7], data[8]]
  {
    var ttl := FromBe32(data[5], data[6], data[7], data[8]);
    Be32Inverse(data[5], data[6], data[7], data[8]);
    TtlOfFields(data, os);
    assert Ttl(Fields(data, os)) == ttl;
  }

  lemma TtlOfFields(data: seq<byte>, os: seq<Edns0Option>)
    requires |data| >= OPT_HEADER
    ensures Ttl(Fields(data, os)) == FromBe32(data[5], data[6], data[7], data[8])
  {
    Be32Inverse(data[5], data[6], data[7], data[8]);
    Repack(FromBe32(data[5], data[6], data[7], data[8]));
  }

  lemma Repack(n: nat)
    requires n < 0x1_0000_0000
    ensures n / 0x100_0000 % 0x100 * 0x100_0000 + n / 0x1_0000 % 0x100 * 0x1_0000 + n % 0x1_0000 == n
  {
    var hi := n / 0x1_0000;
    assert n / 0x100_0000 == hi / 0x100;
    assert hi / 0x100 % 0x100 == hi / 0x100;
  }

  lemma HeaderWritesBack(data: seq<byte>, os: seq<Edns0Option>)
    requires |data| >= OPT_HEADER && data[0] == 0 && Be16At(data, 1) == T_OPT
    ensures Header(Fields(data, os), RdLength(data)) == data[..OPT_HEADER]
  {
    Be16Inverse(data[1], data[2]);
    Be16Inverse(data[3], data[4]);
    TtlWritesBack(data, os);
    Be16Inverse(data[9], data[10]);
    assert data[..OPT_HEADER] ==
      [data[0]] + [data[1], data[2]] + [data[3], data[4]]
      + [data[5], data[6], data[7], data[8]] + [data[9], data[10]];
  }

  // The frames of decoded frames: the same codes, possibly other data.
  lemma {:induction false} FramesOfDecoded(fs: seq<Frame>)
    ensures |FramesOf(DecodeAll(fs))| == |fs|
    ensures forall i :: 0 <= i < |fs| ==>
      FramesOf(DecodeAll(fs))[i] == Frame(fs[i].code, Data(Decode(fs[i].code, fs[i].data)))
  {
    if fs != [] {
      RejectedExactly(fs[0].code, fs[0].data);
      FramesOfDecoded(fs[1..]);
      assert DecodeAll(fs)[1..] == DecodeAll(fs[1..]);
    }
  }

  ghost predicate AllReproducible(fs: seq<Frame>) {
    forall i :: 0 <= i < |fs| ==> Reproducible(fs[i].code, fs[i].data)
  }

  lemma FramesReproduced(fs: seq<Frame>)
    requires Short(fs)
    ensures FramesOf(DecodeAll(fs)) == fs <==> AllReproducible(fs)
  {
    FramesOfDecoded(fs);
    forall i | 0 <= i < |fs|
      ensures FramesOf(DecodeAll(fs))[i] == fs[i] <==> Reproducible(fs[i].code, fs[i].data)
    {
      OptionParseThenPrint(fs[i].code, fs[i].data);
    }
  }

  /** Parsing bytes and printing the record reproduces the bytes consumed exactly when
      every option's data is reproducible: well-formed subnets carry just the octets
      their prefix needs, padding is zero and error text is valid UTF-8. */
  lemma {:induction false} ParseThenPrint(data: seq<byte>)
    requires Parse(data).Ok?
    ensures
      var (r, n) := Parse(data).value;
      && Frames(data[OPT_HEADER..n]).Ok?
      && (Serialize(r) == data[..n] <==> AllReproducible(Frames(data[OPT_HEADER..n]).value))
  {
    var (r, n) := Parse(data).value;
    ParseIsFramed(data, []);
    var fs := Frames(data[OPT_HEADER..n]).value;
    FramesTile(data[OPT_HEADER..n]);
    FramesReproduced(fs);
    var out := FramesOf(DecodeAll(fs));
    assert Rdata(r) == Flatten(out);
    assert data[..n] == data[..OPT_HEADER] + data[OPT_HEADER..n];
    HeaderWritesBack(data, r.options);
    if Serialize(r) == data[..n] {
      assert Serialize(r)[OPT_HEADER..] == Rdata(r);
      FlattenLength(out);
      FlattenInjective(out, fs);
    }
  }

  // ---- Size -------------------------------------------------------------------

  function Overruns(os: seq<Edns0Option>): nat {
    if os == [] then 0 else Overrun(os[0]) + Overruns(os[1..])
  }

  // What wire_size counts too much: the header of each DO pseudo-option, short subnets.
  function Slack(os: seq<Edns0Option>): nat {
    if os == [] then 0 else (if os[0].DnssecOk? then 4 else Shortfall(os[0])) + Slack(os[1..])
  }

  lemma {:induction false} SizeOfFrames(os: seq<Edns0Option>)
    ensures |Flatten(FramesOf(os))| + Slack(os) == OptionSizes(os) + Overruns(os)
  {
    if os != [] {
      SizeOfFrames(os[1..]);
      if !os[0].DnssecOk? {
        AnnouncedLength(os[0]);
        FlattenFirst(Frame(Code(os[0]), Data(os[0])), FramesOf(os[1..]));
      }
    }
  }

  lemma FlattenFirst(f: Frame, fs: seq<Frame>)
    ensures |Flatten([f] + fs)| == 4 + |f.data| + |Flatten(fs)|
  {
    assert ([f] + fs)[1..] == fs;
  }

  lemma {:induction false} NoOverrun(os: seq<Edns0Option>)
    ensures Overruns(os) == 0 <==> forall i :: 0 <= i < |os| ==> !Mislabelled(os[i])
  {
    if os != [] {
      NoOverrun(os[1..]);
      AnnouncedLength(os[0]);
      assert forall i :: 0 <= i < |os| ==> os[i] == if i == 0 then os[0] else os[1..][i - 1];
      assert forall i :: 0 <= i < |os[1..]| ==> os[1..][i] == os[i + 1];
    }
  }

  // The option takes just the bytes wire_size counts for it, or more.
  predicate Filled(o: Edns0Option) {
    !o.DnssecOk? && (o.ClientSubnet? ==> WrittenOctets(o) >= AnnouncedOctets(o))
  }

  lemma {:induction false} NoSlack(os: seq<Edns0Option>)
    ensures Slack(os) == 0 <==> forall i :: 0 <= i < |os| ==> Filled(os[i])
  {
    if os != [] {
      NoSlack(os[1..]);
      assert forall i :: 0 <= i < |os| ==> os[i] == if i == 0 then os[0] else os[1..][i - 1];
      assert forall i :: 0 <= i < |os[1..]| ==> os[1..][i] == os[i + 1];
    }
  }

  /** wire_size bounds the serialized length exactly when mislabelled subnets write no more
      than the slack of the other options; so always when there are none, and then it is
      the length exactly when there is no DO pseudo-option and no short subnet. */
  lemma {:induction false} WireSizeBounds(r: OptRecord)
    ensures |Serialize(r)| <= WireSize(r) <==> Overruns(r.options) <= Slack(r.options)
    ensures (forall i :: 0 <= i < |r.options| ==> !Mislabelled(r.options[i])) ==>
      && |Serialize(r)| <= WireSize(r)
      && (|Serialize(r)| == WireSize(r) <==> forall i :: 0 <= i < |r.options| ==> Filled(r.options[i]))
  {
    SizeOfFrames(r.options);
    NoOverrun(r.options);
    NoSlack(r.options);
  }

  // Sixteen octets under a family that announces four.
  lemma WireSizeCanFallShort(size: u16)
    ensures
      var r := OptRecord(size, 0, 0, 0, [ClientSubnet(1, 128, 0, V6(Zeros(16)))]);
      |Serialize(r)| == WireSize(r) + 12
  {
    var o := ClientSubnet(1, 128, 0, V6(Zeros(16)));
    assert [o][1..] == [];
    SizeOfFrames([o]);
  }
}
