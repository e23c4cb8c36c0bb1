/**
 * Domain name compression (section 4.1.4 of RFC 1035): the writer that replaces a name's
 * known suffix by a pointer into the packet, the map of suffixes it keeps, and the
 * reader that follows pointers. Both work on names as text, whose labels are byte strings.
 */
module Compression {
  import opened Separators
  import opened Basics
  import opened Bytes
  import opened PacketWalk
  import Utf8

  type WireLabel = seq<byte>

  const MAXLABEL := 63
  const MAXDNAME := 1025
  const NAME_ESCAPE: byte := 1
  const DOT: byte := 46

  // ---- Labels on the wire -----------------------------------------------------

  function Escape(l: WireLabel): seq<byte> {
    if l == [] then []
    else
      (if l[0] == 0 || l[0] == DOT || l[0] == NAME_ESCAPE then [NAME_ESCAPE, l[0] + 1] else [l[0]])
      + Escape(l[1..])
  }

  function Unescape(s: seq<byte>): Option<WireLabel>
    decreases |s|
  {
    if s == [] then Some([])
    else if s[0] == NAME_ESCAPE then
      if |s| == 1 then None
      else
        match Unescape(s[2..])
        case None => None
        case Some(rest) => Some([if s[1] == 0 then 0xFF else s[1] - 1] + rest)
    else
      match Unescape(s[1..])
      case None => None
      case Some(rest) => Some([s[0]] + rest)
  }

  lemma {:induction false} UnescapeOfEscape(l: WireLabel)
    ensures Unescape(Escape(l)) == Some(l)
    ensures |l| <= |Escape(l)| <= 2 * |l|
  {
    if l != [] {
      UnescapeOfEscape(l[1..]);
      var e, rest := Escape(l), Escape(l[1..]);
      if l[0] == 0 || l[0] == DOT || l[0] == NAME_ESCAPE {
        assert e == [NAME_ESCAPE, l[0] + 1] + rest;
        assert e[2..] == rest;
      } else {
        assert e[1..] == rest;
      }
      assert [l[0]] + l[1..] == l;
    }
  }

  // The NUL byte, the escape byte and the dot are escaped, other bytes are not.
  lemma EscapeByte(b: byte)
    ensures Escape([b]) == if b == 0 || b == 1 || b == 46 then [1, b + 1] else [b]
  {
  }

  lemma {:induction false} EscapeAppend(a: WireLabel, b: WireLabel)
    ensures Escape(a + b) == Escape(a) + Escape(b)
  {
    if a == [] {
      assert a + b == b;
    } else {
      assert (a + b)[1..] == a[1..] + b && (a + b)[0] == a[0];
      EscapeAppend(a[1..], b);
    }
  }

  // A byte of a label on the wire, as itself or behind the escape byte.
  datatype Mark = Bare(b: byte) | Marked(b: byte)

  ghost predicate Proper(marks: seq<Mark>) {
    forall i :: 0 <= i < |marks| ==> (marks[i].Bare? ==> marks[i].b != 1)
  }

  function WriteMarks(marks: seq<Mark>): seq<byte> {
    if marks == [] then []
    else (if marks[0].Bare? then [marks[0].b] else [1, marks[0].b]) + WriteMarks(marks[1..])
  }

  // A marked byte is one more than the byte it stands for, modulo 256.
  function ReadMarks(marks: seq<Mark>): WireLabel {
    if marks == [] then []
    else [if marks[0].Bare? then marks[0].b else (marks[0].b + 255) % 256] + ReadMarks(marks[1..])
  }

  /** Unescaping reads the marks a label is made of, and fails exactly when the label ends
      in an escape byte that marks nothing. */
  lemma {:induction false} UnescapeReadsMarks(marks: seq<Mark>)
    requires Proper(marks)
    ensures Unescape(WriteMarks(marks)) == Some(ReadMarks(marks))
    ensures Unescape(WriteMarks(marks) + [1]) == None
  {
    if marks == [] {
      assert [] + [1] == [1];
    } else {
      var rest := marks[1..];
      assert Proper(rest) by { assert forall i :: 0 <= i < |rest| ==> rest[i] == marks[i + 1]; }
      UnescapeReadsMarks(rest);
      var first := if marks[0].Bare? then [marks[0].b] else [1, marks[0].b];
      UnescapeFirst(marks[0], WriteMarks(rest));
      UnescapeFirst(marks[0], WriteMarks(rest) + [1]);
      assert WriteMarks(marks) + [1] == first + (WriteMarks(rest) + [1]);
    }
  }

  lemma UnescapeFirst(mark: Mark, rest: seq<byte>)
    requires mark.Bare? ==> mark.b != 1
    ensures
      var first := if mark.Bare? then [mark.b] else [1, mark.b];
      Unescape(first + rest) ==
        match Unescape(rest)
        case None => None
        case Some(l) => Some([if mark.Bare? then mark.b else (mark.b + 255) % 256] + l)
  {
    if mark.Bare? {
      assert ([mark.b] + rest)[1..] == rest;
    } else {
      assert ([1, mark.b] + rest)[2..] == rest;
    }
  }

  // Every byte string is marks, perhaps with a lone escape byte behind them.
  lemma {:induction false} LabelHasMarks(s: seq<byte>) returns (marks: seq<Mark>, lone: bool)
    ensures Proper(marks) && s == WriteMarks(marks) + if lone then [1] else []
    decreases |s|
  {
    if s == [] {
      marks, lone := [], false;
    } else if s == [1] {
      marks, lone := [], true;
    } else {
      var n := if s[0] == 1 then 2 else 1;
      var rest;
      rest, lone := LabelHasMarks(s[n..]);
      marks := [if n == 2 then Marked(s[1]) else Bare(s[0])] + rest;
      assert marks[1..] == rest;
      assert s == s[..n] + s[n..];
      assert s[..n] == if n == 2 then [1, s[1]] else [s[0]];
    }
  }

  function HexDigit(n: nat): byte
    requires n < 16
  {
    if n < 10 then 48 + n else 55 + n
  }

  // A label that is not text is shown byte by byte, graphic characters as themselves.
  function Shown(s: seq<byte>): seq<byte> {
    if s == [] then []
    else
      (if 0x21 <= s[0] <= 0x7E && s[0] != 92 then [s[0]] else [92, 120, HexDigit(s[0] / 16), HexDigit(s[0] % 16)])
      + Shown(s[1..])
  }

  function LabelText(s: seq<byte>): seq<byte> {
    if Utf8.Valid(s) then s else Shown(s)
  }

  // Graphic characters but the backslash stand for themselves, other bytes are written
  // as a backslash, an x and two upper-case hexadecimal digits.
  lemma ShownByte(b: byte)
    ensures Shown([b]) ==
      if 33 <= b <= 126 && b != '\\' as int then [b]
      else ['\\' as int, 'x' as int, "0123456789ABCDEF"[b / 16] as int, "0123456789ABCDEF"[b % 16] as int]
  {
    DigitIsHex(b / 16);
    DigitIsHex(b % 16);
  }

  lemma DigitIsHex(n: nat)
    requires n < 16
    ensures HexDigit(n) == "0123456789ABCDEF"[n] as int
  {
    assert n == 0 || n == 1 || n == 2 || n == 3 || n == 4 || n == 5 || n == 6 || n == 7
           || n == 8 || n == 9 || n == 10 || n == 11 || n == 12 || n == 13 || n == 14 || n == 15;
  }

  lemma {:induction false} ShownAppend(a: seq<byte>, b: seq<byte>)
    ensures Shown(a + b) == Shown(a) + Shown(b)
  {
    if a == [] {
      assert a + b == b;
    } else {
      assert (a + b)[1..] == a[1..] + b && (a + b)[0] == a[0];
      ShownAppend(a[1..], b);
    }
  }

  // ---- The reader -------------------------------------------------------------

  // The labels of a name and where it ends, or why it cannot be read.
  type NameResult = Result<(nat, seq<WireLabel>), ReadError>

  datatype ReadError =
    | BeyondPacket
    | PointerCutShort
    | HopLimit
    | UnsupportedLabelType
    | LabelCutShort
    | BadEscape
    | NameTooLong

  // The text of the label at an offset.
  function LabelAt(packet: Packet, offset: nat): Result<WireLabel, ReadError>
    requires offset < |packet|
  {
    if packet[offset] > MAXLABEL then Err(UnsupportedLabelType)
    else if offset + 1 + packet[offset] > |packet| then Err(LabelCutShort)
    else
      match Unescape(packet[offset + 1..offset + 1 + packet[offset]])
      case None => Err(BadEscape)
      case Some(raw) => Ok(LabelText(raw))
  }

  // The labels from offset on, and where the name ends in place; `used` is the length of
  // the dotted text read so far.
  function ReadName(packet: Packet, offset: nat, hops: nat, ret: Option<nat>, used: nat)
    : NameResult
    requires hops <= MAX_HOPS
    decreases MAX_HOPS - hops, |packet| - offset
  {
    if offset >= |packet| then Err(BeyondPacket)
    else if packet[offset] == 0 then Ok((if ret.Some? then ret.value else offset + 1, []))
    else if IsPointer(packet[offset]) then
      if offset + 1 >= |packet| then Err(PointerCutShort)
      else if hops + 1 > MAX_HOPS then Err(HopLimit)
      else if Target(packet, offset) >= |packet| then Err(BeyondPacket)
      else ReadName(packet, Target(packet, offset), hops + 1, if ret.Some? then ret else Some(offset + 2), used)
    else
      match LabelAt(packet, offset)
      case Err(e) => Err(e)
      case Ok(text) =>
        if used + |text| + 1 > MAXDNAME then Err(NameTooLong)
        else Cons(text, ReadName(packet, offset + 1 + packet[offset], hops, ret, used + |text| + 1))
  }

  function Cons(l: WireLabel, rest: NameResult): NameResult {
    match rest
    case Err(e) => Err(e)
    case Ok(v) => Ok((v.0, [l] + v.1))
  }

  function ConsAll(ls: seq<WireLabel>, rest: NameResult): NameResult {
    match rest
    case Err(e) => Err(e)
    case Ok(v) => Ok((v.0, ls + v.1))
  }

  lemma ConsLast(ls: seq<WireLabel>, l: WireLabel, rest: NameResult)
    ensures ConsAll(ls, Cons(l, rest)) == ConsAll(ls + [l], rest)
    ensures ConsAll([], rest) == rest
  {
    if rest.Ok? {
      assert ls + ([l] + rest.value.1) == ls + [l] + rest.value.1;
      assert [] + rest.value.1 == rest.value.1;
    }
  }

  // Reading one label moves it from the rest of the name to the labels read.
  lemma LabelStep(
    packet: Packet, offset: nat, hops: nat, ret: Option<nat>, used: nat, labels: seq<WireLabel>, text: WireLabel,
    next: nat, used': nat)
    requires hops <= MAX_HOPS && offset < |packet| && packet[offset] != 0 && !IsPointer(packet[offset])
    requires LabelAt(packet, offset) == Ok(text) && used + |text| + 1 <= MAXDNAME
    requires next == offset + 1 + packet[offset] && used' == used + |text| + 1
    ensures ConsAll(labels, ReadName(packet, offset, hops, ret, used)) ==
            ConsAll(labels + [text], ReadName(packet, next, hops, ret, used'))
  {
    var rest := ReadName(packet, next, hops, ret, used');
    assert ReadName(packet, offset, hops, ret, used) == Cons(text, rest);
    ConsLast(labels, text, rest);
  }

  lemma PointerStep(packet: Packet, offset: nat, hops: nat, ret: Option<nat>, used: nat)
    requires hops < MAX_HOPS && offset + 1 < |packet| && IsPointer(packet[offset])
    requires Target(packet, offset) < |packet|
    ensures ReadName(packet, offset, hops, ret, used) ==
      ReadName(packet, Target(packet, offset), hops + 1, if ret.Some? then ret else Some(offset + 2), used)
  {
  }

  // The name as text: its labels with dots between them.
  function TextOf(ls: seq<WireLabel>): seq<byte> {
    if ls == [] then [] else JoinWith(ls, DOT)
  }

  function AsText(found: NameResult): Result<(nat, seq<byte>), ReadError> {
    match found
    case Err(e) => Err(e)
    case Ok(v) => Ok((v.0, TextOf(v.1)))
  }

  function ReadText(packet: Packet, offset: nat): Result<(nat, seq<byte>), ReadError> {
    AsText(ReadName(packet, offset, 0, None, 0))
  }

  // What the loop has built after these labels: a dot follows each.
  function Built(ls: seq<WireLabel>): seq<byte> {
    if ls == [] then [] else Built(ls[..|ls| - 1]) + ls[|ls| - 1] + [DOT]
  }

  lemma BuiltOneMore(ls: seq<WireLabel>, l: WireLabel)
    ensures Built(ls + [l]) == Built(ls) + l + [DOT]
  {
    assert (ls + [l])[..|ls|] == ls;
  }

  lemma {:induction false} JoinOneMore(ls: seq<WireLabel>, l: WireLabel)
    requires ls != []
    ensures JoinWith(ls + [l], DOT) == JoinWith(ls, DOT) + [DOT] + l
  {
    assert (ls + [l])[1..] == ls[1..] + [l];
    if |ls| > 1 { JoinOneMore(ls[1..], l); }
  }

  lemma {:induction false} BuiltIsDotted(ls: seq<WireLabel>)
    requires ls != []
    ensures Built(ls) == TextOf(ls) + [DOT]
  {
    var n := |ls| - 1;
    if n == 0 {
      assert Built(ls[..0]) + ls[0] == ls[0];
    } else {
      BuiltIsDotted(ls[..n]);
      JoinOneMore(ls[..n], ls[n]);
      assert ls[..n] + [ls[n]] == ls;
    }
  }

  // At the end of the name the last dot goes.
  function DropLastDot(text: seq<byte>): seq<byte> {
    if text != [] && text[|text| - 1] == DOT then text[..|text| - 1] else text
  }

  lemma BuiltIsText(ls: seq<WireLabel>)
    ensures DropLastDot(Built(ls)) == TextOf(ls)
  {
    if ls != [] { BuiltIsDotted(ls); }
  }

  // The loop's result at the null byte.
  lemma NameEndsHere(packet: Packet, offset: nat, hops: nat, ret: Option<nat>, labels: seq<WireLabel>)
    requires hops <= MAX_HOPS && offset < |packet| && packet[offset] == 0
    ensures AsText(ConsAll(labels, ReadName(packet, offset, hops, ret, |Built(labels)|))) ==
      Ok((if ret.Some? then ret.value else offset + 1, DropLastDot(Built(labels))))
  {
    assert labels + [] == labels;
    BuiltIsText(labels);
  }

  // The loop's state after a label.
  lemma LabelTurn(
    packet: Packet, offset: nat, hops: nat, ret: Option<nat>, labels: seq<WireLabel>, text: WireLabel, next: nat)
    requires hops <= MAX_HOPS && offset < |packet| && packet[offset] != 0 && !IsPointer(packet[offset])
    requires LabelAt(packet, offset) == Ok(text) && |Built(labels)| + |text| + 1 <= MAXDNAME
    requires next == offset + 1 + packet[offset]
    ensures Built(labels + [text]) == Built(labels) + text + [DOT]
    ensures ConsAll(labels, ReadName(packet, offset, hops, ret, |Built(labels)|)) ==
            ConsAll(labels + [text], ReadName(packet, next, hops, ret, |Built(labels + [text])|))
  {
    BuiltOneMore(labels, text);
    LabelStep(packet, offset, hops, ret, |Built(labels)|, labels, text, next, |Built(labels + [text])|);
  }

  method DecompressName(packet: Packet, start: nat) returns (r: Result<(nat, seq<byte>), ReadError>)
    ensures r == ReadText(packet, start)
  {
    var text: seq<byte> := [];
    var offset: nat, hops: nat := start, 0;
    var ret: Option<nat> := None;
    ghost var labels: seq<WireLabel> := [];
    ghost var whole := ReadName(packet, start, 0, None, 0);
    ConsLast([], [], whole);
    while true
      invariant hops <= MAX_HOPS && text == Built(labels)
      invariant whole == ConsAll(labels, ReadName(packet, offset, hops, ret, |text|))
      decreases MAX_HOPS - hops, |packet| - offset
    {
      if offset >= |packet| { return Err(BeyondPacket); }
      var len := packet[offset];
      if len == 0 {
        NameEndsHere(packet, offset, hops, ret, labels);
        return Ok((if ret.Some? then ret.value else offset + 1, DropLastDot(text)));
      }
      if IsPointer(len) {
        if offset + 1 >= |packet| { return Err(PointerCutShort); }
        var target := Target(packet, offset);
        if hops + 1 > MAX_HOPS { return Err(HopLimit); }
        if target >= |packet| { return Err(BeyondPacket); }
        PointerStep(packet, offset, hops, ret, |text|);
        ret, offset, hops := if ret.Some? then ret else Some(offset + 2), target, hops + 1;
        continue;
      }
      var found := LabelAt(packet, offset);
      if found.Err? { return Err(found.error); }
      var piece := found.value;
      var text' := text + piece + [DOT];
      if |text'| > MAXDNAME { return Err(NameTooLong); }
      LabelTurn(packet, offset, hops, ret, labels, piece, offset + 1 + len);
      labels := labels + [piece];
      text, offset := text', offset + 1 + len;
    }
  }

  // ---- The writer -------------------------------------------------------------

  // The cast `as u8`.
  function Truncate8(n: nat): (r: byte)
    ensures n < 0x100 ==> r == n
  {
    n % 0x100
  }

  function WireOf(l: WireLabel): seq<byte> {
    [Truncate8(|Escape(l)|)] + Escape(l)
  }

  // Labels without the terminator.
  function Encode(ls: seq<WireLabel>): seq<byte> {
    if ls == [] then [] else WireOf(ls[0]) + Encode(ls[1..])
  }

  // A whole name, as the suffix map knows it.
  function EncodeName(ls: seq<WireLabel>): seq<byte> {
    Encode(ls) + [0]
  }

  type SuffixMap = map<seq<byte>, nat>

  // The suffix is known at an offset a pointer can hold.
  predicate Known(m: SuffixMap, ls: seq<WireLabel>) {
    EncodeName(ls) in m && m[EncodeName(ls)] <= 0x3FFF
  }

  // The number of labels written before the rest of the name is known.
  function Fresh(m: SuffixMap, ls: seq<WireLabel>): (n: nat)
    ensures n <= |ls|
  {
    if ls == [] || Known(m, ls) then 0 else 1 + Fresh(m, ls[1..])
  }

  function Pointer(offset: nat): seq<byte>
    requires offset <= 0x3FFF
  {
    [0xC0 + offset / 0x100, offset % 0x100]
  }

  // A pointer to the known rest of the name, or the terminator.
  function Tail(m: SuffixMap, rest: seq<WireLabel>): seq<byte> {
    if rest != [] && Known(m, rest) then Pointer(m[EncodeName(rest)]) else [0]
  }

  // What the writer appends for a name.
  function Written(m: SuffixMap, ls: seq<WireLabel>): seq<byte> {
    Encode(ls[..Fresh(m, ls)]) + Tail(m, ls[Fresh(m, ls)..])
  }

  // Every suffix of a written name that starts at a label, up to a pointer or the end.
  function AddSuffixes(m: SuffixMap, name: seq<byte>, offset: nat, pos: nat): SuffixMap
    decreases |name| - pos
  {
    if pos >= |name| then m
    else
      var m' := m[name[pos..] := offset + pos];
      if name[pos] == 0 || name[pos] > MAXLABEL then m' else AddSuffixes(m', name, offset, pos + 1 + name[pos])
  }

  // A name already known as a whole adds nothing to the map, and neither does the root.
  function Learned(m: SuffixMap, ls: seq<WireLabel>, start: nat): SuffixMap {
    if Fresh(m, ls) == 0 then m else AddSuffixes(m, Written(m, ls), start, 0)
  }

  predicate Encodable(ls: seq<WireLabel>) {
    forall i :: 0 <= i < |ls| ==> |ls[i]| <= 63
  }

  // The labels of a name given as text: the root has none, trailing dots do not count.
  function TextLabels(name: seq<byte>): seq<WireLabel> {
    if name == [] || name == [DOT] then [] else SplitAt(TrimEnd(name, DOT), DOT)
  }

  // The number of labels before the first over-long one.
  function FirstLong(ls: seq<WireLabel>): (n: nat)
    ensures n <= |ls|
  {
    if ls == [] || |ls[0]| > MAXLABEL then 0 else 1 + FirstLong(ls[1..])
  }

  class Writer {
    var buffer: Packet
    var offsets: SuffixMap

    method AddName(name: seq<byte>, offset: nat)
      modifies this`offsets
      ensures offsets == AddSuffixes(old(offsets), name, offset, 0)
    {
      var pos: nat := 0;
      while pos < |name|
        invariant AddSuffixes(old(offsets), name, offset, 0) == AddSuffixes(offsets, name, offset, pos)
        decreases |name| - pos
      {
        offsets := offsets[name[pos..] := offset + pos];
        var len := name[pos];
        if len == 0 { return; }
        if len > MAXLABEL { return; }
        pos := pos + 1 + len;
      }
    }

    /** An over-long label is refused. With the suffix map that happens before anything is
        written; without it the labels before it stay in the buffer. */
    method CompressName(name: seq<byte>, useMap: bool) returns (ok: bool)
      modifies this
      ensures ok == Encodable(TextLabels(name))
      ensures ok ==>
        var m := if useMap then old(offsets) else map[];
        && buffer == old(buffer) + Written(m, TextLabels(name))
        && offsets == if useMap then Learned(m, TextLabels(name), |old(buffer)|) else old(offsets)
      ensures !ok ==>
        var ls := TextLabels(name);
        && buffer == (if useMap then old(buffer) else old(buffer) + Encode(ls[..FirstLong(ls)]))
        && offsets == old(offsets)
    {
      if name == [] || name == [DOT] {
        assert Written(map[], []) == [0] && Written(offsets, []) == [0];
        buffer := buffer + [0];
        return true;
      }
      var labels := SplitAt(TrimEnd(name, DOT), DOT);
      var start := |buffer|;
      var n, out;
      n, out, ok := WriteFresh(if useMap then Some(offsets) else None, labels);
      buffer := buffer + out;
      if !ok { return; }
      ghost var m := if useMap then offsets else map[];
      var tail := if useMap then Tail(offsets, labels[n..]) else [0];
      Associate(buffer[..start], out, tail);
      buffer := buffer + tail;
      assert out + tail == Written(m, labels);
      assert buffer[start..] == out + tail;
      if useMap && n > 0 { AddName(buffer[start..], start); }
    }
  }

  // The loop that writes labels until the rest of the name is known to the map, if any.
  method WriteFresh(offsets: Option<SuffixMap>, labels: seq<WireLabel>)
    returns (n: nat, out: seq<byte>, ok: bool)
    ensures ok == Encodable(labels)
    ensures n <= |labels| && out == Encode(labels[..n])
    ensures ok ==> n == Fresh(if offsets.Some? then offsets.value else map[], labels)
    ensures !ok ==> n == if offsets.Some? then 0 else FirstLong(labels)
  {
    n, out := 0, [];
    ghost var m := if offsets.Some? then offsets.value else map[];
    assert labels[0..] == labels;
    while n < |labels|
      invariant n <= |labels| && out == Encode(labels[..n])
      invariant Fresh(m, labels) == n + Fresh(m, labels[n..])
      invariant FirstLong(labels) == n + FirstLong(labels[n..])
      invariant forall i :: 0 <= i < n ==> |labels[i]| <= MAXLABEL
      invariant offsets.Some? && n > 0 ==> Encodable(labels)
    {
      FreshStep(m, labels, n);
      EncodableRest(labels, n);
      if offsets.Some? {
        if !Encodable(labels[n..]) { return n, out, false; }
        if Known(offsets.value, labels[n..]) { return n, out, true; }
      }
      if |labels[n]| > MAXLABEL { return n, out, false; }
      assert labels[n..][1..] == labels[n + 1..];
      EncodeStep(labels, n);
      out := out + WireOf(labels[n]);
      n := n + 1;
    }
    return n, out, true;
  }

  // The label refused is the first of more than 63 bytes.
  lemma {:induction false} FirstLongExactly(ls: seq<WireLabel>)
    ensures forall i :: 0 <= i < FirstLong(ls) ==> |ls[i]| <= 63
    ensures FirstLong(ls) < |ls| ==> |ls[FirstLong(ls)]| > 63
  {
    if ls != [] && |ls[0]| <= 63 {
      FirstLongExactly(ls[1..]);
      assert forall i :: 0 < i < |ls| ==> ls[i] == ls[1..][i - 1];
    }
  }

  lemma EncodableRest(ls: seq<WireLabel>, n: nat)
    requires n <= |ls| && forall i :: 0 <= i < n ==> |ls[i]| <= MAXLABEL
    ensures Encodable(ls[n..]) <==> Encodable(ls)
  {
    assert forall i :: n <= i < |ls| ==> ls[i] == ls[n..][i - n];
    assert forall i :: 0 <= i < |ls| - n ==> ls[n..][i] == ls[n + i];
  }

  lemma {:induction false} EncodeAppend(ls: seq<WireLabel>, l: WireLabel)
    ensures Encode(ls + [l]) == Encode(ls) + WireOf(l)
  {
    if ls == [] {
      assert [] + [l] == [l];
      assert [l][1..] == [];
    } else {
      assert (ls + [l])[1..] == ls[1..] + [l];
      EncodeAppend(ls[1..], l);
    }
  }

  lemma EncodeStep(ls: seq<WireLabel>, i: nat)
    requires i < |ls|
    ensures Encode(ls[..i + 1]) == Encode(ls[..i]) + WireOf(ls[i])
  {
    assert ls[..i + 1] == ls[..i] + [ls[i]];
    EncodeAppend(ls[..i], ls[i]);
  }

  lemma FreshStep(m: SuffixMap, ls: seq<WireLabel>, i: nat)
    requires i < |ls|
    ensures Fresh(m, ls[i..]) == if Known(m, ls[i..]) then 0 else 1 + Fresh(m, ls[i + 1..])
  {
    assert ls[i..][1..] == ls[i + 1..];
  }

  lemma {:induction false} FreshStopsAtKnown(m: SuffixMap, ls: seq<WireLabel>)
    ensures Fresh(m, ls) < |ls| ==> Known(m, ls[Fresh(m, ls)..])
  {
    if ls != [] {
      if Known(m, ls) {
        assert ls[0..] == ls;
      } else {
        FreshStopsAtKnown(m, ls[1..]);
        var n := Fresh(m, ls[1..]);
        assert ls[1..][n..] == ls[n + 1..];
      }
    }
  }

  // ---- The suffix map ---------------------------------------------------------

  // The bytes s stand in the packet at an offset.
  predicate At(packet: Packet, offset: nat, s: seq<byte>) {
    offset + |s| <= |packet| && packet[offset..offset + |s|] == s
  }

  lemma AtGrows(packet: Packet, offset: nat, s: seq<byte>, more: seq<byte>)
    requires At(packet, offset, s)
    ensures At(packet + more, offset, s)
  {
    assert (packet + more)[offset..offset + |s|] == packet[offset..offset + |s|];
  }

  lemma AtParts(packet: Packet, offset: nat, a: seq<byte>, b: seq<byte>)
    requires At(packet, offset, a + b)
    ensures At(packet, offset, a) && At(packet, offset + |a|, b)
  {
    var s := packet[offset..offset + |a| + |b|];
    assert s[..|a|] == packet[offset..offset + |a|];
    assert s[|a|..] == packet[offset + |a|..offset + |a| + |b|];
    assert (a + b)[..|a|] == a && (a + b)[|a|..] == b;
  }

  // Every suffix in the map is in the packet, at the offset the map gives.
  ghost predicate Sound(packet: Packet, m: SuffixMap) {
    forall k :: k in m ==> At(packet, m[k], k)
  }

  // Appending to the packet keeps it so.
  lemma SoundGrows(packet: Packet, m: SuffixMap, more: seq<byte>)
    requires Sound(packet, m)
    ensures Sound(packet + more, m)
  {
    forall k | k in m ensures At(packet + more, m[k], k) { AtGrows(packet, m[k], k, more); }
  }

  lemma SoundAdd(packet: Packet, m: SuffixMap, k: seq<byte>, offset: nat)
    requires Sound(packet, m) && At(packet, offset, k)
    ensures Sound(packet, m[k := offset])
  {
  }

  lemma SuffixStands(packet: Packet, name: seq<byte>, offset: nat, pos: nat)
    requires At(packet, offset, name) && pos <= |name|
    ensures At(packet, offset + pos, name[pos..])
  {
    assert name == name[..pos] + name[pos..];
    AtParts(packet, offset, name[..pos], name[pos..]);
  }

  lemma {:induction false} AddSuffixesIsSound(packet: Packet, m: SuffixMap, name: seq<byte>, offset: nat, pos: nat)
    requires Sound(packet, m) && At(packet, offset, name)
    ensures Sound(packet, AddSuffixes(m, name, offset, pos))
    decreases |name| - pos
  {
    if pos < |name| {
      var m' := m[name[pos..] := offset + pos];
      SuffixStands(packet, name, offset, pos);
      SoundAdd(packet, m, name[pos..], offset + pos);
      if name[pos] != 0 && name[pos] <= MAXLABEL {
        AddSuffixesIsSound(packet, m', name, offset, pos + 1 + name[pos]);
        assert AddSuffixes(m, name, offset, pos) == AddSuffixes(m', name, offset, pos + 1 + name[pos]);
      } else {
        assert AddSuffixes(m, name, offset, pos) == m';
      }
    }
  }

  // Writing a name keeps the map sound.
  lemma WritingIsSound(packet: Packet, m: SuffixMap, ls: seq<WireLabel>)
    requires Sound(packet, m)
    ensures Sound(packet + Written(m, ls), Learned(m, ls, |packet|))
  {
    var w := Written(m, ls);
    SoundGrows(packet, m, w);
    assert (packet + w)[|packet|..|packet| + |w|] == w;
    AddSuffixesIsSound(packet + w, m, w, |packet|, 0);
  }

  // ---- Reading what was written -----------------------------------------------

  /** What the reader makes of a name written label by label: it stops at an empty label,
      and refuses a label whose escaped form is too long or a name that is. */
  function Reading(ls: seq<WireLabel>, used: nat): Result<seq<WireLabel>, ReadError> {
    if ls == [] || ls[0] == [] then Ok([])
    else if |Escape(ls[0])| > MAXLABEL then Err(UnsupportedLabelType)
    else if used + |ls[0]| + 1 > MAXDNAME then Err(NameTooLong)
    else
      Prepend(ls[0], Reading(ls[1..], used + |ls[0]| + 1))
  }

  function Prepend(l: WireLabel, rest: Result<seq<WireLabel>, ReadError>): Result<seq<WireLabel>, ReadError> {
    match rest
    case Err(e) => Err(e)
    case Ok(ls) => Ok([l] + ls)
  }

  // The length of the dotted name, with a dot after every label.
  function Dotted(ls: seq<WireLabel>): nat {
    if ls == [] then 0 else |ls[0]| + 1 + Dotted(ls[1..])
  }

  // Names the packet format can carry.
  predicate Carried(ls: seq<WireLabel>) {
    && (forall i :: 0 <= i < |ls| ==> 1 <= |ls[i]| && |Escape(ls[i])| <= 63)
    && Dotted(ls) <= 1025
  }

  lemma {:induction false} ReadingGivesCarried(ls: seq<WireLabel>, used: nat)
    ensures Reading(ls, used) == Ok(ls) <==>
      && (forall i :: 0 <= i < |ls| ==> 1 <= |ls[i]| && |Escape(ls[i])| <= 63)
      && (ls == [] || used + Dotted(ls) <= 1025)
  {
    if ls != [] {
      var rest := ls[1..];
      assert ls == [ls[0]] + rest;
      ReadingGivesCarried(rest, used + |ls[0]| + 1);
      assert forall i :: 0 < i < |ls| ==> ls[i] == rest[i - 1];
      assert forall i :: 0 <= i < |rest| ==> rest[i] == ls[i + 1];
      if Reading(ls, used) == Ok(ls) {
        assert Reading(ls, used).value[1..] == rest;
      }
    }
  }

  // Labels as a Rust string holds them, each short enough for the writer.
  predicate FromText(ls: seq<WireLabel>) {
    forall i :: 0 <= i < |ls| ==> |ls[i]| <= MAXLABEL && Utf8.Valid(ls[i])
  }

  /** From this offset the reader sees the labels `ls`, in the sense of `Reading`, and if
      it gets them all the name ends at `end`. */
  ghost predicate ReadsAs(
    packet: Packet, offset: nat, hops: nat, ret: Option<nat>, used: nat, ls: seq<WireLabel>, end: nat)
    requires hops <= MAX_HOPS
  {
    Agrees(ReadName(packet, offset, hops, ret, used), Reading(ls, used), ls, end)
  }

  ghost predicate Agrees(
    found: NameResult, want: Result<seq<WireLabel>, ReadError>, ls: seq<WireLabel>, end: nat)
  {
    match found
    case Err(e) => want == Err(e)
    case Ok(v) => want == Ok(v.1) && (v.1 == ls ==> v.0 == end)
  }

  lemma AgreesCons(
    found: NameResult, want: Result<seq<WireLabel>, ReadError>, l: WireLabel, ls: seq<WireLabel>, end: nat)
    requires Agrees(found, want, ls, end)
    ensures Agrees(Cons(l, found), Prepend(l, want), [l] + ls, end)
  {
    if found.Ok? { ConsInjective(l, found.value.1, ls); }
  }

  // The length byte and the bytes of a label, as they stand in the packet.
  lemma LabelBytes(packet: Packet, offset: nat, l: WireLabel)
    requires At(packet, offset, WireOf(l)) && |l| <= MAXLABEL
    ensures packet[offset] == |Escape(l)| <= 126 && offset + 1 + |Escape(l)| <= |packet|
    ensures packet[offset + 1..offset + 1 + |Escape(l)|] == Escape(l)
  {
    UnescapeOfEscape(l);
    AtParts(packet, offset, [Truncate8(|Escape(l)|)], Escape(l));
    assert packet[offset..offset + 1][0] == |Escape(l)|;
  }

  lemma LabelReadsBack(packet: Packet, offset: nat, l: WireLabel)
    requires At(packet, offset, WireOf(l)) && |l| <= MAXLABEL && Utf8.Valid(l)
    ensures packet[offset] == |Escape(l)| <= 126
    ensures LabelAt(packet, offset) == if |Escape(l)| > MAXLABEL then Err(UnsupportedLabelType) else Ok(l)
  {
    LabelBytes(packet, offset, l);
    UnescapeOfEscape(l);
  }

  lemma LabelUnfolds(
    packet: Packet, offset: nat, hops: nat, ret: Option<nat>, used: nat, l: WireLabel, n: nat, used': nat)
    requires hops <= MAX_HOPS && offset < |packet| && packet[offset] == n <= 126 && (n == 0 <==> l == [])
    requires LabelAt(packet, offset) == if n > MAXLABEL then Err(UnsupportedLabelType) else Ok(l)
    requires used' == used + |l| + 1
    ensures ReadName(packet, offset, hops, ret, used) ==
      if l == [] then Ok((if ret.Some? then ret.value else offset + 1, []))
      else if n > MAXLABEL then Err(UnsupportedLabelType)
      else if used' > MAXDNAME then Err(NameTooLong)
      else Cons(l, ReadName(packet, offset + 1 + n, hops, ret, used'))
  {
  }

  lemma WrittenLabelUnfolds(
    packet: Packet, offset: nat, hops: nat, ret: Option<nat>, used: nat, l: WireLabel, next: nat, used': nat)
    requires hops <= MAX_HOPS && |l| <= MAXLABEL && Utf8.Valid(l) && At(packet, offset, WireOf(l))
    requires next == offset + |WireOf(l)| && used' == used + |l| + 1
    ensures ReadName(packet, offset, hops, ret, used) ==
      if l == [] then Ok((if ret.Some? then ret.value else offset + 1, []))
      else if |Escape(l)| > MAXLABEL then Err(UnsupportedLabelType)
      else if used' > MAXDNAME then Err(NameTooLong)
      else Cons(l, ReadName(packet, next, hops, ret, used'))
  {
    LabelReadsBack(packet, offset, l);
    UnescapeOfEscape(l);
    LabelUnfolds(packet, offset, hops, ret, used, l, |Escape(l)|, used');
  }

  // One label, then whatever follows it.
  lemma LabelReadsThrough(
    packet: Packet, offset: nat, hops: nat, ret: Option<nat>, used: nat, l: WireLabel, ls: seq<WireLabel>, end: nat,
    next: nat, used': nat)
    requires hops <= MAX_HOPS && |l| <= MAXLABEL && Utf8.Valid(l)
    requires At(packet, offset, WireOf(l))
    requires next == offset + |WireOf(l)| && used' == used + |l| + 1
    requires ReadsAs(packet, next, hops, ret, used', ls, end)
    ensures ReadsAs(packet, offset, hops, ret, used, [l] + ls, end)
  {
    WrittenLabelUnfolds(packet, offset, hops, ret, used, l, next, used');
    ReadingUnfolds(l, ls, used);
    var found, want := ReadName(packet, next, hops, ret, used'), Reading(ls, used');
    AgreesCons(found, want, l, ls, end);
    var found', want' := ReadName(packet, offset, hops, ret, used), Reading([l] + ls, used);
    assert Agrees(found', want', [l] + ls, end) by {
      if l != [] && |Escape(l)| <= MAXLABEL && used' <= MAXDNAME {
        assert found' == Cons(l, found) && want' == Prepend(l, want);
      }
    }
  }

  lemma ReadingUnfolds(l: WireLabel, ls: seq<WireLabel>, used: nat)
    ensures Reading([l] + ls, used) ==
      if l == [] then Ok([])
      else if |Escape(l)| > MAXLABEL then Err(UnsupportedLabelType)
      else if used + |l| + 1 > MAXDNAME then Err(NameTooLong)
      else Prepend(l, Reading(ls, used + |l| + 1))
  {
    assert ([l] + ls)[1..] == ls;
  }

  lemma ConsInjective(l: WireLabel, a: seq<WireLabel>, b: seq<WireLabel>)
    ensures [l] + a == [l] + b <==> a == b
  {
    assert ([l] + a)[1..] == a && ([l] + b)[1..] == b;
  }

  // Labels written one after another read as themselves, then as whatever follows them.
  lemma {:induction false} LabelsReadThrough(
    packet: Packet, offset: nat, hops: nat, ret: Option<nat>, used: nat, a: seq<WireLabel>, b: seq<WireLabel>, end: nat,
    stop: nat, total: nat)
    requires hops <= MAX_HOPS && FromText(a)
    requires At(packet, offset, Encode(a))
    requires stop == offset + |Encode(a)| && total == used + Dotted(a)
    requires ReadsAs(packet, stop, hops, ret, total, b, end)
    ensures ReadsAs(packet, offset, hops, ret, used, a + b, end)
    decreases |a|
  {
    if a == [] {
      assert a + b == b;
    } else {
      var l, rest := a[0], a[1..];
      var next, used' := offset + |WireOf(l)|, used + |l| + 1;
      FirstLabel(packet, offset, a, b);
      LabelsReadThrough(packet, next, hops, ret, used', rest, b, end, stop, total);
      LabelReadsThrough(packet, offset, hops, ret, used, l, rest + b, end, next, used');
    }
  }

  // Labels written one after another: the first and the rest.
  lemma FirstLabel(packet: Packet, offset: nat, a: seq<WireLabel>, b: seq<WireLabel>)
    requires a != [] && FromText(a) && At(packet, offset, Encode(a))
    ensures |a[0]| <= MAXLABEL && Utf8.Valid(a[0]) && FromText(a[1..])
    ensures At(packet, offset, WireOf(a[0])) && At(packet, offset + |WireOf(a[0])|, Encode(a[1..]))
    ensures |Encode(a)| == |WireOf(a[0])| + |Encode(a[1..])|
    ensures a + b == [a[0]] + (a[1..] + b)
  {
    AtParts(packet, offset, WireOf(a[0]), Encode(a[1..]));
    assert forall i :: 0 <= i < |a[1..]| ==> a[1..][i] == a[i + 1];
    HeadFirst(a, b);
  }

  lemma HeadFirst(a: seq<WireLabel>, b: seq<WireLabel>)
    requires a != []
    ensures a + b == [a[0]] + (a[1..] + b)
  {
  }

  lemma TakeAndDrop(ls: seq<WireLabel>, n: nat)
    requires n <= |ls|
    ensures ls[..n] + ls[n..] == ls
  {
  }

  // A name written out in full.
  lemma NameReadsBack(packet: Packet, offset: nat, hops: nat, ret: Option<nat>, used: nat, ls: seq<WireLabel>)
    requires hops <= MAX_HOPS && FromText(ls)
    requires At(packet, offset, EncodeName(ls))
    ensures ReadsAs(packet, offset, hops, ret, used, ls,
                    if ret.Some? then ret.value else offset + |EncodeName(ls)|)
  {
    var stop := offset + |Encode(ls)|;
    AtParts(packet, offset, Encode(ls), [0]);
    assert packet[stop..stop + 1][0] == 0;
    var end := if ret.Some? then ret.value else stop + 1;
    LabelsReadThrough(packet, offset, hops, ret, used, ls, [], end, stop, used + Dotted(ls));
    assert ls + [] == ls;
  }

  lemma PointerReadsBack(packet: Packet, offset: nat, target: nat)
    requires target <= 0x3FFF && At(packet, offset, Pointer(target))
    ensures IsPointer(packet[offset]) && Target(packet, offset) == target
  {
    var w := packet[offset..offset + 2];
    assert packet[offset] == w[0] && packet[offset + 1] == w[1];
  }

  // A name written as labels and a pointer to the rest.
  lemma PointedNameReadsBack(packet: Packet, offset: nat, a: seq<WireLabel>, b: seq<WireLabel>, target: nat)
    requires FromText(a) && FromText(b) && target <= 0x3FFF
    requires At(packet, offset, Encode(a) + Pointer(target))
    requires At(packet, target, EncodeName(b))
    ensures ReadsAs(packet, offset, 0, None, 0, a + b, offset + |Encode(a)| + 2)
  {
    var p := offset + |Encode(a)|;
    AtParts(packet, offset, Encode(a), Pointer(target));
    PointerReadsBack(packet, p, target);
    NameReadsBack(packet, target, 1, Some(p + 2), Dotted(a), b);
    assert ReadName(packet, p, 0, None, Dotted(a)) == ReadName(packet, target, 1, Some(p + 2), Dotted(a));
    LabelsReadThrough(packet, offset, 0, None, 0, a, b, p + 2, p, Dotted(a));
  }

  // Whatever the map says stands in the packet, a written name reads as its labels.
  lemma WrittenReadsAs(packet: Packet, offset: nat, m: SuffixMap, ls: seq<WireLabel>)
    requires Sound(packet, m) && FromText(ls) && At(packet, offset, Written(m, ls))
    ensures ReadsAs(packet, offset, 0, None, 0, ls, offset + |Written(m, ls)|)
  {
    var n := Fresh(m, ls);
    FreshStopsAtKnown(m, ls);
    if n == |ls| {
      assert ls[..n] == ls && ls[n..] == [];
      NameReadsBack(packet, offset, 0, None, 0, ls);
    } else {
      var k := EncodeName(ls[n..]);
      PointedNameReadsBack(packet, offset, ls[..n], ls[n..], m[k]);
      TakeAndDrop(ls, n);
    }
  }

  // ---- Names as text ----------------------------------------------------------

  // The reader returns the labels before the first empty one.
  lemma {:induction false} ReadingIsPrefix(ls: seq<WireLabel>, used: nat)
    requires Reading(ls, used).Ok?
    ensures var v := Reading(ls, used).value;
      && |v| <= |ls| && v == ls[..|v|]
      && (v == [] && ls != [] ==> ls[0] == [])
  {
    if ls != [] && ls[0] != [] {
      ReadingIsPrefix(ls[1..], used + |ls[0]| + 1);
    }
  }

  ghost predicate DotFree(ls: seq<WireLabel>) {
    forall l :: l in ls ==> DOT !in l
  }

  // The labels of a name of nothing but dots, two at least.
  predicate OnlyDots(ls: seq<WireLabel>) {
    |ls| == 1 && ls[0] == []
  }

  // Fewer labels make another text, unless the name is nothing but dots.
  lemma PrefixTextDiffers(ls: seq<WireLabel>, n: nat)
    requires n < |ls| && DotFree(ls) && (n == 0 ==> ls[0] == []) && !OnlyDots(ls)
    ensures TextOf(ls[..n]) != TextOf(ls)
  {
    if n > 0 {
      assert forall l :: l in ls[..n] ==> l in ls;
      SplitOfJoinWith(ls, DOT);
      SplitOfJoinWith(ls[..n], DOT);
    } else {
      assert JoinWith(ls, DOT) == ls[0] + [DOT] + JoinWith(ls[1..], DOT);
    }
  }

  lemma ReadingTextDiffers(ls: seq<WireLabel>)
    requires DotFree(ls) && !OnlyDots(ls) && Reading(ls, 0).Ok? && Reading(ls, 0) != Ok(ls)
    ensures TextOf(Reading(ls, 0).value) != TextOf(ls)
  {
    var v := Reading(ls, 0).value;
    ReadingIsPrefix(ls, 0);
    assert ls[..|ls|] == ls;
    PrefixTextDiffers(ls, |v|);
  }

  lemma CarriedIsRead(ls: seq<WireLabel>)
    ensures Carried(ls) <==> Reading(ls, 0) == Ok(ls)
  {
    ReadingGivesCarried(ls, 0);
  }

  lemma AgreeingText(found: NameResult, ls: seq<WireLabel>, end: nat)
    requires DotFree(ls) && !OnlyDots(ls) && Agrees(found, Reading(ls, 0), ls, end)
    ensures AsText(found) == Ok((end, TextOf(ls))) <==> Carried(ls)
  {
    CarriedIsRead(ls);
    if Reading(ls, 0).Ok? && Reading(ls, 0) != Ok(ls) { ReadingTextDiffers(ls); }
  }

  // A name of nothing but dots is written as an empty label.
  lemma DotsAreTwoBytes(m: SuffixMap, ls: seq<WireLabel>)
    requires OnlyDots(ls)
    ensures EncodeName(ls) == [0, 0]
    ensures Written(m, ls) == if Known(m, ls) then Pointer(m[EncodeName(ls)]) else [0, 0]
  {
    assert ls[1..] == [] && ls[..0] == [] && ls[0..] == ls && ls[..1] == ls;
    assert Encode(ls) == [0];
  }

  lemma NullReadsBack(packet: Packet, offset: nat, hops: nat, ret: Option<nat>)
    requires hops <= MAX_HOPS && At(packet, offset, [0, 0])
    ensures ReadName(packet, offset, hops, ret, 0) == Ok((if ret.Some? then ret.value else offset + 1, []))
  {
    assert packet[offset..offset + 2][0] == 0;
  }

  // Read in place it ends a byte early; read through a pointer it ends where it should.
  lemma DotsReadBack(packet: Packet, offset: nat, m: SuffixMap, ls: seq<WireLabel>)
    requires Sound(packet, m) && OnlyDots(ls) && At(packet, offset, Written(m, ls))
    ensures ReadName(packet, offset, 0, None, 0) == Ok((offset + if Known(m, ls) then 2 else 1, []))
  {
    DotsAreTwoBytes(m, ls);
    if Known(m, ls) {
      var target := m[EncodeName(ls)];
      PointerReadsBack(packet, offset, target);
      NullReadsBack(packet, target, 1, Some(offset + 2));
    } else {
      NullReadsBack(packet, offset, 0, None);
    }
  }

  /** The labels come back: they are carried, or the name is all dots, two at least, and
      was written before. */
  predicate Returns(m: SuffixMap, ls: seq<WireLabel>) {
    Carried(ls) || (OnlyDots(ls) && Known(m, ls))
  }

  // The text reads back from an offset, and the reader stops at `end`.
  predicate ReadsText(packet: Packet, offset: nat, end: nat, text: seq<byte>) {
    ReadText(packet, offset) == Ok((end, text))
  }

  lemma DotsReturn(packet: Packet, offset: nat, m: SuffixMap, ls: seq<WireLabel>, end: nat)
    requires Sound(packet, m) && OnlyDots(ls) && At(packet, offset, Written(m, ls))
    requires end == offset + |Written(m, ls)|
    ensures ReadsText(packet, offset, end, []) <==> Returns(m, ls)
  {
    DotsAreTwoBytes(m, ls);
    DotsReadBack(packet, offset, m, ls);
    assert ReadText(packet, offset) == Ok((offset + if Known(m, ls) then 2 else 1, []));
  }

  lemma OtherLabelsReturn(packet: Packet, offset: nat, m: SuffixMap, ls: seq<WireLabel>, end: nat)
    requires DotFree(ls) && !OnlyDots(ls) && ReadsAs(packet, offset, 0, None, 0, ls, end)
    ensures ReadsText(packet, offset, end, TextOf(ls)) <==> Returns(m, ls)
  {
    AgreeingText(ReadName(packet, offset, 0, None, 0), ls, end);
  }

  lemma LabelsReturn(packet: Packet, offset: nat, m: SuffixMap, ls: seq<WireLabel>, end: nat, text: seq<byte>)
    requires Sound(packet, m) && FromText(ls) && DotFree(ls) && At(packet, offset, Written(m, ls))
    requires end == offset + |Written(m, ls)| && text == TextOf(ls)
    ensures ReadsText(packet, offset, end, text) <==> Returns(m, ls)
  {
    if OnlyDots(ls) {
      DotsReturn(packet, offset, m, ls, end);
    } else {
      WrittenReadsAs(packet, offset, m, ls);
      OtherLabelsReturn(packet, offset, m, ls, end);
    }
  }

  // The labels of text are text without dots, and the text is their join.
  lemma LabelsOfText(name: Utf8.Text)
    requires Encodable(TextLabels(name))
    ensures FromText(TextLabels(name)) && DotFree(TextLabels(name))
    ensures TextOf(TextLabels(name)) == TrimEnd(name, DOT)
  {
    if TextLabels(name) != [] {
      Utf8.TrimmedIsText(name, DOT);
      JoinOfSplitAt(TrimEnd(name, DOT), DOT);
      Utf8.PiecesAreText(TextLabels(name), DOT);
    }
  }

  /** A name written with compression reads back as the same text without its trailing
      dots, and the reader stops behind it, from any packet where the written bytes and
      what the map says still stand, exactly in the cases of `Returns`. */
  lemma TextReadsBack(packet: Packet, offset: nat, m: SuffixMap, name: Utf8.Text, end: nat)
    requires Encodable(TextLabels(name))
    requires Sound(packet, m) && At(packet, offset, Written(m, TextLabels(name)))
    requires end == offset + |Written(m, TextLabels(name))|
    ensures ReadsText(packet, offset, end, TrimEnd(name, DOT)) <==> Returns(m, TextLabels(name))
  {
    LabelsOfText(name);
    LabelsReturn(packet, offset, m, TextLabels(name), end, TrimEnd(name, DOT));
  }

  // ---- Whole messages ---------------------------------------------------------

  // What a message writer appends: names, with or without the map, and other bytes.
  datatype Piece = Name(name: Utf8.Text, useMap: bool) | Raw(bytes: seq<byte>)

  datatype Message = Message(packet: Packet, m: SuffixMap)

  // The map a name is written against.
  function MapFor(msg: Message, piece: Piece): SuffixMap
    requires piece.Name?
  {
    if piece.useMap then msg.m else map[]
  }

  // The bytes a piece adds; a refused name adds the labels written before the refusal.
  function Added(msg: Message, piece: Piece): seq<byte> {
    match piece
    case Raw(bytes) => bytes
    case Name(name, useMap) =>
      var ls := TextLabels(name);
      if Encodable(ls) then Written(MapFor(msg, piece), ls)
      else if useMap then []
      else Encode(ls[..FirstLong(ls)])
  }

  function Append(msg: Message, piece: Piece): Message {
    var m := if piece.Name? && piece.useMap && Encodable(TextLabels(piece.name))
             then Learned(msg.m, TextLabels(piece.name), |msg.packet|) else msg.m;
    Message(msg.packet + Added(msg, piece), m)
  }

  function Build(pieces: seq<Piece>): Message {
    if pieces == [] then Message([], map[]) else Append(Build(pieces[..|pieces| - 1]), pieces[|pieces| - 1])
  }

  lemma AppendIsSound(msg: Message, piece: Piece)
    requires Sound(msg.packet, msg.m)
    ensures Sound(Append(msg, piece).packet, Append(msg, piece).m)
  {
    SoundGrows(msg.packet, msg.m, Added(msg, piece));
    if piece.Name? && piece.useMap && Encodable(TextLabels(piece.name)) {
      WritingIsSound(msg.packet, msg.m, TextLabels(piece.name));
    }
  }

  lemma {:induction false} BuildIsSound(pieces: seq<Piece>)
    ensures Sound(Build(pieces).packet, Build(pieces).m)
  {
    if pieces != [] {
      BuildIsSound(pieces[..|pieces| - 1]);
      AppendIsSound(Build(pieces[..|pieces| - 1]), pieces[|pieces| - 1]);
    }
  }

  lemma Associate(a: seq<byte>, b: seq<byte>, c: seq<byte>)
    ensures a + b + c == a + (b + c)
  {
  }

  lemma {:induction false} BuildOnlyAppends(pieces: seq<Piece>, i: nat) returns (more: seq<byte>)
    requires i <= |pieces|
    ensures Build(pieces).packet == Build(pieces[..i]).packet + more
  {
    if i == |pieces| {
      assert pieces[..i] == pieces;
      more := [];
    } else {
      var rest, piece := pieces[..|pieces| - 1], pieces[|pieces| - 1];
      var before := BuildOnlyAppends(rest, i);
      assert rest[..i] == pieces[..i];
      var last := Added(Build(rest), piece);
      assert Build(pieces).packet == Build(rest).packet + last;
      more := before + last;
      Associate(Build(pieces[..i]).packet, before, last);
    }
  }

  /** Every name accepted into a message reads back as the text given, without trailing
      dots, from the finished packet at the offset where it was written, whatever was
      written before, between and after, and the reader stops where the next piece begins,
      exactly in the cases of `Returns`. */
  lemma EveryNameReadsBack(pieces: seq<Piece>, i: nat)
    requires i < |pieces| && pieces[i].Name? && Encodable(TextLabels(pieces[i].name))
    ensures
      var ls, msg := TextLabels(pieces[i].name), Build(pieces[..i]);
      ReadsText(Build(pieces).packet, |msg.packet|, |Build(pieces[..i + 1]).packet|, TrimEnd(pieces[i].name, DOT))
      <==> Returns(MapFor(msg, pieces[i]), ls)
  {
    var more := BuildOnlyAppends(pieces, i + 1);
    BuildIsSound(pieces[..i]);
    BuildNext(pieces, i);
    var msg, next := Build(pieces[..i]), Build(pieces[..i + 1]);
    AppendedStands(msg, pieces[i], next, Build(pieces).packet, more);
    TextReadsBack(Build(pieces).packet, |msg.packet|, MapFor(msg, pieces[i]), pieces[i].name, |next.packet|);
  }

  lemma WrittenStands(packet: Packet, w: seq<byte>, more: seq<byte>)
    ensures At(packet + w + more, |packet|, w)
  {
    assert (packet + w + more)[|packet|..|packet| + |w|] == w;
  }

  lemma AppendedStands(msg: Message, piece: Piece, next: Message, whole: Packet, more: seq<byte>)
    requires Sound(msg.packet, msg.m) && piece.Name? && Encodable(TextLabels(piece.name))
    requires next == Append(msg, piece) && whole == next.packet + more
    ensures
      var m := MapFor(msg, piece);
      var w := Written(m, TextLabels(piece.name));
      Sound(whole, m) && At(whole, |msg.packet|, w) && |next.packet| == |msg.packet| + |w|
  {
    var m := MapFor(msg, piece);
    var w := Added(msg, piece);
    Associate(msg.packet, w, more);
    SoundGrows(msg.packet, m, w + more);
    WrittenStands(msg.packet, w, more);
  }

  lemma BuildNext(pieces: seq<Piece>, i: nat)
    requires i < |pieces|
    ensures Build(pieces[..i + 1]) == Append(Build(pieces[..i]), pieces[i])
  {
    assert pieces[..i + 1][..i] == pieces[..i];
  }

  // Forty NUL bytes fit a label but their escaped form does not: the name is written and
  // cannot be read.
  lemma EscapingCanBreakAName()
    ensures
      var name: seq<byte> := seq(40, _ => 0);
      && Utf8.Valid(name)
      && Encodable(TextLabels(name))
      && ReadText([] + Written(map[], TextLabels(name)) + [], 0) == Err(UnsupportedLabelType)
  {
    var name: seq<byte> := seq(40, _ => 0);
    var ls: seq<WireLabel> := [name];
    NulText(40);
    NulEscape(40);
    assert DOT !in name;
    assert JoinWith(ls, DOT) == name;
    SplitOfJoinWith(ls, DOT);
    assert TextLabels(name) == ls;
    var empty: SuffixMap := map[];
    WrittenStands([], Written(empty, ls), []);
    WrittenReadsAs([] + Written(empty, ls) + [], 0, empty, ls);
    assert Reading(ls, 0) == Err(UnsupportedLabelType);
  }

  // The empty name and the single dot are the root: one null byte, and nothing to learn. A
  // name known as a whole teaches nothing either, and is written as a pointer.
  lemma RootAndKnownNames(m: SuffixMap, ls: seq<WireLabel>, start: nat)
    ensures TextLabels([]) == [] && TextLabels([DOT]) == []
    ensures Written(m, []) == [0] && Learned(m, [], start) == m
    ensures ls != [] && Known(m, ls) ==> Written(m, ls) == Pointer(m[EncodeName(ls)]) && Learned(m, ls, start) == m
  {
    if ls != [] && Known(m, ls) { assert ls[..0] == [] && ls[0..] == ls; }
  }

  // Two dots are written as an empty label, and the reader stops a byte early.
  lemma TwoDotsEndEarly()
    ensures
      var name: seq<byte> := [DOT, DOT];
      && TextLabels(name) == [[]]
      && Written(map[], TextLabels(name)) == [0, 0]
      && ReadText([0, 0], 0) == Ok((1, []))
  {
    var name: seq<byte> := [DOT, DOT];
    assert name[..1] == [DOT] && [DOT][..0] == [];
    assert TrimEnd([DOT], DOT) == [];
    assert TrimEnd(name, DOT) == [];
    assert TextLabels(name) == [[]];
    DotsAreTwoBytes(map[], [[]]);
    NullReadsBack([0, 0], 0, 0, None);
  }

  lemma {:induction false} NulText(n: nat)
    ensures Utf8.Valid(seq(n, _ => 0))
  {
    if n > 0 {
      var s: seq<byte> := seq(n, _ => 0);
      NulText(n - 1);
      assert s[1..] == seq(n - 1, _ => 0);
    }
  }

  lemma {:induction false} NulEscape(n: nat)
    ensures |Escape(seq(n, _ => 0))| == 2 * n
  {
    if n > 0 {
      var s: seq<byte> := seq(n, _ => 0);
      NulEscape(n - 1);
      assert s[1..] == seq(n - 1, _ => 0);
    }
  }
}
