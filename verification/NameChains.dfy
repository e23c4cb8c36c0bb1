/**
 * The name reader against the chains of offsets a name is made of: what it returns, where
 * it stops, and why it fails.
 */
module NameChains {
  import opened Basics
  import opened Bytes
  import opened Compression
  import opened PacketWalk
  import Utf8

  // How the label at an offset is read.
  type Decoder = nat -> Result<WireLabel, ReadError>

  function LabelsOf(packet: Packet): Decoder {
    (offset: nat) => if offset < |packet| then LabelAt(packet, offset) else Err(BeyondPacket)
  }

  // The reader with any way of reading labels.
  function ReadWith(packet: Packet, f: Decoder, offset: nat, hops: nat, ret: Option<nat>, used: nat): NameResult
    requires hops <= 255
    decreases 255 - hops, |packet| - offset
  {
    if offset >= |packet| then Err(BeyondPacket)
    else if packet[offset] == 0 then Ok((if ret.Some? then ret.value else offset + 1, []))
    else if IsPointer(packet[offset]) then
      if offset + 1 >= |packet| then Err(PointerCutShort)
      else if hops == 255 then Err(HopLimit)
      else if Target(packet, offset) >= |packet| then Err(BeyondPacket)
      else
        var ret' := if ret.Some? then ret else Some(offset + 2);
        ReadWith(packet, f, Target(packet, offset), hops + 1, ret', used)
    else
      match f(offset)
      case Err(e) => Err(e)
      case Ok(text) =>
        if used + |text| + 1 > 1025 then Err(NameTooLong)
        else Cons(text, ReadWith(packet, f, offset + 1 + packet[offset], hops, ret, used + |text| + 1))
  }

  // What both readers do at a label.
  lemma NameAtLabel(
    packet: Packet, offset: nat, hops: nat, ret: Option<nat>, used: nat, found: Result<WireLabel, ReadError>)
    requires hops <= 255 && offset < |packet| && packet[offset] != 0 && !IsPointer(packet[offset])
    requires found == LabelAt(packet, offset)
    ensures ReadName(packet, offset, hops, ret, used) ==
      match found
      case Err(e) => Err(e)
      case Ok(text) =>
        if used + |text| + 1 > 1025 then Err(NameTooLong)
        else Cons(text, ReadName(packet, offset + 1 + packet[offset], hops, ret, used + |text| + 1))
  {
  }

  lemma WithAtLabel(
    packet: Packet, f: Decoder, offset: nat, hops: nat, ret: Option<nat>, used: nat,
    found: Result<WireLabel, ReadError>)
    requires hops <= 255 && offset < |packet| && packet[offset] != 0 && !IsPointer(packet[offset])
    requires found == f(offset)
    ensures ReadWith(packet, f, offset, hops, ret, used) ==
      match found
      case Err(e) => Err(e)
      case Ok(text) =>
        if used + |text| + 1 > 1025 then Err(NameTooLong)
        else Cons(text, ReadWith(packet, f, offset + 1 + packet[offset], hops, ret, used + |text| + 1))
  {
  }

  lemma {:induction false} SameReader(packet: Packet, f: Decoder, offset: nat, hops: nat, ret: Option<nat>, used: nat)
    requires hops <= 255 && forall o: nat :: o < |packet| ==> f(o) == LabelAt(packet, o)
    ensures ReadName(packet, offset, hops, ret, used) == ReadWith(packet, f, offset, hops, ret, used)
    decreases 255 - hops, |packet| - offset
  {
    if offset < |packet| && packet[offset] != 0 && !IsPointer(packet[offset]) {
      var found := f(offset);
      NameAtLabel(packet, offset, hops, ret, used, found);
      WithAtLabel(packet, f, offset, hops, ret, used, found);
      if found.Ok? && used + |found.value| + 1 <= 1025 {
        SameReader(packet, f, offset + 1 + packet[offset], hops, ret, used + |found.value| + 1);
      }
    } else if offset + 1 < |packet| && packet[offset] != 0 && hops < 255 && Target(packet, offset) < |packet| {
      var ret' := if ret.Some? then ret else Some(offset + 2);
      SameReader(packet, f, Target(packet, offset), hops + 1, ret', used);
      PointerStep(packet, offset, hops, ret, used);
      WithPointer(packet, f, offset, hops, ret, used);
    }
  }

  lemma ReadNameIsReadWith(packet: Packet, offset: nat)
    ensures ReadName(packet, offset, 0, None, 0) == ReadWith(packet, LabelsOf(packet), offset, 0, None, 0)
  {
    SameReader(packet, LabelsOf(packet), offset, 0, None, 0);
  }

  // Only labels of at most 63 bytes are read.
  ghost predicate OnlyShort(packet: Packet, f: Decoder) {
    forall offset: nat :: offset < |packet| && f(offset).Ok? ==> packet[offset] <= 63
  }

  lemma LabelsAreShort(packet: Packet)
    ensures OnlyShort(packet, LabelsOf(packet))
  {
  }

  // The labels along a chain, pointers passed over.
  ghost predicate Spells(packet: Packet, f: Decoder, chain: seq<nat>, ls: seq<WireLabel>)
    requires |chain| >= 1 && forall i :: 0 <= i < |chain| ==> chain[i] < |packet|
  {
    if |chain| == 1 then ls == []
    else if IsPointer(packet[chain[0]]) then Spells(packet, f, chain[1..], ls)
    else ls != [] && f(chain[0]) == Ok(ls[0]) && Spells(packet, f, chain[1..], ls[1..])
  }

  // A chain that spells these labels within the limits of the reader.
  ghost predicate Readable(packet: Packet, f: Decoder, chain: seq<nat>, hops: nat, used: nat, ls: seq<WireLabel>) {
    && IsChain(packet, [], chain)
    && (forall i :: 0 <= i < |chain| ==> chain[i] < |packet|)
    && hops + Hops(packet, chain) <= 255
    && Spells(packet, f, chain, ls)
    && (ls == [] || used + Dotted(ls) <= 1025)
  }

  function EndOf(packet: Packet, chain: seq<nat>, ret: Option<nat>): nat
    requires |chain| >= 1
  {
    if ret.Some? then ret.value else NameEnd(packet, chain)
  }

  lemma Lengthen(packet: Packet, a: nat, chain: seq<nat>)
    requires IsChain(packet, [], chain) && Follows(packet, [], a, chain[0])
    requires forall i :: 0 <= i < |chain| ==> chain[i] < |packet|
    ensures
      var all := [a] + chain;
      && all[1..] == chain && IsChain(packet, [], all)
      && (forall i :: 0 <= i < |all| ==> all[i] < |packet|)
      && Hops(packet, all) == Hops(packet, chain) + (if IsPointer(packet[a]) then 1 else 0)
      && NameEnd(packet, all) == if IsPointer(packet[a]) then a + 2 else NameEnd(packet, chain)
  {
    var all := [a] + chain;
    assert all[1..] == chain;
    forall i | 0 <= i < |all| - 1 ensures Follows(packet, [], all[i], all[i + 1]) {
      if i > 0 { assert Follows(packet, [], chain[i - 1], chain[i]); }
    }
    forall i | 0 <= i < |all| ensures all[i] < |packet| {
      if i > 0 { assert all[i] == chain[i - 1]; }
    }
  }

  // A pointer to the start of a readable chain.
  lemma PointerReadable(
    packet: Packet, f: Decoder, offset: nat, rest: seq<nat>, hops: nat, used: nat, ls: seq<WireLabel>)
    requires Readable(packet, f, rest, hops + 1, used, ls)
    requires offset + 1 < |packet| && IsPointer(packet[offset]) && Target(packet, offset) == rest[0]
    ensures Readable(packet, f, [offset] + rest, hops, used, ls)
    ensures NameEnd(packet, [offset] + rest) == offset + 2
  {
    NoneRemoved(rest[0]);
    Lengthen(packet, offset, rest);
  }

  // A label before a readable chain.
  lemma LabelReadable(
    packet: Packet, f: Decoder, offset: nat, rest: seq<nat>, hops: nat, used: nat, l: WireLabel, ls: seq<WireLabel>)
    requires Readable(packet, f, rest, hops, used + |l| + 1, ls)
    requires offset < |packet| && packet[offset] != 0 && !IsPointer(packet[offset]) && packet[offset] <= 63
    requires rest[0] == offset + 1 + packet[offset]
    requires f(offset) == Ok(l) && used + |l| + 1 <= 1025
    ensures Readable(packet, f, [offset] + rest, hops, used, [l] + ls)
    ensures NameEnd(packet, [offset] + rest) == NameEnd(packet, rest)
  {
    Lengthen(packet, offset, rest);
    ConsParts(l, ls);
    assert ls == [] ==> Dotted(ls) == 0;
  }

  // What is read has a chain.
  lemma {:induction false} ReadHasChain(
    packet: Packet, f: Decoder, offset: nat, hops: nat, ret: Option<nat>, used: nat)
    returns (chain: seq<nat>)
    requires hops <= 255 && OnlyShort(packet, f) && ReadWith(packet, f, offset, hops, ret, used).Ok?
    ensures
      var (end, ls) := ReadWith(packet, f, offset, hops, ret, used).value;
      Readable(packet, f, chain, hops, used, ls) && chain[0] == offset && end == EndOf(packet, chain, ret)
    decreases 255 - hops, |packet| - offset
  {
    if packet[offset] == 0 {
      chain := [offset];
    } else if IsPointer(packet[offset]) {
      var ret' := if ret.Some? then ret else Some(offset + 2);
      WithPointer(packet, f, offset, hops, ret, used);
      var rest := ReadHasChain(packet, f, Target(packet, offset), hops + 1, ret', used);
      PointerReadable(packet, f, offset, rest, hops, used, ReadWith(packet, f, offset, hops, ret, used).value.1);
      chain := [offset] + rest;
    } else {
      var text := f(offset).value;
      WithLabel(packet, f, offset, hops, ret, used, text);
      var next := offset + 1 + packet[offset];
      var rest := ReadHasChain(packet, f, next, hops, ret, used + |text| + 1);
      var inner := ReadWith(packet, f, next, hops, ret, used + |text| + 1).value.1;
      LabelReadable(packet, f, offset, rest, hops, used, text, inner);
      chain := [offset] + rest;
    }
  }

  lemma NoneRemoved(i: nat)
    ensures !Removed([], i)
  {
  }

  lemma ConsParts(l: WireLabel, ls: seq<WireLabel>)
    ensures ([l] + ls)[0] == l && ([l] + ls)[1..] == ls && Dotted([l] + ls) == |l| + 1 + Dotted(ls)
  {
    assert ([l] + ls)[1..] == ls;
  }

  // Past its first offset a readable chain is readable.
  lemma ReadableRest(packet: Packet, f: Decoder, chain: seq<nat>, hops: nat, used: nat, ls: seq<WireLabel>)
    requires Readable(packet, f, chain, hops, used, ls) && |chain| > 1
    ensures Follows(packet, [], chain[0], chain[1])
    ensures IsPointer(packet[chain[0]]) ==>
      && hops < 255 && Readable(packet, f, chain[1..], hops + 1, used, ls) && NameEnd(packet, chain) == chain[0] + 2
    ensures !IsPointer(packet[chain[0]]) ==>
      && ls != [] && ls == [ls[0]] + ls[1..]
      && f(chain[0]) == Ok(ls[0]) && used + |ls[0]| + 1 <= 1025
      && Readable(packet, f, chain[1..], hops, used + |ls[0]| + 1, ls[1..])
      && NameEnd(packet, chain) == NameEnd(packet, chain[1..])
  {
    ChainTail(packet, [], chain);
    var rest := chain[1..];
    assert forall i :: 0 <= i < |rest| ==> rest[i] == chain[i + 1];
    if ls != [] { ConsParts(ls[0], ls[1..]); }
  }

  // A chain is read.
  lemma {:induction false} ChainIsRead(
    packet: Packet, f: Decoder, chain: seq<nat>, hops: nat, ret: Option<nat>, used: nat, ls: seq<WireLabel>)
    requires hops <= 255 && Readable(packet, f, chain, hops, used, ls)
    ensures ReadWith(packet, f, chain[0], hops, ret, used) == Ok((EndOf(packet, chain, ret), ls))
    decreases |chain|
  {
    if |chain| > 1 {
      ReadableRest(packet, f, chain, hops, used, ls);
      var offset, rest := chain[0], chain[1..];
      if IsPointer(packet[offset]) {
        ChainIsRead(packet, f, rest, hops + 1, if ret.Some? then ret else Some(offset + 2), used, ls);
        WithPointer(packet, f, offset, hops, ret, used);
      } else {
        ChainIsRead(packet, f, rest, hops, ret, used + |ls[0]| + 1, ls[1..]);
        WithLabel(packet, f, offset, hops, ret, used, ls[0]);
      }
    }
  }

  lemma WithPointer(packet: Packet, f: Decoder, offset: nat, hops: nat, ret: Option<nat>, used: nat)
    requires hops < 255 && offset + 1 < |packet| && IsPointer(packet[offset])
    requires Target(packet, offset) < |packet|
    ensures
      var ret' := if ret.Some? then ret else Some(offset + 2);
      ReadWith(packet, f, offset, hops, ret, used) ==
      ReadWith(packet, f, Target(packet, offset), hops + 1, ret', used)
  {
  }

  lemma WithLabel(packet: Packet, f: Decoder, offset: nat, hops: nat, ret: Option<nat>, used: nat, l: WireLabel)
    requires hops <= 255 && offset < |packet| && packet[offset] != 0 && !IsPointer(packet[offset])
    requires f(offset) == Ok(l) && used + |l| + 1 <= 1025
    ensures ReadWith(packet, f, offset, hops, ret, used) ==
      Cons(l, ReadWith(packet, f, offset + 1 + packet[offset], hops, ret, used + |l| + 1))
  {
  }

  /** A name is read exactly when a chain of labels and at most 255 pointers leads to a null
      byte, every label can be read, and the labels with their dots take at most 1025
      bytes. The labels read are those along the chain, and the reader stops past the null
      byte, or past the first pointer. */
  lemma ReadNameExactly(packet: Packet, offset: nat, end: nat, ls: seq<WireLabel>)
    ensures ReadName(packet, offset, 0, None, 0) == Ok((end, ls)) <==>
      exists chain ::
        Readable(packet, LabelsOf(packet), chain, 0, 0, ls) && chain[0] == offset && end == NameEnd(packet, chain)
  {
    ReadNameIsReadWith(packet, offset);
    LabelsAreShort(packet);
    ReadWithExactly(packet, LabelsOf(packet), offset, end, ls);
  }

  lemma ReadWithExactly(packet: Packet, f: Decoder, offset: nat, end: nat, ls: seq<WireLabel>)
    requires OnlyShort(packet, f)
    ensures ReadWith(packet, f, offset, 0, None, 0) == Ok((end, ls)) <==>
      exists chain :: Readable(packet, f, chain, 0, 0, ls) && chain[0] == offset && end == NameEnd(packet, chain)
  {
    if ReadWith(packet, f, offset, 0, None, 0) == Ok((end, ls)) {
      var chain := ReadHasChain(packet, f, offset, 0, None, 0);
    }
    if chain :| Readable(packet, f, chain, 0, 0, ls) && chain[0] == offset && end == NameEnd(packet, chain) {
      ChainIsRead(packet, f, chain, 0, None, 0, ls);
    }
  }

  /** A label can be read exactly when its length byte is at most 63, it lies in the packet
      and no escape byte is left over; its text is what the marks stand for, as text or
      shown byte by byte. */
  lemma LabelReadExactly(packet: Packet, offset: nat)
    requires offset < |packet|
    ensures LabelAt(packet, offset) == Err(UnsupportedLabelType) <==> packet[offset] > 63
    ensures LabelAt(packet, offset) == Err(LabelCutShort) <==>
      packet[offset] <= 63 && offset + 1 + packet[offset] > |packet|
    ensures packet[offset] <= 63 && offset + 1 + packet[offset] <= |packet| ==>
      LabelAt(packet, offset) ==
        match Unescape(packet[offset + 1..offset + 1 + packet[offset]])
        case None => Err(BadEscape)
        case Some(raw) => Ok(if Utf8.Valid(raw) then raw else Shown(raw))
  {
  }

  // Why the reader cannot go on from an offset it reaches.
  ghost predicate Stuck(packet: Packet, f: Decoder, at: nat, hops: nat, used: nat, e: ReadError) {
    if at >= |packet| then e == BeyondPacket
    else if IsPointer(packet[at]) then
      if at + 1 == |packet| then e == PointerCutShort
      else if hops == 255 then e == HopLimit
      else e == BeyondPacket && Target(packet, at) >= |packet|
    else
      && packet[at] != 0
      && match f(at)
         case Err(why) => e == why
         case Ok(text) => e == NameTooLong && used + |text| + 1 > 1025
  }

  // The reader goes on from an offset, past a label or along a pointer.
  ghost predicate GoesOn(packet: Packet, f: Decoder, at: nat, hops: nat, used: nat) {
    && at < |packet| && packet[at] != 0
    && if IsPointer(packet[at]) then at + 1 < |packet| && hops < 255 && Target(packet, at) < |packet|
       else f(at).Ok? && used + |f(at).value| + 1 <= 1025
  }

  lemma StuckHere(packet: Packet, f: Decoder, offset: nat, hops: nat, ret: Option<nat>, used: nat)
    requires hops <= 255 && ReadWith(packet, f, offset, hops, ret, used).Err?
    requires !GoesOn(packet, f, offset, hops, used)
    ensures Stuck(packet, f, offset, hops, used, ReadWith(packet, f, offset, hops, ret, used).error)
  {
  }

  // When a name cannot be read, the reader has come to such an offset.
  lemma {:induction false} ReadWithFails(
    packet: Packet, f: Decoder, offset: nat, hops: nat, ret: Option<nat>, used: nat)
    returns (path: seq<nat>, pointers: nat, length: nat)
    requires hops <= 255 && OnlyShort(packet, f) && ReadWith(packet, f, offset, hops, ret, used).Err?
    ensures IsPath(packet, [], path) && path[0] == offset
    ensures pointers == hops + Hops(packet, path[..|path| - 1]) <= 255
    ensures Stuck(packet, f, path[|path| - 1], pointers, length, ReadWith(packet, f, offset, hops, ret, used).error)
    decreases 255 - hops, |packet| - offset
  {
    if GoesOn(packet, f, offset, hops, used) && IsPointer(packet[offset]) {
      WithPointer(packet, f, offset, hops, ret, used);
      var rest;
      rest, pointers, length := ReadWithFails(
        packet, f, Target(packet, offset), hops + 1, if ret.Some? then ret else Some(offset + 2), used);
      NoneRemoved(Target(packet, offset));
      PathStep(packet, [], offset, rest);
      path := [offset] + rest;
    } else if GoesOn(packet, f, offset, hops, used) {
      var text := f(offset).value;
      WithLabel(packet, f, offset, hops, ret, used, text);
      var rest;
      rest, pointers, length := ReadWithFails(
        packet, f, offset + 1 + packet[offset], hops, ret, used + |text| + 1);
      PathStep(packet, [], offset, rest);
      path := [offset] + rest;
    } else {
      StuckHere(packet, f, offset, hops, ret, used);
      path, pointers, length := [offset], hops, used;
      assert path[..0] == [];
    }
  }

  /** When a name cannot be read, the reader has followed labels and pointers to an offset
      from which it cannot go on, for the reason given. */
  lemma ReadFailsForReason(packet: Packet, offset: nat) returns (path: seq<nat>, pointers: nat, length: nat)
    requires ReadName(packet, offset, 0, None, 0).Err?
    ensures IsPath(packet, [], path) && path[0] == offset
    ensures pointers == Hops(packet, path[..|path| - 1]) <= 255
    ensures Stuck(packet, LabelsOf(packet), path[|path| - 1], pointers, length,
                  ReadName(packet, offset, 0, None, 0).error)
  {
    ReadNameIsReadWith(packet, offset);
    LabelsAreShort(packet);
    path, pointers, length := ReadWithFails(packet, LabelsOf(packet), offset, 0, None, 0);
  }
}
