/**
 * What the suffix map of name compression learns: every suffix of a name written out, so
 * that a later name ending in it is written as its other labels and a pointer.
 */
module Suffixes {
  import opened Basics
  import opened Bytes
  import opened Compression
  import opened PacketWalk

  // Labels whose length byte is that of a label: neither empty nor too long once escaped.
  ghost predicate Plain(ls: seq<WireLabel>) {
    forall i :: 0 <= i < |ls| ==> 1 <= |Escape(ls[i])| <= 63
  }

  // ---- The keys a name adds ---------------------------------------------------

  lemma {:induction false} LongerKeysStay(m: SuffixMap, name: seq<byte>, offset: nat, pos: nat, key: seq<byte>)
    requires key in m && |key| > |name| - pos
    ensures key in AddSuffixes(m, name, offset, pos) && AddSuffixes(m, name, offset, pos)[key] == m[key]
    decreases |name| - pos
  {
    if pos < |name| && name[pos] != 0 && name[pos] <= MAXLABEL {
      LongerKeysStay(m[name[pos..] := offset + pos], name, offset, pos + 1 + name[pos], key);
    }
  }

  lemma BehindPrefix(pre: seq<byte>, s: seq<byte>)
    ensures (pre + s)[|pre|..] == s
    ensures s != [] ==> (pre + s)[|pre|] == s[0]
  {
  }

  // Labels and what follows: the first label, then the rest.
  lemma EncodeFirst(a: seq<WireLabel>, tail: seq<byte>)
    requires a != []
    ensures Encode(a) + tail == WireOf(a[0]) + (Encode(a[1..]) + tail)
  {
    Associate(WireOf(a[0]), Encode(a[1..]), tail);
  }

  lemma LengthByte(l: WireLabel)
    requires |Escape(l)| <= 126
    ensures WireOf(l)[0] == |Escape(l)| && WireOf(l)[1..] == Escape(l) && |WireOf(l)| == 1 + |Escape(l)|
  {
  }

  // The first label of what is still to be added.
  lemma AtFirstLabel(pre: seq<byte>, a: seq<WireLabel>, tail: seq<byte>)
    requires a != [] && |Escape(a[0])| <= 126
    ensures
      var name := pre + (Encode(a) + tail);
      && |name| > |pre| && name[|pre|] == |Escape(a[0])|
      && name[|pre|..] == Encode(a) + tail
      && name == (pre + WireOf(a[0])) + (Encode(a[1..]) + tail)
      && |pre + WireOf(a[0])| == |pre| + 1 + |Escape(a[0])|
  {
    var rest := Encode(a[1..]) + tail;
    LengthByte(a[0]);
    EncodeFirst(a, tail);
    BehindPrefix(pre, WireOf(a[0]) + rest);
    Associate(pre, WireOf(a[0]), rest);
  }

  lemma PlainRest(a: seq<WireLabel>, n: nat)
    requires 0 < n <= |a| && Plain(a[..n])
    ensures 1 <= |Escape(a[0])| <= 63 && Plain(a[1..][..n - 1])
    ensures a[1..][n - 1..] == a[n..] && Encode(a[..n]) == WireOf(a[0]) + Encode(a[1..][..n - 1])
  {
    var rest := a[1..][..n - 1];
    assert a[..n][0] == a[0] && a[..n][1..] == rest;
    forall i | 0 <= i < |rest| ensures 1 <= |Escape(rest[i])| <= 63 { assert rest[i] == a[..n][i + 1]; }
  }

  // The whole of what is to be added is added first, and stays.
  lemma WholeIsAdded(m: SuffixMap, pre: seq<byte>, s: seq<byte>, offset: nat)
    requires s != []
    ensures
      var m' := AddSuffixes(m, pre + s, offset, |pre|);
      s in m' && m'[s] == offset + |pre|
  {
    var name := pre + s;
    BehindPrefix(pre, s);
    var m1 := m[s := offset + |pre|];
    if name[|pre|] != 0 && name[|pre|] <= MAXLABEL {
      LongerKeysStay(m1, name, offset, |pre| + 1 + name[|pre|], s);
      assert AddSuffixes(m, name, offset, |pre|) == AddSuffixes(m1, name, offset, |pre| + 1 + name[|pre|]);
    } else {
      assert AddSuffixes(m, name, offset, |pre|) == m1;
    }
  }

  // Past a plain label the rest is added in the same way.
  lemma RestIsAdded(m: SuffixMap, pre: seq<byte>, a: seq<WireLabel>, tail: seq<byte>, offset: nat)
    requires a != [] && 1 <= |Escape(a[0])| <= 63
    ensures
      var s := Encode(a) + tail;
      var next := pre + WireOf(a[0]);
      AddSuffixes(m, pre + s, offset, |pre|) ==
      AddSuffixes(m[s := offset + |pre|], next + (Encode(a[1..]) + tail), offset, |next|)
  {
    AtFirstLabel(pre, a, tail);
  }

  // Each suffix that starts behind plain labels is added, at its own offset.
  lemma {:induction false} SuffixIsAdded(
    m: SuffixMap, pre: seq<byte>, a: seq<WireLabel>, tail: seq<byte>, offset: nat, n: nat)
    requires n <= |a| && Plain(a[..n]) && tail != []
    ensures
      var m', key := AddSuffixes(m, pre + (Encode(a) + tail), offset, |pre|), Encode(a[n..]) + tail;
      key in m' && m'[key] == offset + |pre| + |Encode(a[..n])|
    decreases n
  {
    if n == 0 {
      assert a[0..] == a && a[..0] == [];
      WholeIsAdded(m, pre, Encode(a) + tail, offset);
    } else {
      PlainRest(a, n);
      RestIsAdded(m, pre, a, tail, offset);
      SuffixIsAdded(m[Encode(a) + tail := offset + |pre|], pre + WireOf(a[0]), a[1..], tail, offset, n - 1);
    }
  }

  // None of the keys the labels add is this one.
  ghost predicate Differs(key: seq<byte>, a: seq<WireLabel>, tail: seq<byte>) {
    forall n :: 0 <= n <= |a| ==> key != Encode(a[n..]) + tail
  }

  lemma DiffersRest(key: seq<byte>, a: seq<WireLabel>, tail: seq<byte>)
    requires Differs(key, a, tail)
    ensures key != Encode(a) + tail
    ensures a != [] ==> Differs(key, a[1..], tail)
  {
    assert a[0..] == a;
    if a != [] {
      var rest := a[1..];
      forall n | 0 <= n <= |rest| ensures key != Encode(rest[n..]) + tail { assert rest[n..] == a[n + 1..]; }
    }
  }

  // Nothing else is touched.
  lemma {:induction false} OtherKeysStay(
    m: SuffixMap, pre: seq<byte>, a: seq<WireLabel>, tail: seq<byte>, offset: nat, key: seq<byte>)
    requires Encodable(a) && tail != [] && (tail[0] == 0 || tail[0] > 63)
    requires key in m && Differs(key, a, tail)
    ensures
      var m' := AddSuffixes(m, pre + (Encode(a) + tail), offset, |pre|);
      key in m' && m'[key] == m[key]
    decreases |a|
  {
    var s := Encode(a) + tail;
    var m1 := m[s := offset + |pre|];
    DiffersRest(key, a, tail);
    assert key in m1 && m1[key] == m[key];
    if a != [] && 1 <= |Escape(a[0])| <= 63 {
      RestIsAdded(m, pre, a, tail, offset);
      EncodableTail(a);
      OtherKeysStay(m1, pre + WireOf(a[0]), a[1..], tail, offset, key);
    } else {
      OnlyOneKey(m, pre, a, tail, offset);
    }
  }

  // Before anything but a plain label only one key is added.
  lemma OnlyOneKey(m: SuffixMap, pre: seq<byte>, a: seq<WireLabel>, tail: seq<byte>, offset: nat)
    requires tail != [] && (tail[0] == 0 || tail[0] > 63)
    requires a == [] || (|a[0]| <= 63 && !(1 <= |Escape(a[0])| <= 63))
    ensures AddSuffixes(m, pre + (Encode(a) + tail), offset, |pre|) == m[Encode(a) + tail := offset + |pre|]
  {
    BehindPrefix(pre, Encode(a) + tail);
    if a == [] {
      assert Encode(a) + tail == tail;
    } else {
      UnescapeOfEscape(a[0]);
      AtFirstLabel(pre, a, tail);
    }
  }

  lemma EncodableTail(a: seq<WireLabel>)
    requires a != [] && Encodable(a)
    ensures Encodable(a[1..])
  {
    assert forall i :: 0 <= i < |a[1..]| ==> a[1..][i] == a[i + 1];
  }

  // ---- Names written out and names with a pointer -----------------------------

  lemma FirstLabelOf(a: seq<WireLabel>, tail: seq<byte>)
    requires a != [] && |a[0]| <= 63
    ensures
      var s, n := Encode(a) + tail, |Escape(a[0])|;
      && n <= 126 && |s| >= 1 + n && s[0] == n
      && s[1..1 + n] == Escape(a[0]) && s[1 + n..] == Encode(a[1..]) + tail
  {
    UnescapeOfEscape(a[0]);
    LengthByte(a[0]);
    EncodeFirst(a, tail);
    TwoParts(WireOf(a[0]), Encode(a[1..]) + tail);
  }

  lemma TwoParts(w: seq<byte>, rest: seq<byte>)
    requires w != []
    ensures (w + rest)[0] == w[0] && (w + rest)[1..|w|] == w[1..] && (w + rest)[|w|..] == rest
  {
  }

  // Labels with a pointer behind them are never a name written out.
  lemma {:induction false} PointedIsNotSpelled(a: seq<WireLabel>, b: seq<WireLabel>, target: nat)
    requires Encodable(a) && Encodable(b) && target <= 0x3FFF
    ensures Encode(a) + Pointer(target) != EncodeName(b)
    decreases |a|
  {
    if a == [] {
      if b != [] { FirstLabelOf(b, [0]); }
      assert (Encode(a) + Pointer(target))[0] >= 0xC0;
    } else {
      FirstLabelOf(a, Pointer(target));
      if b != [] {
        FirstLabelOf(b, [0]);
        EncodableTail(a);
        EncodableTail(b);
        PointedIsNotSpelled(a[1..], b[1..], target);
      }
    }
  }

  lemma {:induction false} FreshUnknown(m: SuffixMap, ls: seq<WireLabel>, q: nat)
    requires q < Fresh(m, ls)
    ensures !Known(m, ls[q..])
  {
    if q == 0 {
      assert ls[0..] == ls;
    } else {
      FreshUnknown(m, ls[1..], q - 1);
      assert ls[1..][q - 1..] == ls[q..];
    }
  }

  lemma {:induction false} FreshBeforeKnown(m: SuffixMap, ls: seq<WireLabel>, q: nat)
    requires q <= |ls| && Known(m, ls[q..])
    ensures Fresh(m, ls) <= q
  {
    assert ls[0..] == ls;
    if ls != [] && !Known(m, ls) {
      assert ls[1..][q - 1..] == ls[q..];
      FreshBeforeKnown(m, ls[1..], q - 1);
    }
  }

  // A name written out is written label by label.
  lemma SpelledIsFresh(m: SuffixMap, ls: seq<WireLabel>)
    requires Encodable(ls) && Written(m, ls) == EncodeName(ls)
    ensures Fresh(m, ls) == |ls|
  {
    var n := Fresh(m, ls);
    FreshStopsAtKnown(m, ls);
    if n < |ls| {
      PointedIsNotSpelled(ls[..n], ls, m[EncodeName(ls[n..])]);
    }
  }

  /** When a name is written out with the map, every suffix of it that starts behind plain
      labels is learned, at the offset where it stands. */
  lemma SuffixesAreLearned(m: SuffixMap, ls: seq<WireLabel>, start: nat, k: nat)
    requires Encodable(ls) && Written(m, ls) == EncodeName(ls)
    requires k < |ls| && Plain(ls[..k])
    ensures EncodeName(ls[k..]) in Learned(m, ls, start)
    ensures Learned(m, ls, start)[EncodeName(ls[k..])] == start + |Encode(ls[..k])|
  {
    SpelledIsFresh(m, ls);
    SuffixIsAdded(m, [], ls, [0], start, k);
    assert [] + (Encode(ls) + [0]) == Written(m, ls);
  }

  // A suffix once known at an offset a pointer can hold keeps that offset.
  lemma KnownStays(m: SuffixMap, s: seq<WireLabel>, ls: seq<WireLabel>, start: nat)
    requires Encodable(s) && s != [] && Known(m, s) && Encodable(ls)
    ensures EncodeName(s) in Learned(m, ls, start)
    ensures Learned(m, ls, start)[EncodeName(s)] == m[EncodeName(s)]
  {
    var n := Fresh(m, ls);
    if n > 0 {
      var tail := Tail(m, ls[n..]);
      forall q | 0 <= q <= n ensures EncodeName(s) != Encode(ls[..n][q..]) + tail {
        KeyIsAnother(m, s, ls, q);
      }
      assert Encodable(ls[..n]) && Differs(EncodeName(s), ls[..n], tail);
      OtherKeysStay(m, [], ls[..n], tail, start, EncodeName(s));
      assert [] + (Encode(ls[..n]) + tail) == Written(m, ls);
    }
  }

  lemma KeyIsAnother(m: SuffixMap, s: seq<WireLabel>, ls: seq<WireLabel>, q: nat)
    requires Encodable(s) && s != [] && Known(m, s) && Encodable(ls) && q <= Fresh(m, ls)
    ensures EncodeName(s) != Encode(ls[..Fresh(m, ls)][q..]) + Tail(m, ls[Fresh(m, ls)..])
  {
    var n := Fresh(m, ls);
    var rest := ls[n..];
    if rest != [] && Known(m, rest) {
      assert Encodable(ls[..n][q..]);
      PointedIsNotSpelled(ls[..n][q..], s, m[EncodeName(rest)]);
    } else {
      FreshStopsAtKnown(m, ls);
      assert ls[..n] == ls;
      if q < n {
        FreshUnknown(m, ls, q);
      } else {
        assert ls[q..] == [];
        assert |EncodeName(s)| > 1 by { FirstLabelOf(s, [0]); }
      }
    }
  }

  // ---- Whole messages ---------------------------------------------------------

  // The map gives a suffix this offset.
  ghost predicate Gives(m: SuffixMap, s: seq<WireLabel>, offset: nat) {
    EncodeName(s) in m && m[EncodeName(s)] == offset
  }

  lemma AppendKeeps(msg: Message, piece: Piece, s: seq<WireLabel>, offset: nat)
    requires Encodable(s) && s != [] && offset <= 0x3FFF && Gives(msg.m, s, offset)
    ensures Gives(Append(msg, piece).m, s, offset)
  {
    if piece.Name? && piece.useMap && Encodable(TextLabels(piece.name)) {
      KnownStays(msg.m, s, TextLabels(piece.name), |msg.packet|);
    }
  }

  lemma BuildLast(p: seq<Piece>, x: Piece)
    ensures Build(p + [x]) == Append(Build(p), x)
  {
    assert (p + [x])[..|p|] == p;
  }

  lemma PieceKeeps(p: seq<Piece>, x: Piece, s: seq<WireLabel>, offset: nat, all: seq<Piece>)
    requires Encodable(s) && s != [] && offset <= 0x3FFF && Gives(Build(p).m, s, offset) && all == p + [x]
    ensures Gives(Build(all).m, s, offset)
  {
    BuildLast(p, x);
    AppendKeeps(Build(p), x, s, offset);
  }

  lemma SnocOf<T>(a: seq<T>, b: seq<T>)
    requires b != []
    ensures a + b == (a + b[..|b| - 1]) + [b[|b| - 1]]
  {
  }

  lemma {:induction false} BuildKeeps(a: seq<Piece>, b: seq<Piece>, s: seq<WireLabel>, offset: nat, all: seq<Piece>)
    requires Encodable(s) && s != [] && offset <= 0x3FFF && Gives(Build(a).m, s, offset) && all == a + b
    ensures Gives(Build(all).m, s, offset)
    decreases |b|
  {
    if b == [] {
      assert all == a;
    } else {
      var n := |b| - 1;
      var p := a + b[..n];
      BuildKeeps(a, b[..n], s, offset, p);
      SnocOf(a, b);
      PieceKeeps(p, b[n], s, offset, all);
    }
  }

  // A text written with the map whose labels are these.
  ghost predicate Writes(piece: Piece, ls: seq<WireLabel>) {
    piece.Name? && piece.useMap && Encodable(ls) && TextLabels(piece.name) == ls
  }

  lemma {:induction false} EncodeInTwo(a: seq<WireLabel>, b: seq<WireLabel>)
    ensures Encode(a + b) == Encode(a) + Encode(b)
  {
    if a == [] {
      assert a + b == b;
    } else {
      assert (a + b)[1..] == a[1..] + b && (a + b)[0] == a[0];
      EncodeInTwo(a[1..], b);
    }
  }

  lemma EncodePrefix(a: seq<WireLabel>, n: nat)
    requires n <= |a|
    ensures |Encode(a[..n])| <= |Encode(a)|
  {
    assert a[..n] + a[n..] == a;
    EncodeInTwo(a[..n], a[n..]);
  }

  lemma KnownStands(packet: Packet, m: SuffixMap, s: seq<WireLabel>)
    requires Sound(packet, m) && Known(m, s)
    ensures At(packet, m[EncodeName(s)], EncodeName(s)) && m[EncodeName(s)] <= 0x3FFF
  {
  }

  // A name with a known suffix is written as the labels before it and two bytes.
  lemma PointerWritten(packet: Packet, m: SuffixMap, ls: seq<WireLabel>, n: nat) returns (target: nat)
    requires Sound(packet, m) && n == Fresh(m, ls) < |ls|
    ensures Known(m, ls[n..]) && target == m[EncodeName(ls[n..])] <= 0x3FFF
    ensures Written(m, ls) == Encode(ls[..n]) + Pointer(target)
    ensures At(packet, target, EncodeName(ls[n..]))
  {
    FreshStopsAtKnown(m, ls);
    target := m[EncodeName(ls[n..])];
    KnownStands(packet, m, ls[n..]);
  }

  lemma PointerImage(target: nat)
    requires target <= 0x3FFF
    ensures Pointer(target) == [0xC0 + target / 256, target % 256]
  {
  }

  // The labels before the longest known suffix, when one is known behind these.
  lemma FirstKnown(m: SuffixMap, a: seq<WireLabel>, s: seq<WireLabel>, ls: seq<WireLabel>)
    requires s != [] && Known(m, s) && ls == a + s
    ensures Fresh(m, ls) <= |a| < |ls| && ls[|a|..] == s
    ensures |Encode(ls[..Fresh(m, ls)])| <= |Encode(a)|
  {
    assert ls[|a|..] == s;
    FreshBeforeKnown(m, ls, |a|);
    assert ls[..Fresh(m, ls)] == a[..Fresh(m, ls)];
    EncodePrefix(a, Fresh(m, ls));
  }

  // A name whose suffix the map gives is written as labels and a pointer.
  lemma GivenIsPointedTo(
    packet: Packet, m: SuffixMap, a: seq<WireLabel>, s: seq<WireLabel>, offset: nat, ls: seq<WireLabel>)
    returns (n: nat, target: nat)
    requires Sound(packet, m) && s != [] && offset <= 0x3FFF && Gives(m, s, offset) && ls == a + s
    ensures n <= |a| && target <= 0x3FFF
    ensures Written(m, ls) == Encode(ls[..n]) + [0xC0 + target / 256, target % 256]
    ensures |Written(m, ls)| <= |Encode(a)| + 2
    ensures At(packet, target, EncodeName(ls[n..]))
    ensures n == |a| ==> target == offset
  {
    FirstKnown(m, a, s, ls);
    n := Fresh(m, ls);
    target := PointerWritten(packet, m, ls, n);
    PointerImage(target);
  }

  /** A name written out in a message, and a later one that ends in a suffix of it, which
      starts behind plain labels at an offset a pointer can hold: the later name is written
      as at most its other labels and a two-byte pointer to where the rest of it stands,
      and to that very suffix when no longer one is known. */
  lemma SharedSuffixIsPointedTo(
    pieces: seq<Piece>, i: nat, j: nat, ls: seq<WireLabel>, k: nat, a: seq<WireLabel>)
    returns (n: nat, target: nat)
    requires i < j < |pieces| && k < |ls| && Plain(ls[..k])
    requires Writes(pieces[i], ls) && Added(Build(pieces[..i]), pieces[i]) == EncodeName(ls)
    requires Writes(pieces[j], a + ls[k..])
    requires |Build(pieces[..i]).packet| + |Encode(ls[..k])| <= 0x3FFF
    ensures
      var added := Added(Build(pieces[..j]), pieces[j]);
      && n <= |a| && target <= 0x3FFF
      && added == Encode((a + ls[k..])[..n]) + [0xC0 + target / 256, target % 256]
      && |added| <= |Encode(a)| + 2
      && At(Build(pieces[..j]).packet, target, EncodeName((a + ls[k..])[n..]))
      && (n == |a| ==> target == |Build(pieces[..i]).packet| + |Encode(ls[..k])|)
  {
    var offset := |Build(pieces[..i]).packet| + |Encode(ls[..k])|;
    StillGiven(pieces, i, j, ls, k, offset);
    BuildIsSound(pieces[..j]);
    n, target := AddedIsPointed(Build(pieces[..j]), pieces[j], a, ls[k..], offset);
  }

  // A suffix learned from a name written out is given until the end.
  lemma StillGiven(pieces: seq<Piece>, i: nat, j: nat, ls: seq<WireLabel>, k: nat, offset: nat)
    requires i < j <= |pieces| && k < |ls| && Plain(ls[..k])
    requires Writes(pieces[i], ls) && Added(Build(pieces[..i]), pieces[i]) == EncodeName(ls)
    requires offset == |Build(pieces[..i]).packet| + |Encode(ls[..k])| <= 0x3FFF
    ensures Gives(Build(pieces[..j]).m, ls[k..], offset)
  {
    LearnedFrom(Build(pieces[..i]), pieces[i], ls, k);
    BuildNext(pieces, i);
    MiddleOf(pieces, i + 1, j);
    BuildKeeps(pieces[..i + 1], pieces[i + 1..j], ls[k..], offset, pieces[..j]);
  }

  lemma MiddleOf<T>(s: seq<T>, i: nat, j: nat)
    requires i <= j <= |s|
    ensures s[..j] == s[..i] + s[i..j]
  {
  }

  // Every suffix of a name written out is learned from it.
  lemma LearnedFrom(msg: Message, piece: Piece, ls: seq<WireLabel>, k: nat)
    requires Writes(piece, ls) && Added(msg, piece) == EncodeName(ls) && k < |ls| && Plain(ls[..k])
    ensures Gives(Append(msg, piece).m, ls[k..], |msg.packet| + |Encode(ls[..k])|)
    ensures Encodable(ls[k..]) && ls[k..] != []
  {
    SuffixesAreLearned(msg.m, ls, |msg.packet|, k);
    assert forall i :: 0 <= i < |ls[k..]| ==> ls[k..][i] == ls[k + i];
  }

  lemma AddedIsPointed(msg: Message, piece: Piece, a: seq<WireLabel>, s: seq<WireLabel>, offset: nat)
    returns (n: nat, target: nat)
    requires Sound(msg.packet, msg.m) && Writes(piece, a + s)
    requires s != [] && offset <= 0x3FFF && Gives(msg.m, s, offset)
    ensures
      var added := Added(msg, piece);
      && n <= |a| && target <= 0x3FFF
      && added == Encode((a + s)[..n]) + [0xC0 + target / 256, target % 256]
      && |added| <= |Encode(a)| + 2
      && At(msg.packet, target, EncodeName((a + s)[n..]))
      && (n == |a| ==> target == offset)
  {
    n, target := GivenIsPointedTo(msg.packet, msg.m, a, s, offset, a + s);
  }
}
