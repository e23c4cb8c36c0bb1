/**
 * Packet walks of the record filter: the walk along a compressed name (section 4.1.4 of
 * RFC 1035) over packets that may hold pointer cycles, the section walk around it, and
 * the copy loop that deletes byte ranges.
 */
module PacketWalk {
  import opened Basics
  import opened Bytes

  type Packet = seq<byte>

  datatype Range = Range(start: nat, end: nat)
  {
    predicate Contains(i: nat) {
      start <= i < end
    }
  }

  predicate Removed(ranges: seq<Range>, i: nat) {
    exists r :: r in ranges && r.Contains(i)
  }

  datatype WalkError =
    | OutOfBounds
    | IncompletePointer
    | PointsIntoRemoved
    | TooManyHops
    | LabelTooLong
    | LabelBeyondPacket
    | HeaderTooShort
    | IncompleteRdLength

  const MAX_HOPS: nat := 255

  // Both high bits set: a 14-bit pointer follows.
  predicate IsPointer(b: byte) {
    b >= 0xC0
  }

  function Target(packet: Packet, offset: nat): nat
    requires offset + 1 < |packet| && IsPointer(packet[offset])
  {
    var high: nat := packet[offset] - 0xC0;
    high * 0x100 + packet[offset + 1]
  }

  // ---- The name walk ----------------------------------------------------------

  function WalkName(packet: Packet, ranges: seq<Range>, offset: nat, hops: nat): Result<nat, WalkError>
    requires hops <= MAX_HOPS
    decreases MAX_HOPS - hops, |packet| - offset
  {
    if offset >= |packet| then Err(OutOfBounds)
    else if packet[offset] == 0 then Ok(offset + 1)
    else if IsPointer(packet[offset]) then
      if offset + 1 >= |packet| then Err(IncompletePointer)
      else if Removed(ranges, Target(packet, offset)) then Err(PointsIntoRemoved)
      else if hops + 1 > MAX_HOPS then Err(TooManyHops)
      else WalkName(packet, ranges, Target(packet, offset), hops + 1)
    else if packet[offset] > 63 then Err(LabelTooLong)
    else if offset + 1 + packet[offset] > |packet| then Err(LabelBeyondPacket)
    else WalkName(packet, ranges, offset + 1 + packet[offset], hops)
  }

  method AnyContains(ranges: seq<Range>, i: nat) returns (found: bool)
    ensures found == Removed(ranges, i)
  {
    for j := 0 to |ranges|
      invariant forall n :: 0 <= n < j ==> !ranges[n].Contains(i)
    {
      if ranges[j].Contains(i) {
        assert ranges[j] in ranges;
        return true;
      }
    }
    return false;
  }

  // The walk ends on every packet: a pointer uses up a hop, a label moves forward.
  method CheckNameCompression(packet: Packet, start: nat, ranges: seq<Range>) returns (r: Result<nat, WalkError>)
    ensures r == WalkName(packet, ranges, start, 0)
  {
    var offset: nat, hops: nat := start, 0;
    while true
      invariant hops <= MAX_HOPS
      invariant WalkName(packet, ranges, start, 0) == WalkName(packet, ranges, offset, hops)
      decreases MAX_HOPS - hops, |packet| - offset
    {
      if offset >= |packet| { return Err(OutOfBounds); }
      var len := packet[offset];
      if len == 0 { return Ok(offset + 1); }
      if IsPointer(len) {
        if offset + 1 >= |packet| { return Err(IncompletePointer); }
        var pointer := Target(packet, offset);
        var removed := AnyContains(ranges, pointer);
        if removed { return Err(PointsIntoRemoved); }
        if hops + 1 > MAX_HOPS { return Err(TooManyHops); }
        offset, hops := pointer, hops + 1;
        continue;
      }
      if len > 63 { return Err(LabelTooLong); }
      if offset + 1 + len > |packet| { return Err(LabelBeyondPacket); }
      offset := offset + 1 + len;
    }
  }

  // ---- Names as chains of offsets ---------------------------------------------

  // b follows a in a name: past the label at a, or where the pointer at a leads.
  predicate Follows(packet: Packet, ranges: seq<Range>, a: nat, b: nat) {
    && a < |packet| && packet[a] != 0
    && if IsPointer(packet[a]) then
         a + 1 < |packet| && b == Target(packet, a) && !Removed(ranges, b)
       else packet[a] <= 63 && b == a + 1 + packet[a]
  }

  // The offsets of a whole name: from its start along labels and pointers to a null byte.
  predicate IsChain(packet: Packet, ranges: seq<Range>, chain: seq<nat>) {
    && |chain| >= 1
    && chain[|chain| - 1] < |packet| && packet[chain[|chain| - 1]] == 0
    && forall i :: 0 <= i < |chain| - 1 ==> Follows(packet, ranges, chain[i], chain[i + 1])
  }

  function Hops(packet: Packet, chain: seq<nat>): nat {
    if chain == [] then 0
    else (if chain[0] < |packet| && IsPointer(packet[chain[0]]) then 1 else 0) + Hops(packet, chain[1..])
  }

  lemma ChainTail(packet: Packet, ranges: seq<Range>, chain: seq<nat>)
    requires IsChain(packet, ranges, chain) && |chain| > 1
    ensures IsChain(packet, ranges, chain[1..]) && Follows(packet, ranges, chain[0], chain[1])
  {
    forall i | 0 <= i < |chain[1..]| - 1 ensures Follows(packet, ranges, chain[1..][i], chain[1..][i + 1]) {
      assert Follows(packet, ranges, chain[i + 1], chain[i + 2]);
    }
    assert Follows(packet, ranges, chain[0], chain[0 + 1]);
  }

  // A chain within the hop limit makes the walk succeed, just past its last offset.
  lemma {:induction false} ChainIsWalked(packet: Packet, ranges: seq<Range>, chain: seq<nat>, hops: nat)
    requires IsChain(packet, ranges, chain) && hops + Hops(packet, chain) <= MAX_HOPS
    ensures WalkName(packet, ranges, chain[0], hops) == Ok(chain[|chain| - 1] + 1)
    decreases |chain|
  {
    if |chain| > 1 {
      ChainTail(packet, ranges, chain);
      var more := if IsPointer(packet[chain[0]]) then 1 else 0;
      ChainIsWalked(packet, ranges, chain[1..], hops + more);
    }
  }

  // A successful walk has a chain within the hop limit.
  lemma {:induction false} WalkHasChain(packet: Packet, ranges: seq<Range>, offset: nat, hops: nat)
    returns (chain: seq<nat>)
    requires hops <= MAX_HOPS && WalkName(packet, ranges, offset, hops).Ok?
    ensures IsChain(packet, ranges, chain) && chain[0] == offset
    ensures hops + Hops(packet, chain) <= MAX_HOPS
    ensures WalkName(packet, ranges, offset, hops) == Ok(chain[|chain| - 1] + 1)
    decreases MAX_HOPS - hops, |packet| - offset
  {
    if packet[offset] == 0 {
      chain := [offset];
    } else {
      var rest;
      if IsPointer(packet[offset]) {
        rest := WalkHasChain(packet, ranges, Target(packet, offset), hops + 1);
      } else {
        rest := WalkHasChain(packet, ranges, offset + 1 + packet[offset], hops);
      }
      chain := [offset] + rest;
      assert Follows(packet, ranges, offset, rest[0]);
      forall i | 0 <= i < |chain| - 1 ensures Follows(packet, ranges, chain[i], chain[i + 1]) {
        if i > 0 { assert Follows(packet, ranges, rest[i - 1], rest[i - 1 + 1]); }
      }
      assert chain[1..] == rest;
    }
  }

  /** The walk succeeds exactly when the name has a chain with at most 255 pointers, none
      of them into a removed range, and then returns the offset past the chain's end. */
  lemma WalkSucceedsExactly(packet: Packet, ranges: seq<Range>, offset: nat, end: nat)
    ensures WalkName(packet, ranges, offset, 0) == Ok(end) <==>
      exists chain :: IsChain(packet, ranges, chain) && chain[0] == offset
        && Hops(packet, chain) <= 255 && end == chain[|chain| - 1] + 1
  {
    if WalkName(packet, ranges, offset, 0) == Ok(end) {
      var chain := WalkHasChain(packet, ranges, offset, 0);
    }
    if chain :| IsChain(packet, ranges, chain) && chain[0] == offset
                && Hops(packet, chain) <= 255 && end == chain[|chain| - 1] + 1 {
      ChainIsWalked(packet, ranges, chain, 0);
    }
  }

  // A pointer is a byte with both high bits set, and its target the other fourteen.
  lemma PointerBits(packet: Packet, offset: nat)
    requires offset + 1 < |packet|
    ensures IsPointer(packet[offset]) <==> packet[offset] / 64 == 3
    ensures IsPointer(packet[offset]) ==>
      var high: int, low: int := packet[offset], packet[offset + 1];
      Target(packet, offset) == 256 * (high % 64) + low
  {
  }

  // Why the walk cannot go on from an offset it reaches after so many pointers.
  ghost predicate Blocked(packet: Packet, ranges: seq<Range>, at: nat, hops: nat, e: WalkError) {
    match e
    case OutOfBounds => at >= |packet|
    case IncompletePointer => at == |packet| - 1 && packet[at] >= 0xC0
    case PointsIntoRemoved => at + 1 < |packet| && IsPointer(packet[at]) && Removed(ranges, Target(packet, at))
    case TooManyHops =>
      at + 1 < |packet| && IsPointer(packet[at]) && !Removed(ranges, Target(packet, at)) && hops == 255
    case LabelTooLong => at < |packet| && 64 <= packet[at] < 0xC0
    case LabelBeyondPacket => at < |packet| && 1 <= packet[at] <= 63 && at + 1 + packet[at] > |packet|
    case HeaderTooShort => false
    case IncompleteRdLength => false
  }

  // Offsets linked as in a name, whole or not.
  ghost predicate IsPath(packet: Packet, ranges: seq<Range>, path: seq<nat>) {
    |path| >= 1 && forall i :: 0 <= i < |path| - 1 ==> Follows(packet, ranges, path[i], path[i + 1])
  }

  lemma PathStep(packet: Packet, ranges: seq<Range>, a: nat, path: seq<nat>)
    requires IsPath(packet, ranges, path) && Follows(packet, ranges, a, path[0])
    ensures IsPath(packet, ranges, [a] + path)
    ensures Hops(packet, ([a] + path)[..|path|]) ==
      (if IsPointer(packet[a]) then 1 else 0) + Hops(packet, path[..|path| - 1])
  {
    var all := [a] + path;
    forall i | 0 <= i < |all| - 1 ensures Follows(packet, ranges, all[i], all[i + 1]) {
      if i > 0 { assert Follows(packet, ranges, path[i - 1], path[i]); }
    }
    assert all[..|path|][1..] == path[..|path| - 1];
  }

  /** When the walk fails, it has followed the name to an offset from which it cannot go
      on, for the reason given. */
  lemma {:induction false} WalkFailsForReason(packet: Packet, ranges: seq<Range>, offset: nat, hops: nat)
    returns (path: seq<nat>)
    requires hops <= MAX_HOPS && WalkName(packet, ranges, offset, hops).Err?
    ensures IsPath(packet, ranges, path) && path[0] == offset
    ensures Blocked(packet, ranges, path[|path| - 1], hops + Hops(packet, path[..|path| - 1]),
                    WalkName(packet, ranges, offset, hops).error)
    decreases MAX_HOPS - hops, |packet| - offset
  {
    var step := offset < |packet| && packet[offset] != 0 &&
      if IsPointer(packet[offset]) then
        offset + 1 < |packet| && !Removed(ranges, Target(packet, offset)) && hops < MAX_HOPS
      else packet[offset] <= 63 && offset + 1 + packet[offset] <= |packet|;
    if step {
      var next := if IsPointer(packet[offset]) then Target(packet, offset) else offset + 1 + packet[offset];
      var rest := WalkFailsForReason(packet, ranges, next, if IsPointer(packet[offset]) then hops + 1 else hops);
      PathStep(packet, ranges, offset, rest);
      path := [offset] + rest;
    } else {
      path := [offset];
      assert path[..0] == [];
    }
  }

  lemma {:induction false} ChainLengthUnique(packet: Packet, ranges: seq<Range>, a: seq<nat>, b: seq<nat>)
    requires IsChain(packet, ranges, a) && IsChain(packet, ranges, b) && a[0] == b[0]
    ensures |a| == |b|
    decreases |a|
  {
    if |a| > 1 { ChainTail(packet, ranges, a); }
    if |b| > 1 { ChainTail(packet, ranges, b); }
    if |a| > 1 && |b| > 1 { ChainLengthUnique(packet, ranges, a[1..], b[1..]); }
  }

  lemma {:induction false} ChainSuffix(packet: Packet, ranges: seq<Range>, chain: seq<nat>, i: nat)
    requires IsChain(packet, ranges, chain) && i < |chain|
    ensures IsChain(packet, ranges, chain[i..])
    decreases i
  {
    if i == 0 {
      assert chain[0..] == chain;
    } else {
      ChainTail(packet, ranges, chain);
      ChainSuffix(packet, ranges, chain[1..], i - 1);
      assert chain[1..][i - 1..] == chain[i..];
    }
  }

  // No accepted name passes the same offset twice, so every pointer cycle is rejected.
  lemma AcceptedNamesAreAcyclic(packet: Packet, ranges: seq<Range>, chain: seq<nat>, i: nat, j: nat)
    requires IsChain(packet, ranges, chain) && i < j < |chain|
    ensures chain[i] != chain[j]
  {
    if chain[i] == chain[j] {
      ChainSuffix(packet, ranges, chain, i);
      ChainSuffix(packet, ranges, chain, j);
      ChainLengthUnique(packet, ranges, chain[i..], chain[j..]);
    }
  }

  // ---- Where the name ends ----------------------------------------------------

  // The end of the name in place: past its null byte, or past its first pointer.
  function NameEnd(packet: Packet, chain: seq<nat>): nat
    requires |chain| >= 1
    decreases |chain|
  {
    if chain[0] < |packet| && IsPointer(packet[chain[0]]) then chain[0] + 2
    else if |chain| == 1 then chain[0] + 1
    else NameEnd(packet, chain[1..])
  }

  // Without pointers the walk returns the end of the name.
  lemma {:induction false} PlainNameEnd(packet: Packet, chain: seq<nat>)
    requires |chain| >= 1 && Hops(packet, chain) == 0
    ensures NameEnd(packet, chain) == chain[|chain| - 1] + 1
    decreases |chain|
  {
    if |chain| > 1 { PlainNameEnd(packet, chain[1..]); }
  }

  // The offset of the first pointer.
  function FirstPointer(packet: Packet, chain: seq<nat>): (p: nat)
    requires Hops(packet, chain) > 0
    ensures p in chain && p < |packet| && IsPointer(packet[p])
    decreases |chain|
  {
    if chain[0] < |packet| && IsPointer(packet[chain[0]]) then chain[0] else FirstPointer(packet, chain[1..])
  }

  lemma {:induction false} PointedNameEnd(packet: Packet, chain: seq<nat>)
    requires Hops(packet, chain) > 0
    ensures NameEnd(packet, chain) == FirstPointer(packet, chain) + 2
    decreases |chain|
  {
    if !(chain[0] < |packet| && IsPointer(packet[chain[0]])) { PointedNameEnd(packet, chain[1..]); }
  }

  /** The walk returns the end of the name exactly when the name has no pointer, or when
      the null byte it reaches is the low byte of its first pointer; so it never does when
      that byte is not zero. */
  lemma WalkEndIsNameEnd(packet: Packet, ranges: seq<Range>, chain: seq<nat>)
    requires IsChain(packet, ranges, chain) && Hops(packet, chain) <= MAX_HOPS
    ensures WalkName(packet, ranges, chain[0], 0) == Ok(NameEnd(packet, chain)) <==>
      Hops(packet, chain) == 0 || chain[|chain| - 1] == FirstPointer(packet, chain) + 1
    ensures Hops(packet, chain) > 0 ==>
      var p := FirstPointer(packet, chain);
      p + 1 < |packet| && packet[p + 1] != 0 ==> WalkName(packet, ranges, chain[0], 0) != Ok(NameEnd(packet, chain))
  {
    ChainIsWalked(packet, ranges, chain, 0);
    if Hops(packet, chain) == 0 { PlainNameEnd(packet, chain); } else { PointedNameEnd(packet, chain); }
  }

  // With a pointer it returns the end of the name pointed to: here 15, not 17.
  lemma PointerNameEndsElsewhere()
    ensures
      var packet: Packet := [0, 0, 0, 0, 0, 0, 0, 0, 0, 0, 0, 0, 1, 97, 0, 0xC0, 12];
      && WalkName(packet, [], 15, 0) == Ok(15)
      && IsChain(packet, [], [15, 12, 14])
      && NameEnd(packet, [15, 12, 14]) == 17
  {
    var packet: Packet := [0, 0, 0, 0, 0, 0, 0, 0, 0, 0, 0, 0, 1, 97, 0, 0xC0, 12];
    assert Follows(packet, [], 15, 12) && Follows(packet, [], 12, 14);
    assert WalkName(packet, [], 14, 1) == Ok(15);
    assert WalkName(packet, [], 12, 1) == Ok(15);
  }

  // ---- The section walk -------------------------------------------------------

  function Count(packet: Packet, i: nat): u16
    requires i + 2 <= |packet|
  {
    FromBe16(packet[i], packet[i + 1])
  }

  // A name visited: where it starts, and where the fields after it are taken to start.
  datatype Visit = Visit(name: nat, fields: nat)

  // A walk so far: where it stands and the names it has visited.
  datatype Position = Position(offset: nat, visits: seq<Visit>)

  // How a walk finds the end of the name at an offset.
  type NameEnds = nat -> Result<nat, WalkError>

  function Questions(packet: Packet, ends: NameEnds, n: nat): Result<Position, WalkError> {
    if n == 0 then Ok(Position(12, []))
    else
      match Questions(packet, ends, n - 1)
      case Err(e) => Err(e)
      case Ok(at) =>
        match ends(at.offset)
        case Err(e) => Err(e)
        case Ok(end) => Ok(Position(end + 4, at.visits + [Visit(at.offset, end)]))
  }

  function Records(packet: Packet, ends: NameEnds, from: Position, n: nat): Result<Position, WalkError> {
    if n == 0 then Ok(from)
    else
      match Records(packet, ends, from, n - 1)
      case Err(e) => Err(e)
      case Ok(at) =>
        match ends(at.offset)
        case Err(e) => Err(e)
        case Ok(end) =>
          if end + 10 > |packet| then Err(IncompleteRdLength)
          else Ok(Position(end + 10 + Count(packet, end + 8), at.visits + [Visit(at.offset, end)]))
  }

  // The names visited, or the first error, for the counts in the packet's header.
  function Sections(packet: Packet, ends: NameEnds): Result<seq<Visit>, WalkError> {
    if |packet| < 12 then Err(HeaderTooShort)
    else
      match Questions(packet, ends, Count(packet, 4))
      case Err(e) => Err(e)
      case Ok(at) =>
        match Records(packet, ends, at, RecordCount(packet))
        case Err(e) => Err(e)
        case Ok(last) => Ok(last.visits)
  }

  function RecordCount(packet: Packet): nat
    requires |packet| >= 12
  {
    Count(packet, 6) + Count(packet, 8) + Count(packet, 10)
  }

  // The check goes by where the name walk ends.
  function Walking(packet: Packet, ranges: seq<Range>): NameEnds {
    offset => WalkName(packet, ranges, offset, 0)
  }

  function Integrity(packet: Packet, ranges: seq<Range>): Result<seq<Visit>, WalkError> {
    Sections(packet, Walking(packet, ranges))
  }

  lemma {:induction false} QuestionsFailOnce(packet: Packet, ends: NameEnds, m: nat, n: nat)
    requires m <= n && Questions(packet, ends, m).Err?
    ensures Questions(packet, ends, n) == Questions(packet, ends, m)
  {
    if m < n { QuestionsFailOnce(packet, ends, m, n - 1); }
  }

  lemma {:induction false} RecordsFailOnce(packet: Packet, ends: NameEnds, from: Position, m: nat, n: nat)
    requires m <= n && Records(packet, ends, from, m).Err?
    ensures Records(packet, ends, from, n) == Records(packet, ends, from, m)
  {
    if m < n { RecordsFailOnce(packet, ends, from, m, n - 1); }
  }

  // The loop over the questions.
  method CheckQuestions(packet: Packet, ranges: seq<Range>, n: nat) returns (r: Result<Position, WalkError>)
    ensures r == Questions(packet, Walking(packet, ranges), n)
  {
    var at := Position(12, []);
    ghost var ends := Walking(packet, ranges);
    for i := 0 to n
      invariant Questions(packet, ends, i) == Ok(at)
    {
      var name := CheckNameCompression(packet, at.offset, ranges);
      assert ends(at.offset) == name;
      if name.Err? {
        QuestionsFailOnce(packet, ends, i + 1, n);
        return Err(name.error);
      }
      at := Position(name.value + 4, at.visits + [Visit(at.offset, name.value)]);
    }
    return Ok(at);
  }

  // The loop over the records of the other three sections.
  method CheckRecords(packet: Packet, ranges: seq<Range>, from: Position, n: nat)
    returns (r: Result<Position, WalkError>)
    ensures r == Records(packet, Walking(packet, ranges), from, n)
  {
    var at := from;
    ghost var ends := Walking(packet, ranges);
    for i := 0 to n
      invariant Records(packet, ends, from, i) == Ok(at)
    {
      var name := CheckNameCompression(packet, at.offset, ranges);
      assert ends(at.offset) == name;
      if name.Err? {
        RecordsFailOnce(packet, ends, from, i + 1, n);
        return Err(name.error);
      }
      var offset := name.value + 8;
      if offset + 2 > |packet| {
        RecordsFailOnce(packet, ends, from, i + 1, n);
        return Err(IncompleteRdLength);
      }
      at := Position(offset + 2 + Count(packet, offset), at.visits + [Visit(at.offset, name.value)]);
    }
    return Ok(at);
  }

  method CheckCompressionIntegrity(packet: Packet, ranges: seq<Range>) returns (r: Result<seq<Visit>, WalkError>)
    ensures r == Integrity(packet, ranges)
  {
    if |packet| < 12 { return Err(HeaderTooShort); }
    var questions := CheckQuestions(packet, ranges, Count(packet, 4));
    if questions.Err? { return Err(questions.error); }
    var total: nat := Count(packet, 6) + Count(packet, 8) + Count(packet, 10);
    var records := CheckRecords(packet, ranges, questions.value, total);
    if records.Err? { return Err(records.error); }
    return Ok(records.value.visits);
  }

  // ---- The names visited ------------------------------------------------------

  // Every visit ends its name as the walk does.
  ghost predicate Ended(ends: NameEnds, visits: seq<Visit>) {
    forall i :: 0 <= i < |visits| ==> ends(visits[i].name) == Ok(visits[i].fields)
  }

  lemma EndedOneMore(ends: NameEnds, visits: seq<Visit>, v: Visit)
    ensures Ended(ends, visits + [v]) <==> Ended(ends, visits) && ends(v.name) == Ok(v.fields)
  {
    var all := visits + [v];
    assert forall i :: 0 <= i < |visits| ==> all[i] == visits[i];
    assert all[|visits|] == v;
  }

  // A walk ends each name it visits, one per question.
  lemma {:induction false} QuestionsEnded(packet: Packet, ends: NameEnds, n: nat)
    requires Questions(packet, ends, n).Ok?
    ensures var visits := Questions(packet, ends, n).value.visits; |visits| == n && Ended(ends, visits)
  {
    if n > 0 {
      QuestionsEnded(packet, ends, n - 1);
      var at := Questions(packet, ends, n - 1).value;
      EndedOneMore(ends, at.visits, Visit(at.offset, ends(at.offset).value));
    }
  }

  lemma {:induction false} RecordsEnded(packet: Packet, ends: NameEnds, from: Position, n: nat)
    requires Records(packet, ends, from, n).Ok? && Ended(ends, from.visits)
    ensures
      var visits := Records(packet, ends, from, n).value.visits;
      |visits| == |from.visits| + n && from.visits <= visits && Ended(ends, visits)
  {
    if n > 0 {
      RecordsEnded(packet, ends, from, n - 1);
      var at := Records(packet, ends, from, n - 1).value;
      EndedOneMore(ends, at.visits, Visit(at.offset, ends(at.offset).value));
    }
  }

  // Another walk that ends those names alike takes the same way.
  lemma {:induction false} QuestionsAgree(packet: Packet, f: NameEnds, g: NameEnds, n: nat)
    requires Questions(packet, f, n).Ok? && Ended(g, Questions(packet, f, n).value.visits)
    ensures Questions(packet, g, n) == Questions(packet, f, n)
  {
    if n > 0 {
      var at := Questions(packet, f, n - 1).value;
      EndedOneMore(g, at.visits, Visit(at.offset, f(at.offset).value));
      QuestionsAgree(packet, f, g, n - 1);
    }
  }

  lemma {:induction false} RecordsAgree(packet: Packet, f: NameEnds, g: NameEnds, from: Position, n: nat)
    requires Records(packet, f, from, n).Ok? && Ended(g, Records(packet, f, from, n).value.visits)
    ensures Records(packet, g, from, n) == Records(packet, f, from, n)
  {
    if n > 0 {
      var at := Records(packet, f, from, n - 1).value;
      EndedOneMore(g, at.visits, Visit(at.offset, f(at.offset).value));
      RecordsAgree(packet, f, g, from, n - 1);
    }
  }

  lemma SectionsEnded(packet: Packet, ends: NameEnds)
    requires Sections(packet, ends).Ok?
    ensures |packet| >= 12
    ensures
      var visits := Sections(packet, ends).value;
      && |visits| == Count(packet, 4) + RecordCount(packet)
      && Questions(packet, ends, Count(packet, 4)).Ok?
      && Questions(packet, ends, Count(packet, 4)).value.visits <= visits
      && Ended(ends, visits)
  {
    QuestionsEnded(packet, ends, Count(packet, 4));
    RecordsEnded(packet, ends, Questions(packet, ends, Count(packet, 4)).value, RecordCount(packet));
  }

  // Two walks visit the same names and fields exactly when both end those names alike.
  lemma SectionsAgree(packet: Packet, f: NameEnds, g: NameEnds)
    requires Sections(packet, f).Ok?
    ensures Sections(packet, g) == Sections(packet, f) <==> Ended(g, Sections(packet, f).value)
  {
    SectionsEnded(packet, f);
    if Sections(packet, g) == Sections(packet, f) {
      SectionsEnded(packet, g);
    }
    if Ended(g, Sections(packet, f).value) {
      var from := Questions(packet, f, Count(packet, 4)).value;
      assert forall i :: 0 <= i < |from.visits| ==> from.visits[i] == Sections(packet, f).value[i];
      QuestionsAgree(packet, f, g, Count(packet, 4));
      RecordsAgree(packet, f, g, from, RecordCount(packet));
    }
  }

  ghost predicate HasChain(packet: Packet, ranges: seq<Range>, start: nat) {
    exists chain :: IsChain(packet, ranges, chain) && chain[0] == start && Hops(packet, chain) <= MAX_HOPS
  }

  /** When the check passes, it has visited as many offsets as the header announces
      questions and records, and from each has followed a name to its end, never through a
      removed range. */
  lemma IntegrityFollowsEveryName(packet: Packet, ranges: seq<Range>)
    requires Integrity(packet, ranges).Ok?
    ensures |packet| >= 12
    ensures
      var visits := Integrity(packet, ranges).value;
      && |visits| == Count(packet, 4) + Count(packet, 6) + Count(packet, 8) + Count(packet, 10)
      && forall i :: 0 <= i < |visits| ==> HasChain(packet, ranges, visits[i].name)
  {
    var ends := Walking(packet, ranges);
    SectionsEnded(packet, ends);
    var visits := Sections(packet, ends).value;
    forall i | 0 <= i < |visits| ensures HasChain(packet, ranges, visits[i].name) {
      assert ends(visits[i].name).Ok?;
      var chain := WalkHasChain(packet, ranges, visits[i].name, 0);
    }
  }

  // ---- Where the names stand --------------------------------------------------

  // The next name after these visits, of which the first qd are questions: after a
  // question, its type and class; after a record, its fixed fields and its RDATA.
  function NextName(packet: Packet, visits: seq<Visit>, qd: nat): nat {
    if visits == [] then 12
    else
      var at := visits[|visits| - 1].fields;
      if |visits| <= qd then at + 4
      else if at + 10 <= |packet| then
        var high: int, low: int := packet[at + 8], packet[at + 9];
        at + 10 + 256 * high + low
      else at
  }

  // Each name stands where the visits before it put it, and no record is cut short.
  ghost predicate Tiled(packet: Packet, visits: seq<Visit>, qd: nat) {
    visits == [] ||
    var init, last := visits[..|visits| - 1], visits[|visits| - 1];
    && Tiled(packet, init, qd)
    && last.name == NextName(packet, init, qd)
    && (|visits| > qd ==> last.fields + 10 <= |packet|)
  }

  lemma TiledOneMore(packet: Packet, visits: seq<Visit>, v: Visit, qd: nat)
    ensures Tiled(packet, visits + [v], qd) <==>
      && Tiled(packet, visits, qd)
      && v.name == NextName(packet, visits, qd)
      && (|visits| >= qd ==> v.fields + 10 <= |packet|)
  {
    assert (visits + [v])[..|visits|] == visits;
  }

  lemma NextAfter(packet: Packet, visits: seq<Visit>, v: Visit, qd: nat)
    requires |visits| >= qd ==> v.fields + 10 <= |packet|
    ensures NextName(packet, visits + [v], qd) ==
      if |visits| < qd then v.fields + 4 else v.fields + 10 + Count(packet, v.fields + 8)
  {
  }

  // One more record.
  lemma RecordStep(packet: Packet, ends: NameEnds, from: Position, n: nat, at: Position)
    requires Records(packet, ends, from, n) == Ok(at)
    ensures Records(packet, ends, from, n + 1) ==
      match ends(at.offset)
      case Err(e) => Err(e)
      case Ok(end) =>
        if end + 10 > |packet| then Err(IncompleteRdLength)
        else Ok(Position(end + 10 + Count(packet, end + 8), at.visits + [Visit(at.offset, end)]))
  {
  }

  lemma RecordReached(
    packet: Packet, ends: NameEnds, from: Position, n: nat, init: seq<Visit>, last: Visit, qd: nat)
    requires |init| >= qd && ends(last.name) == Ok(last.fields) && last.fields + 10 <= |packet|
    requires Records(packet, ends, from, n) == Ok(Position(last.name, init))
    ensures Records(packet, ends, from, n + 1) ==
      Ok(Position(NextName(packet, init + [last], qd), init + [last]))
  {
    RecordStep(packet, ends, from, n, Position(last.name, init));
    NextAfter(packet, init, last, qd);
  }

  lemma {:induction false} QuestionsTile(packet: Packet, ends: NameEnds, n: nat, qd: nat)
    requires n <= qd && Questions(packet, ends, n).Ok?
    ensures
      var at := Questions(packet, ends, n).value;
      |at.visits| == n && Tiled(packet, at.visits, qd) && at.offset == NextName(packet, at.visits, qd)
  {
    if n > 0 {
      QuestionsTile(packet, ends, n - 1, qd);
      var at := Questions(packet, ends, n - 1).value;
      TiledOneMore(packet, at.visits, Visit(at.offset, ends(at.offset).value), qd);
    }
  }

  lemma {:induction false} RecordsTile(packet: Packet, ends: NameEnds, from: Position, n: nat, qd: nat)
    requires |from.visits| == qd && Tiled(packet, from.visits, qd)
    requires from.offset == NextName(packet, from.visits, qd) && Records(packet, ends, from, n).Ok?
    ensures
      var at := Records(packet, ends, from, n).value;
      |at.visits| == qd + n && Tiled(packet, at.visits, qd) && at.offset == NextName(packet, at.visits, qd)
  {
    if n > 0 {
      RecordsTile(packet, ends, from, n - 1, qd);
      var at := Records(packet, ends, from, n - 1).value;
      RecordStep(packet, ends, from, n - 1, at);
      var v := Visit(at.offset, ends(at.offset).value);
      var next := Position(v.fields + 10 + Count(packet, v.fields + 8), at.visits + [v]);
      assert Records(packet, ends, from, n) == Ok(next);
      TiledOneMore(packet, at.visits, v, qd);
      NextAfter(packet, at.visits, v, qd);
    }
  }

  lemma LastVisit(ends: NameEnds, packet: Packet, visits: seq<Visit>, qd: nat)
    requires visits != [] && Ended(ends, visits) && Tiled(packet, visits, qd)
    ensures
      var init, last := visits[..|visits| - 1], visits[|visits| - 1];
      && Ended(ends, init) && Tiled(packet, init, qd)
      && ends(last.name) == Ok(last.fields) && last.name == NextName(packet, init, qd)
      && (|visits| > qd ==> last.fields + 10 <= |packet|)
      && visits == init + [last]
  {
    var init, last := visits[..|visits| - 1], visits[|visits| - 1];
    assert visits == init + [last];
    EndedOneMore(ends, init, last);
  }

  lemma {:induction false} QuestionsFromTiles(packet: Packet, ends: NameEnds, visits: seq<Visit>, qd: nat)
    requires |visits| <= qd && Ended(ends, visits) && Tiled(packet, visits, qd)
    ensures Questions(packet, ends, |visits|) == Ok(Position(NextName(packet, visits, qd), visits))
  {
    if visits != [] {
      LastVisit(ends, packet, visits, qd);
      QuestionsFromTiles(packet, ends, visits[..|visits| - 1], qd);
    }
  }

  lemma {:induction false} RecordsFromTiles(
    packet: Packet, ends: NameEnds, visits: seq<Visit>, qd: nat, from: Position, n: nat)
    requires |visits| == qd + n && Ended(ends, visits) && Tiled(packet, visits, qd)
    requires |from.visits| == qd && from.visits <= visits && from.offset == NextName(packet, from.visits, qd)
    ensures Records(packet, ends, from, n) == Ok(Position(NextName(packet, visits, qd), visits))
  {
    if n == 0 {
      assert from.visits == visits;
    } else {
      var init, last := visits[..|visits| - 1], visits[|visits| - 1];
      LastVisit(ends, packet, visits, qd);
      RecordsFromTiles(packet, ends, init, qd, from, n - 1);
      RecordReached(packet, ends, from, n - 1, init, last, qd);
    }
  }

  lemma {:induction false} FirstVisits(packet: Packet, ends: NameEnds, visits: seq<Visit>, qd: nat, n: nat)
    requires n <= |visits| && Ended(ends, visits) && Tiled(packet, visits, qd)
    ensures Ended(ends, visits[..n]) && Tiled(packet, visits[..n], qd)
  {
    if n == |visits| {
      assert visits[..n] == visits;
    } else {
      LastVisit(ends, packet, visits, qd);
      FirstVisits(packet, ends, visits[..|visits| - 1], qd, n);
      assert visits[..|visits| - 1][..n] == visits[..n];
    }
  }

  // The 16-bit count in two bytes of the header.
  function HeaderCount(packet: Packet, i: nat): nat
    requires i + 2 <= |packet|
  {
    var high: int, low: int := packet[i], packet[i + 1];
    256 * high + low
  }

  // The visits number as the header says, end their names and tile the packet.
  ghost predicate Accounted(packet: Packet, ends: NameEnds, visits: seq<Visit>)
    requires |packet| >= 12
  {
    var qd := HeaderCount(packet, 4);
    && |visits| == qd + HeaderCount(packet, 6) + HeaderCount(packet, 8) + HeaderCount(packet, 10)
    && Tiled(packet, visits, qd)
    && Ended(ends, visits)
  }

  lemma HeaderCounts(packet: Packet)
    requires |packet| >= 12
    ensures Count(packet, 4) == HeaderCount(packet, 4)
    ensures RecordCount(packet) == HeaderCount(packet, 6) + HeaderCount(packet, 8) + HeaderCount(packet, 10)
  {
  }

  lemma SectionsAreAccounted(packet: Packet, ends: NameEnds)
    requires |packet| >= 12 && Sections(packet, ends).Ok?
    ensures Accounted(packet, ends, Sections(packet, ends).value)
  {
    var qd := Count(packet, 4);
    HeaderCounts(packet);
    SectionsEnded(packet, ends);
    QuestionsTile(packet, ends, qd, qd);
    RecordsTile(packet, ends, Questions(packet, ends, qd).value, RecordCount(packet), qd);
  }

  lemma AccountedAreSections(packet: Packet, ends: NameEnds, visits: seq<Visit>)
    requires |packet| >= 12 && Accounted(packet, ends, visits)
    ensures Sections(packet, ends) == Ok(visits)
  {
    var qd := Count(packet, 4);
    HeaderCounts(packet);
    FirstVisits(packet, ends, visits, qd, qd);
    QuestionsFromTiles(packet, ends, visits[..qd], qd);
    RecordsFromTiles(packet, ends, visits, qd, Questions(packet, ends, qd).value, RecordCount(packet));
  }

  /** A walk of the sections succeeds with exactly those visits, as many as the header
      counts, that end each name as the walk does and stand one after another. */
  lemma SectionsAreTiled(packet: Packet, ends: NameEnds, visits: seq<Visit>)
    requires |packet| >= 12
    ensures Sections(packet, ends) == Ok(visits) <==> Accounted(packet, ends, visits)
  {
    if Sections(packet, ends) == Ok(visits) { SectionsAreAccounted(packet, ends); }
    if Accounted(packet, ends, visits) { AccountedAreSections(packet, ends, visits); }
  }

  /** The check accepts with exactly the visits that tile the packet, each name walked. */
  lemma IntegrityIsTiled(packet: Packet, ranges: seq<Range>, visits: seq<Visit>)
    ensures Integrity(packet, ranges) == Ok(visits) <==>
      && |packet| >= 12
      && var qd := HeaderCount(packet, 4);
         && |visits| == qd + HeaderCount(packet, 6) + HeaderCount(packet, 8) + HeaderCount(packet, 10)
         && Tiled(packet, visits, qd)
         && forall i :: 0 <= i < |visits| ==> WalkName(packet, ranges, visits[i].name, 0) == Ok(visits[i].fields)
  {
    if |packet| >= 12 {
      var ends := Walking(packet, ranges);
      SectionsAreTiled(packet, ends, visits);
      assert forall o: nat :: ends(o) == WalkName(packet, ranges, o, 0);
    }
  }

  // ---- The layout of the message ----------------------------------------------

  // Where the name at an offset ends in place: past its null byte or its first pointer.
  function PlaceEnd(packet: Packet, offset: nat): Result<nat, WalkError>
    decreases |packet| - offset
  {
    if offset >= |packet| then Err(OutOfBounds)
    else if packet[offset] == 0 then Ok(offset + 1)
    else if IsPointer(packet[offset]) then
      if offset + 1 >= |packet| then Err(IncompletePointer) else Ok(offset + 2)
    else if packet[offset] > 63 then Err(LabelTooLong)
    else if offset + 1 + packet[offset] > |packet| then Err(LabelBeyondPacket)
    else PlaceEnd(packet, offset + 1 + packet[offset])
  }

  lemma {:induction false} PlaceEndIsNameEnd(packet: Packet, ranges: seq<Range>, chain: seq<nat>)
    requires IsChain(packet, ranges, chain)
    ensures PlaceEnd(packet, chain[0]) == Ok(NameEnd(packet, chain))
    decreases |chain|
  {
    if |chain| > 1 {
      ChainTail(packet, ranges, chain);
      if !IsPointer(packet[chain[0]]) { PlaceEndIsNameEnd(packet, ranges, chain[1..]); }
    }
  }

  function InPlace(packet: Packet): NameEnds {
    offset => PlaceEnd(packet, offset)
  }

  // The questions and records as they lie in the packet.
  function Layout(packet: Packet): Result<seq<Visit>, WalkError> {
    Sections(packet, InPlace(packet))
  }

  // The layout is the visits that tile the packet, each name ended in place.
  lemma LayoutIsTiled(packet: Packet, visits: seq<Visit>)
    ensures Layout(packet) == Ok(visits) <==>
      && |packet| >= 12
      && var qd := HeaderCount(packet, 4);
         && |visits| == qd + HeaderCount(packet, 6) + HeaderCount(packet, 8) + HeaderCount(packet, 10)
         && Tiled(packet, visits, qd)
         && forall i :: 0 <= i < |visits| ==> PlaceEnd(packet, visits[i].name) == Ok(visits[i].fields)
  {
    if |packet| >= 12 {
      var ends := InPlace(packet);
      SectionsAreTiled(packet, ends, visits);
      assert forall o: nat :: ends(o) == PlaceEnd(packet, o);
    }
  }

  // The name at an offset has no pointer, or ends at the low byte of its first one.
  ghost predicate EndsInPlace(packet: Packet, ranges: seq<Range>, start: nat) {
    exists chain :: IsChain(packet, ranges, chain) && chain[0] == start && Hops(packet, chain) <= MAX_HOPS
      && (Hops(packet, chain) == 0 || chain[|chain| - 1] == FirstPointer(packet, chain) + 1)
  }

  lemma WalkEndsInPlace(packet: Packet, ranges: seq<Range>, start: nat)
    requires WalkName(packet, ranges, start, 0).Ok?
    ensures PlaceEnd(packet, start) == WalkName(packet, ranges, start, 0) <==> EndsInPlace(packet, ranges, start)
  {
    var chain := WalkHasChain(packet, ranges, start, 0);
    WalkEndIsNameEnd(packet, ranges, chain);
    PlaceEndIsNameEnd(packet, ranges, chain);
    if EndsInPlace(packet, ranges, start) {
      var other :| IsChain(packet, ranges, other) && other[0] == start && Hops(packet, other) <= MAX_HOPS
        && (Hops(packet, other) == 0 || other[|other| - 1] == FirstPointer(packet, other) + 1);
      WalkEndIsNameEnd(packet, ranges, other);
      PlaceEndIsNameEnd(packet, ranges, other);
    }
  }

  lemma PlaceEndIsWalked(packet: Packet, ranges: seq<Range>, start: nat, end: nat)
    requires PlaceEnd(packet, start) == Ok(end)
    ensures WalkName(packet, ranges, start, 0) == Ok(end) <==> EndsInPlace(packet, ranges, start)
  {
    if WalkName(packet, ranges, start, 0).Ok? {
      WalkEndsInPlace(packet, ranges, start);
    } else if EndsInPlace(packet, ranges, start) {
      var chain :| IsChain(packet, ranges, chain) && chain[0] == start && Hops(packet, chain) <= MAX_HOPS;
      ChainIsWalked(packet, ranges, chain, 0);
    }
  }

  ghost predicate AllEndInPlace(packet: Packet, ranges: seq<Range>, visits: seq<Visit>) {
    forall i :: 0 <= i < |visits| ==> EndsInPlace(packet, ranges, visits[i].name)
  }

  // A message as it lies in the packet: the check follows it when all its names end in place.
  lemma LayoutIsFollowed(packet: Packet, ranges: seq<Range>)
    requires Layout(packet).Ok?
    ensures Integrity(packet, ranges) == Layout(packet) <==> AllEndInPlace(packet, ranges, Layout(packet).value)
  {
    var f, g := InPlace(packet), Walking(packet, ranges);
    var visits := Layout(packet).value;
    SectionsEnded(packet, f);
    SectionsAgree(packet, f, g);
    forall i | 0 <= i < |visits|
      ensures g(visits[i].name) == Ok(visits[i].fields) <==> EndsInPlace(packet, ranges, visits[i].name)
    {
      assert f(visits[i].name) == Ok(visits[i].fields);
      PlaceEndIsWalked(packet, ranges, visits[i].name, visits[i].fields);
    }
  }

  // What the check visits is the message when all the names it visits end in place.
  lemma VisitsAreLayout(packet: Packet, ranges: seq<Range>)
    requires Integrity(packet, ranges).Ok?
    ensures
      Layout(packet) == Integrity(packet, ranges) <==> AllEndInPlace(packet, ranges, Integrity(packet, ranges).value)
  {
    var f, g := Walking(packet, ranges), InPlace(packet);
    var visits := Integrity(packet, ranges).value;
    SectionsEnded(packet, f);
    SectionsAgree(packet, f, g);
    forall i | 0 <= i < |visits|
      ensures g(visits[i].name) == Ok(visits[i].fields) <==> EndsInPlace(packet, ranges, visits[i].name)
    {
      assert f(visits[i].name) == Ok(visits[i].fields);
      WalkEndsInPlace(packet, ranges, visits[i].name);
    }
  }

  /** The check accepts a message that has a layout, visiting exactly its names and fields,
      exactly when every name of the layout ends in place. When it accepts, what it visited
      is the layout exactly when every name it visited ends in place. */
  lemma IntegrityReadsLayout(packet: Packet, ranges: seq<Range>)
    ensures Layout(packet).Ok? ==>
      (Integrity(packet, ranges) == Layout(packet) <==> AllEndInPlace(packet, ranges, Layout(packet).value))
    ensures Integrity(packet, ranges).Ok? ==>
      (Layout(packet) == Integrity(packet, ranges) <==>
       AllEndInPlace(packet, ranges, Integrity(packet, ranges).value))
  {
    if Layout(packet).Ok? { LayoutIsFollowed(packet, ranges); }
    if Integrity(packet, ranges).Ok? { VisitsAreLayout(packet, ranges); }
  }

  /** A packet with one record, whose owner is a pointer to the null byte behind it: the
      check takes the fields of the record to start one byte late, and accepts. */
  lemma CheckCanLeaveTheLayout(packet: Packet)
    requires |packet| >= 25 && Count(packet, 4) == 0 && RecordCount(packet) == 1
    requires packet[12] == 0xC0 && packet[13] == 14 && packet[14] == 0
    ensures Integrity(packet, []) == Ok([Visit(12, 15)])
    ensures Layout(packet) == Ok([Visit(12, 14)])
  {
    assert WalkName(packet, [], 14, 1) == Ok(15);
    assert Walking(packet, [])(12) == Ok(15);
    OneRecord(packet, Walking(packet, []), 15);
    assert InPlace(packet)(12) == Ok(14);
    OneRecord(packet, InPlace(packet), 14);
  }

  lemma OneRecord(packet: Packet, ends: NameEnds, end: nat)
    requires |packet| >= 12 && Count(packet, 4) == 0 && RecordCount(packet) == 1
    requires ends(12) == Ok(end) && end + 10 <= |packet|
    ensures Sections(packet, ends) == Ok([Visit(12, end)])
  {
    var from := Position(12, []);
    assert Questions(packet, ends, 0) == Ok(from);
    assert Records(packet, ends, from, 0) == Ok(from);
    assert Records(packet, ends, from, 1) ==
      Ok(Position(end + 10 + Count(packet, end + 8), from.visits + [Visit(12, end)]));
    assert from.visits + [Visit(12, end)] == [Visit(12, end)];
  }

  // ---- The range-deleting copy ------------------------------------------------

  function CopyFrom(packet: Packet, ranges: seq<Range>, next: nat, offset: nat): Packet
    requires next <= |ranges|
    decreases |ranges| - next, |packet| - offset
  {
    if offset >= |packet| then []
    else if next < |ranges| && offset >= ranges[next].start then
      CopyFrom(packet, ranges, next + 1, ranges[next].end)
    else
      var boundary := Boundary(packet, ranges, next);
      packet[offset..boundary] + CopyFrom(packet, ranges, next, boundary)
  }

  // The loop ends, with every slice in bounds, for any list of ranges.
  method CopyKeptBytes(packet: Packet, ranges: seq<Range>) returns (out: Packet)
    requires |packet| >= 12
    ensures out == packet[..12] + CopyFrom(packet, ranges, 0, 12)
  {
    out := packet[..12];
    var offset: nat, next: nat := 12, 0;
    ghost var whole := packet[..12] + CopyFrom(packet, ranges, 0, 12);
    while offset < |packet|
      invariant next <= |ranges|
      invariant whole == out + CopyFrom(packet, ranges, next, offset)
      decreases |ranges| - next, |packet| - offset
    {
      if next < |ranges| && offset >= ranges[next].start {
        offset, next := ranges[next].end, next + 1;
        continue;
      }
      var boundary := if next < |ranges| then ranges[next].start else |packet|;
      var copyEnd := if boundary < |packet| then boundary else |packet|;
      ghost var rest := CopyFrom(packet, ranges, next, copyEnd);
      assert out + (packet[offset..copyEnd] + rest) == out + packet[offset..copyEnd] + rest;
      out := out + packet[offset..copyEnd];
      offset := copyEnd;
    }
    assert out + [] == out;
  }

  // The bytes from position i on that lie in no range, in order.
  function Kept(packet: Packet, ranges: seq<Range>, i: nat): Packet
    decreases |packet| - i
  {
    if i >= |packet| then []
    else (if Removed(ranges, i) then [] else [packet[i]]) + Kept(packet, ranges, i + 1)
  }

  predicate SortedDisjoint(ranges: seq<Range>) {
    && (forall i :: 0 <= i < |ranges| ==> 12 <= ranges[i].start <= ranges[i].end)
    && (forall i, j :: 0 <= i < j < |ranges| ==> ranges[i].end <= ranges[j].start)
  }

  lemma {:induction false} KeepSlice(packet: Packet, ranges: seq<Range>, a: nat, b: nat)
    requires a <= b <= |packet| && forall i :: a <= i < b ==> !Removed(ranges, i)
    ensures Kept(packet, ranges, a) == packet[a..b] + Kept(packet, ranges, b)
    decreases b - a
  {
    if a < b {
      KeepSlice(packet, ranges, a + 1, b);
      var mid, rest := packet[a + 1..b], Kept(packet, ranges, b);
      assert packet[a..b] == [packet[a]] + mid;
      assert Kept(packet, ranges, a) == [packet[a]] + (mid + rest);
      assert [packet[a]] + (mid + rest) == [packet[a]] + mid + rest;
    } else {
      assert packet[a..b] + Kept(packet, ranges, b) == Kept(packet, ranges, b);
    }
  }

  lemma {:induction false} DropSlice(packet: Packet, ranges: seq<Range>, a: nat, b: nat)
    requires a <= b && forall i :: a <= i < b ==> Removed(ranges, i)
    ensures Kept(packet, ranges, a) == Kept(packet, ranges, b)
    decreases b - a
  {
    if a < b { DropSlice(packet, ranges, a + 1, b); }
  }

  // Between the ranges already skipped and the next one nothing is removed.
  lemma GapIsKept(ranges: seq<Range>, next: nat, a: nat, b: nat)
    requires SortedDisjoint(ranges) && next <= |ranges|
    requires forall i :: 0 <= i < next ==> ranges[i].end <= a
    requires next < |ranges| ==> b <= ranges[next].start
    ensures forall i :: a <= i < b ==> !Removed(ranges, i)
  {
    forall i | a <= i < b ensures !Removed(ranges, i) {
      forall r | r in ranges ensures !r.Contains(i) {
        var j :| 0 <= j < |ranges| && ranges[j] == r;
        if j > next { assert ranges[next].end <= ranges[j].start; }
      }
    }
  }

  lemma RangeIsDropped(packet: Packet, ranges: seq<Range>, next: nat)
    requires SortedDisjoint(ranges) && next < |ranges|
    ensures Kept(packet, ranges, ranges[next].start) == Kept(packet, ranges, ranges[next].end)
  {
    var r := ranges[next];
    forall i: nat | r.start <= i < r.end ensures Removed(ranges, i) { assert r in ranges && r.Contains(i); }
    DropSlice(packet, ranges, r.start, r.end);
  }

  // Where the copy goes on after a gap that starts at an offset.
  function Boundary(packet: Packet, ranges: seq<Range>, next: nat): nat
    requires next <= |ranges|
  {
    if next < |ranges| && ranges[next].start < |packet| then ranges[next].start else |packet|
  }

  lemma GapIsCopied(packet: Packet, ranges: seq<Range>, next: nat, offset: nat)
    requires SortedDisjoint(ranges) && next <= |ranges|
    requires forall i :: 0 <= i < next ==> ranges[i].end <= offset
    requires offset <= Boundary(packet, ranges, next)
    ensures
      var boundary := Boundary(packet, ranges, next);
      Kept(packet, ranges, offset) == packet[offset..boundary] + Kept(packet, ranges, boundary)
  {
    var boundary := Boundary(packet, ranges, next);
    GapIsKept(ranges, next, offset, boundary);
    KeepSlice(packet, ranges, offset, boundary);
  }

  lemma {:induction false} CopyIsKept(packet: Packet, ranges: seq<Range>, next: nat, offset: nat)
    requires SortedDisjoint(ranges) && next <= |ranges|
    requires forall i :: 0 <= i < next ==> ranges[i].end <= offset
    requires next < |ranges| ==> offset <= ranges[next].start
    ensures CopyFrom(packet, ranges, next, offset) == Kept(packet, ranges, offset)
    decreases |ranges| - next, |packet| - offset
  {
    if offset < |packet| {
      if next < |ranges| && offset == ranges[next].start {
        RangeIsDropped(packet, ranges, next);
        CopyIsKept(packet, ranges, next + 1, ranges[next].end);
      } else {
        GapIsCopied(packet, ranges, next, offset);
        CopyIsKept(packet, ranges, next, Boundary(packet, ranges, next));
      }
    }
  }

  // Sorted disjoint ranges after the header: exactly the other bytes remain, in order.
  lemma CopyKeepsTheRest(packet: Packet, ranges: seq<Range>)
    requires |packet| >= 12 && SortedDisjoint(ranges)
    ensures CopyFrom(packet, ranges, 0, 12) == Kept(packet, ranges, 12)
  {
    CopyIsKept(packet, ranges, 0, 12);
  }

  function TotalRemoved(ranges: seq<Range>, next: nat): nat
    requires SortedDisjoint(ranges) && next <= |ranges|
    decreases |ranges| - next
  {
    if next == |ranges| then 0 else ranges[next].end - ranges[next].start + TotalRemoved(ranges, next + 1)
  }

  // The copy is shorter by the total length of the ranges.
  lemma {:induction false} CopyLength(packet: Packet, ranges: seq<Range>, next: nat, offset: nat)
    requires SortedDisjoint(ranges) && next <= |ranges| && offset <= |packet|
    requires forall i :: 0 <= i < |ranges| ==> ranges[i].end <= |packet|
    requires next < |ranges| ==> offset <= ranges[next].start
    ensures |CopyFrom(packet, ranges, next, offset)| == |packet| - offset - TotalRemoved(ranges, next)
    decreases |ranges| - next, |packet| - offset
  {
    if next < |ranges| && (offset >= ranges[next].start || offset == |packet|) {
      assert offset == ranges[next].start;
      if offset < |packet| {
        CopyLength(packet, ranges, next + 1, ranges[next].end);
      } else {
        NothingLeft(ranges, next, |packet|);
      }
    } else if offset < |packet| {
      var boundary := if next < |ranges| && ranges[next].start < |packet| then ranges[next].start else |packet|;
      CopyLength(packet, ranges, next, boundary);
    }
  }

  lemma {:induction false} NothingLeft(ranges: seq<Range>, next: nat, size: nat)
    requires SortedDisjoint(ranges) && next <= |ranges|
    requires forall i :: 0 <= i < |ranges| ==> ranges[i].end <= size
    requires next < |ranges| ==> ranges[next].start == size
    ensures TotalRemoved(ranges, next) == 0
    decreases |ranges| - next
  {
    if next < |ranges| { NothingLeft(ranges, next + 1, size); }
  }
}
