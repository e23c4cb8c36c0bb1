/**
 * The quote and escape decoder for configuration lines. The program nests a loop over
 * quoted text in a loop over the line; here it is proved equal to a one-pass automaton,
 * and the laws of decoding are proved of the automaton.
 */
module Quotes {
  import opened Basics

  // Where the reader stands between two characters.
  datatype Mode = Outside | Escaped | Quoted(q: char) | QuotedEscaped(q: char)

  // What an escaped character inside quotes stands for.
  function Unescape(c: char): char {
    if c == 't' then '\t'
    else if c == 'n' then '\n'
    else if c == 'r' then '\r'
    else if c == 'b' then '\U{08}'
    else if c == 'e' then '\U{1b}'
    else c
  }

  function Next(m: Mode, c: char): Mode {
    match m
    case Outside => if c == '"' || c == '\'' then Quoted(c) else if c == '\\' then Escaped else Outside
    case Escaped => Outside
    case Quoted(q) => if c == q then Outside else if c == '\\' then QuotedEscaped(q) else m
    case QuotedEscaped(q) => Quoted(q)
  }

  function Emitted(m: Mode, c: char): string {
    match m
    case Outside => if c == '"' || c == '\'' || c == '\\' then "" else [c]
    case Escaped => [c]
    case Quoted(q) => if c == q || c == '\\' then "" else [c]
    case QuotedEscaped(_) => [Unescape(c)]
  }

  // The mode after a string.
  function End(m: Mode, s: string): Mode
    decreases |s|
  {
    if s == "" then m else End(Next(m, s[0]), s[1..])
  }

  function Prefixed(out: string, rest: Result<string, char>): Result<string, char> {
    match rest
    case Ok(more) => Ok(out + more)
    case Err(q) => Err(q)
  }

  // The decoding of what remains; an error names the quote left open.
  function DecodeFrom(m: Mode, s: string): Result<string, char>
    decreases |s|
  {
    if s == "" then
      match m
      case Outside => Ok("")
      case Escaped => Ok("\\")
      case Quoted(q) => Err(q)
      case QuotedEscaped(q) => Err(q)
    else Prefixed(Emitted(m, s[0]), DecodeFrom(Next(m, s[0]), s[1..]))
  }

  function Decode(s: string): Result<string, char> {
    DecodeFrom(Outside, s)
  }

  // ---- The nested loops -------------------------------------------------------

  lemma PrefixedTwice(a: string, b: string, rest: Result<string, char>)
    ensures Prefixed(a, Prefixed(b, rest)) == Prefixed(a + b, rest)
    ensures Prefixed("", rest) == rest
  {
    if rest.Ok? {
      assert a + (b + rest.value) == a + b + rest.value;
      assert "" + rest.value == rest.value;
    }
  }

  // One character of the line moves from the remainder to the output.
  lemma Advance(m: Mode, line: string, i: nat, out: string)
    requires i < |line|
    ensures Prefixed(out, DecodeFrom(m, line[i..])) ==
            Prefixed(out + Emitted(m, line[i]), DecodeFrom(Next(m, line[i]), line[i + 1..]))
  {
    assert line[i..][1..] == line[i + 1..];
    PrefixedTwice(out, Emitted(m, line[i]), DecodeFrom(Next(m, line[i]), line[i + 1..]));
  }

  method ParseQuotedString(line: string, start: nat, q: char) returns (r: Result<string, char>, next: nat)
    requires start <= |line|
    ensures start <= next <= |line|
    ensures r.Ok? ==> DecodeFrom(Quoted(q), line[start..]) == Prefixed(r.value, DecodeFrom(Outside, line[next..]))
    ensures r.Err? ==> DecodeFrom(Quoted(q), line[start..]) == r
  {
    var result := "";
    next := start;
    ghost var whole := DecodeFrom(Quoted(q), line[start..]);
    PrefixedTwice("", "", whole);
    while next < |line|
      invariant start <= next <= |line|
      invariant whole == Prefixed(result, DecodeFrom(Quoted(q), line[next..]))
    {
      var ch := line[next];
      Advance(Quoted(q), line, next, result);
      next := next + 1;
      if ch == q {
        assert result + "" == result;
        return Ok(result), next;
      } else if ch == '\\' {
        assert result + "" == result;
        if next < |line| {
          Advance(QuotedEscaped(q), line, next, result);
          result := result + [Unescape(line[next])];
          next := next + 1;
        } else {
          return Err(q), next;
        }
      } else {
        result := result + [ch];
      }
    }
    return Err(q), next;
  }

  method ProcessQuotesAndEscapes(line: string) returns (r: Result<string, char>)
    ensures r == Decode(line)
  {
    var result := "";
    var i := 0;
    ghost var whole := Decode(line);
    PrefixedTwice("", "", whole);
    assert line[0..] == line;
    while i < |line|
      invariant i <= |line|
      invariant whole == Prefixed(result, DecodeFrom(Outside, line[i..]))
    {
      var ch := line[i];
      Advance(Outside, line, i, result);
      i := i + 1;
      if ch == '"' || ch == '\'' {
        assert result + "" == result;
        var quoted, next := ParseQuotedString(line, i, ch);
        if quoted.Err? { return quoted; }
        PrefixedTwice(result, quoted.value, DecodeFrom(Outside, line[next..]));
        result := result + quoted.value;
        i := next;
      } else if ch == '\\' {
        assert result + "" == result;
        if i < |line| {
          Advance(Escaped, line, i, result);
          result := result + [line[i]];
          i := i + 1;
        } else {
          result := result + "\\";
          return Ok(result);
        }
      } else {
        result := result + [ch];
      }
    }
    assert result + "" == result;
    return Ok(result);
  }

  // ---- Laws -------------------------------------------------------------------

  // The output of a string read from a mode, leaving out what the end of input adds.
  function Output(m: Mode, s: string): (r: string)
    ensures |r| <= |s|
    decreases |s|
  {
    if s == "" then "" else Emitted(m, s[0]) + Output(Next(m, s[0]), s[1..])
  }

  lemma {:induction false} EndInTwoParts(m: Mode, a: string, b: string)
    ensures End(m, a + b) == End(End(m, a), b)
    decreases |a|
  {
    if a == "" {
      assert a + b == b;
    } else {
      assert (a + b)[1..] == a[1..] + b;
      EndInTwoParts(Next(m, a[0]), a[1..], b);
    }
  }

  lemma {:induction false} OutputInTwoParts(m: Mode, a: string, b: string)
    ensures Output(m, a + b) == Output(m, a) + Output(End(m, a), b)
    decreases |a|
  {
    if a == "" {
      assert a + b == b;
    } else {
      var m' := Next(m, a[0]);
      assert (a + b)[1..] == a[1..] + b && (a + b)[0] == a[0];
      OutputInTwoParts(m', a[1..], b);
      var x, y, z := Emitted(m, a[0]), Output(m', a[1..]), Output(End(m, a), b);
      assert x + (y + z) == x + y + z;
    }
  }

  lemma {:induction false} ReadInTwoParts(m: Mode, a: string, b: string)
    ensures DecodeFrom(m, a + b) == Prefixed(Output(m, a), DecodeFrom(End(m, a), b))
    decreases |a|
  {
    if a == "" {
      assert a + b == b;
      PrefixedTwice("", "", DecodeFrom(m, b));
    } else {
      var m' := Next(m, a[0]);
      assert (a + b)[1..] == a[1..] + b && (a + b)[0] == a[0];
      ReadInTwoParts(m', a[1..], b);
      assert End(m, a) == End(m', a[1..]);
      PrefixedTwice(Emitted(m, a[0]), Output(m', a[1..]), DecodeFrom(End(m, a), b));
    }
  }

  // Decoding distributes over concatenation at a point outside quotes and escapes.
  lemma DecodeDistributes(a: string, b: string)
    requires End(Outside, a) == Outside
    ensures Decode(a).Ok?
    ensures Decode(a + b) == Prefixed(Decode(a).value, Decode(b))
  {
    ReadInTwoParts(Outside, a, b);
    ReadInTwoParts(Outside, a, "");
    assert a + "" == a;
    assert Output(Outside, a) + "" == Output(Outside, a);
  }

  // Decoding fails exactly when a quote is left open, and names that quote.
  lemma DecodeFailsExactlyOnOpenQuote(s: string)
    ensures Decode(s).Err? <==> End(Outside, s).Quoted? || End(Outside, s).QuotedEscaped?
    ensures Decode(s).Err? ==> Decode(s).error == End(Outside, s).q
  {
    ReadInTwoParts(Outside, s, "");
    assert s + "" == s;
  }

  lemma {:induction false} EscapeAddsRoom(m: Mode, s: string)
    ensures End(m, s).Escaped? && !m.Escaped? ==> |Output(m, s)| < |s|
    decreases |s|
  {
    if s != "" {
      var m' := Next(m, s[0]);
      if !m'.Escaped? {
        EscapeAddsRoom(m', s[1..]);
      } else if |s| > 1 {
        assert s[1..][1..] == s[2..];
        EscapeAddsRoom(Outside, s[2..]);
      }
    }
  }

  // Decoding never lengthens its input.
  lemma DecodeNeverLengthens(s: string)
    requires Decode(s).Ok?
    ensures |Decode(s).value| <= |s|
  {
    ReadInTwoParts(Outside, s, "");
    assert s + "" == s;
    EscapeAddsRoom(Outside, s);
  }

  // A backslash before each backslash and each closing quote.
  function Protect(s: string, q: char): string {
    if s == "" then ""
    else (if s[0] == '\\' || s[0] == q then ['\\', s[0]] else [s[0]]) + Protect(s[1..], q)
  }

  function Quote(s: string, q: char): string {
    [q] + Protect(s, q) + [q]
  }

  lemma {:induction false} ProtectedText(s: string, q: char)
    requires q == '"' || q == '\''
    ensures Output(Quoted(q), Protect(s, q)) == s
    ensures End(Quoted(q), Protect(s, q)) == Quoted(q)
  {
    if s != "" {
      var rest := Protect(s[1..], q);
      ProtectedText(s[1..], q);
      var c := if s[0] == '\\' || s[0] == q then ['\\', s[0]] else [s[0]];
      assert Protect(s, q) == c + rest;
      ProtectedChar(s[0], q);
      OutputInTwoParts(Quoted(q), c, rest);
      EndInTwoParts(Quoted(q), c, rest);
      assert s == [s[0]] + s[1..];
    }
  }

  lemma ProtectedChar(c: char, q: char)
    requires q == '"' || q == '\''
    ensures
      var p := if c == '\\' || c == q then ['\\', c] else [c];
      Output(Quoted(q), p) == [c] && End(Quoted(q), p) == Quoted(q)
  {
    if c == '\\' || c == q {
      assert ['\\', c][1..] == [c] && [c][1..] == "";
      assert Output(QuotedEscaped(q), [c]) == [c] + "";
      assert End(QuotedEscaped(q), [c]) == Quoted(q);
    } else {
      assert [c][1..] == "";
    }
  }

  /** Quoting any text and decoding it gives the text back, in the middle of any line
      and whichever of the two quotes is used. */
  lemma QuoteRoundTrip(before: string, s: string, q: char, after: string)
    requires q == '"' || q == '\''
    requires End(Outside, before) == Outside
    ensures Decode(before).Ok?
    ensures Decode(before + Quote(s, q) + after) == Prefixed(Decode(before).value + s, Decode(after))
    ensures Decode(Quote(s, q)) == Ok(s)
  {
    var text := Protect(s, q);
    ProtectedText(s, q);
    ReadInTwoParts(Quoted(q), text, [q]);
    EndInTwoParts(Quoted(q), text, [q]);
    assert End(Quoted(q), [q]) == Outside;
    assert Quote(s, q) == [q] + (text + [q]);
    assert Quote(s, q)[1..] == text + [q];
    assert End(Outside, Quote(s, q)) == Outside;
    assert DecodeFrom(Quoted(q), [q]) == Ok("" + "");
    PrefixedTwice("", "", Prefixed(s, Ok("")));
    assert s + "" == s;
    assert Decode(Quote(s, q)) == Ok(s);
    DecodeDistributes(before, Quote(s, q));
    EndInTwoParts(Outside, before, Quote(s, q));
    DecodeDistributes(before + Quote(s, q), after);
  }

  // ---- What a line says -------------------------------------------------------

  // A character inside quotes, as itself or behind a backslash.
  datatype Item = Char(c: char) | Escape(c: char)

  // A piece of a line: a character, one behind a backslash, or text in quotes.
  datatype Token = Plain(c: char) | Literal(c: char) | Text(q: char, items: seq<Item>)

  // How a line ends after its tokens: there, in a lone backslash, or inside quotes.
  datatype Ending = Complete | Dangling | Open(q: char, items: seq<Item>, dangling: bool)

  predicate IsQuote(c: char) {
    c == '"' || c == '\''
  }

  predicate ItemOf(q: char, i: Item) {
    i.Char? ==> i.c != q && i.c != '\\'
  }

  ghost predicate ItemsOf(q: char, items: seq<Item>) {
    forall i :: 0 <= i < |items| ==> ItemOf(q, items[i])
  }

  ghost predicate WellFormed(t: Token) {
    match t
    case Plain(c) => !IsQuote(c) && c != '\\'
    case Literal(_) => true
    case Text(q, items) => IsQuote(q) && ItemsOf(q, items)
  }

  ghost predicate AllWellFormed(ts: seq<Token>) {
    forall i :: 0 <= i < |ts| ==> WellFormed(ts[i])
  }

  ghost predicate EndsWell(e: Ending) {
    e.Open? ==> IsQuote(e.q) && ItemsOf(e.q, e.items)
  }

  function WriteItems(items: seq<Item>): string {
    if items == [] then ""
    else (if items[0].Char? then [items[0].c] else ['\\', items[0].c]) + WriteItems(items[1..])
  }

  function WriteToken(t: Token): string {
    match t
    case Plain(c) => [c]
    case Literal(c) => ['\\', c]
    case Text(q, items) => [q] + WriteItems(items) + [q]
  }

  function Write(ts: seq<Token>): string {
    if ts == [] then "" else WriteToken(ts[0]) + Write(ts[1..])
  }

  function WriteEnding(e: Ending): string {
    match e
    case Complete => ""
    case Dangling => "\\"
    case Open(q, items, dangling) => [q] + WriteItems(items) + (if dangling then "\\" else "")
  }

  // What the items and tokens mean.
  function ItemsMean(items: seq<Item>): string {
    if items == [] then ""
    else [if items[0].Char? then items[0].c else Unescape(items[0].c)] + ItemsMean(items[1..])
  }

  function TokenMeans(t: Token): string {
    match t
    case Plain(c) => [c]
    case Literal(c) => [c]
    case Text(_, items) => ItemsMean(items)
  }

  function Meaning(ts: seq<Token>): string {
    if ts == [] then "" else TokenMeans(ts[0]) + Meaning(ts[1..])
  }

  // Five letters stand for control characters behind a backslash in quotes, all other
  // characters for themselves.
  lemma UnescapeExactly(c: char)
    ensures Unescape(c) as int ==
      if c == 't' then 0x09
      else if c == 'n' then 0x0A
      else if c == 'r' then 0x0D
      else if c == 'b' then 0x08
      else if c == 'e' then 0x1B
      else c as int
  {
  }

  lemma StepOnce(m: Mode, c: char, rest: string)
    ensures DecodeFrom(m, [c] + rest) == Prefixed(Emitted(m, c), DecodeFrom(Next(m, c), rest))
  {
    assert ([c] + rest)[1..] == rest;
  }

  lemma StepTwice(m: Mode, c: char, d: char, rest: string)
    ensures DecodeFrom(m, [c, d] + rest) ==
      Prefixed(Emitted(m, c) + Emitted(Next(m, c), d), DecodeFrom(Next(Next(m, c), d), rest))
  {
    assert [c, d] + rest == [c] + ([d] + rest);
    StepOnce(m, c, [d] + rest);
    StepOnce(Next(m, c), d, rest);
    PrefixedTwice(Emitted(m, c), Emitted(Next(m, c), d), DecodeFrom(Next(Next(m, c), d), rest));
  }

  lemma {:induction false} ItemsDecode(q: char, items: seq<Item>, rest: string)
    requires IsQuote(q) && ItemsOf(q, items)
    ensures DecodeFrom(Quoted(q), WriteItems(items) + rest) ==
      Prefixed(ItemsMean(items), DecodeFrom(Quoted(q), rest))
    decreases |items|
  {
    if items == [] {
      assert "" + rest == rest;
      PrefixedTwice("", "", DecodeFrom(Quoted(q), rest));
    } else {
      var i, more := items[0], items[1..];
      assert ItemsOf(q, more) by { assert forall k :: 0 <= k < |more| ==> more[k] == items[k + 1]; }
      ItemsDecode(q, more, rest);
      var first := if i.Char? then [i.c] else ['\\', i.c];
      var mean := if i.Char? then [i.c] else [Unescape(i.c)];
      assert WriteItems(items) + rest == first + (WriteItems(more) + rest);
      if i.Char? {
        StepOnce(Quoted(q), i.c, WriteItems(more) + rest);
      } else {
        StepTwice(Quoted(q), '\\', i.c, WriteItems(more) + rest);
        assert "" + mean == mean;
      }
      PrefixedTwice(mean, ItemsMean(more), DecodeFrom(Quoted(q), rest));
    }
  }

  lemma TokenDecodes(t: Token, rest: string)
    requires WellFormed(t)
    ensures DecodeFrom(Outside, WriteToken(t) + rest) == Prefixed(TokenMeans(t), DecodeFrom(Outside, rest))
  {
    match t
    case Plain(c) => StepOnce(Outside, c, rest);
    case Literal(c) =>
      StepTwice(Outside, '\\', c, rest);
      assert "" + [c] == [c];
    case Text(q, items) =>
      var inner := WriteItems(items) + ([q] + rest);
      assert WriteToken(t) + rest == [q] + inner;
      StepOnce(Outside, q, inner);
      ItemsDecode(q, items, [q] + rest);
      StepOnce(Quoted(q), q, rest);
      var last := DecodeFrom(Outside, rest);
      PrefixedTwice("", ItemsMean(items), last);
      PrefixedTwice(ItemsMean(items), "", last);
      assert "" + ItemsMean(items) == ItemsMean(items) == ItemsMean(items) + "";
  }

  lemma EndingDecodes(e: Ending)
    requires EndsWell(e)
    ensures DecodeFrom(Outside, WriteEnding(e)) ==
      match e
      case Complete => Ok("")
      case Dangling => Ok("\\")
      case Open(q, _, _) => Err(q)
  {
    match e
    case Complete =>
    case Dangling =>
      assert "\\"[1..] == "";
      assert "" + "\\" == "\\";
    case Open(q, items, dangling) =>
      var tail := if dangling then "\\" else "";
      assert WriteEnding(e) == [q] + (WriteItems(items) + tail);
      StepOnce(Outside, q, WriteItems(items) + tail);
      ItemsDecode(q, items, tail);
      if dangling { assert "\\"[1..] == ""; }
  }

  lemma Glue(a: string, b: string, c: string)
    ensures a + b + c == a + (b + c)
  {
  }

  lemma {:induction false} TokensDecode(ts: seq<Token>, rest: string)
    requires AllWellFormed(ts)
    ensures DecodeFrom(Outside, Write(ts) + rest) == Prefixed(Meaning(ts), DecodeFrom(Outside, rest))
    decreases |ts|
  {
    if ts == [] {
      assert "" + rest == rest;
      PrefixedTwice("", "", DecodeFrom(Outside, rest));
    } else {
      var more := ts[1..];
      assert AllWellFormed(more) by { assert forall k :: 0 <= k < |more| ==> more[k] == ts[k + 1]; }
      TokensDecode(more, rest);
      Glue(WriteToken(ts[0]), Write(more), rest);
      TokenDecodes(ts[0], Write(more) + rest);
      PrefixedTwice(TokenMeans(ts[0]), Meaning(more), DecodeFrom(Outside, rest));
    }
  }

  /** Decoding a line gives what its tokens mean. A lone backslash at the end stands for
      itself, and an open quote is the only error. */
  lemma DecodeIsMeaning(ts: seq<Token>, e: Ending)
    requires AllWellFormed(ts) && EndsWell(e)
    ensures Decode(Write(ts) + WriteEnding(e)) ==
      match e
      case Complete => Ok(Meaning(ts))
      case Dangling => Ok(Meaning(ts) + "\\")
      case Open(q, _, _) => Err(q)
  {
    TokensDecode(ts, WriteEnding(e));
    EndingDecodes(e);
    assert Meaning(ts) + "" == Meaning(ts);
  }

  // A line without quotes and backslashes is its own meaning.
  lemma {:induction false} PlainLine(s: string)
    requires '"' !in s && '\'' !in s && '\\' !in s
    ensures Decode(s) == Ok(s)
  {
    if s != "" {
      assert forall c :: c in s[1..] ==> c in s;
      PlainLine(s[1..]);
      assert s == [s[0]] + s[1..];
    }
  }

  // ---- Every line has tokens --------------------------------------------------

  // Text after a quote: items, then the closing quote or the end of the line.
  lemma {:induction false} ItemsOfLine(q: char, s: string)
    returns (items: seq<Item>, closed: bool, dangling: bool, rest: string)
    ensures ItemsOf(q, items) && |rest| <= |s|
    ensures closed ==> s == WriteItems(items) + [q] + rest
    ensures !closed ==> s == WriteItems(items) + (if dangling then "\\" else "")
    decreases |s|
  {
    if s == "" {
      items, closed, dangling, rest := [], false, false, "";
    } else if s[0] == q {
      items, closed, dangling, rest := [], true, false, s[1..];
    } else if s[0] == '\\' && |s| == 1 {
      items, closed, dangling, rest := [], false, true, "";
    } else {
      var n := if s[0] == '\\' then 2 else 1;
      var i := if s[0] == '\\' then Escape(s[1]) else Char(s[0]);
      var more;
      more, closed, dangling, rest := ItemsOfLine(q, s[n..]);
      items := [i] + more;
      assert items[1..] == more;
      assert s == s[..n] + s[n..];
      assert s[..n] == if i.Char? then [i.c] else ['\\', i.c];
    }
  }

  // Every line is some tokens and an ending, so the meaning says what any line decodes to.
  lemma {:induction false} LineHasTokens(s: string) returns (ts: seq<Token>, e: Ending)
    ensures AllWellFormed(ts) && EndsWell(e) && s == Write(ts) + WriteEnding(e)
    decreases |s|
  {
    if s == "" {
      ts, e := [], Complete;
    } else if IsQuote(s[0]) {
      var items, closed, dangling, rest := ItemsOfLine(s[0], s[1..]);
      assert s == [s[0]] + s[1..];
      if closed {
        ts, e := LineHasTokens(rest);
        ts := WithFirst(Text(s[0], items), ts, rest, e, s);
      } else {
        ts, e := [], Open(s[0], items, dangling);
      }
    } else if s[0] == '\\' && |s| == 1 {
      ts, e := [], Dangling;
    } else {
      var n := if s[0] == '\\' then 2 else 1;
      ts, e := LineHasTokens(s[n..]);
      assert s == s[..n] + s[n..];
      ts := WithFirst(if n == 2 then Literal(s[1]) else Plain(s[0]), ts, s[n..], e, s);
    }
  }

  lemma WithFirst(t: Token, ts: seq<Token>, rest: string, e: Ending, s: string) returns (all: seq<Token>)
    requires WellFormed(t) && AllWellFormed(ts)
    requires rest == Write(ts) + WriteEnding(e) && s == WriteToken(t) + rest
    ensures AllWellFormed(all) && s == Write(all) + WriteEnding(e)
  {
    all := [t] + ts;
    assert all[1..] == ts;
    assert Write(all) == WriteToken(t) + Write(ts);
    Glue(WriteToken(t), Write(ts), WriteEnding(e));
  }
}
