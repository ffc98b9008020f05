/**
  The Redis command reader (honeypot/services/redis_service.py, _read_command, on top of read_line
  and read_bytes of honeypot/services/base.py). The stream is fully buffered, text is bytes, and
  `budget` is what the session may still receive before SessionLimitExceeded is raised.
 */
module Resp {
  import opened Wrappers
  import opened Bytes
  import opened Decimal

  const MAX_BULK_LEN: nat := 65536
  const MAX_ARRAY_LEN: nat := 1024
  const CR: byte := 13
  const LF: byte := 10
  const STAR: byte := 42
  const DOLLAR: byte := 36
  const SPACE: byte := 32
  const CRLF: bytes := [CR, LF]

  // ------------------------------------------------------------------- the reader

  /** `reader.readline()`: up to and including the first LF, or all there is. */
  function LineLength(stream: bytes): (n: nat)
    ensures n <= |stream| && (stream != [] ==> n > 0)
  {
    if stream == [] then 0 else if stream[0] == LF then 1 else 1 + LineLength(stream[1..])
  }

  /** `text.rstrip("\r\n")` */
  function Chomp(text: bytes): bytes {
    if text != [] && (text[|text| - 1] == CR || text[|text| - 1] == LF) then Chomp(text[..|text| - 1]) else text
  }

  datatype LineRead = NoLine | LineOverBudget | Line(text: bytes, rest: bytes, budget: int)

  function ReadLine(stream: bytes, limit: nat, budget: int): LineRead {
    var n := LineLength(stream);
    if n == 0 then NoLine
    else if n > budget then LineOverBudget
    else Line(Chomp(if n <= limit then stream[..n] else stream[..limit]), stream[n..], budget - n)
  }

  /** `read_bytes(n)`: the bytes that are there, at most n. */
  function Available(stream: bytes, n: nat): (k: nat)
    ensures k <= |stream| && k <= n
  {
    if n <= |stream| then n else |stream|
  }

  /** `line.split()` */
  function Words(line: bytes): seq<bytes> {
    WordsFrom(line, [])
  }

  function WordsFrom(line: bytes, word: bytes): seq<bytes> {
    if line == [] then (if word == [] then [] else [word])
    else if IsSpace(line[0]) then (if word == [] then [] else [word]) + WordsFrom(line[1..], [])
    else WordsFrom(line[1..], word + [line[0]])
  }

  // ------------------------------------------------------------------ the command

  datatype Outcome = Eof | OverBudget | Command(parts: seq<bytes>, rest: bytes, budget: int)

  /** The declared length of a bulk string, when the header is acceptable. */
  function BulkLength(header: bytes): Option<nat> {
    if header == [] || header[0] != DOLLAR then None
    else match ParseInt(header[1..])
      case None => None
      case Some(n) => if n < 0 || n > MAX_BULK_LEN then None else Some(n)
  }

  /** The loop over the `count` bulk strings still to come, after `parts`. */
  function ReadBulks(stream: bytes, limit: nat, budget: int, count: nat, parts: seq<bytes>): Outcome
    decreases count
  {
    if count == 0 then Command(parts, stream, budget)
    else match ReadLine(stream, limit, budget)
      case NoLine => Command(parts, stream, budget)
      case LineOverBudget => OverBudget
      case Line(header, rest, left) =>
        match BulkLength(header)
        case None => Command(parts, rest, left)
        case Some(length) =>
          var got := Available(rest, length + 2);
          if got > 0 && got > left then OverBudget
          else
            var data := rest[..Available(rest, length)];
            ReadBulks(rest[got..], limit, if got > 0 then left - got else left, count - 1, parts + [data])
  }

  function ReadCommand(stream: bytes, limit: nat, budget: int): Outcome {
    match ReadLine(stream, limit, budget)
    case NoLine => Eof
    case LineOverBudget => OverBudget
    case Line(text, rest, left) =>
      var line := Strip(text);
      if line == [] then Command([], rest, left)
      else if line[0] != STAR then Command(Words(line), rest, left)
      else match ParseInt(line[1..])
        case None => Command([], rest, left)
        case Some(count) =>
          if count <= 0 || count > MAX_ARRAY_LEN then Command([], rest, left)
          else ReadBulks(rest, limit, left, count, [])
  }

  /** The first `n` bytes are a line: they end with the first line feed, or with the stream. */
  ghost predicate IsLine(stream: bytes, n: int) {
    && 0 < n <= |stream| && LF !in stream[..n - 1] && (stream[n - 1] == LF || n == |stream|)
  }

  /** The text of a line: at most `limit` bytes of it, without the carriage returns and line feeds they end with. */
  ghost predicate IsTextOf(text: bytes, line: bytes, limit: nat) {
    var kept := if |line| <= limit then line else line[..limit];
    && text <= kept && (forall k :: |text| <= k < |kept| ==> kept[k] == CR || kept[k] == LF)
    && (text != [] ==> text[|text| - 1] != CR && text[|text| - 1] != LF)
  }

  lemma {:induction false} LineFound(stream: bytes)
    requires stream != []
    ensures IsLine(stream, LineLength(stream))
  {
    if stream[0] != LF && |stream| > 1 {
      LineFound(stream[1..]);
      var n := LineLength(stream);
      assert stream[..n - 1] == [stream[0]] + stream[1..][..n - 2];
    }
  }

  lemma {:induction false} ChompText(kept: bytes)
    ensures var text := Chomp(kept);
      && text <= kept && (forall k :: |text| <= k < |kept| ==> kept[k] == CR || kept[k] == LF)
      && (text != [] ==> text[|text| - 1] != CR && text[|text| - 1] != LF)
  {
    if kept != [] && (kept[|kept| - 1] == CR || kept[|kept| - 1] == LF) {
      ChompText(kept[..|kept| - 1]);
    }
  }

  /** What `ReadLine` returns is the text of the line. */
  lemma LineText(stream: bytes, limit: nat)
    ensures var n := LineLength(stream);
      IsTextOf(Chomp(if n <= limit then stream[..n] else stream[..limit]), stream[..n], limit)
  {
    hide Chomp, LineLength;
    var n := LineLength(stream);
    var kept := if n <= limit then stream[..n] else stream[..limit];
    assert n > limit ==> stream[..n][..limit] == kept;
    ChompText(kept);
  }

  /** The stream reader together with the session's byte count. */
  class Reader {
    const limit: nat
    var stream: bytes
    var budget: int

    constructor (stream: bytes, limit: nat, budget: int)
      ensures this.stream == stream && this.limit == limit && this.budget == budget
    {
      this.stream, this.limit, this.budget := stream, limit, budget;
    }

    /** `read_line`: nothing at the end of the stream; otherwise everything up to the next line feed is consumed and
        charged, and the text is its first `limit` bytes without the line end. */
    method NextLine() returns (r: LineRead)
      modifies this
      ensures r == ReadLine(old(stream), limit, old(budget))
      ensures r.NoLine? <==> old(stream) == []
      ensures r.NoLine? ==> stream == old(stream) && budget == old(budget)
      ensures r.Line? ==>
        && stream == r.rest && budget == r.budget >= 0
        && var n := old(budget) - budget;
           IsLine(old(stream), n) && stream == old(stream)[n..] && IsTextOf(r.text, old(stream)[..n], limit)
      ensures r.LineOverBudget? ==> exists n :: IsLine(old(stream), n) && n > old(budget)
    {
      hide LineLength, Chomp, IsTextOf;
      if stream != [] {
        LineFound(stream);
      }
      r := ReadLine(stream, limit, budget);
      if r.Line? {
        LineText(stream, limit);
        stream, budget := r.rest, r.budget;
      }
      assert r.LineOverBudget? ==> LineLength(stream) > budget;
    }

    /** `_read_command`; an exception leaves the reader in no particular state. */
    method NextCommand() returns (r: Outcome)
      modifies this
      ensures r == ReadCommand(old(stream), limit, old(budget))
      ensures r.Command? ==> stream == r.rest && budget == r.budget
    {
      hide LineLength, Chomp, ReadLine, Words, ParseInt, Strip, BulkLength;
      var first := NextLine();
      match first {
        case NoLine => return Eof;
        case LineOverBudget => return OverBudget;
        case Line(_, _, _) =>
      }
      var line := Strip(first.text);
      if line == [] {
        return Command([], stream, budget);
      }
      if line[0] != STAR {
        return Command(Words(line), stream, budget);
      }
      var count := ParseInt(line[1..]);
      if count == None || count.value <= 0 || count.value > MAX_ARRAY_LEN {
        return Command([], stream, budget);
      }
      var parts: seq<bytes> := [];
      ghost var start, left := stream, budget;
      for k := 0 to count.value
        invariant ReadBulks(start, limit, left, count.value, [])
               == ReadBulks(stream, limit, budget, count.value - k, parts)
      {
        var header := NextLine();
        match header {
          case NoLine => return Command(parts, stream, budget);
          case LineOverBudget => return OverBudget;
          case Line(_, _, _) =>
        }
        var length := BulkLength(header.text);
        if length == None {
          return Command(parts, stream, budget);
        }
        var got := Available(stream, length.value + 2);
        if got > 0 {
          if got > budget {
            return OverBudget;
          }
          budget := budget - got;
        }
        parts := parts + [stream[..Available(stream, length.value)]];
        stream := stream[got..];
      }
      return Command(parts, stream, budget);
    }
  }

  // ------------------------------------------------------------------- the encoder

  function Bulk(arg: bytes): bytes {
    [36] + Print(|arg|) + [13, 10] + arg + [13, 10]
  }

  function Bulks(args: seq<bytes>): bytes {
    if args == [] then [] else Bulk(args[0]) + Bulks(args[1..])
  }

  /** A RESP array, framed as a client would. */
  function Encode(args: seq<bytes>): bytes {
    [42] + Print(|args|) + [13, 10] + Bulks(args)
  }

  predicate Encodable(args: seq<bytes>) {
    1 <= |args| <= 1024 && forall a :: a in args ==> |a| <= 65536
  }

  lemma {:induction false} LineLengthIs(text: bytes, rest: bytes)
    requires LF !in text
    ensures LineLength(text + [LF] + rest) == |text| + 1
  {
    if text == [] {
      assert text + [LF] + rest == [LF] + rest;
    } else {
      assert (text + [LF] + rest)[1..] == text[1..] + [LF] + rest;
      LineLengthIs(text[1..], rest);
    }
  }

  lemma ChompLine(text: bytes)
    requires text != [] && text[|text| - 1] != CR && text[|text| - 1] != LF
    ensures Chomp(text + CRLF) == text
  {
    assert (text + CRLF)[..|text| + 1] == text + [CR];
    assert (text + [CR])[..|text|] == text;
    assert Chomp(text) == text;
    assert Chomp(text + [CR]) == text;
  }

  /** Reading a line that was written: its text, and exactly its bytes consumed. */
  lemma ReadWrittenLine(text: bytes, rest: bytes, limit: nat, budget: int)
    requires text != [] && LF !in text && text[|text| - 1] != CR && |text| + 2 <= limit
    ensures ReadLine(text + CRLF + rest, limit, budget)
         == if |text| + 2 > budget then LineOverBudget else Line(text, rest, budget - (|text| + 2))
  {
    var stream := text + CRLF + rest;
    assert stream == (text + [CR]) + [LF] + rest;
    LineLengthIs(text + [CR], rest);
    assert stream[..|text| + 2] == text + CRLF && stream[|text| + 2..] == rest;
    ChompLine(text);
  }

  /** The header line of a count or a length. */
  lemma HeaderLine(mark: byte, n: nat)
    requires (mark == STAR || mark == DOLLAR) && n < 100000
    ensures var text := [mark] + Print(n);
      && LF !in text && text[|text| - 1] != CR && |text| <= 6
      && text[1..] == Print(n) && Strip(text) == text && ParseInt(Print(n)) == Some(n)
  {
    PrintLength(n);
    ParsePrint(n);
    var text := [mark] + Print(n);
    assert IsDigit(text[|text| - 1]) by { assert text[|text| - 1] == Print(n)[|Print(n)| - 1]; }
    StripNothing(text);
    forall k | 0 <= k < |text| ensures text[k] != LF {
      assert k > 0 ==> IsDigit(Print(n)[k - 1]);
    }
  }

  lemma {:induction false} ReadWrittenBulk(arg: bytes, rest: bytes, limit: nat, budget: int, count: nat,
                                           parts: seq<bytes>)
    requires |arg| <= MAX_BULK_LEN && limit >= 8 && count > 0
    ensures ReadBulks(Bulk(arg) + rest, limit, budget, count, parts)
         == if |Bulk(arg)| > budget then OverBudget
            else ReadBulks(rest, limit, budget - |Bulk(arg)|, count - 1, parts + [arg])
  {
    hide ReadLine, Print, ParseInt, Strip;
    var text := [DOLLAR] + Print(|arg|);
    HeaderLine(DOLLAR, |arg|);
    var tail := arg + CRLF + rest;
    assert Bulk(arg) + rest == text + CRLF + tail;
    ReadWrittenLine(text, tail, limit, budget);
    assert BulkLength(text) == Some(|arg|);
    assert tail[..|arg|] == arg && tail[|arg| + 2..] == rest;
    assert |Bulk(arg)| == |text| + 2 + |arg| + 2;
  }

  lemma {:induction false} ReadWrittenBulks(args: seq<bytes>, rest: bytes, limit: nat, budget: int, parts: seq<bytes>)
    requires limit >= 8 && forall a :: a in args ==> |a| <= MAX_BULK_LEN
    requires budget >= 0
    ensures ReadBulks(Bulks(args) + rest, limit, budget, |args|, parts)
         == if |Bulks(args)| > budget then OverBudget else Command(parts + args, rest, budget - |Bulks(args)|)
  {
    hide ReadBulks, Bulk;
    if args == [] {
      assert Bulks(args) + rest == rest && parts + args == parts;
      NoBulks(rest, limit, budget, parts);
    } else {
      var tail := Bulks(args[1..]);
      assert Bulks(args) + rest == Bulk(args[0]) + (tail + rest);
      assert args[0] in args && forall a :: a in args[1..] ==> a in args;
      ReadWrittenBulk(args[0], tail + rest, limit, budget, |args|, parts);
      if |Bulk(args[0])| <= budget {
        ReadWrittenBulks(args[1..], rest, limit, budget - |Bulk(args[0])|, parts + [args[0]]);
        assert (parts + [args[0]]) + args[1..] == parts + args;
      }
    }
  }

  lemma NoBulks(stream: bytes, limit: nat, budget: int, parts: seq<bytes>)
    ensures ReadBulks(stream, limit, budget, 0, parts) == Command(parts, stream, budget)
  {
  }

  /** Reading an encoded command returns exactly its arguments, whatever bytes they hold, and consumes
      exactly its bytes, if the session may receive that many; otherwise the limit trips. */
  lemma {:induction false} CommandRoundTrip(args: seq<bytes>, rest: bytes, limit: nat, budget: int)
    requires Encodable(args) && limit >= 8
    ensures ReadCommand(Encode(args) + rest, limit, budget)
         == if |Encode(args)| > budget then OverBudget else Command(args, rest, budget - |Encode(args)|)
  {
    hide ReadLine, Print, ParseInt, Strip, Bulks, ReadBulks;
    var text := [STAR] + Print(|args|);
    HeaderLine(STAR, |args|);
    var tail := Bulks(args) + rest;
    assert Encode(args) + rest == text + CRLF + tail;
    assert |Encode(args)| == |text| + 2 + |Bulks(args)|;
    ReadWrittenLine(text, tail, limit, budget);
    if |text| + 2 <= budget {
      ReadWrittenBulks(args, rest, limit, budget - (|text| + 2), []);
      assert [] + args == args;
    }
  }

  function EncodeAll(commands: seq<seq<bytes>>): bytes {
    if commands == [] then [] else Encode(commands[0]) + EncodeAll(commands[1..])
  }

  /** The next `n` commands, as the session loop reads them. */
  function ReadMany(stream: bytes, limit: nat, budget: int, n: nat): Option<(seq<seq<bytes>>, bytes)>
    decreases n
  {
    if n == 0 then Some(([], stream))
    else match ReadCommand(stream, limit, budget)
      case Command(parts, rest, left) =>
        (match ReadMany(rest, limit, left, n - 1)
         case None => None
         case Some(more) => Some(([parts] + more.0, more.1)))
      case _ => None
  }

  /** A whole conversation: reading the concatenated encodings one command at a time returns exactly
      the commands and leaves exactly what follows them, if and only if the session may receive
      that many bytes. */
  lemma {:induction false} StreamRoundTrip(commands: seq<seq<bytes>>, rest: bytes, limit: nat, budget: int)
    requires limit >= 8 && budget >= 0 && forall c :: c in commands ==> Encodable(c)
    ensures ReadMany(EncodeAll(commands) + rest, limit, budget, |commands|)
         == if |EncodeAll(commands)| <= budget then Some((commands, rest)) else None
    decreases |commands|
  {
    hide ReadCommand, Encode;
    if commands == [] {
      assert EncodeAll(commands) + rest == rest;
    } else {
      var tail := EncodeAll(commands[1..]);
      assert EncodeAll(commands) + rest == Encode(commands[0]) + (tail + rest);
      assert commands[0] in commands && forall c :: c in commands[1..] ==> c in commands;
      CommandRoundTrip(commands[0], tail + rest, limit, budget);
      if |Encode(commands[0])| <= budget {
        StreamRoundTrip(commands[1..], rest, limit, budget - |Encode(commands[0])|);
        assert [commands[0]] + commands[1..] == commands;
      }
    }
  }

  /** A line of text as a client would end it, within the limit. */
  predicate IsLineText(text: bytes, limit: nat) {
    text != [] && LF !in text && text[|text| - 1] != CR && |text| + 2 <= limit
  }

  /** The count of an array header is usable. */
  predicate IsCount(text: bytes) {
    match ParseInt(text) case None => false case Some(n) => 0 < n <= 1024
  }

  /** A header whose count is no number, is not positive or exceeds the cap yields no arguments, whatever follows: the
      header alone is consumed. */
  lemma BadHeaderRefused(text: bytes, rest: bytes, limit: nat, budget: int)
    requires IsLineText(text, limit) && |text| + 2 <= budget
    requires [STAR] <= Strip(text) && !IsCount(Strip(text)[1..])
    ensures ReadCommand(text + CRLF + rest, limit, budget) == Command([], rest, budget - |text| - 2)
  {
    hide ReadLine, ParseInt, Strip, ReadBulks;
    ReadWrittenLine(text, rest, limit, budget);
  }

  /** In particular for every announced number of elements outside 1 to 1024, negative ones included. */
  lemma BadCountRefused(n: int, rest: bytes, limit: nat, budget: int)
    requires (n <= 0 || n > 1024) && |PrintInt(n)| + 3 <= limit && |PrintInt(n)| + 3 <= budget
    ensures ReadCommand([STAR] + PrintInt(n) + CRLF + rest, limit, budget)
         == Command([], rest, budget - |PrintInt(n)| - 3)
  {
    hide ReadLine, ParseInt, Strip, ReadBulks, PrintInt;
    var text := [STAR] + PrintInt(n);
    NumberLine(STAR, n);
    ParsePrintInt(n);
    BadHeaderRefused(text, rest, limit, budget);
  }

  lemma NumberLine(mark: byte, n: int)
    requires mark == STAR || mark == DOLLAR
    ensures var text := [mark] + PrintInt(n);
      && LF !in text && text[|text| - 1] != CR && text[1..] == PrintInt(n) && Strip(text) == text
  {
    hide PrintInt, ParseInt, Strip;
    PrintedChars(n);
    var text := [mark] + PrintInt(n);
    assert IsDigit(text[|text| - 1]) by { assert text[|text| - 1] == PrintInt(n)[|PrintInt(n)| - 1]; }
    StripNothing(text);
    forall k | 0 <= k < |text| ensures text[k] != LF {
      assert k > 0 ==> text[k] == PrintInt(n)[k - 1];
    }
  }

  /** A line that is no usable bulk header ends the command: what was read before it is returned, and nothing after it
      is read. */
  lemma BadBulkRefused(before: seq<bytes>, text: bytes, after: bytes, count: nat, limit: nat, budget: int)
    requires IsLineText(text, limit) && limit >= 8 && BulkLength(text) == None && |before| < count
    requires forall a :: a in before ==> |a| <= MAX_BULK_LEN
    requires |Bulks(before)| + |text| + 2 <= budget
    ensures ReadBulks(Bulks(before) + (text + CRLF + after), limit, budget, count, [])
         == Command(before, after, budget - |Bulks(before)| - |text| - 2)
  {
    hide ReadLine, ParseInt, Strip, Bulks, BulkLength;
    ReadPrefix(before, text + CRLF + after, limit, budget, count, []);
    assert [] + before == before;
    ReadWrittenLine(text, after, limit, budget - |Bulks(before)|);
  }

  /** In particular for every announced length outside 0 to 65536: the bytes of the string are left on the stream. */
  lemma OversizedBulkRefused(before: seq<bytes>, n: int, after: bytes, count: nat, limit: nat, budget: int)
    requires (n < 0 || n > 65536) && |PrintInt(n)| + 3 <= limit && limit >= 8 && |before| < count
    requires forall a :: a in before ==> |a| <= MAX_BULK_LEN
    requires |Bulks(before)| + |PrintInt(n)| + 3 <= budget
    ensures ReadBulks(Bulks(before) + ([DOLLAR] + PrintInt(n) + CRLF + after), limit, budget, count, [])
         == Command(before, after, budget - |Bulks(before)| - |PrintInt(n)| - 3)
  {
    hide ReadLine, ParseInt, Strip, Bulks, PrintInt, ReadBulks;
    NumberLine(DOLLAR, n);
    ParsePrintInt(n);
    BadBulkRefused(before, [DOLLAR] + PrintInt(n), after, count, limit, budget);
  }

  lemma {:induction false} ReadPrefix(args: seq<bytes>, rest: bytes, limit: nat, budget: int, count: nat,
                                      parts: seq<bytes>)
    requires limit >= 8 && |args| <= count && forall a :: a in args ==> |a| <= MAX_BULK_LEN
    requires |Bulks(args)| <= budget
    ensures ReadBulks(Bulks(args) + rest, limit, budget, count, parts)
         == ReadBulks(rest, limit, budget - |Bulks(args)|, count - |args|, parts + args)
  {
    hide ReadBulks, Bulk;
    if args == [] {
      assert Bulks(args) + rest == rest && parts + args == parts;
    } else {
      var tail := Bulks(args[1..]);
      assert Bulks(args) + rest == Bulk(args[0]) + (tail + rest);
      assert args[0] in args && forall a :: a in args[1..] ==> a in args;
      ReadWrittenBulk(args[0], tail + rest, limit, budget, count, parts);
      ReadPrefix(args[1..], rest, limit, budget - |Bulk(args[0])|, count - 1, parts + [args[0]]);
      assert (parts + [args[0]]) + args[1..] == parts + args;
    }
  }

  // --------------------------------------------------------------- arbitrary input

  /** What remains is a tail of the stream, and the budget shrinks by exactly the bytes consumed. */
  ghost predicate Consumes(stream: bytes, budget: int, rest: bytes, left: int) {
    |rest| <= |stream| && rest == stream[|stream| - |rest|..] && budget - left == |stream| - |rest| && left <= budget
  }

  lemma ConsumesTrans(s0: bytes, b0: int, s1: bytes, b1: int, s2: bytes, b2: int)
    requires Consumes(s0, b0, s1, b1) && Consumes(s1, b1, s2, b2)
    ensures Consumes(s0, b0, s2, b2)
  {
  }

  ghost predicate Capped(parts: seq<bytes>) { forall p :: p in parts ==> |p| <= 65536 }

  lemma {:induction false} BulksOnAnyInput(stream: bytes, limit: nat, budget: int, count: nat, parts: seq<bytes>)
    requires Capped(parts) && ReadBulks(stream, limit, budget, count, parts).Command?
    ensures var r := ReadBulks(stream, limit, budget, count, parts);
      Consumes(stream, budget, r.rest, r.budget) && Capped(r.parts) && |parts| <= |r.parts| <= |parts| + count
    decreases count
  {
    hide ReadLine, BulkLength, Available, Consumes;
    NothingConsumed(stream, budget);
    if count > 0 && ReadLine(stream, limit, budget).Line? {
      var Line(header, rest, left) := ReadLine(stream, limit, budget);
      LineConsumes(stream, limit, budget);
      if BulkLength(header).Some? {
        var length := BulkLength(header).value;
        var got := Available(rest, length + 2);
        var next := rest[got..];
        var left' := if got > 0 then left - got else left;
        TakeConsumes(rest, left, got);
        ConsumesTrans(stream, budget, rest, left, next, left');
        var data := rest[..Available(rest, length)];
        LengthCapped(header);
        BulksOnAnyInput(next, limit, left', count - 1, parts + [data]);
        var r := ReadBulks(stream, limit, budget, count, parts);
        ConsumesTrans(stream, budget, next, left', r.rest, r.budget);
      }
    }
  }

  lemma NothingConsumed(stream: bytes, budget: int)
    ensures Consumes(stream, budget, stream, budget)
  {
  }

  lemma LineConsumes(stream: bytes, limit: nat, budget: int)
    requires ReadLine(stream, limit, budget).Line?
    ensures var Line(_, rest, left) := ReadLine(stream, limit, budget);
      Consumes(stream, budget, rest, left)
  {
    hide Chomp, LineLength;
  }

  lemma TakeConsumes(stream: bytes, budget: int, n: nat)
    requires n <= |stream|
    ensures Consumes(stream, budget, stream[n..], if n > 0 then budget - n else budget)
  {
  }

  lemma LengthCapped(header: bytes)
    requires BulkLength(header).Some?
    ensures BulkLength(header).value <= MAX_BULK_LEN
  {
    hide ParseInt;
  }

  /** On arbitrary bytes: a command consumes a prefix of the stream that is charged to the session byte
      for byte, and an array holds at most 1024 strings of at most 65536 bytes, whatever its header
      announced. */
  lemma {:induction false} CommandOnAnyInput(stream: bytes, limit: nat, budget: int)
    requires ReadCommand(stream, limit, budget).Command?
    ensures var r := ReadCommand(stream, limit, budget);
      && Consumes(stream, budget, r.rest, r.budget) && |r.rest| < |stream|
      && (ReadLine(stream, limit, budget).Line? && [STAR] <= Strip(ReadLine(stream, limit, budget).text) ==>
            |r.parts| <= MAX_ARRAY_LEN && Capped(r.parts))
  {
    hide Chomp, LineLength, ParseInt, Strip, Words, ReadBulks;
    var Line(text, rest, left) := ReadLine(stream, limit, budget);
    assert Consumes(stream, budget, rest, left);
    var line := Strip(text);
    if line != [] && line[0] == STAR && ParseInt(line[1..]).Some? {
      var count := ParseInt(line[1..]).value;
      if 0 < count <= MAX_ARRAY_LEN {
        BulksOnAnyInput(rest, limit, left, count, []);
        var r := ReadCommand(stream, limit, budget);
        ConsumesTrans(stream, budget, rest, left, r.rest, r.budget);
      }
    }
  }

  // ------------------------------------------------------------- inline commands

  function Spaced(words: seq<bytes>): bytes {
    if words == [] then [] else if |words| == 1 then words[0] else words[0] + [SPACE] + Spaced(words[1..])
  }

  predicate IsWord(w: bytes) { w != [] && forall k :: 0 <= k < |w| ==> !IsSpace(w[k]) }

  lemma {:induction false} WordsPrefix(w: bytes, word: bytes, rest: bytes)
    requires forall k :: 0 <= k < |w| ==> !IsSpace(w[k])
    ensures WordsFrom(w + rest, word) == WordsFrom(rest, word + w)
    decreases |w|
  {
    if w == [] {
      assert w + rest == rest && word + w == word;
    } else {
      assert (w + rest)[1..] == w[1..] + rest;
      WordsPrefix(w[1..], word + [w[0]], rest);
      assert (word + [w[0]]) + w[1..] == word + w;
    }
  }

  lemma {:induction false} WordsOfSpaced(words: seq<bytes>)
    requires forall w :: w in words ==> IsWord(w)
    ensures Words(Spaced(words)) == words
  {
    if words != [] {
      var w := words[0];
      assert IsWord(w);
      if |words| == 1 {
        WordsPrefix(w, [], []);
        assert w + [] == w && [] + w == w;
      } else {
        var rest := [SPACE] + Spaced(words[1..]);
        assert forall x :: x in words[1..] ==> x in words;
        WordsOfSpaced(words[1..]);
        WordsPrefix(w, [], rest);
        assert Spaced(words) == w + rest && [] + w == w;
        assert rest[1..] == Spaced(words[1..]);
        assert [w] + words[1..] == words;
      }
    }
  }

  /** On any bytes: the words are what stands between blanks, however many there are. */
  lemma WordsConcat(a: bytes, c: byte, b: bytes)
    requires IsSpace(c)
    ensures Words(a + [c] + b) == Words(a) + Words(b)
    ensures (forall k :: 0 <= k < |a| ==> !IsSpace(a[k])) ==> Words(a) == if a == [] then [] else [a]
  {
    WordsFromConcat(a, c, b, []);
    if forall k :: 0 <= k < |a| ==> !IsSpace(a[k]) {
      WordsPrefix(a, [], []);
      assert a + [] == a && [] + a == a;
    }
  }

  lemma {:induction false} WordsFromConcat(a: bytes, c: byte, b: bytes, word: bytes)
    requires IsSpace(c)
    ensures WordsFrom(a + [c] + b, word) == WordsFrom(a, word) + Words(b)
  {
    if a == [] {
      assert (a + [c] + b)[1..] == b;
    } else {
      assert (a + [c] + b)[1..] == a[1..] + [c] + b;
      WordsFromConcat(a[1..], c, b, if IsSpace(a[0]) then [] else word + [a[0]]);
    }
  }

  /** Any line that does not start with a star, blanks aside, is a command of its words; a blank line is none. */
  lemma AnyInlineLine(text: bytes, rest: bytes, limit: nat, budget: int)
    requires IsLineText(text, limit) && |text| + 2 <= budget
    requires Strip(text) == [] || Strip(text)[0] != 42
    ensures ReadCommand(text + [13, 10] + rest, limit, budget)
         == Command(if Strip(text) == [] then [] else Words(Strip(text)), rest, budget - |text| - 2)
  {
    hide ReadLine, Words, Strip, ReadBulks, ParseInt;
    ReadWrittenLine(text, rest, limit, budget);
  }

  lemma {:induction false} SpacedEnds(words: seq<bytes>)
    requires words != [] && forall w :: w in words ==> IsWord(w)
    ensures var line := Spaced(words);
      && line != [] && words[0] != [] && line[0] == words[0][0]
      && !IsSpace(line[0]) && !IsSpace(line[|line| - 1]) && LF !in line
  {
    assert IsWord(words[0]);
    if |words| > 1 {
      assert forall x :: x in words[1..] ==> x in words;
      SpacedEnds(words[1..]);
      var line := Spaced(words);
      var tail := Spaced(words[1..]);
      assert line == words[0] + [SPACE] + tail;
      assert line[|line| - 1] == tail[|tail| - 1];
    }
  }

  /** An inline command: words separated by spaces, the first of which does not start with a star. */
  lemma InlineRoundTrip(words: seq<bytes>, rest: bytes, limit: nat, budget: int)
    requires words != [] && (forall w :: w in words ==> IsWord(w))
    requires words[0] != [] && words[0][0] != STAR
    requires |Spaced(words)| + 2 <= limit
    ensures ReadCommand(Spaced(words) + CRLF + rest, limit, budget)
         == if |Spaced(words)| + 2 > budget then OverBudget
            else Command(words, rest, budget - |Spaced(words)| - 2)
  {
    hide ReadLine, Words, Spaced;
    var line := Spaced(words);
    SpacedEnds(words);
    WordsOfSpaced(words);
    ReadWrittenLine(line, rest, limit, budget);
    StripNothing(line);
  }
}
