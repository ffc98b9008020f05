/**
  `strip_telnet_control` (honeypot/services/telnet_service.py): removing negotiation from a telnet
  stream. Commands are those of RFC 854, subnegotiation is that of RFC 855.
 */
module Telnet {
  import opened Bytes

  const IAC: byte := 255
  const DONT: byte := 254
  const DO: byte := 253
  const WONT: byte := 252
  const WILL: byte := 251
  const SB: byte := 250
  const SE: byte := 240

  predicate TakesOption(cmd: byte) { cmd == DO || cmd == DONT || cmd == WILL || cmd == WONT }

  /** The position of the first IAC SE at or after `i`, or the length when there is none. */
  function FindSE(raw: bytes, i: nat): (r: nat)
    requires i <= |raw|
    ensures i <= r <= |raw|
    ensures r < |raw| ==> r + 1 < |raw| && raw[r] == IAC && raw[r + 1] == SE
    decreases |raw| - i
  {
    if i + 1 >= |raw| then |raw|
    else if raw[i] == IAC && raw[i + 1] == SE then i
    else FindSE(raw, i + 1)
  }

  /** What one turn of the loop at position `i` appends, and where it continues. */
  function Turn(raw: bytes, i: nat): (r: (bytes, nat))
    requires i < |raw|
    ensures r.1 > i
  {
    if raw[i] != IAC then ([raw[i]], i + 1)
    else if i + 1 >= |raw| then ([], |raw|)
    else
      var cmd := raw[i + 1];
      if TakesOption(cmd) then ([], i + 3)
      else if cmd == SB then
        var end := FindSE(raw, i);
        ([], if end == |raw| then |raw| else end + 2)
      else if cmd == IAC then ([IAC], i + 2)
      else ([], i + 2)
  }

  function StripFrom(raw: bytes, i: nat): bytes
    decreases |raw| - i
  {
    if i >= |raw| then [] else Turn(raw, i).0 + StripFrom(raw, Turn(raw, i).1)
  }

  function Strip(raw: bytes): bytes { StripFrom(raw, 0) }

  method StripTelnetControl(raw: bytes) returns (out: bytes)
    ensures out == Strip(raw)
  {
    hide FindSE;
    out := [];
    var i: nat := 0;
    while i < |raw|
      invariant out + StripFrom(raw, i) == Strip(raw)
      decreases |raw| - i
    {
      var b := raw[i];
      if b != IAC {
        out := out + [b];
        i := i + 1;
        continue;
      }
      if i + 1 >= |raw| {
        break;
      }
      var cmd := raw[i + 1];
      if TakesOption(cmd) {
        i := i + 3;
      } else if cmd == SB {
        var end := FindSE(raw, i);
        i := if end == |raw| then |raw| else end + 2;
      } else if cmd == IAC {
        out := out + [IAC];
        i := i + 2;
      } else {
        i := i + 2;
      }
    }
  }

  // ----------------------------------------------------------------------- units

  /** A well-formed piece of a telnet stream. */
  datatype Unit =
    | Data(b: byte)
    | EscapedIac
    | Negotiate(verb: byte, option: byte)
    | Subnegotiate(payload: bytes)
    | Other(cmd: byte)

  /** No IAC SE inside, so that the first one is the end of the subnegotiation. */
  ghost predicate NoSE(payload: bytes) {
    forall k :: 0 <= k < |payload| - 1 ==> !(payload[k] == 255 && payload[k + 1] == 240)
  }

  ghost predicate Proper(u: Unit) {
    match u
    case Data(b) => b != IAC
    case EscapedIac => true
    case Negotiate(verb, _) => 251 <= verb <= 254
    case Subnegotiate(payload) => NoSE(payload)
    case Other(cmd) => cmd < 250
  }

  function Wire(u: Unit): (w: bytes)
    ensures w != []
  {
    match u
    case Data(b) => [b]
    case EscapedIac => [255, 255]
    case Negotiate(verb, option) => [255, verb, option]
    case Subnegotiate(payload) => [255, 250] + payload + [255, 240]
    case Other(cmd) => [255, cmd]
  }

  function Content(u: Unit): bytes {
    match u
    case Data(b) => [b]
    case EscapedIac => [255]
    case _ => []
  }

  function Stream(units: seq<Unit>): bytes {
    if units == [] then [] else Wire(units[0]) + Stream(units[1..])
  }

  function Contents(units: seq<Unit>): bytes {
    if units == [] then [] else Content(units[0]) + Contents(units[1..])
  }

  // -------------------------------------------------------------- stripping streams

  /** FindSE ignores what comes before its starting point. */
  lemma {:induction false} FindSEShift(a: bytes, raw: bytes, i: nat)
    requires i <= |raw|
    ensures FindSE(a + raw, |a| + i) == |a| + FindSE(raw, i)
    decreases |raw| - i
  {
    if i + 1 < |raw| {
      assert (a + raw)[|a| + i] == raw[i] && (a + raw)[|a| + i + 1] == raw[i + 1];
      if !(raw[i] == IAC && raw[i + 1] == SE) {
        FindSEShift(a, raw, i + 1);
      }
    }
  }

  lemma TurnShift(a: bytes, raw: bytes, i: nat)
    requires i < |raw|
    ensures Turn(a + raw, |a| + i) == (Turn(raw, i).0, |a| + Turn(raw, i).1)
  {
    FindSEShift(a, raw, i);
  }

  lemma {:induction false} StripShift(a: bytes, raw: bytes, i: nat)
    ensures StripFrom(a + raw, |a| + i) == StripFrom(raw, i)
    decreases |raw| - i
  {
    hide Turn;
    if i < |raw| {
      TurnShift(a, raw, i);
      StripShift(a, raw, Turn(raw, i).1);
    }
  }

  lemma {:induction false} FindSEInside(payload: bytes, rest: bytes, i: nat)
    requires NoSE(payload) && i <= |payload| + 2
    ensures FindSE([IAC, SB] + payload + [IAC, SE] + rest, i) == |payload| + 2
    decreases |payload| + 2 - i
  {
    var raw := [IAC, SB] + payload + [IAC, SE] + rest;
    assert raw[|payload| + 2] == IAC && raw[|payload| + 3] == SE;
    assert forall k :: 2 <= k < |payload| + 2 ==> raw[k] == payload[k - 2];
    if i < |payload| + 2 {
      if i >= 2 && i < |payload| + 1 {
        assert !(payload[i - 2] == IAC && payload[i - 2 + 1] == SE);
      }
      FindSEInside(payload, rest, i + 1);
    }
  }

  /** The first turn on a well-formed unit consumes exactly that unit. */
  lemma TurnOnUnit(u: Unit, rest: bytes)
    requires Proper(u)
    ensures Turn(Wire(u) + rest, 0) == (Content(u), |Wire(u)|)
  {
    match u
    case Subnegotiate(payload) =>
      FindSEInside(payload, rest, 0);
      assert (Wire(u) + rest)[0] == IAC && (Wire(u) + rest)[1] == SB;
    case _ =>
  }

  lemma StripUnit(u: Unit, rest: bytes)
    requires Proper(u)
    ensures Strip(Wire(u) + rest) == Content(u) + Strip(rest)
  {
    hide Turn, Wire, Content;
    TurnOnUnit(u, rest);
    StripShift(Wire(u), rest, 0);
  }

  /** For any stream of well-formed units exactly the typed bytes remain; the units may be followed
      by anything, so a chunk may be stripped on its own when it ends between two units. */
  lemma {:induction false} StripStream(units: seq<Unit>, rest: bytes)
    requires forall u :: u in units ==> Proper(u)
    ensures Strip(Stream(units) + rest) == Contents(units) + Strip(rest)
  {
    hide Strip, Proper, Wire;
    if units == [] {
      assert Stream(units) + rest == rest;
    } else {
      assert units[0] in units && forall u :: u in units[1..] ==> u in units;
      StripStream(units[1..], rest);
      StripUnit(units[0], Stream(units[1..]) + rest);
      assert Stream(units) + rest == Wire(units[0]) + (Stream(units[1..]) + rest);
    }
  }

  /** A client escapes its data by doubling IAC. */
  function Escape(data: bytes): bytes {
    if data == [] then []
    else (if data[0] == IAC then [IAC, IAC] else [data[0]]) + Escape(data[1..])
  }

  function DataUnits(data: bytes): seq<Unit> {
    if data == [] then [] else [if data[0] == IAC then EscapedIac else Data(data[0])] + DataUnits(data[1..])
  }

  lemma {:induction false} DataUnitsWire(data: bytes)
    ensures forall u :: u in DataUnits(data) ==> Proper(u)
    ensures Stream(DataUnits(data)) == Escape(data) && Contents(DataUnits(data)) == data
  {
    if data != [] {
      DataUnitsWire(data[1..]);
      assert DataUnits(data)[1..] == DataUnits(data[1..]);
    }
  }

  predicate IsControl(u: Unit) { !u.Data? && !u.EscapedIac? }

  /** Stripping inverts escaping. */
  lemma StripInvertsEscape(data: bytes)
    ensures Strip(Escape(data)) == data
  {
    DataUnitsWire(data);
    StripStream(DataUnits(data), []);
    assert Escape(data) + [] == Escape(data) && data + Strip([]) == data;
  }

  lemma {:induction false} ContentsConcat(a: seq<Unit>, b: seq<Unit>)
    ensures Contents(a + b) == Contents(a) + Contents(b)
    ensures Stream(a + b) == Stream(a) + Stream(b)
  {
    if a == [] {
      assert a + b == b;
    } else {
      assert (a + b)[1..] == a[1..] + b;
      ContentsConcat(a[1..], b);
    }
  }

  /** Inserting negotiation between any two units changes nothing. */
  lemma NegotiationInvisible(before: seq<Unit>, control: Unit, after: seq<Unit>)
    requires Proper(control) && IsControl(control)
    requires forall u :: u in before || u in after ==> Proper(u)
    ensures Strip(Stream(before + [control] + after)) == Strip(Stream(before + after))
  {
    var with_, without := before + [control] + after, before + after;
    StripStream(with_, []);
    StripStream(without, []);
    ContentsConcat(before, after);
    ContentsConcat(before + [control], after);
    ContentsConcat(before, [control]);
    assert Contents([control]) == [] by { assert Contents([control][1..]) == []; }
    assert Stream(with_) + [] == Stream(with_) && Stream(without) + [] == Stream(without);
    assert Contents(before) + [] == Contents(before);
  }

  // ------------------------------------------------------------- arbitrary input

  /** A unit cut off by the end of the input. */
  ghost predicate Incomplete(tail: bytes) {
    || tail == []
    || tail == [IAC]
    || (|tail| == 2 && tail[0] == IAC && TakesOption(tail[1]))
    || (|tail| >= 2 && tail[0] == IAC && tail[1] == SB && NoSE(tail))
  }

  lemma {:induction false} FindSENone(raw: bytes, i: nat)
    requires i <= |raw|
    ensures forall k :: i <= k < FindSE(raw, i) && k + 1 < |raw| ==> !(raw[k] == IAC && raw[k + 1] == SE)
    decreases |raw| - i
  {
    if i + 1 < |raw| && !(raw[i] == IAC && raw[i + 1] == SE) {
      FindSENone(raw, i + 1);
    }
  }

  /** The first unit of a stream, if it is complete. */
  lemma FirstUnit(raw: bytes) returns (complete: bool, u: Unit)
    requires raw != []
    ensures complete ==> Proper(u) && Wire(u) <= raw
    ensures !complete ==> Incomplete(raw)
  {
    complete, u := true, EscapedIac;
    if raw[0] != IAC {
      u := Data(raw[0]);
    } else if |raw| == 1 {
      complete := false;
    } else if TakesOption(raw[1]) {
      complete := |raw| > 2;
      if complete {
        u := Negotiate(raw[1], raw[2]);
      }
    } else if raw[1] == SB {
      var end := FindSE(raw, 0);
      FindSENone(raw, 0);
      complete := end < |raw|;
      if complete {
        u := Subnegotiate(raw[2..end]);
        assert Wire(u) == raw[..end + 2];
      }
    } else if raw[1] != IAC {
      u := Other(raw[1]);
    }
  }

  lemma IncompleteStripped(tail: bytes)
    requires Incomplete(tail)
    ensures Strip(tail) == []
  {
    if |tail| >= 2 && tail[1] == SB {
      var end := FindSE(tail, 0);
      assert end == |tail|;
    }
    if tail != [] {
      assert Turn(tail, 0).0 == [] && Turn(tail, 0).1 >= |tail|;
      assert StripFrom(tail, Turn(tail, 0).1) == [];
    }
  }

  lemma StreamCons(u: Unit, more: seq<Unit>)
    ensures Stream([u] + more) == Wire(u) + Stream(more)
  {
    hide Wire;
    assert ([u] + more)[1..] == more;
  }

  lemma EmptyStream()
    ensures Stream([]) == []
  {
  }

  lemma EmptyIncomplete()
    ensures Incomplete([])
  {
  }

  /** Every input whatsoever is a stream of well-formed units and a unit cut short, and exactly the
      content of those units is what remains of it. */
  lemma {:induction false} EveryInputDecomposes(raw: bytes) returns (units: seq<Unit>, tail: bytes)
    ensures raw == Stream(units) + tail && Incomplete(tail) && forall u :: u in units ==> Proper(u)
    ensures Strip(raw) == Contents(units)
    decreases |raw|
  {
    hide Strip, Wire, Proper, Incomplete, Stream, Contents;
    units, tail := [], raw;
    if raw != [] {
      var complete, u := FirstUnit(raw);
      if complete {
        var rest := raw[|Wire(u)|..];
        var more;
        more, tail := EveryInputDecomposes(rest);
        StreamCons(u, more);
        units := [u] + more;
        assert raw == Wire(u) + (Stream(more) + tail) == Stream(units) + tail;
      } else {
        EmptyStream();
      }
    } else {
      EmptyStream();
      assert Incomplete([]) by { EmptyIncomplete(); }
    }
    StripStream(units, tail);
    IncompleteStripped(tail);
    assert Contents(units) + [] == Contents(units);
  }

  // ------------------------------------------------------------ exact conditions

  lemma {:induction false} FindSEFirst(raw: bytes, i: nat, k: nat)
    requires i <= k && k + 1 < |raw| && raw[k] == IAC && raw[k + 1] == SE
    ensures FindSE(raw, i) <= k
    decreases k - i
  {
    if i < k && !(raw[i] == IAC && raw[i + 1] == SE) {
      FindSEFirst(raw, i + 1, k);
    }
  }

  /** The turn that meets a subnegotiation consumes exactly that subnegotiation, whatever follows,
      if and only if its payload contains no IAC SE pair. */
  lemma SubnegotiationConsumedIff(payload: bytes, rest: bytes)
    ensures Turn([IAC, SB] + payload + [IAC, SE] + rest, 0) == ([], |payload| + 4) <==> NoSE(payload)
  {
    var raw := [IAC, SB] + payload + [IAC, SE] + rest;
    assert raw[0] == IAC && raw[1] == SB;
    if NoSE(payload) {
      FindSEInside(payload, rest, 0);
    } else {
      var k :| 0 <= k < |payload| - 1 && payload[k] == IAC && payload[k + 1] == SE;
      assert raw[k + 2] == IAC && raw[k + 3] == SE;
      FindSEFirst(raw, 0, k + 2);
    }
  }

  /** RFC 855 has the sender double a 255 inside a subnegotiation. The data 255, 240, 65 is then sent
      as 255, 255, 240, 65; the code takes the inner 255, 240 for the end, and 65 for typed input. */
  lemma DoubledIacEndsEarly()
    ensures Strip([IAC, SB] + Escape([IAC, SE, 65]) + [IAC, SE]) == [65]
  {
    assert Escape([IAC, SE, 65]) == [IAC, IAC, SE, 65] by {
      assert [IAC, SE, 65][1..] == [SE, 65] && [SE, 65][1..] == [65] && [65][1..] == [];
      assert Escape([]) == [] && Escape([65]) == [65];
      assert Escape([SE, 65]) == [SE, 65];
    }
    var raw: bytes := [IAC, SB, IAC, IAC, SE, 65, IAC, SE];
    assert [IAC, SB] + [IAC, IAC, SE, 65] + [IAC, SE] == raw;
    assert FindSE(raw, 3) == 3 && FindSE(raw, 2) == 3;
    assert FindSE(raw, 1) == 3 && FindSE(raw, 0) == 3;
    assert Turn(raw, 0) == ([], 5);
    assert Turn(raw, 5) == ([65], 6);
    assert Turn(raw, 6) == ([], 8);
    assert StripFrom(raw, 8) == [];
    assert StripFrom(raw, 6) == [];
    assert StripFrom(raw, 5) == [65];
  }
}
