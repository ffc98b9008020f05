/**
  SSH packets and KEXINIT: the parsers of honeypot/services/ssh_service.py and the encoders they
  must invert (attacker/run.py, _fake_kexinit; ssh_service.py, _build_disconnect_packet).
  Formats: sections 6 and 7.1 of RFC 4253, name-lists as in section 5 of RFC 4251.
 */
module SshWire {
  import opened Wrappers
  import opened Bytes

  const KEXINIT: byte := 20
  const COMMA: byte := 44
  const MAX_PACKET: nat := 35000

  type Name = bytes

  // ------------------------------------------------------------------ name-lists

  /** `raw.split(",")` */
  function Split(raw: bytes): (parts: seq<bytes>)
    ensures parts != []
  {
    if raw == [] then [[]]
    else
      var rest := Split(raw[1..]);
      if raw[0] == COMMA then [[]] + rest else [[raw[0]] + rest[0]] + rest[1..]
  }

  function NonEmpty(parts: seq<bytes>): seq<bytes> {
    if parts == [] then [] else (if parts[0] != [] then [parts[0]] else []) + NonEmpty(parts[1..])
  }

  function NamesOf(raw: bytes): seq<Name> { NonEmpty(Split(raw)) }

  function Join(names: seq<Name>): bytes {
    if names == [] then []
    else if |names| == 1 then names[0]
    else names[0] + [COMMA] + Join(names[1..])
  }

  predicate ProperName(name: Name) { name != [] && COMMA !in name }

  lemma {:induction false} SplitName(name: bytes, raw: bytes)
    requires COMMA !in name
    ensures Split(name + [COMMA] + raw) == [name] + Split(raw)
  {
    if name == [] {
      assert (name + [COMMA] + raw)[1..] == raw;
    } else {
      assert (name + [COMMA] + raw)[1..] == name[1..] + [COMMA] + raw;
      SplitName(name[1..], raw);
      assert [name[0]] + name[1..] == name;
    }
  }

  lemma {:induction false} SplitAlone(name: bytes)
    requires COMMA !in name
    ensures Split(name) == [name]
  {
    if name != [] {
      SplitAlone(name[1..]);
      assert [name[0]] + name[1..] == name;
    }
  }

  lemma {:induction false} NamesRoundTrip(names: seq<Name>)
    requires forall n :: n in names ==> ProperName(n)
    ensures NamesOf(Join(names)) == names
  {
    if names == [] {
      assert Split([]) == [[]];
      assert [[]][1..] == NonEmpty([]);
    } else if |names| == 1 {
      assert ProperName(names[0]);
      SplitAlone(names[0]);
      assert [names[0]][1..] == NonEmpty([]);
    } else {
      NamesRoundTrip(names[1..]);
      assert ProperName(names[0]);
      SplitName(names[0], Join(names[1..]));
      assert ([names[0]] + Split(Join(names[1..])))[1..] == Split(Join(names[1..]));
    }
  }

  /** On any bytes: the names are what stands between the commas, the empty pieces left out. */
  lemma {:induction false} NamesConcat(a: bytes, b: bytes)
    ensures NamesOf(a + [44] + b) == NamesOf(a) + NamesOf(b)
    ensures 44 !in a ==> NamesOf(a) == if a == [] then [] else [a]
  {
    SplitConcat(a, b);
    NonEmptyConcat(Split(a), Split(b));
    if 44 !in a {
      SplitAlone(a);
      assert [a][1..] == [];
    }
  }

  lemma {:induction false} SplitConcat(a: bytes, b: bytes)
    ensures Split(a + [COMMA] + b) == Split(a) + Split(b)
  {
    if a == [] {
      assert (a + [COMMA] + b)[1..] == b;
    } else {
      assert (a + [COMMA] + b)[1..] == a[1..] + [COMMA] + b;
      SplitConcat(a[1..], b);
    }
  }

  lemma {:induction false} NonEmptyConcat(p: seq<bytes>, q: seq<bytes>)
    ensures NonEmpty(p + q) == NonEmpty(p) + NonEmpty(q)
  {
    if p == [] {
      assert p + q == q;
    } else {
      assert (p + q)[1..] == p[1..] + q;
      NonEmptyConcat(p[1..], q);
    }
  }

  // --------------------------------------------------------------------- KEXINIT

  function EncodeStrings(raws: seq<bytes>): bytes
    requires forall r :: r in raws ==> |r| < TWO_32
  {
    if raws == [] then [] else Pack(|raws[0]|) + raws[0] + EncodeStrings(raws[1..])
  }

  /** `count` length-prefixed strings from `offset` on, as the parser's loop reads them. */
  function ReadStrings(payload: bytes, offset: nat, count: nat): Option<seq<bytes>>
    requires offset <= |payload|
    decreases count
  {
    if count == 0 then Some([])
    else if offset + 4 > |payload| then None
    else
      var length := Unpack(payload[offset..offset + 4]);
      if length > |payload| - (offset + 4) then None
      else
        match ReadStrings(payload, offset + 4 + length, count - 1)
        case None => None
        case Some(rest) => Some([payload[offset + 4..offset + 4 + length]] + rest)
  }

  function AllNames(raws: seq<bytes>): seq<seq<Name>> {
    if raws == [] then [] else [NamesOf(raws[0])] + AllNames(raws[1..])
  }

  lemma AllNamesAppend(raws: seq<bytes>, raw: bytes)
    ensures AllNames(raws + [raw]) == AllNames(raws) + [NamesOf(raw)]
  {
    if raws == [] {
      assert raws + [raw] == [raw];
      assert AllNames([raw][1..]) == [];
    } else {
      assert (raws + [raw])[1..] == raws[1..] + [raw];
      AllNamesAppend(raws[1..], raw);
    }
  }

  function Kexinit(payload: bytes): Option<seq<seq<Name>>> {
    if |payload| < 17 || payload[0] != KEXINIT then None
    else match ReadStrings(payload, 17, 10)
      case None => None
      case Some(raws) => Some(AllNames(raws))
  }

  /** The loop of `parse_kexinit` over its ten fields. */
  method ParseKexinit(payload: bytes) returns (result: Option<seq<seq<Name>>>)
    ensures result == Kexinit(payload)
  {
    hide AllNames, NamesOf, Extend, ReadStrings, Unpack;
    if |payload| < 17 || payload[0] != KEXINIT {
      return None;
    }
    var offset: nat := 17;
    ghost var raws: seq<bytes> := [];
    var lists: seq<seq<Name>> := [];
    assert AllNames([]) == [] by { NoNames(); }
    ExtendNothing(ReadStrings(payload, 17, 10));
    for k := 0 to 10
      invariant offset <= |payload| && lists == AllNames(raws)
      invariant ReadStrings(payload, 17, 10) == Extend(raws, ReadStrings(payload, offset, 10 - k))
    {
      ReadStringsStep(payload, offset, 10 - k, raws);
      if offset + 4 > |payload| {
        return None;
      }
      var length := Unpack(payload[offset..offset + 4]);
      offset := offset + 4;
      if length > |payload| - offset {
        return None;
      }
      var raw := payload[offset..offset + length];
      offset := offset + length;
      AllNamesAppend(raws, raw);
      raws := raws + [raw];
      lists := lists + [NamesOf(raw)];
    }
    ReadStringsEnd(payload, offset, raws);
    result := Some(lists);
  }

  ghost function Extend(raws: seq<bytes>, r: Option<seq<bytes>>): Option<seq<bytes>> {
    match r case None => None case Some(rest) => Some(raws + rest)
  }

  lemma NoNames()
    ensures AllNames([]) == []
  {
  }

  lemma ReadStringsEnd(payload: bytes, offset: nat, raws: seq<bytes>)
    requires offset <= |payload|
    ensures Extend(raws, ReadStrings(payload, offset, 0)) == Some(raws)
  {
    assert raws + [] == raws;
  }

  /** One turn of the loop: the length and the string it announces, or failure. */
  lemma ReadStringsStep(payload: bytes, offset: nat, count: nat, raws: seq<bytes>)
    requires offset <= |payload| && count > 0
    ensures Extend(raws, ReadStrings(payload, offset, count))
         == if offset + 4 > |payload| then None
            else
              var length := Unpack(payload[offset..offset + 4]);
              if length > |payload| - (offset + 4) then None
              else Extend(raws + [payload[offset + 4..offset + 4 + length]],
                          ReadStrings(payload, offset + 4 + length, count - 1))
  {
    hide Unpack;
    if offset + 4 <= |payload| {
      var next := offset + 4 + Unpack(payload[offset..offset + 4]);
      if next <= |payload| {
        ExtendStep(raws, payload[offset + 4..next], ReadStrings(payload, next, count - 1));
      }
    }
  }

  lemma ExtendNothing(r: Option<seq<bytes>>)
    ensures Extend([], r) == r
  {
    if r.Some? {
      assert [] + r.value == r.value;
    }
  }

  lemma ExtendStep(raws: seq<bytes>, raw: bytes, r: Option<seq<bytes>>)
    ensures Extend(raws, Extend([raw], r)) == Extend(raws + [raw], r)
  {
    if r.Some? {
      assert raws + ([raw] + r.value) == (raws + [raw]) + r.value;
    }
  }

  /** Reading inverts encoding, whatever surrounds the encoded strings. */
  lemma {:induction false} ReadEncoded(before: bytes, raws: seq<bytes>, after: bytes)
    requires forall r :: r in raws ==> |r| < TWO_32
    ensures ReadStrings(before + EncodeStrings(raws) + after, |before|, |raws|) == Some(raws)
    decreases |raws|
  {
    hide Pack, Unpack, ReadStrings;
    var payload := before + EncodeStrings(raws) + after;
    if raws == [] {
      ReadNone(payload, |before|);
    } else {
      var raw, rest := raws[0], raws[1..];
      var head := Pack(|raw|) + raw;
      assert payload == (before + head) + EncodeStrings(rest) + after;
      assert payload == before + head + (EncodeStrings(rest) + after);
      ReadEncoded(before + head, rest, after);
      ReadHead(before, raw, EncodeStrings(rest) + after);
      ReadOne(payload, |before|, |raws|, raw);
      assert [raw] + rest == raws;
    }
  }

  lemma ReadNone(payload: bytes, offset: nat)
    requires offset <= |payload|
    ensures ReadStrings(payload, offset, 0) == Some([])
  {
  }

  /** A complete string at the offset is read first. */
  lemma ReadOne(payload: bytes, offset: nat, count: nat, raw: bytes)
    requires count > 0 && offset + 4 + |raw| <= |payload|
    requires Unpack(payload[offset..offset + 4]) == |raw| && payload[offset + 4..offset + 4 + |raw|] == raw
    ensures ReadStrings(payload, offset, count)
         == match ReadStrings(payload, offset + 4 + |raw|, count - 1)
            case None => None
            case Some(rest) => Some([raw] + rest)
  {
    hide Unpack;
  }

  lemma ReadHead(before: bytes, raw: bytes, tail: bytes)
    requires |raw| < TWO_32
    ensures var payload := before + (Pack(|raw|) + raw) + tail;
      Unpack(payload[|before|..|before| + 4]) == |raw| && payload[|before| + 4..|before| + 4 + |raw|] == raw
  {
    hide Pack, Unpack;
    var payload := before + (Pack(|raw|) + raw) + tail;
    assert payload[|before|..|before| + 4] == Pack(|raw|);
    PackUnpack(|raw|, Pack(|raw|));
  }

  /** Whatever is read was encoded there. */
  lemma {:induction false} ReadOnlyEncoded(payload: bytes, offset: nat, count: nat)
    requires offset <= |payload| && ReadStrings(payload, offset, count).Some?
    ensures var raws := ReadStrings(payload, offset, count).value;
      && |raws| == count && (forall r :: r in raws ==> |r| < TWO_32)
      && EncodeStrings(raws) <= payload[offset..]
    decreases count
  {
    hide Pack, Unpack, EncodeStrings;
    if count == 0 {
      EncodeNone();
    } else {
      var prefix := payload[offset..offset + 4];
      var length := Unpack(prefix);
      var next := offset + 4 + length;
      var raw := payload[offset + 4..next];
      ReadOnlyEncoded(payload, next, count - 1);
      var rest := ReadStrings(payload, next, count - 1).value;
      assert [raw] + rest == ReadStrings(payload, offset, count).value;
      PackUnpack(length, prefix);
      EncodeCons(raw, rest);
      assert payload[offset..] == (prefix + raw) + payload[next..];
    }
  }

  lemma EncodeNone()
    ensures EncodeStrings([]) == []
  {
  }

  lemma EncodeCons(raw: bytes, rest: seq<bytes>)
    requires |raw| < TWO_32 && forall r :: r in rest ==> |r| < TWO_32
    ensures EncodeStrings([raw] + rest) == Pack(|raw|) + raw + EncodeStrings(rest)
  {
    hide Pack;
    assert ([raw] + rest)[1..] == rest;
  }

  /** A KEXINIT payload: type, 16 bytes of cookie, ten complete strings, anything. */
  ghost predicate WellFormed(payload: bytes, raws: seq<bytes>) {
    && |raws| == 10 && (forall r :: r in raws ==> |r| < TWO_32)
    && |payload| >= 17 && payload[0] == 20
    && EncodeStrings(raws) <= payload[17..]
  }

  /** On arbitrary bytes the parser succeeds exactly on well-formed payloads, with their names. */
  lemma KexinitIffWellFormed(payload: bytes)
    ensures Kexinit(payload).Some? <==> exists raws :: WellFormed(payload, raws)
    ensures forall raws :: WellFormed(payload, raws) ==> Kexinit(payload) == Some(AllNames(raws))
  {
    hide ReadStrings, EncodeStrings, AllNames, NamesOf;
    if Kexinit(payload).Some? {
      ReadOnlyEncoded(payload, 17, 10);
      assert WellFormed(payload, ReadStrings(payload, 17, 10).value);
    }
    forall raws | WellFormed(payload, raws) ensures Kexinit(payload) == Some(AllNames(raws)) {
      var encoded := EncodeStrings(raws);
      var before, after := payload[..17], payload[17..][|encoded|..];
      assert payload == before + encoded + after;
      ReadEncoded(before, raws, after);
    }
  }

  function Joined(lists: seq<seq<Name>>): (raws: seq<bytes>)
    ensures |raws| == |lists|
    ensures forall k :: 0 <= k < |lists| ==> raws[k] == Join(lists[k])
  {
    if lists == [] then [] else [Join(lists[0])] + Joined(lists[1..])
  }

  predicate Encodable(lists: seq<seq<Name>>) {
    forall k :: 0 <= k < |lists| ==>
      |Join(lists[k])| < TWO_32 && forall n :: n in lists[k] ==> ProperName(n)
  }

  /** The KEXINIT payload for any lists: type, cookie, lists, first_kex_packet_follows, reserved. */
  function KexinitPayload(cookie: bytes, lists: seq<seq<Name>>): bytes
    requires |cookie| == 16 && Encodable(lists)
  {
    var raws := Joined(lists);
    [20] + cookie + EncodeStrings(raws) + ([0] + Pack(0))
  }

  lemma {:induction false} AllNamesJoined(lists: seq<seq<Name>>)
    requires Encodable(lists)
    ensures AllNames(Joined(lists)) == lists
  {
    if lists != [] {
      NamesRoundTrip(lists[0]);
      assert Encodable(lists[1..]) by {
        forall k | 0 <= k < |lists[1..]|
          ensures |Join(lists[1..][k])| < TWO_32 && forall n :: n in lists[1..][k] ==> ProperName(n)
        {
          assert lists[1..][k] == lists[k + 1];
        }
      }
      AllNamesJoined(lists[1..]);
      assert Joined(lists)[1..] == Joined(lists[1..]);
    }
  }

  /** Parsing inverts encoding for any ten lists of non-empty, comma-free names. */
  lemma KexinitRoundTrip(cookie: bytes, lists: seq<seq<Name>>)
    requires |cookie| == 16 && |lists| == 10 && Encodable(lists)
    ensures Kexinit(KexinitPayload(cookie, lists)) == Some(lists)
  {
    var raws := Joined(lists);
    ReadEncoded([KEXINIT] + cookie, raws, [0] + Pack(0));
    AllNamesJoined(lists);
  }

  // --------------------------------------------------------------------- packets

  function PaddingFor(n: nat): nat {
    var padding := 8 - (n + 5) % 8;
    if padding < 4 then padding + 8 else padding
  }

  function Frame(payload: bytes): bytes
    requires |payload| + PaddingFor(|payload|) + 1 < TWO_32
  {
    var padding := PaddingFor(|payload|);
    Pack(|payload| + padding + 1) + [padding] + payload + Zeros(padding)
  }

  /** Section 6 of RFC 4253: a multiple of eight bytes, four to eleven of them padding. */
  lemma FrameShape(payload: bytes)
    requires |payload| + PaddingFor(|payload|) + 1 < TWO_32
    ensures 4 <= PaddingFor(|payload|) <= 11
    ensures |Frame(payload)| % 8 == 0 && |Frame(payload)| == 5 + |payload| + PaddingFor(|payload|)
  {
    hide PaddingFor, Pack;
    PaddingShape(|payload|);
  }

  lemma PaddingShape(n: nat)
    ensures 4 <= PaddingFor(n) <= 11 && (5 + n + PaddingFor(n)) % 8 == 0
  {
    var q, r := (n + 5) / 8, (n + 5) % 8;
    assert n + 5 == 8 * q + r;
  }

  /** A length outside the permitted range yields no packet either, but is also recorded as an error. */
  datatype Reading = NoPacket | BadLength | OverBudget | Packet(payload: bytes, rest: bytes)

  /** `_read_binary_packet` on a fully buffered stream, with `budget` bytes left in the session. */
  function ReadPacket(stream: bytes, budget: int): Reading {
    if |stream| < 4 then NoPacket
    else
      var length := Unpack(stream[..4]);
      if !(8 <= length <= MAX_PACKET) then BadLength
      else if |stream| - 4 < length then NoPacket
      else
        var body := stream[4..4 + length];
        if 4 + length > budget then OverBudget
        else if body[0] >= |body| then NoPacket
        else Packet(body[1..|body| - body[0]], stream[4 + length..])
  }

  /** The stream reader together with what the session may still receive. */
  class PacketReader {
    var stream: bytes
    var budget: int

    constructor (stream: bytes, budget: int)
      ensures this.stream == stream && this.budget == budget
    {
      this.stream, this.budget := stream, budget;
    }

    /** `readexactly(n)`; None when the stream ends first. */
    method ReadExactly(n: nat) returns (data: Option<bytes>)
      modifies this`stream
      ensures data == if n <= |old(stream)| then Some(old(stream)[..n]) else None
      ensures stream == if n <= |old(stream)| then old(stream)[n..] else []
    {
      if n > |stream| {
        stream := [];
        return None;
      }
      data := Some(stream[..n]);
      stream := stream[n..];
    }

    /** `_read_binary_packet`; an exception leaves the reader in no particular state. */
    method NextPacket() returns (r: Reading)
      modifies this
      ensures r == ReadPacket(old(stream), old(budget))
      ensures r.Packet? ==> stream == r.rest && budget == old(budget) - (|old(stream)| - |stream|)
    {
      hide Unpack;
      var header := ReadExactly(4);
      if header == None {
        return NoPacket;
      }
      var length := Unpack(header.value);
      if !(8 <= length <= MAX_PACKET) {
        return BadLength;
      }
      var body := ReadExactly(length);
      if body == None {
        return NoPacket;
      }
      assert body.value == old(stream)[4..4 + length] && stream == old(stream)[4 + length..];
      budget := budget - (4 + |body.value|);
      if budget < 0 {
        return OverBudget;
      }
      var paddingLen := body.value[0];
      if paddingLen >= |body.value| {
        return NoPacket;
      }
      return Packet(body.value[1..|body.value| - paddingLen], stream);
    }
  }

  /** Unframing inverts framing for exactly the packets within the 35000-byte cap, if the session
      may still receive them; a larger packet is refused. */
  lemma FrameRoundTrip(payload: bytes, rest: bytes, budget: int)
    requires |payload| + PaddingFor(|payload|) + 1 < TWO_32
    ensures var length := |payload| + PaddingFor(|payload|) + 1;
      ReadPacket(Frame(payload) + rest, budget)
      == if length > 35000 then BadLength
         else if 4 + length > budget then OverBudget
         else Packet(payload, rest)
  {
    var padding := PaddingFor(|payload|);
    var length := |payload| + padding + 1;
    var stream := Frame(payload) + rest;
    FrameShape(payload);
    assert length >= 8;
    assert stream[..4] == Pack(length);
    PackUnpack(length, Pack(length));
    assert stream[4..] == ([padding] + payload + Zeros(padding)) + rest;
    if length <= MAX_PACKET {
      var body := stream[4..4 + length];
      assert body == [padding] + payload + Zeros(padding);
      assert body[1..|body| - padding] == payload;
      assert stream[4 + length..] == rest;
    }
  }

  ghost predicate IsPacket(stream: bytes, payload: bytes, padding: bytes, rest: bytes) {
    var length := 1 + |payload| + |padding|;
    && |padding| < 256 && 8 <= length <= 35000
    && stream == Pack(length) + ([|padding|] + payload + padding) + rest
  }

  /** On arbitrary bytes: what is returned lies between a length, a padding count and that padding. */
  lemma PacketIsFramed(stream: bytes, budget: int)
    requires ReadPacket(stream, budget).Packet?
    ensures var Packet(payload, rest) := ReadPacket(stream, budget);
      exists padding :: IsPacket(stream, payload, padding, rest)
  {
    hide Pack, Unpack;
    var length := Unpack(stream[..4]);
    var body := stream[4..4 + length];
    var Packet(payload, rest) := ReadPacket(stream, budget);
    var padding := body[|body| - body[0]..];
    PackUnpack(length, stream[..4]);
    BodyParts(body, body[0]);
    assert stream == Pack(length) + body + rest;
    assert IsPacket(stream, payload, padding, rest);
  }

  /** And whatever is framed so comes back, if the session may still receive it: reading succeeds exactly on a length, a
      padding count, a payload and that padding, within the cap and the budget. */
  lemma PacketIff(stream: bytes, budget: int, payload: bytes, rest: bytes)
    ensures ReadPacket(stream, budget) == Packet(payload, rest)
       <==> exists padding :: IsPacket(stream, payload, padding, rest) && |stream| - |rest| <= budget
  {
    hide Pack, Unpack;
    if ReadPacket(stream, budget) == Packet(payload, rest) {
      PacketIsFramed(stream, budget);
    }
    if padding :| IsPacket(stream, payload, padding, rest) && |stream| - |rest| <= budget {
      var length := 1 + |payload| + |padding|;
      assert stream[..4] == Pack(length);
      PackUnpack(length, Pack(length));
      var body := [|padding|] + payload + padding;
      assert stream[4..4 + length] == body && stream[4 + length..] == rest;
      assert body[1..|body| - |padding|] == payload;
    }
  }

  /** Why there is no packet: the length is not between 8 and 35000, the session may not receive it, the stream ends
      early, or the padding leaves no room for itself. */
  lemma WhyNoPacket(stream: bytes, length: nat, body: bytes, rest: bytes, budget: int)
    requires length < TWO_32
    ensures |stream| < 4 ==> ReadPacket(stream, budget) == NoPacket
    ensures stream == Pack(length) + body && (length < 8 || length > 35000) ==> ReadPacket(stream, budget) == BadLength
    ensures stream == Pack(length) + body && 8 <= length <= 35000 && |body| < length ==>
      ReadPacket(stream, budget) == NoPacket
    ensures stream == Pack(length) + body + rest && 8 <= length <= 35000 && |body| == length ==>
      && (4 + length > budget ==> ReadPacket(stream, budget) == OverBudget)
      && (4 + length <= budget && body[0] >= length ==> ReadPacket(stream, budget) == NoPacket)
  {
    hide Pack, Unpack;
    PackUnpack(length, Pack(length));
    assert stream == Pack(length) + body ==> stream[..4] == Pack(length);
    if stream == Pack(length) + body + rest && |body| == length {
      assert stream[..4] == Pack(length) && stream[4..4 + length] == body;
    }
  }

  lemma BodyParts(body: bytes, n: byte)
    requires body != [] && body[0] == n < |body|
    ensures body == [n] + body[1..|body| - n] + body[|body| - n..]
  {
  }

  /** `_fake_kexinit` for any algorithm lists, built with a growing payload. */
  method FakeKexinit(cookie: bytes, lists: seq<seq<Name>>) returns (packet: bytes)
    requires |cookie| == 16 && Encodable(lists)
    requires |KexinitPayload(cookie, lists)| + 12 < TWO_32
    ensures packet == Frame(KexinitPayload(cookie, lists))
  {
    hide EncodeStrings, Pack;
    var raws := Joined(lists);
    var payload := [KEXINIT] + cookie;
    for k := 0 to |raws|
      invariant payload + EncodeStrings(raws[k..]) == [KEXINIT] + cookie + EncodeStrings(raws)
    {
      assert raws[k..] == [raws[k]] + raws[k + 1..];
      EncodeCons(raws[k], raws[k + 1..]);
      payload := payload + (Pack(|raws[k]|) + raws[k]);
    }
    EncodeNone();
    assert raws[|raws|..] == [];
    payload := payload + ([0] + Pack(0));
    var paddingLen := 8 - (|payload| + 5) % 8;
    if paddingLen < 4 {
      paddingLen := paddingLen + 8;
    }
    packet := Pack(|payload| + paddingLen + 1);
    packet := packet + [paddingLen] + payload + Zeros(paddingLen);
  }

  /** The client's packet, read and parsed by the server, yields the client's lists. */
  lemma {:induction false} ServerSeesClientLists(cookie: bytes, lists: seq<seq<Name>>, rest: bytes, budget: int)
    requires |cookie| == 16 && |lists| == 10 && Encodable(lists)
    requires var payload := KexinitPayload(cookie, lists);
      |payload| + PaddingFor(|payload|) + 1 <= 35000 && |payload| + PaddingFor(|payload|) + 5 <= budget
    ensures var r := ReadPacket(Frame(KexinitPayload(cookie, lists)) + rest, budget);
      r.Packet? && r.rest == rest && Kexinit(r.payload) == Some(lists)
  {
    hide Kexinit, Frame, ReadPacket, KexinitPayload;
    FrameRoundTrip(KexinitPayload(cookie, lists), rest, budget);
    KexinitRoundTrip(cookie, lists);
  }

  /** `_build_disconnect_packet` */
  function DisconnectPacket(message: bytes): bytes
    requires |message| + 30 < TWO_32
  {
    Frame([1] + Pack(11) + Pack(|message|) + message + Pack(0))
  }

  lemma DisconnectRoundTrip(message: bytes)
    requires |message| + 30 < MAX_PACKET
    ensures var r := ReadPacket(DisconnectPacket(message), MAX_PACKET + 4);
      r == Packet([1] + Pack(11) + Pack(|message|) + message + Pack(0), [])
  {
    var payload: bytes := [1] + Pack(11) + Pack(|message|) + message + Pack(0);
    FrameRoundTrip(payload, [], MAX_PACKET + 4);
    assert Frame(payload) + [] == Frame(payload);
  }
}
