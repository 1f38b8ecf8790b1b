// internal/dvb/transport.go and Pump in internal/multiplex/multiplex.go: sections and PES packets
// cut into 188-byte transport packets (section 2.4.3 of ISO/IEC 13818-1), with a continuity
// counter for every PID.
module Transport {
  import C = Carousel
  import opened Emissions
  import opened Words

  type Bytes = seq<Byte>

  const PACKET_SIZE := 188
  const SYNC: Byte := 0x47

  function Stuffing(n: nat): (r: Bytes)
    ensures |r| == n
  {
    seq(n, i => 0xFF)
  }

  // ---- The packets ------------------------------------------------------------------------------------

  /** The four header bytes; control is 1 for payload only, 3 for an adaptation field as well. */
  function Header(pid: Pid, first: bool, control: Byte, continuity: int): (h: Bytes)
    requires control <= 3
    ensures |h| == 4
  {
    [SYNC, pid / 0x100 + if first then 0x40 else 0, pid % 0x100, control * 0x10 + continuity % 0x10]
  }

  /** A section's packet: pointer_field zero in the first, and stuffing after the last byte. */
  function SectionPacket(pid: Pid, first: bool, continuity: int, data: Bytes): (p: Bytes)
    requires |data| <= if first then 183 else 184
    ensures |p| == PACKET_SIZE
  {
    var front := Header(pid, first, 1, continuity) + (if first then [0] else []) + data;
    front + Stuffing(PACKET_SIZE - |front|)
  }

  /** A PES packet's: a short payload is pushed to the end by an adaptation field. */
  function PesPacket(pid: Pid, first: bool, continuity: int, data: Bytes): (p: Bytes)
    requires |data| <= 184
    ensures |p| == PACKET_SIZE
  {
    if |data| == 184 then Header(pid, first, 1, continuity) + data
    else Header(pid, first, 3, continuity) + Adaptation(183 - |data|) + data
  }

  /** adaptation_field_length, then no flags, then stuffing. */
  function Adaptation(length: nat): (a: Bytes)
    requires length <= 183
    ensures |a| == length + 1
  {
    [length] + if length == 0 then [] else [0] + Stuffing(length - 1)
  }

  function SectionPackets(pid: Pid, rest: Bytes, first: bool, continuity: int): seq<Bytes>
    decreases |rest|, first
  {
    if rest == [] && !first then []
    else
      var n := Least(|rest|, if first then 183 else 184);
      [SectionPacket(pid, first, continuity, rest[..n])] + SectionPackets(pid, rest[n..], false, continuity + 1)
  }

  function PesPackets(pid: Pid, rest: Bytes, first: bool, continuity: int): seq<Bytes>
    decreases |rest|, first
  {
    if rest == [] && !first then []
    else
      var n := Least(|rest|, 184);
      [PesPacket(pid, first, continuity, rest[..n])] + PesPackets(pid, rest[n..], false, continuity + 1)
  }

  function Wire(packets: seq<Bytes>): Bytes {
    if packets == [] then [] else packets[0] + Wire(packets[1..])
  }

  // ---- A receiver --------------------------------------------------------------------------------------

  function PidOf(p: Bytes): int
    requires |p| == PACKET_SIZE
  {
    p[1] as int % 0x20 * 0x100 + p[2]
  }

  predicate Starts(p: Bytes)
    requires |p| == PACKET_SIZE
  {
    p[1] / 0x40 % 2 == 1
  }

  function CounterOf(p: Bytes): int
    requires |p| == PACKET_SIZE
  {
    p[3] % 0x10
  }

  /** Where the payload begins: after the header and the adaptation field, if the packet has one. */
  function PayloadAt(p: Bytes): int
    requires |p| == PACKET_SIZE
  {
    if p[3] / 0x20 % 2 == 1 then 5 + p[4] as int else 4
  }

  /** The payload bytes; `pointed` when a unit start carries a pointer_field. */
  function Payload(p: Bytes, pointed: bool): Bytes
    requires |p| == PACKET_SIZE
  {
    var at := PayloadAt(p);
    if at > PACKET_SIZE then []
    else if pointed && Starts(p) then (if at == PACKET_SIZE || at + 1 + p[at] > PACKET_SIZE then [] else p[at + 1 + p[at]..])
    else p[at..]
  }

  ghost predicate AllPackets(packets: seq<Bytes>) {
    forall k :: 0 <= k < |packets| ==> |packets[k]| == PACKET_SIZE
  }

  /** What one packet does to the units received so far: a start opens a new one, and anything
      else is appended to the last. */
  function Put(units: seq<Bytes>, p: Bytes, pointed: bool): seq<Bytes>
    requires |p| == PACKET_SIZE
  {
    var n := |units| - 1;
    if Starts(p) || units == [] then units + [Payload(p, pointed)]
    else units[..n] + [units[n] + Payload(p, pointed)]
  }

  /** The units a receiver puts together. */
  function Units(units: seq<Bytes>, packets: seq<Bytes>, pointed: bool): seq<Bytes>
    requires AllPackets(packets)
    decreases |packets|
  {
    if packets == [] then units else Units(Put(units, packets[0], pointed), packets[1..], pointed)
  }

  lemma {:induction false} UnitsJoin(units: seq<Bytes>, a: seq<Bytes>, b: seq<Bytes>, pointed: bool)
    requires AllPackets(a) && AllPackets(b)
    ensures AllPackets(a + b)
    ensures Units(units, a + b, pointed) == Units(Units(units, a, pointed), b, pointed)
    decreases |a|
  {
    hide Put;
    if a == [] {
      assert a + b == b;
    } else {
      UnitsJoin(Put(units, a[0], pointed), a[1..], b, pointed);
      assert (a + b)[1..] == a[1..] + b && (a + b)[0] == a[0];
    }
  }

  /** Every packet is whole, carries the PID, is marked as a start only if it is the first, and
      counts on from the one before. */
  ghost predicate WellMarked(packets: seq<Bytes>, pid: Pid, continuity: int) {
    forall k :: 0 <= k < |packets| ==>
      && |packets[k]| == 188 && packets[k][0] == 0x47
      && PidOf(packets[k]) == pid && (Starts(packets[k]) <==> k == 0)
      && CounterOf(packets[k]) == (continuity + k) % 0x10
  }

  lemma {:induction false} HeaderReads(pid: Pid, first: bool, control: Byte, continuity: int, rest: Bytes)
    requires (control == 1 || control == 3) && |rest| == 184
    ensures var p := Header(pid, first, control, continuity) + rest;
            && p[0] == 0x47 && PidOf(p) == pid && (Starts(p) <==> first) && CounterOf(p) == continuity % 0x10
            && PayloadAt(p) == if control == 1 then 4 else 5 + rest[0] as int
  {
    var p := Header(pid, first, control, continuity) + rest;
    assert p[1] == pid / 0x100 + if first then 0x40 else 0;
    assert p[3] == control * 0x10 + continuity % 0x10;
  }

  lemma {:induction false} SectionPacketReads(pid: Pid, first: bool, continuity: int, data: Bytes)
    requires |data| <= if first then 183 else 184
    ensures var p := SectionPacket(pid, first, continuity, data);
            && p[0] == 0x47 && PidOf(p) == pid && (Starts(p) <==> first) && CounterOf(p) == continuity % 0x10
            && Payload(p, true) == data + Stuffing((if first then 183 else 184) - |data|)
  {
    var p := SectionPacket(pid, first, continuity, data);
    var stuffing := Stuffing((if first then 183 else 184) - |data|);
    var rest := (if first then [0] else []) + data + stuffing;
    var head := Header(pid, first, 1, continuity);
    HeaderReads(pid, first, 1, continuity, rest);
    hide Header;
    assert p == head + rest;
    hide SectionPacket;
    assert p[4..] == rest;
    if first {
      assert p[4] == rest[0] == 0 && p[5..] == rest[1..] == data + stuffing;
    } else {
      assert rest == data + stuffing;
    }
  }

  lemma {:induction false} PesPacketReads(pid: Pid, first: bool, continuity: int, data: Bytes)
    requires |data| <= 184
    ensures var p := PesPacket(pid, first, continuity, data);
            && p[0] == 0x47 && PidOf(p) == pid && (Starts(p) <==> first) && CounterOf(p) == continuity % 0x10
            && Payload(p, false) == data
  {
    var p := PesPacket(pid, first, continuity, data);
    if |data| == 184 {
      HeaderReads(pid, first, 1, continuity, data);
    } else {
      var field := Adaptation(183 - |data|);
      HeaderReads(pid, first, 3, continuity, field + data);
      assert p == Header(pid, first, 3, continuity) + (field + data);
      assert p[4..] == field + data && p[5 + field[0]..] == data;
    }
  }

  // ---- Nothing is lost -----------------------------------------------------------------------------------

  /** The stuffing a section ends with: what its last packet has left. */
  function Padding(n: int): nat {
    if n <= 183 then (if n < 0 then 0 else 183 - n) else if (n - 183) % 184 == 0 then 0 else 184 - (n - 183) % 184
  }

  function Padded(section: Bytes): Bytes {
    section + Stuffing(Padding(|section|))
  }

  /** The packets after the first are whole, on the PID, no starts, and counted. */
  lemma {:induction false} LaterMarks(pid: Pid, rest: Bytes, continuity: int, k: nat)
    requires k < |SectionPackets(pid, rest, false, continuity)|
    ensures var p := SectionPackets(pid, rest, false, continuity)[k];
            |p| == 188 && p[0] == 0x47 && PidOf(p) == pid && !Starts(p) && CounterOf(p) == (continuity + k) % 0x10
    decreases k
  {
    var n := Least(|rest|, 184);
    SectionPacketReads(pid, false, continuity, rest[..n]);
    if k > 0 { LaterMarks(pid, rest[n..], continuity + 1, k - 1); }
    hide SectionPacket, Payload, PidOf, Starts, CounterOf;
  }

  lemma {:induction false} LaterWhole(pid: Pid, rest: Bytes, first: bool, continuity: int)
    ensures AllPackets(SectionPackets(pid, rest, first, continuity))
    decreases |rest|, first
  {
    if rest != [] || first {
      LaterWhole(pid, rest[Least(|rest|, if first then 183 else 184)..], false, continuity + 1);
      hide SectionPacket;
    }
  }

  lemma {:induction false} LaterUnits(units: seq<Bytes>, last: Bytes, pid: Pid, rest: Bytes, continuity: int)
    ensures AllPackets(SectionPackets(pid, rest, false, continuity))
    ensures Units(units + [last], SectionPackets(pid, rest, false, continuity), true) ==
            units + [last + rest + Stuffing(Padding(|rest| + 183))]
    decreases |rest|
  {
    LaterWhole(pid, rest, false, continuity);
    if rest == [] {
      assert last + rest + Stuffing(0) == last;
    } else {
      var n := Least(|rest|, 184);
      var p, later := SectionPacket(pid, false, continuity, rest[..n]), SectionPackets(pid, rest[n..], false, continuity + 1);
      SectionPacketReads(pid, false, continuity, rest[..n]);
      assert SectionPackets(pid, rest, false, continuity) == [p] + later && ([p] + later)[1..] == later;
      hide SectionPacket, SectionPackets, Payload, PidOf, Starts, CounterOf, Padding;
      var more := last + (rest[..n] + Stuffing(184 - n));
      assert (units + [last])[..|units|] == units;
      assert Put(units + [last], p, true) == units + [more];
      LaterUnits(units, more, pid, rest[n..], continuity + 1);
      hide Put, Units;
      OneMore(last, rest, n);
    }
  }

  lemma {:induction false} OneMore(last: Bytes, rest: Bytes, n: nat)
    requires rest != [] && n == Least(|rest|, 184)
    ensures last + (rest[..n] + Stuffing(184 - n)) + rest[n..] + Stuffing(Padding(|rest[n..]| + 183)) ==
            last + rest + Stuffing(Padding(|rest| + 183))
  {
    PaddingStep(|rest|);
    hide Padding;
    assert rest[..n] + rest[n..] == rest;
    if |rest| < 184 {
      assert rest[n..] == [] && rest[..n] == rest;
      assert last + (rest + Stuffing(184 - n)) + [] + Stuffing(0) == last + rest + Stuffing(184 - n);
    } else {
      var pad := Stuffing(Padding(|rest[n..]| + 183));
      assert last + (rest[..n] + Stuffing(0)) + rest[n..] + pad == last + rest + pad;
    }
  }

  lemma {:induction false} PaddingStep(n: nat)
    requires n > 0
    ensures if n < 184 then Padding(n + 183) == 184 - n && Padding(183) == 0
            else Padding(n + 183) == Padding(n - 184 + 183)
  {
    if n >= 184 { assert n % 184 == (n - 184) % 184; }
  }

  /** Every packet of a section is whole, on its PID, marked and counted. */
  lemma {:induction false} SectionMarked(pid: Pid, section: Bytes, continuity: int)
    ensures var packets := SectionPackets(pid, section, true, continuity);
            packets != [] && WellMarked(packets, pid, continuity)
  {
    var n := Least(|section|, 183);
    var later := SectionPackets(pid, section[n..], false, continuity + 1);
    var packets := SectionPackets(pid, section, true, continuity);
    SectionPacketReads(pid, true, continuity, section[..n]);
    assert packets == [SectionPacket(pid, true, continuity, section[..n])] + later;
    hide SectionPacket, SectionPackets, Payload, PidOf, Starts, CounterOf;
    forall k | 0 < k < |packets|
      ensures |packets[k]| == PACKET_SIZE && packets[k][0] == SYNC && PidOf(packets[k]) == pid && !Starts(packets[k]) &&
              CounterOf(packets[k]) == (continuity + k) % 0x10
    {
      LaterMarks(pid, section[n..], continuity + 1, k - 1);
      assert packets[k] == later[k - 1];
    }
  }

  /** A receiver puts a section back together exactly, followed only by the last packet's
      stuffing, whatever came before it on the PID. */
  lemma {:induction false} SectionArrives(units: seq<Bytes>, pid: Pid, section: Bytes, continuity: int)
    ensures AllPackets(SectionPackets(pid, section, true, continuity))
    ensures Units(units, SectionPackets(pid, section, true, continuity), true) == units + [Padded(section)]
  {
    hide SectionPacket, SectionPackets, Payload, PidOf, Starts, CounterOf, Padding, Put, Units;
    LaterWhole(pid, section, true, continuity);
    var n := Least(|section|, 183);
    var more := section[..n] + Stuffing(183 - n);
    FirstSection(units, pid, section, continuity);
    LaterUnits(units, more, pid, section[n..], continuity + 1);
    PaddingFirst(section);
    assert section[..n] + section[n..] == section;
    if |section| <= 183 {
      assert more + [] + [] == Padded(section);
    } else {
      assert more + section[n..] + Stuffing(Padding(|section|)) == Padded(section);
    }
  }

  lemma PaddingFirst(section: Bytes)
    ensures var n := Least(|section|, 183);
            && (|section| <= 183 ==> section[n..] == [] && Padding(|section[n..]| + 183) == 0 && Padding(|section|) == 183 - n)
            && (|section| > 183 ==> n == 183 && |section[n..]| + 183 == |section|)
  {
  }

  /** The first packet opens a unit with the section's first 183 bytes. */
  lemma {:induction false} FirstSection(units: seq<Bytes>, pid: Pid, section: Bytes, continuity: int)
    requires AllPackets(SectionPackets(pid, section, true, continuity))
    ensures var n := Least(|section|, 183);
            var later := SectionPackets(pid, section[n..], false, continuity + 1);
            && AllPackets(later)
            && Units(units, SectionPackets(pid, section, true, continuity), true) ==
               Units(units + [section[..n] + Stuffing(183 - n)], later, true)
  {
    var n := Least(|section|, 183);
    var p, later := SectionPacket(pid, true, continuity, section[..n]), SectionPackets(pid, section[n..], false, continuity + 1);
    SectionPacketReads(pid, true, continuity, section[..n]);
    assert SectionPackets(pid, section, true, continuity) == [p] + later && ([p] + later)[1..] == later;
    LaterWhole(pid, section[n..], false, continuity + 1);
    hide SectionPacket, Payload, PidOf, Starts, CounterOf;
  }

  lemma {:induction false} PesWhole(pid: Pid, rest: Bytes, first: bool, continuity: int)
    ensures AllPackets(PesPackets(pid, rest, first, continuity))
    decreases |rest|, first
  {
    if rest != [] || first {
      PesWhole(pid, rest[Least(|rest|, 184)..], false, continuity + 1);
      hide PesPacket;
    }
  }

  lemma {:induction false} LaterPesUnits(units: seq<Bytes>, last: Bytes, pid: Pid, rest: Bytes, continuity: int)
    ensures AllPackets(PesPackets(pid, rest, false, continuity))
    ensures Units(units + [last], PesPackets(pid, rest, false, continuity), false) == units + [last + rest]
    decreases |rest|
  {
    PesWhole(pid, rest, false, continuity);
    if rest == [] {
      assert last + rest == last;
    } else {
      var n := Least(|rest|, 184);
      var p, later := PesPacket(pid, false, continuity, rest[..n]), PesPackets(pid, rest[n..], false, continuity + 1);
      PesPacketReads(pid, false, continuity, rest[..n]);
      assert PesPackets(pid, rest, false, continuity) == [p] + later && ([p] + later)[1..] == later;
      hide PesPacket, PesPackets, Payload, PidOf, Starts, CounterOf;
      assert (units + [last])[..|units|] == units;
      assert Put(units + [last], p, false) == units + [last + rest[..n]];
      LaterPesUnits(units, last + rest[..n], pid, rest[n..], continuity + 1);
      hide Put, Units;
      assert rest[..n] + rest[n..] == rest;
      assert last + rest[..n] + rest[n..] == last + rest;
    }
  }

  /** A receiver puts a PES packet back together exactly, whatever its length: the adaptation field
      keeps the stuffing out of the payload. */
  lemma {:induction false} PesArrives(units: seq<Bytes>, pid: Pid, pes: Bytes, continuity: int)
    ensures AllPackets(PesPackets(pid, pes, true, continuity))
    ensures Units(units, PesPackets(pid, pes, true, continuity), false) == units + [pes]
  {
    hide PesPacket, PesPackets, Payload, PidOf, Starts, CounterOf, Put, Units;
    PesWhole(pid, pes, true, continuity);
    var n := Least(|pes|, 184);
    FirstPes(units, pid, pes, continuity);
    LaterPesUnits(units, pes[..n], pid, pes[n..], continuity + 1);
    assert pes[..n] + pes[n..] == pes;
  }

  lemma {:induction false} FirstPes(units: seq<Bytes>, pid: Pid, pes: Bytes, continuity: int)
    requires AllPackets(PesPackets(pid, pes, true, continuity))
    ensures var n := Least(|pes|, 184);
            var later := PesPackets(pid, pes[n..], false, continuity + 1);
            && AllPackets(later)
            && Units(units, PesPackets(pid, pes, true, continuity), false) == Units(units + [pes[..n]], later, false)
  {
    var n := Least(|pes|, 184);
    var p, later := PesPacket(pid, true, continuity, pes[..n]), PesPackets(pid, pes[n..], false, continuity + 1);
    PesPacketReads(pid, true, continuity, pes[..n]);
    assert PesPackets(pid, pes, true, continuity) == [p] + later && ([p] + later)[1..] == later;
    PesWhole(pid, pes[n..], false, continuity + 1);
    hide PesPacket, Payload, PidOf, Starts, CounterOf;
  }

  lemma {:induction false} LaterPesMarks(pid: Pid, rest: Bytes, continuity: int, k: nat)
    requires k < |PesPackets(pid, rest, false, continuity)|
    ensures var p := PesPackets(pid, rest, false, continuity)[k];
            |p| == 188 && p[0] == 0x47 && PidOf(p) == pid && !Starts(p) && CounterOf(p) == (continuity + k) % 0x10
    decreases k
  {
    var n := Least(|rest|, 184);
    PesPacketReads(pid, false, continuity, rest[..n]);
    if k > 0 { LaterPesMarks(pid, rest[n..], continuity + 1, k - 1); }
    hide PesPacket, Payload, PidOf, Starts, CounterOf;
  }

  lemma {:induction false} PesMarked(pid: Pid, pes: Bytes, continuity: int)
    ensures var packets := PesPackets(pid, pes, true, continuity);
            packets != [] && WellMarked(packets, pid, continuity)
  {
    var n := Least(|pes|, 184);
    var later := PesPackets(pid, pes[n..], false, continuity + 1);
    var packets := PesPackets(pid, pes, true, continuity);
    PesPacketReads(pid, true, continuity, pes[..n]);
    assert packets == [PesPacket(pid, true, continuity, pes[..n])] + later;
    hide PesPacket, PesPackets, Payload, PidOf, Starts, CounterOf;
    forall k | 0 < k < |packets|
      ensures |packets[k]| == PACKET_SIZE && packets[k][0] == SYNC && PidOf(packets[k]) == pid && !Starts(packets[k]) &&
              CounterOf(packets[k]) == (continuity + k) % 0x10
    {
      LaterPesMarks(pid, pes[n..], continuity + 1, k - 1);
      assert packets[k] == later[k - 1];
    }
  }

  // ---- The packetisers -------------------------------------------------------------------------------------

  // The loop PacketizeSection runs, one 188-byte buffer a turn.
  method PacketizeSection(pid: Pid, section: Bytes, start: Byte) returns (out: Bytes)
    ensures out == Wire(SectionPackets(pid, section, true, start))
  {
    var remaining, first, continuity: int := section, true, start;
    out := [];
    assert [] + Wire(SectionPackets(pid, section, true, start)) == Wire(SectionPackets(pid, section, true, start));
    while first || |remaining| > 0
      invariant out + Wire(SectionPackets(pid, remaining, first, continuity)) == Wire(SectionPackets(pid, section, true, start))
      decreases |remaining|, first
    {
      var n := Least(|remaining|, if first then 183 else 184);
      var packet := FillSection(pid, first, continuity, remaining[..n]);
      ghost var later := SectionPackets(pid, remaining[n..], false, continuity + 1);
      WireStep(packet, later);
      assert SectionPackets(pid, remaining, first, continuity) == [packet] + later;
      hide SectionPackets, Wire, SectionPacket;
      assert out + (packet + Wire(later)) == out + packet + Wire(later);
      CountOn(continuity);
      SameCounts(pid, remaining[n..], continuity + 1, (continuity + 1) % 0x10);
      continuity := (continuity + 1) % 0x10;
      remaining, first := remaining[n..], false;
      out := out + packet;
    }
    assert SectionPackets(pid, remaining, first, continuity) == [];
    assert out + [] == out;
  }

  lemma {:induction false} WireStep(packet: Bytes, later: seq<Bytes>)
    ensures Wire([packet] + later) == packet + Wire(later)
  {
    assert ([packet] + later)[1..] == later;
  }

  lemma {:induction false} CountOn(c: int)
    ensures (c + 1) % 0x10 % 0x10 == (c + 1) % 0x10
  {
  }

  lemma {:induction false} SameCounts(pid: Pid, rest: Bytes, c: int, d: int)
    requires c % 0x10 == d % 0x10
    ensures SectionPackets(pid, rest, false, c) == SectionPackets(pid, rest, false, d)
    decreases |rest|
  {
    if rest == [] {
    } else {
      NextCounts(c, d);
      SameCounts(pid, rest[Least(|rest|, 184)..], c + 1, d + 1);
    }
  }

  lemma {:induction false} NextCounts(c: int, d: int)
    requires c % 0x10 == d % 0x10
    ensures (c + 1) % 0x10 == (d + 1) % 0x10
  {
  }

  // copy(packet[at:], data)
  method CopyInto(buffer: array<Byte>, at: nat, data: Bytes)
    requires at + |data| <= buffer.Length
    modifies buffer
    ensures buffer[..] == old(buffer[..at]) + data + old(buffer[at + |data|..])
  {
    for i := 0 to |data|
      invariant forall k :: 0 <= k < i ==> buffer[at + k] == data[k]
      invariant forall k :: at + i <= k < buffer.Length ==> buffer[k] == old(buffer[k])
      invariant forall k :: 0 <= k < at ==> buffer[k] == old(buffer[k])
    {
      buffer[at + i] := data[i];
    }
  }

  // One section packet in its buffer: stuffing everywhere, then the header, then the data over it.
  method FillSection(pid: Pid, first: bool, continuity: int, data: Bytes) returns (packet: Bytes)
    requires |data| <= if first then 183 else 184
    ensures packet == SectionPacket(pid, first, continuity, data)
  {
    var buffer := new Byte[PACKET_SIZE](_ => 0xFF);
    buffer[0] := SYNC;
    buffer[1] := pid / 0x100;
    if first { buffer[1] := buffer[1] + 0x40; }
    buffer[2] := pid % 0x100;
    buffer[3] := 0x10 + continuity % 0x10;
    var at := 4;
    if first {
      buffer[at] := 0;
      at := at + 1;
    }
    ghost var front := Header(pid, first, 1, continuity) + if first then [0] else [];
    assert buffer[..at] == front;
    ghost var tail := Stuffing(PACKET_SIZE - at - |data|);
    assert buffer[at + |data|..] == tail;
    CopyInto(buffer, at, data);
    packet := buffer[..];
  }

  // One PES packet: a short payload sits at the end, behind an adaptation field.
  method FillPes(pid: Pid, first: bool, continuity: int, data: Bytes) returns (packet: Bytes)
    requires |data| <= 184
    ensures packet == PesPacket(pid, first, continuity, data)
  {
    var buffer := new Byte[PACKET_SIZE](_ => 0xFF);
    FillHeader(buffer, pid, first, continuity, |data| < 184);
    var at := 4;
    if |data| < 184 {
      at := 5 + (183 - |data|);
      FillAdaptation(buffer, 183 - |data|);
    }
    hide Header, Adaptation;
    assert buffer[at + |data|..] == [];
    CopyInto(buffer, at, data);
    packet := buffer[..];
  }

  method FillHeader(buffer: array<Byte>, pid: Pid, first: bool, continuity: int, adapted: bool)
    requires buffer.Length == PACKET_SIZE
    modifies buffer
    ensures buffer[..4] == Header(pid, first, if adapted then 3 else 1, continuity) && buffer[4..] == old(buffer[4..])
  {
    buffer[0] := SYNC;
    buffer[1] := pid / 0x100;
    if first { buffer[1] := buffer[1] + 0x40; }
    buffer[2] := pid % 0x100;
    buffer[3] := 0x10 + continuity % 0x10;
    if adapted { buffer[3] := buffer[3] + 0x20; }
  }

  method FillAdaptation(buffer: array<Byte>, length: nat)
    requires buffer.Length == PACKET_SIZE && length <= 183 && buffer[4..] == Stuffing(184)
    modifies buffer
    ensures buffer[..5 + length] == old(buffer[..4]) + Adaptation(length)
  {
    assert forall k :: 4 <= k < PACKET_SIZE ==> buffer[k] == buffer[4..][k - 4] == 0xFF;
    buffer[4] := length;
    if length > 0 { buffer[5] := 0; }
    assert buffer[4..5 + length] == Adaptation(length);
    assert buffer[..5 + length] == buffer[..4] + buffer[4..5 + length];
  }

  method PacketizePES(pid: Pid, pes: Bytes, start: Byte) returns (out: Bytes)
    ensures out == Wire(PesPackets(pid, pes, true, start))
  {
    var remaining, first, continuity: int := pes, true, start;
    out := [];
    assert [] + Wire(PesPackets(pid, pes, true, start)) == Wire(PesPackets(pid, pes, true, start));
    while first || |remaining| > 0
      invariant out + Wire(PesPackets(pid, remaining, first, continuity)) == Wire(PesPackets(pid, pes, true, start))
      decreases |remaining|, first
    {
      var n := Least(|remaining|, 184);
      var packet := FillPes(pid, first, continuity, remaining[..n]);
      ghost var later := PesPackets(pid, remaining[n..], false, continuity + 1);
      WireStep(packet, later);
      assert PesPackets(pid, remaining, first, continuity) == [packet] + later;
      hide PesPackets, Wire, PesPacket;
      assert out + (packet + Wire(later)) == out + packet + Wire(later);
      CountOn(continuity);
      SamePesCounts(pid, remaining[n..], continuity + 1, (continuity + 1) % 0x10);
      continuity := (continuity + 1) % 0x10;
      remaining, first := remaining[n..], false;
      out := out + packet;
    }
    assert PesPackets(pid, remaining, first, continuity) == [];
    assert out + [] == out;
  }

  lemma {:induction false} SamePesCounts(pid: Pid, rest: Bytes, c: int, d: int)
    requires c % 0x10 == d % 0x10
    ensures PesPackets(pid, rest, false, c) == PesPackets(pid, rest, false, d)
    decreases |rest|
  {
    if rest == [] {
    } else {
      NextCounts(c, d);
      SamePesCounts(pid, rest[Least(|rest|, 184)..], c + 1, d + 1);
    }
  }

  lemma {:induction false} WireLength(packets: seq<Bytes>)
    requires AllPackets(packets)
    ensures |Wire(packets)| == PACKET_SIZE * |packets|
  {
    if packets == [] {
    } else {
      WireLength(packets[1..]);
    }
  }

  // ---- Pump ------------------------------------------------------------------------------------------------

  /** The packets of one PID among those handed to the demultiplexer, and the sections sent on it. */
  function OnPid(packets: seq<Bytes>, pid: Pid): seq<Bytes>
    requires AllPackets(packets)
  {
    if packets == [] then []
    else
      var n := |packets| - 1;
      OnPid(packets[..n], pid) + if PidOf(packets[n]) == pid then [packets[n]] else []
  }

  function SentOn(emissions: seq<Emission>, pid: Pid): seq<Bytes> {
    if emissions == [] then []
    else
      var n := |emissions| - 1;
      SentOn(emissions[..n], pid) + if emissions[n].pid == pid then [Padded(emissions[n].section)] else []
  }

  /** What holds of one PID: its counters run 0, 1, 2, … modulo sixteen with no gap, the next one is
      on record, and a receiver has every section sent on it, in order. */
  ghost predicate InOrder(sent: seq<Bytes>, emitted: seq<Emission>, next: int, pid: Pid)
    requires AllPackets(sent)
  {
    var packets := OnPid(sent, pid);
    && AllPackets(packets)
    && (forall k :: 0 <= k < |packets| ==> CounterOf(packets[k]) == k % 0x10)
    && next == |packets| % 0x10
    && Units([], packets, true) == SentOn(emitted, pid)
  }

  lemma {:induction false} OnPidJoins(a: seq<Bytes>, b: seq<Bytes>, owner: Pid, pid: Pid)
    requires AllPackets(a) && AllPackets(b) && forall k :: 0 <= k < |b| ==> PidOf(b[k]) == owner
    ensures AllPackets(a + b)
    ensures OnPid(a + b, pid) == OnPid(a, pid) + if pid == owner then b else []
    decreases |b|
  {
    if b == [] {
      assert a + b == a;
    } else {
      var n := |b| - 1;
      assert (a + b)[..|a + b| - 1] == a + b[..n] && (a + b)[|a + b| - 1] == b[n];
      OnPidJoins(a, b[..n], owner, pid);
      hide PidOf;
      assert b == b[..n] + [b[n]];
    }
  }

  lemma {:induction false} SentGrows(emitted: seq<Emission>, e: Emission, pid: Pid)
    ensures SentOn(emitted + [e], pid) == SentOn(emitted, pid) + if pid == e.pid then [Padded(e.section)] else []
  {
    assert (emitted + [e])[..|emitted|] == emitted;
  }

  lemma {:induction false} OwnPid(sent: seq<Bytes>, emitted: seq<Emission>, e: Emission, next: int)
    requires AllPackets(sent) && InOrder(sent, emitted, next, e.pid)
    ensures var packets := SectionPackets(e.pid, e.section, true, next);
            && AllPackets(packets) && AllPackets(sent + packets)
            && InOrder(sent + packets, emitted + [e], (next + |packets|) % 0x10, e.pid)
  {
    hide SectionPackets, Units, OnPid, CounterOf, PidOf, Starts, Padded, SentOn;
    var packets := SectionPackets(e.pid, e.section, true, next);
    SentGrows(emitted, e, e.pid);
    SectionMarked(e.pid, e.section, next);
    OnPidJoins(sent, packets, e.pid, e.pid);
    var before := OnPid(sent, e.pid);
    SectionArrives(Units([], before, true), e.pid, e.section, next);
    UnitsJoin([], before, packets, true);
    CountsJoin(before, packets, e.pid, next);
  }

  lemma {:induction false} CountsJoin(before: seq<Bytes>, packets: seq<Bytes>, pid: Pid, next: int)
    requires AllPackets(before) && AllPackets(packets) && WellMarked(packets, pid, next) && next == |before| % 0x10
    requires forall k :: 0 <= k < |before| ==> CounterOf(before[k]) == k % 0x10
    ensures forall k :: 0 <= k < |before + packets| ==> CounterOf((before + packets)[k]) == k % 0x10
    ensures (next + |packets|) % 0x10 == |before + packets| % 0x10
  {
    hide CounterOf, PidOf, Starts;
    forall k | 0 <= k < |before + packets| ensures CounterOf((before + packets)[k]) == k % 0x10 {
      if k >= |before| { SameCount(next, |before|, k - |before|); }
    }
    SameCount(next, |before|, |packets|);
  }

  lemma {:induction false} OtherPid(sent: seq<Bytes>, emitted: seq<Emission>, e: Emission, next: int, pid: Pid, own: int)
    requires AllPackets(sent) && InOrder(sent, emitted, next, pid) && pid != e.pid
    ensures var packets := SectionPackets(e.pid, e.section, true, own);
            AllPackets(packets) && AllPackets(sent + packets) && InOrder(sent + packets, emitted + [e], next, pid)
  {
    hide SectionPackets, Units, OnPid, CounterOf, PidOf, Starts, Padded, SentOn;
    var packets := SectionPackets(e.pid, e.section, true, own);
    SentGrows(emitted, e, pid);
    assert SentOn(emitted, pid) + [] == SentOn(emitted, pid);
    SectionMarked(e.pid, e.section, own);
    OnPidJoins(sent, packets, e.pid, pid);
    assert OnPid(sent, pid) + [] == OnPid(sent, pid);
  }

  lemma {:induction false} SameCount(next: int, n: nat, k: nat)
    requires next == n % 0x10
    ensures (next + k) % 0x10 == (n + k) % 0x10
  {
  }

  function CounterIn(continuity: map<Pid, Byte>, pid: Pid): int {
    if pid in continuity then continuity[pid] else 0
  }

  ghost predicate AllInOrder(sent: seq<Bytes>, emitted: seq<Emission>, continuity: map<Pid, Byte>) {
    AllPackets(sent) && forall pid: Pid :: InOrder(sent, emitted, CounterIn(continuity, pid), pid)
  }

  lemma {:induction false} SendKeeps(sent: seq<Bytes>, emitted: seq<Emission>, continuity: map<Pid, Byte>, e: Emission, step: Byte)
    requires AllInOrder(sent, emitted, continuity)
    requires step == (CounterIn(continuity, e.pid) + |SectionPackets(e.pid, e.section, true, CounterIn(continuity, e.pid))|) % 0x10
    ensures var packets := SectionPackets(e.pid, e.section, true, CounterIn(continuity, e.pid));
            AllInOrder(sent + packets, emitted + [e], continuity[e.pid := step])
  {
    hide InOrder, SectionPackets;
    var own := CounterIn(continuity, e.pid);
    var packets := SectionPackets(e.pid, e.section, true, own);
    var sent', emitted', after := sent + packets, emitted + [e], continuity[e.pid := step];
    OwnPid(sent, emitted, e, own);
    forall pid: Pid ensures InOrder(sent', emitted', CounterIn(after, pid), pid) {
      if pid != e.pid { OtherPid(sent, emitted, e, CounterIn(continuity, pid), pid, own); }
    }
  }

  // m.continuity and the demultiplexer it pushes to.
  class Multiplex {
    var continuity: map<Pid, Byte>
    ghost var sent: seq<Bytes> // every packet handed over, oldest first
    ghost var emitted: seq<Emission>

    ghost predicate Valid()
      reads this
    {
      AllInOrder(sent, emitted, continuity)
    }

    constructor ()
      ensures Valid() && sent == [] && emitted == []
    {
      continuity := map[];
      sent, emitted := [], [];
      new;
      forall pid: Pid ensures InOrder([], [], 0, pid) {}
    }

    // One emission: its packets, and the counter moved past them. Go adds the count as a byte.
    method Send(e: Emission) returns (packets: Bytes)
      requires Valid()
      modifies this
      ensures Valid() && emitted == old(emitted) + [e]
      ensures old(sent) <= sent && packets == Wire(sent[|old(sent)|..])
    {
      hide AllInOrder, InOrder, SectionPackets, Wire;
      var own := CounterIn(continuity, e.pid);
      packets := PacketizeSection(e.pid, e.section, own);
      ghost var cut := SectionPackets(e.pid, e.section, true, own);
      LaterWhole(e.pid, e.section, true, own);
      WireLength(cut);
      StepIs(own, |cut|);
      var step := (own + |packets| / PACKET_SIZE % 0x100) % 0x100 % 0x10;
      SendKeeps(sent, emitted, continuity, e, step);
      continuity := continuity[e.pid := step];
      assert (sent + cut)[|sent|..] == cut;
      sent, emitted := sent + cut, emitted + [e];
    }

    // Pump: nothing before the carousel's next due instant, and otherwise its wave, if it has one.
    method Pump<W>(carousel: C.Carousel<W>, now: C.Instant, refused: nat) returns (ok: bool)
      requires Valid()
      modifies this, carousel
      ensures Valid()
      ensures var s := old(carousel.Now());
              if now < C.NextDueOf(carousel.schedule, carousel.source, s) then
                ok && carousel.Now() == s && emitted == old(emitted)
              else
                var p := C.WaveAt(carousel.schedule, carousel.source, s, now);
                && carousel.Now() == p.s
                && ok == (p.Going? && refused >= |p.wave|)
                && emitted == old(emitted) + if p.Broken? then [] else if ok then p.wave else p.wave[..refused + 1]
    {
      hide C.NextDueOf, C.WaveAt, AllInOrder;
      var due := carousel.NextDue();
      if now < due { return true; }
      var wave := carousel.Wave(now);
      if wave.None? { return false; }
      ok := SendAll(wave.value, refused);
    }

    // The loop over a wave. A push the demultiplexer refuses ends it, after its counter moved.
    method SendAll(wave: seq<Emission>, refused: nat) returns (ok: bool)
      requires Valid()
      modifies this
      ensures Valid() && ok == (refused >= |wave|)
      ensures emitted == old(emitted) + if ok then wave else wave[..refused + 1]
    {
      hide AllInOrder;
      assert wave[..0] == [] && emitted + [] == emitted;
      for i := 0 to |wave|
        invariant Valid() && refused >= i && emitted == old(emitted) + wave[..i]
      {
        var packets := Send(wave[i]);
        assert wave[..i + 1] == wave[..i] + [wave[i]];
        if refused == i { return false; }
      }
      ok := true;
    }
  }

  lemma {:induction false} StepIs(own: Byte, n: nat)
    ensures PACKET_SIZE * n / PACKET_SIZE == n
    ensures (own + n % 0x100) % 0x100 % 0x10 == (own + n) % 0x10
  {
    var a, b := n / 0x100, n % 0x100;
    var t: int := own as int + b;
    assert own as int + n == t + 0x10 * (0x10 * a);
    Rem16(t, 0x10 * a);
    Rem16(t - 0x100, 0x10);
    assert t % 0x100 == t || t % 0x100 == t - 0x100;
    assert PACKET_SIZE * n == n * PACKET_SIZE;
  }

  lemma {:induction false} Rem16(x: int, k: int)
    ensures (x + 0x10 * k) % 0x10 == x % 0x10
  {
  }
}
