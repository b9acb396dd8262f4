/**
 NFLOG datagrams from the netlink socket: netlink messages, their attributes and the IPv4 header they
 carry (agents/beta/sources.go; IPv4 header as in section 3.1 of RFC 791).
 */
module Nflog {
  import opened Bytes
  import opened Options

  const ULOG: nat := 1
  const PACKET: nat := 0
  const ATTR_PREFIX: nat := 2
  const ATTR_PAYLOAD: nat := 9
  const HEADER: nat := 16

  function Le16(b: seq<Byte>): nat
    requires |b| >= 2
  {
    var low: nat, high: nat := b[0], b[1];
    low + 256 * high
  }

  function Le32(b: seq<Byte>): nat
    requires |b| >= 4
  {
    Le16(b) + 0x1_0000 * Le16(b[2..])
  }

  function Be16(b: seq<Byte>): nat
    requires |b| >= 2
  {
    var high: nat, low: nat := b[0], b[1];
    256 * high + low
  }

  /** The low 16 bits, low byte first; a larger number loses its high bits. */
  function PutLe16(n: nat): (b: seq<Byte>)
    ensures |b| == 2 && Le16(b) == n % 0x1_0000
  {
    LowBytes(n);
    [n % 256, n / 256 % 256]
  }

  lemma LowBytes(n: nat)
    ensures n % 256 + 256 * (n / 256 % 256) == n % 0x1_0000
  {
    var q, r := n / 0x1_0000, n % 0x1_0000;
    assert n == 256 * (256 * q + r / 256) + r % 256;
    assert n / 256 == 256 * q + r / 256;
  }

  function PutLe32(n: nat): (b: seq<Byte>)
    ensures |b| == 4 && (n < 0x1_0000_0000 ==> Le32(b) == n)
  {
    var b := PutLe16(n) + PutLe16(n / 0x1_0000);
    assert b[2..] == PutLe16(n / 0x1_0000);
    b
  }

  /** Rounded up to a multiple of four. */
  function Align4(n: nat): (r: nat)
    ensures n <= r < n + 4 && r % 4 == 0
  {
    (n + 3) / 4 * 4
  }

  function Zeros(n: nat): (s: seq<Byte>)
    ensures |s| == n
  {
    seq(n, _ => 0)
  }

  datatype Attr = Attr(typ: nat, payload: seq<Byte>) {
    predicate Fits() {
      typ < 0x1_0000 && 4 + |payload| < 0x1_0000
    }
  }

  function NlaPut(a: Attr): (s: seq<Byte>)
    ensures |s| == Align4(4 + |a.payload|)
  {
    var l := 4 + |a.payload|;
    PutLe16(l) + PutLe16(a.typ) + a.payload + Zeros(Align4(l) - l)
  }

  // ----- parsing -----

  datatype Packet = Packet(prefix: seq<Byte>, src: Option<seq<Byte>>, dst: seq<Byte>, proto: nat, srcPort: nat,
                           dstPort: nat)

  const NO_PACKET := Packet([], None, [], 0, 0, 0)

  function NulString(b: seq<Byte>): seq<Byte> {
    if b == [] || b[0] == 0 then [] else [b[0]] + NulString(b[1..])
  }

  /** A header that is too short or not IPv4 changes nothing; ports are read for TCP and UDP only. */
  function ParseIPv4Header(b: seq<Byte>, p: Packet): Packet {
    if |b| < 20 || b[0] / 16 != 4 then p
    else
      var ihl := b[0] % 16 * 4;
      if |b| < ihl then p
      else
        var q := p.(proto := b[9], src := Some(b[12..16]), dst := b[16..20]);
        if |b| >= ihl + 4 && b[9] in {6, 17} then q.(srcPort := Be16(b[ihl..]), dstPort := Be16(b[ihl + 2..])) else q
  }

  function Apply(a: Attr, p: Packet): Packet {
    if a.typ == ATTR_PREFIX then p.(prefix := NulString(a.payload))
    else if a.typ == ATTR_PAYLOAD then ParseIPv4Header(a.payload, p)
    else p
  }

  /** The attribute loop; None stands for the panic of slicing past the end of the attributes. */
  function ParseAttrs(attrs: seq<Byte>, p: Packet): Option<Packet> {
    if |attrs| < 4 then Some(p)
    else
      var l := Le16(attrs);
      if l < 4 || l > |attrs| then Some(p)
      else
        var q := Apply(Attr(Le16(attrs[2..]), attrs[4..l]), p);
        if Align4(l) > |attrs| then None else ParseAttrs(attrs[Align4(l)..], q)
  }

  datatype Parsed = Panic | NoPayload | Found(packet: Packet)

  function ParsePacket(payload: seq<Byte>): Parsed {
    if |payload| < 4 then NoPayload
    else match ParseAttrs(payload[4..], NO_PACKET)
      case None => Panic
      case Some(p) => if p.src.None? then NoPayload else Found(p)
  }

  predicate IsPacketMessage(typ: nat) {
    typ / 256 == ULOG && typ % 256 == PACKET
  }

  /** The packets of one message of a datagram. */
  function MessagePackets(typ: nat, payload: seq<Byte>): Option<seq<Packet>> {
    if IsPacketMessage(typ) then
      match ParsePacket(payload)
      case Panic => None
      case NoPayload => Some([])
      case Found(p) => Some([p])
    else Some([])
  }

  function ParseDatagram(data: seq<Byte>): Option<seq<Packet>> {
    if |data| < HEADER then Some([])
    else
      var msgLen := Le32(data);
      if msgLen < HEADER || msgLen > |data| then Some([])
      else
        match MessagePackets(Le16(data[4..]), data[HEADER..msgLen])
        case None => None
        case Some(here) =>
          if Align4(msgLen) >= |data| then Some(here) else Prepend(here, ParseDatagram(data[Align4(msgLen)..]))
  }

  function Prepend(here: seq<Packet>, rest: Option<seq<Packet>>): Option<seq<Packet>> {
    match rest case None => None case Some(packets) => Some(here + packets)
  }

  lemma PrependTwice(a: seq<Packet>, b: seq<Packet>, rest: Option<seq<Packet>>)
    ensures Prepend(a, Prepend(b, rest)) == Prepend(a + b, rest)
    ensures Prepend([], rest) == rest && Prepend(a, Some([])) == Some(a) && Prepend(a, Some(b)) == Some(a + b)
  {
    assert a + [] == a;
    if rest.Some? {
      assert a + (b + rest.value) == a + b + rest.value;
      assert [] + rest.value == rest.value;
    }
  }

  method ParseNFLOGPacket(payload: seq<Byte>) returns (r: Parsed)
    ensures r == ParsePacket(payload)
  {
    var p := NO_PACKET;
    if |payload| < 4 {
      return NoPayload;
    }
    var attrs := payload[4..];
    while |attrs| >= 4
      invariant ParseAttrs(attrs, p) == ParseAttrs(payload[4..], NO_PACKET)
      decreases |attrs|
    {
      var l := Le16(attrs);
      var t := Le16(attrs[2..]);
      if l < 4 || l > |attrs| {
        break;
      }
      p := Apply(Attr(t, attrs[4..l]), p);
      if Align4(l) > |attrs| {
        return Panic;
      }
      attrs := attrs[Align4(l)..];
    }
    return if p.src.None? then NoPayload else Found(p);
  }

  method ParseNFLOGDatagram(datagram: seq<Byte>) returns (r: Option<seq<Packet>>)
    ensures r == ParseDatagram(datagram)
  {
    hide Align4, Le16, Le32, ParsePacket;
    var data, out := datagram, [];
    PrependTwice([], [], ParseDatagram(data));
    while |data| >= HEADER
      invariant ParseDatagram(datagram) == Prepend(out, ParseDatagram(data))
      decreases |data|
    {
      var msgLen := Le32(data);
      if msgLen < HEADER || msgLen > |data| {
        break;
      }
      var msgType := Le16(data[4..]);
      var payload := data[HEADER..msgLen];
      var here := [];
      if msgType / 256 == ULOG && msgType % 256 == PACKET {
        var p := ParseNFLOGPacket(payload);
        if p.Panic? {
          return None;
        }
        if p.Found? {
          here := [p.packet];
        }
      }
      assert MessagePackets(msgType, payload) == Some(here);
      var adv := Align4(msgLen);
      PrependTwice(out, here, if adv >= |data| then None else ParseDatagram(data[adv..]));
      out := out + here;
      if adv >= |data| {
        return Some(out);
      }
      data := data[adv..];
    }
    PrependTwice(out, [], None);
    return Some(out);
  }

  // ----- what is built is what is parsed -----

  function EncodeAttrs(attrs: seq<Attr>): seq<Byte> {
    if attrs == [] then [] else NlaPut(attrs[0]) + EncodeAttrs(attrs[1..])
  }

  /** The attributes applied in order; a later one overrides an earlier one. */
  function Fold(attrs: seq<Attr>, p: Packet): Packet {
    if attrs == [] then p else Fold(attrs[1..], Apply(attrs[0], p))
  }

  ghost predicate AllFit(attrs: seq<Attr>) {
    forall a <- attrs :: a.Fits()
  }

  lemma NlaPutLayout(a: Attr, rest: seq<Byte>)
    requires a.Fits()
    ensures var b, l := NlaPut(a) + rest, 4 + |a.payload|;
            && |b| >= Align4(l) && Le16(b) == l && Le16(b[2..]) == a.typ
            && b[4..l] == a.payload && b[Align4(l)..] == rest
  {
    var b := NlaPut(a) + rest;
    assert b[0] == PutLe16(4 + |a.payload|)[0] && b[1] == PutLe16(4 + |a.payload|)[1];
    assert b[2..][0] == PutLe16(a.typ)[0] && b[2..][1] == PutLe16(a.typ)[1];
  }

  /** One built attribute in front of anything. */
  lemma ParseOneAttr(a: Attr, rest: seq<Byte>, p: Packet)
    requires a.Fits()
    ensures ParseAttrs(NlaPut(a) + rest, p) == ParseAttrs(rest, Apply(a, p))
  {
    hide NlaPut, Apply, Le16, Align4;
    NlaPutLayout(a, rest);
  }

  lemma {:induction false} ParseInvertsEncodeAttrs(attrs: seq<Attr>, rest: seq<Byte>, p: Packet)
    requires AllFit(attrs)
    ensures ParseAttrs(EncodeAttrs(attrs) + rest, p) == ParseAttrs(rest, Fold(attrs, p))
  {
    if attrs == [] {
      assert EncodeAttrs(attrs) + rest == rest;
    } else {
      hide ParseAttrs, NlaPut, Apply;
      assert EncodeAttrs(attrs) + rest == NlaPut(attrs[0]) + (EncodeAttrs(attrs[1..]) + rest);
      ParseOneAttr(attrs[0], EncodeAttrs(attrs[1..]) + rest, p);
      ParseInvertsEncodeAttrs(attrs[1..], rest, Apply(attrs[0], p));
    }
  }

  /** A netlink message: its type, the rest of its header, the nfgenmsg and the attributes. */
  datatype Message = Message(typ: nat, header: seq<Byte>, nfgen: seq<Byte>, attrs: seq<Attr>) {
    ghost predicate Fits() {
      && typ < 0x1_0000 && |header| == 10 && |nfgen| == 4 && AllFit(attrs)
      && HEADER + 4 + |EncodeAttrs(attrs)| < 0x1_0000_0000
    }
  }

  function EncodeMessage(m: Message): seq<Byte> {
    var body := m.nfgen + EncodeAttrs(m.attrs);
    PutLe32(HEADER + |body|) + PutLe16(m.typ) + m.header + body
  }

  function EncodeDatagram(ms: seq<Message>): seq<Byte> {
    if ms == [] then [] else EncodeMessage(ms[0]) + EncodeDatagram(ms[1..])
  }

  /** The packet of a message, if it is a packet message with an IPv4 payload. */
  function Packets(m: Message): seq<Packet> {
    var p := Fold(m.attrs, NO_PACKET);
    if IsPacketMessage(m.typ) && p.src.Some? then [p] else []
  }

  function AllPackets(ms: seq<Message>): seq<Packet> {
    if ms == [] then [] else Packets(ms[0]) + AllPackets(ms[1..])
  }

  lemma AlignedSum(a: nat, b: nat)
    requires a % 4 == 0 && b % 4 == 0
    ensures (a + b) % 4 == 0
  {
  }

  lemma {:induction false} EncodedAttrsAligned(attrs: seq<Attr>)
    ensures |EncodeAttrs(attrs)| % 4 == 0
  {
    if attrs != [] {
      EncodedAttrsAligned(attrs[1..]);
      hide NlaPut;
      AlignedSum(|NlaPut(attrs[0])|, |EncodeAttrs(attrs[1..])|);
    }
  }

  lemma MessageLayout(m: Message, rest: seq<Byte>)
    requires m.Fits()
    ensures var b, size := EncodeMessage(m) + rest, |EncodeMessage(m)|;
            && size >= HEADER && size % 4 == 0 && Le32(b) == size && Le16(b[4..]) == m.typ
            && b[HEADER..size] == m.nfgen + EncodeAttrs(m.attrs) && b[size..] == rest
  {
    hide EncodeAttrs;
    EncodedAttrsAligned(m.attrs);
    var b, size := EncodeMessage(m) + rest, |EncodeMessage(m)|;
    assert b[..4] == PutLe32(size);
    assert b[0] == b[..4][0] && b[1] == b[..4][1] && b[2..][0] == b[..4][2..][0] && b[2..][1] == b[..4][2..][1];
    assert b[4..][0] == PutLe16(m.typ)[0] && b[4..][1] == PutLe16(m.typ)[1];
  }

  lemma MessageIsParsed(m: Message)
    requires m.Fits()
    ensures MessagePackets(m.typ, m.nfgen + EncodeAttrs(m.attrs)) == Some(Packets(m))
  {
    hide Apply, Fold, EncodeAttrs;
    var payload := m.nfgen + EncodeAttrs(m.attrs);
    assert payload[4..] == EncodeAttrs(m.attrs) + [];
    ParseInvertsEncodeAttrs(m.attrs, [], NO_PACKET);
    assert ParseAttrs([], Fold(m.attrs, NO_PACKET)) == Some(Fold(m.attrs, NO_PACKET));
  }

  lemma AlignedIsFixed(n: nat)
    requires n % 4 == 0
    ensures Align4(n) == n
  {
  }

  lemma ParseOneMessage(m: Message, rest: seq<Byte>)
    requires m.Fits()
    ensures ParseDatagram(EncodeMessage(m) + rest) == Prepend(Packets(m), ParseDatagram(rest))
  {
    MessageLayout(m, rest);
    MessageIsParsed(m);
    AlignedIsFixed(|EncodeMessage(m)|);
    PrependTwice(Packets(m), [], None);
    assert |rest| == 0 ==> ParseDatagram(rest) == Some([]);
    hide EncodeMessage, MessagePackets, Packets, Le32, Le16, Align4;
  }

  /** A datagram of built messages gives exactly the packets they carry, in order. */
  lemma {:induction false} ParseInvertsEncode(ms: seq<Message>)
    requires forall m <- ms :: m.Fits()
    ensures ParseDatagram(EncodeDatagram(ms)) == Some(AllPackets(ms))
  {
    if ms != [] {
      ParseInvertsEncode(ms[1..]);
      ParseOneMessage(ms[0], EncodeDatagram(ms[1..]));
    }
  }

  // ----- when the parser panics -----

  /** Following the declared lengths reaches an attribute that fits while its padding does not. */
  predicate EndsUnpadded(attrs: seq<Byte>) {
    |attrs| >= 4
    && var l := Le16(attrs);
       4 <= l <= |attrs| && (Align4(l) > |attrs| || EndsUnpadded(attrs[Align4(l)..]))
  }

  /** The attribute loop panics exactly on such attributes, whatever their types and payloads. */
  lemma {:induction false} PanicsIff(attrs: seq<Byte>, p: Packet)
    ensures ParseAttrs(attrs, p).None? <==> EndsUnpadded(attrs)
    decreases |attrs|
  {
    hide Apply, ParseIPv4Header, NulString;
    if |attrs| >= 4 && 4 <= Le16(attrs) <= |attrs| && Align4(Le16(attrs)) <= |attrs| {
      PanicsIff(attrs[Align4(Le16(attrs))..], Apply(Attr(Le16(attrs[2..]), attrs[4..Le16(attrs)]), p));
    }
  }

  /** On attributes whose length is a multiple of four the slice never leaves them. */
  lemma {:induction false} AlignedAttrsAreSafe(attrs: seq<Byte>, p: Packet)
    requires |attrs| % 4 == 0
    ensures ParseAttrs(attrs, p).Some?
    decreases |attrs|
  {
    if |attrs| >= 4 && 4 <= Le16(attrs) <= |attrs| {
      AlignedAttrsAreSafe(attrs[Align4(Le16(attrs))..], Apply(Attr(Le16(attrs[2..]), attrs[4..Le16(attrs)]), p));
    }
  }

  /** An attribute without its padding, as a sender that does not pad the last one would leave it. */
  function Unpadded(a: Attr): seq<Byte> {
    PutLe16(4 + |a.payload|) + PutLe16(a.typ) + a.payload
  }

  /** After any built attributes, an unpadded last one makes the loop panic exactly when it needed padding. */
  lemma UnpaddedTailPanicsIff(attrs: seq<Attr>, last: Attr, p: Packet)
    requires AllFit(attrs) && last.Fits()
    ensures ParseAttrs(EncodeAttrs(attrs) + Unpadded(last), p).None? <==> |last.payload| % 4 != 0
  {
    hide ParseAttrs, EncodeAttrs, Fold, Apply, Unpadded;
    ParseInvertsEncodeAttrs(attrs, Unpadded(last), p);
    ParseUnpadded(last, Fold(attrs, p));
  }

  lemma AlignedIff(n: nat)
    ensures Align4(n) == n <==> n % 4 == 0
  {
  }

  lemma ParseUnpadded(last: Attr, p: Packet)
    requires last.Fits()
    ensures ParseAttrs(Unpadded(last), p).None? <==> |last.payload| % 4 != 0
  {
    hide Apply;
    var tail := Unpadded(last);
    var l := 4 + |last.payload|;
    assert tail[0] == PutLe16(l)[0] && tail[1] == PutLe16(l)[1] && Le16(tail) == l == |tail|;
    AlignedIff(l);
    hide Align4, Le16;
    if Align4(l) == l {
      assert tail[Align4(l)..] == [];
    }
  }

  /** Following the declared message lengths reaches a complete packet message with such attributes. */
  predicate ReachesUnpadded(data: seq<Byte>) {
    |data| >= HEADER
    && var msgLen := Le32(data);
       HEADER <= msgLen <= |data|
       && ((IsPacketMessage(Le16(data[4..])) && msgLen >= HEADER + 4 && EndsUnpadded(data[HEADER + 4..msgLen]))
           || (Align4(msgLen) < |data| && ReachesUnpadded(data[Align4(msgLen)..])))
  }

  lemma MessagePanicsIff(typ: nat, payload: seq<Byte>)
    ensures MessagePackets(typ, payload) == None
       <==> IsPacketMessage(typ) && |payload| >= 4 && EndsUnpadded(payload[4..])
  {
    hide ParseAttrs, EndsUnpadded;
    if |payload| >= 4 {
      PanicsIff(payload[4..], NO_PACKET);
    }
  }

  /** A datagram makes the reader panic exactly when it reaches such a message. */
  lemma {:induction false} DatagramPanicsIff(data: seq<Byte>)
    ensures ParseDatagram(data) == None <==> ReachesUnpadded(data)
    decreases |data|
  {
    hide MessagePackets, EndsUnpadded, Le32, Le16, Align4, IsPacketMessage;
    if |data| >= HEADER && HEADER <= Le32(data) <= |data| {
      var msgLen := Le32(data);
      var payload := data[HEADER..msgLen];
      MessagePanicsIff(Le16(data[4..]), payload);
      assert msgLen >= HEADER + 4 ==> payload[4..] == data[HEADER + 4..msgLen];
      if Align4(msgLen) < |data| {
        DatagramPanicsIff(data[Align4(msgLen)..]);
      }
    }
  }

  /** One payload byte in an unpadded attribute: the smallest message body that makes the parser panic. */
  lemma FiveByteAttributePanics(p: Packet)
    ensures ParsePacket([0, 0, 0, 0] + [5, 0, 9, 0, 69]) == Panic
  {
    var body := [0, 0, 0, 0] + [5, 0, 9, 0, 69];
    assert body[4..] == [5, 0, 9, 0, 69];
    assert Le16([5, 0, 9, 0, 69]) == 5;
  }

  /** The same body in a whole datagram of 25 bytes. */
  lemma ShortDatagramPanics()
    ensures ParseDatagram([25, 0, 0, 0] + [0, 1] + Zeros(10) + [0, 0, 0, 0] + [5, 0, 9, 0, 69]) == None
  {
    var d := [25, 0, 0, 0] + [0, 1] + Zeros(10) + [0, 0, 0, 0] + [5, 0, 9, 0, 69];
    assert Le32(d) == 25 && Le16(d[4..]) == 256;
    assert d[HEADER + 4..25] == [5, 0, 9, 0, 69] && Le16([5, 0, 9, 0, 69]) == 5;
    assert Align4(5) == 8;
    DatagramPanicsIff(d);
  }

  // ----- the 5-tuple -----

  /** An IPv4 packet by its fields; `a` and `b` are the header bytes that are not looked at. */
  datatype Ipv4 = Ipv4(a: seq<Byte>, proto: Byte, b: seq<Byte>, src: seq<Byte>, dst: seq<Byte>, options: seq<Byte>,
                       body: seq<Byte>)
  {
    predicate Fits() {
      |a| == 8 && |b| == 2 && |src| == 4 && |dst| == 4 && |options| <= 40 && |options| % 4 == 0
    }
  }

  function EncodeIpv4(h: Ipv4): seq<Byte>
    requires h.Fits()
  {
    [64 + 5 + |h.options| / 4] + h.a + [h.proto] + h.b + h.src + h.dst + h.options + h.body
  }

  /** The 5-tuple of a well-formed packet; without four bytes of transport header the ports stay as they were. */
  lemma ParseInvertsEncodeIpv4(h: Ipv4, p: Packet)
    requires h.Fits()
    ensures var q := ParseIPv4Header(EncodeIpv4(h), p);
            && q.src == Some(h.src) && q.dst == h.dst && q.proto == h.proto && q.prefix == p.prefix
            && (if |h.body| >= 4 && h.proto in {6, 17}
                then q.srcPort == Be16(h.body) && q.dstPort == Be16(h.body[2..])
                else q.srcPort == p.srcPort && q.dstPort == p.dstPort)
  {
    var e := EncodeIpv4(h);
    var ihl := 20 + |h.options|;
    assert e[0] % 16 * 4 == ihl && e[0] / 16 == 4;
    assert e[9] == h.proto && e[12..16] == h.src && e[16..20] == h.dst;
    assert e[ihl..] == h.body;
    if |h.body| >= 2 {
      assert e[ihl + 2..] == h.body[2..];
    }
  }

  /** The check a payload must pass to be read as an IPv4 header. */
  predicate Accepted(b: seq<Byte>) {
    |b| >= 20 && b[0] / 16 == 4 && |b| >= b[0] % 16 * 4
  }

  predicate AcceptedPayload(a: Attr) {
    a.typ == ATTR_PAYLOAD && Accepted(a.payload)
  }

  ghost predicate NoneAccepted(attrs: seq<Attr>) {
    forall a <- attrs :: !AcceptedPayload(a)
  }

  /** The packet's transport header is there and has ports. */
  predicate HasPorts(h: Ipv4) {
    |h.body| >= 4 && h.proto in {6, 17}
  }

  /** The packet reports this header's addresses and protocol. */
  predicate ReportsHeader(p: Packet, h: Ipv4) {
    p.src == Some(h.src) && p.dst == h.dst && p.proto == h.proto
  }

  /** And its transport ports, or none. */
  predicate Reports(p: Packet, h: Ipv4) {
    && ReportsHeader(p, h)
    && (if HasPorts(h) then p.srcPort == PortAt(h.body, 0) && p.dstPort == PortAt(h.body, 2)
        else p.srcPort == p.dstPort == 0)
  }

  /** Two bytes in network order. */
  function PortAt(b: seq<Byte>, i: nat): nat
    requires i + 2 <= |b|
  {
    var high: nat, low: nat := b[i], b[i + 1];
    256 * high + low
  }

  lemma EncodedIsAccepted(h: Ipv4)
    requires h.Fits()
    ensures Accepted(EncodeIpv4(h))
  {
  }

  /** Attributes that are not accepted payloads leave the 5-tuple alone. */
  lemma {:induction false} OthersKeepTuple(attrs: seq<Attr>, p: Packet)
    requires NoneAccepted(attrs)
    ensures Fold(attrs, p).(prefix := p.prefix) == p
  {
    if attrs != [] {
      assert attrs[0] in attrs && forall a <- attrs[1..] :: a in attrs;
      OthersKeepTuple(attrs[1..], Apply(attrs[0], p));
    }
  }

  lemma {:induction false} FoldSplits(attrs: seq<Attr>, k: nat, p: Packet)
    requires k <= |attrs|
    ensures Fold(attrs, p) == Fold(attrs[k..], Fold(attrs[..k], p))
  {
    hide Apply;
    if k == 0 {
      assert attrs[0..] == attrs && attrs[..0] == [];
    } else {
      FoldSplits(attrs[1..], k - 1, Apply(attrs[0], p));
      assert attrs[1..][k - 1..] == attrs[k..] && attrs[..k][1..] == attrs[1..][..k - 1];
    }
  }

  /** The k-th attribute is the last accepted payload, and holds this packet. */
  ghost predicate LastPayload(attrs: seq<Attr>, k: nat, h: Ipv4)
    requires h.Fits()
  {
    k < |attrs| && attrs[k] == Attr(ATTR_PAYLOAD, EncodeIpv4(h)) && NoneAccepted(attrs[k + 1..])
  }

  /** What the last accepted payload determines: always the header, and the ports if it has any. */
  lemma FoldOfLast(attrs: seq<Attr>, k: nat, h: Ipv4, p: Packet)
    requires h.Fits() && LastPayload(attrs, k, h)
    ensures var q, before := Fold(attrs, p), Fold(attrs[..k], p);
            && ReportsHeader(q, h)
            && (if HasPorts(h) then q.srcPort == Be16(h.body) && q.dstPort == Be16(h.body[2..])
                else q.srcPort == before.srcPort && q.dstPort == before.dstPort)
  {
    hide EncodeIpv4, ParseIPv4Header, NoneAccepted;
    FoldSplits(attrs, k, p);
    var before := Fold(attrs[..k], p);
    assert attrs[k..][1..] == attrs[k + 1..];
    ParseInvertsEncodeIpv4(h, before);
    OthersKeepTuple(attrs[k + 1..], Apply(attrs[k], before));
  }

  /**
   Whatever attributes a message has, its packet has the addresses and the protocol of the last accepted
   payload; the 5-tuple is right exactly when that payload has ports or no earlier one left any.
   */
  lemma FoldReportsIff(attrs: seq<Attr>, k: nat, h: Ipv4)
    requires h.Fits() && LastPayload(attrs, k, h)
    ensures var q, before := Fold(attrs, NO_PACKET), Fold(attrs[..k], NO_PACKET);
            && ReportsHeader(q, h)
            && (Reports(q, h) <==> HasPorts(h) || before.srcPort == before.dstPort == 0)
  {
    hide Fold;
    FoldOfLast(attrs, k, h, NO_PACKET);
  }

  /** A TCP packet and an ICMP packet in one message: the report is of the second, with the ports of the first. */
  lemma SecondPayloadKeepsPorts(tcp: Ipv4, icmp: Ipv4)
    requires tcp.Fits() && tcp.proto == 6 && |tcp.body| >= 4 && icmp.Fits() && icmp.proto == 1
    ensures var q := Fold([Attr(ATTR_PAYLOAD, EncodeIpv4(tcp)), Attr(ATTR_PAYLOAD, EncodeIpv4(icmp))], NO_PACKET);
            ReportsHeader(q, icmp) && q.srcPort == Be16(tcp.body) && q.dstPort == Be16(tcp.body[2..])
  {
    hide EncodeIpv4, Fold;
    var first, second := Attr(ATTR_PAYLOAD, EncodeIpv4(tcp)), Attr(ATTR_PAYLOAD, EncodeIpv4(icmp));
    var attrs := [first, second];
    assert attrs[..1] == [first] && attrs[2..] == [] && [first][1..] == [] && [first][..0] == [];
    FoldOfLast([first], 0, tcp, NO_PACKET);
    FoldOfLast(attrs, 1, icmp, NO_PACKET);
  }

  /** A message is reported iff it is a packet message with an accepted payload. */
  lemma PacketsIff(m: Message)
    ensures |Packets(m)| <= 1
    ensures Packets(m) != [] <==> IsPacketMessage(m.typ) && !NoneAccepted(m.attrs)
    ensures Packets(m) != [] <==> m.typ == 256 && exists a <- m.attrs :: a.typ == 9 && Accepted(a.payload)
  {
    if NoneAccepted(m.attrs) {
      OthersKeepTuple(m.attrs, NO_PACKET);
    } else {
      AcceptedSetsSource(m.attrs, NO_PACKET);
    }
  }

  lemma {:induction false} AcceptedSetsSource(attrs: seq<Attr>, p: Packet)
    requires !NoneAccepted(attrs) || p.src.Some?
    ensures Fold(attrs, p).src.Some?
  {
    if attrs != [] {
      if !NoneAccepted(attrs) && !AcceptedPayload(attrs[0]) {
        var a :| a in attrs && AcceptedPayload(a);
        assert a in attrs[1..];
      }
      AcceptedSetsSource(attrs[1..], Apply(attrs[0], p));
    }
  }

  /** The message reports this packet: it is the last accepted payload, with ports of its own or the only one. */
  ghost predicate Carries(m: Message, h: Ipv4) {
    && IsPacketMessage(m.typ) && h.Fits()
    && exists k: nat :: LastPayload(m.attrs, k, h) && (HasPorts(h) || NoneAccepted(m.attrs[..k]))
  }

  lemma MessageReports(m: Message, h: Ipv4)
    requires Carries(m, h)
    ensures |Packets(m)| == 1 && Reports(Packets(m)[0], h) && !NoneAccepted(m.attrs)
  {
    hide Fold, EncodeIpv4, NoneAccepted;
    var k: nat :| LastPayload(m.attrs, k, h) && (HasPorts(h) || NoneAccepted(m.attrs[..k]));
    FoldReportsIff(m.attrs, k, h);
    if NoneAccepted(m.attrs[..k]) {
      OthersKeepTuple(m.attrs[..k], NO_PACKET);
    }
    PayloadIsAccepted(m.attrs, k, h);
  }

  lemma PayloadIsAccepted(attrs: seq<Attr>, k: nat, h: Ipv4)
    requires h.Fits() && LastPayload(attrs, k, h)
    ensures !NoneAccepted(attrs)
  {
    EncodedIsAccepted(h);
    hide EncodeIpv4;
    assert attrs[k] in attrs;
  }

  /** The number of messages that are reported. */
  ghost function Reported(ms: seq<Message>): nat {
    if ms == [] then 0
    else (if IsPacketMessage(ms[0].typ) && !NoneAccepted(ms[0].attrs) then 1 else 0) + Reported(ms[1..])
  }

  lemma {:induction false} PacketOfMessage(ms: seq<Message>, i: nat, h: Ipv4)
    requires i < |ms| && Carries(ms[i], h)
    ensures Reported(ms[..i]) < |AllPackets(ms)| && Reports(AllPackets(ms)[Reported(ms[..i])], h)
  {
    hide Packets, Carries, Reports, NoneAccepted, IsPacketMessage;
    PacketsIff(ms[0]);
    if i == 0 {
      MessageReports(ms[0], h);
    } else {
      PacketOfMessage(ms[1..], i - 1, h);
      assert ms[..i][1..] == ms[1..][..i - 1];
    }
  }

  lemma {:induction false} CountPackets(ms: seq<Message>)
    ensures |AllPackets(ms)| == Reported(ms)
  {
    hide Packets, NoneAccepted, IsPacketMessage;
    if ms != [] {
      PacketsIff(ms[0]);
      CountPackets(ms[1..]);
    }
  }

  /**
   From the wire to the 5-tuples: a datagram of any built messages yields one report for each packet
   message with an accepted payload, in order, and the report of a message that carries an IPv4 packet has
   its addresses, protocol and ports, whatever the other messages and attributes are.
   */
  lemma DatagramReportsItsPackets(ms: seq<Message>)
    requires forall m <- ms :: m.Fits()
    ensures var r := ParseDatagram(EncodeDatagram(ms));
            && r.Some? && |r.value| == Reported(ms)
            && forall i, h :: 0 <= i < |ms| && Carries(ms[i], h) ==>
                Reported(ms[..i]) < |r.value| && Reports(r.value[Reported(ms[..i])], h)
  {
    hide ParseDatagram, EncodeDatagram, Carries, Reports, Reported, AllPackets;
    ParseInvertsEncode(ms);
    CountPackets(ms);
    forall i, h | 0 <= i < |ms| && Carries(ms[i], h)
      ensures Reported(ms[..i]) < |AllPackets(ms)| && Reports(AllPackets(ms)[Reported(ms[..i])], h)
    {
      PacketOfMessage(ms, i, h);
    }
  }

  /** An accepted header is that of an IPv4 packet exactly when its length field is at least five words. */
  lemma AcceptedIsIpv4Iff(b: seq<Byte>)
    requires Accepted(b)
    ensures (exists h: Ipv4 :: h.Fits() && EncodeIpv4(h) == b) <==> b[0] % 16 >= 5
  {
    hide EncodeIpv4;
    if b[0] % 16 >= 5 {
      var h := Ipv4OfBytes(b);
    }
    if h: Ipv4 :| h.Fits() && EncodeIpv4(h) == b {
      LengthFieldOf(h);
    }
  }

  lemma Ipv4OfBytes(b: seq<Byte>) returns (h: Ipv4)
    requires |b| >= 20 && b[0] / 16 == 4 && b[0] % 16 >= 5 && |b| >= b[0] % 16 * 4
    ensures h.Fits() && EncodeIpv4(h) == b
  {
    var ihl := b[0] % 16 * 4;
    h := Ipv4(b[1..9], b[9], b[10..12], b[12..16], b[16..20], b[20..ihl], b[ihl..]);
    assert 64 + 5 + |h.options| / 4 == b[0];
    assert [b[0]] + b[1..9] + [b[9]] + b[10..12] == b[..12];
    assert b[..12] + b[12..16] + b[16..20] == b[..20];
    assert b[..20] + b[20..ihl] + b[ihl..] == b;
  }

  lemma LengthFieldOf(h: Ipv4)
    requires h.Fits()
    ensures EncodeIpv4(h)[0] % 16 >= 5
  {
  }

  /** With a smaller length field the ports reported are bytes of the header itself: here its first four. */
  lemma ShortHeaderPorts(b: seq<Byte>, p: Packet)
    requires |b| >= 20 && b[0] == 64 && b[9] == 6
    ensures ParseIPv4Header(b, p).srcPort == Be16(b) && ParseIPv4Header(b, p).dstPort == Be16(b[2..4])
  {
    assert b[0..] == b;
  }

  // ----- the prefix -----

  /** Text ends at the first zero byte, if there is one. */
  lemma {:induction false} NulStringOf(text: seq<Byte>, rest: seq<Byte>)
    requires 0 !in text
    ensures NulString(text) == text && NulString(text + [0] + rest) == text
  {
    if text != [] {
      NulStringOf(text[1..], rest);
      assert (text + [0] + rest)[1..] == text[1..] + [0] + rest;
    }
  }

  lemma {:induction false} OthersKeepPrefix(attrs: seq<Attr>, p: Packet)
    requires forall a <- attrs :: a.typ != ATTR_PREFIX
    ensures Fold(attrs, p).prefix == p.prefix
  {
    hide NulString;
    if attrs != [] {
      assert attrs[0] in attrs && forall a <- attrs[1..] :: a in attrs;
      OthersKeepPrefix(attrs[1..], Apply(attrs[0], p));
    }
  }

  /** The report carries the text of the last prefix attribute, whatever other attributes the message has. */
  lemma LastPrefixIsReported(attrs: seq<Attr>, k: nat, text: seq<Byte>, rest: seq<Byte>)
    requires k < |attrs| && attrs[k].typ == 2 && 0 !in text
    requires attrs[k].payload == text || attrs[k].payload == text + [0] + rest
    requires forall a <- attrs[k + 1..] :: a.typ != 2
    ensures Fold(attrs, NO_PACKET).prefix == text
  {
    NulStringOf(text, rest);
    hide NulString;
    FoldSplits(attrs, k, NO_PACKET);
    var before := Fold(attrs[..k], NO_PACKET);
    assert attrs[k..][1..] == attrs[k + 1..];
    OthersKeepPrefix(attrs[k + 1..], Apply(attrs[k], before));
  }
}
