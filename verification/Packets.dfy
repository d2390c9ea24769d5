/** The classic packet path: segmentation and framing in nabud/adaptor.c, the byte layouts of
    libnabud/nabu_proto.h, and the unstuffing loop of nabuclient/nabuclient.c. */
module Packets {
  import opened Bytes
  import Crc = Crc16Genibus
  import Gf2

  const MAX_SEGMENT_SIZE := 65536
  const MAX_PACKET_SIZE := 1024
  const MAX_PAYLOAD_SIZE := 991
  const HEADER_SIZE := 16
  const FOOTER_SIZE := 2

  const ESCAPE: byte := 0x10
  const DONE: byte := 0xe1
  const FINISHED: bytes := [ESCAPE, DONE]

  // ----- Byte stuffing -----

  function Stuffed(c: byte): bytes { if c == ESCAPE then [ESCAPE, ESCAPE] else [c] }

  function Escape(p: bytes): (w: bytes)
    ensures |p| <= |w| <= 2 * |p|
  {
    if p == [] then [] else Stuffed(p[0]) + Escape(p[1..])
  }

  lemma {:induction false} EscapeConcat(a: bytes, b: bytes)
    ensures Escape(a + b) == Escape(a) + Escape(b)
  {
    if a == [] {
      assert a + b == b;
    } else {
      EscapeConcat(a[1..], b);
      assert (a + b)[1..] == a[1..] + b;
      ConcatAssociative(Stuffed(a[0]), Escape(a[1..]), Escape(b));
    }
  }

  lemma EscapeSnoc(buf: bytes, i: nat)
    requires i < |buf|
    ensures Escape(buf[..i + 1]) == Escape(buf[..i]) + Stuffed(buf[i])
  {
    assert buf[..i + 1] == buf[..i] + [buf[i]];
    EscapeConcat(buf[..i], [buf[i]]);
    assert Escape([buf[i]]) == Stuffed(buf[i]) + Escape([]) == Stuffed(buf[i]);
  }

  datatype Received = Disconnected | Packet(pkt: bytes, rest: bytes)

  /** What the client's loop leaves when `pkt` is already unstuffed and `stream` still to come. */
  function Unstuff(stream: bytes, pkt: bytes, haveEscape: bool): (r: Received)
    decreases |stream|
  {
    if |pkt| >= MAX_PACKET_SIZE then Packet(pkt, stream)
    else if stream == [] then Disconnected
    else
      var c, rest := stream[0], stream[1..];
      if haveEscape then
        if c == ESCAPE then Unstuff(rest, pkt + [ESCAPE], false)
        else if c == DONE then Packet(pkt, rest)
        else Unstuff(rest, pkt, false)
      else if c == ESCAPE then Unstuff(rest, pkt, true)
      else Unstuff(rest, pkt + [c], false)
  }

  /** nabu_recv_packet_data's loop; running out of input is the server hanging up. */
  method ReceivePacket(stream: bytes) returns (r: Received)
    ensures r == Unstuff(stream, [], false)
  {
    var pkt: bytes, pos, haveEscape := [], 0, false;
    assert stream[0..] == stream;
    while |pkt| < MAX_PACKET_SIZE
      invariant 0 <= pos <= |stream|
      invariant Unstuff(stream[pos..], pkt, haveEscape) == Unstuff(stream, [], false)
      decreases |stream| - pos
    {
      if pos == |stream| {
        return Disconnected;
      }
      var c := stream[pos];
      assert stream[pos..][0] == c && stream[pos..][1..] == stream[pos + 1..];
      pos := pos + 1;
      if haveEscape {
        haveEscape := false;
        if c == ESCAPE {
          pkt := pkt + [ESCAPE];
        } else if c == DONE {
          return Packet(pkt, stream[pos..]);
        }
      } else if c == ESCAPE {
        haveEscape := true;
      } else {
        pkt := pkt + [c];
      }
    }
    return Packet(pkt, stream[pos..]);
  }

  lemma UnstuffOne(c: byte, stream: bytes, acc: bytes)
    requires |acc| < MAX_PACKET_SIZE
    ensures Unstuff(Stuffed(c) + stream, acc, false) == Unstuff(stream, acc + [c], false)
  {
    assert ([c] + stream)[1..] == stream;
    assert ([ESCAPE, ESCAPE] + stream)[1..] == [ESCAPE] + stream;
    assert ([ESCAPE] + stream)[1..] == stream;
  }

  lemma {:induction false} UnstuffEscaped(p: bytes, acc: bytes, stream: bytes)
    requires |acc| + |p| <= MAX_PACKET_SIZE
    ensures Unstuff(Escape(p) + stream, acc, false) == Unstuff(stream, acc + p, false)
    decreases |p|
  {
    if p == [] {
      assert Escape(p) + stream == stream && acc + p == acc;
    } else {
      assert Escape(p) + stream == Stuffed(p[0]) + (Escape(p[1..]) + stream);
      UnstuffOne(p[0], Escape(p[1..]) + stream, acc);
      UnstuffEscaped(p[1..], acc + [p[0]], stream);
      assert acc + [p[0]] + p[1..] == acc + p;
    }
  }

  function Wire(p: bytes): bytes { Escape(p) + FINISHED }

  /** Unstuffing inverts stuffing.  The terminator is consumed exactly when the packet is
      shorter than the client's buffer: at 1024 bytes the loop stops before reading it. */
  lemma UnstuffWire(p: bytes, rest: bytes)
    requires |p| <= MAX_PACKET_SIZE
    ensures Unstuff(Wire(p) + rest, [], false)
         == Packet(p, if |p| < MAX_PACKET_SIZE then rest else FINISHED + rest)
  {
    assert Wire(p) + rest == Escape(p) + (FINISHED + rest);
    UnstuffEscaped(p, [], FINISHED + rest);
    assert [] + p == p;
    assert (FINISHED + rest)[1..] == [DONE] + rest && ([DONE] + rest)[1..] == rest;
  }

  // ----- Any stream at all -----

  /** What a stream is made of, up to the terminator: bytes, doubled escapes, and escapes of bytes
      that mean nothing. */
  datatype Token = Plain(c: byte) | Doubled | Unknown(c: byte)

  predicate TokenOk(t: Token) {
    match t
    case Plain(c) => c != ESCAPE
    case Doubled => true
    case Unknown(c) => c != ESCAPE && c != DONE
  }

  predicate TokensOk(ts: seq<Token>) { forall t :: t in ts ==> TokenOk(t) }

  function Spelling(t: Token): bytes {
    match t
    case Plain(c) => [c]
    case Doubled => [ESCAPE, ESCAPE]
    case Unknown(c) => [ESCAPE, c]
  }

  function Content(t: Token): bytes {
    match t
    case Plain(c) => [c]
    case Doubled => [ESCAPE]
    case Unknown(_) => []
  }

  function Spell(ts: seq<Token>): bytes {
    if ts == [] then [] else Spelling(ts[0]) + Spell(ts[1..])
  }

  function Contents(ts: seq<Token>): bytes {
    if ts == [] then [] else Content(ts[0]) + Contents(ts[1..])
  }

  /** Every stream is such tokens, and then ends, perhaps after an escape, or has a terminator. */
  predicate EndOk(end: bytes) { end == [] || end == [ESCAPE] || (|end| >= 2 && end[..2] == FINISHED) }

  lemma {:induction false} Tokenize(stream: bytes) returns (ts: seq<Token>, end: bytes)
    ensures TokensOk(ts) && stream == Spell(ts) + end && EndOk(end)
    decreases |stream|
  {
    if EndOk(stream) {
      ts, end := [], stream;
      assert [] + stream == stream;
    } else {
      var c := stream[0];
      var t := if c != ESCAPE then Plain(c) else if stream[1] == ESCAPE then Doubled else Unknown(stream[1]);
      assert c == ESCAPE ==> stream[..2] == [ESCAPE, stream[1]];
      var n := |Spelling(t)|;
      assert stream[..n] == Spelling(t);
      var more;
      more, end := Tokenize(stream[n..]);
      ts := [t] + more;
      assert ts[1..] == more;
      assert stream == Spelling(t) + stream[n..];
      ConcatAssociative(Spelling(t), Spell(more), end);
    }
  }

  lemma UnstuffToken(t: Token, stream: bytes, acc: bytes)
    requires TokenOk(t) && |acc| < MAX_PACKET_SIZE
    ensures Unstuff(Spelling(t) + stream, acc, false) == Unstuff(stream, acc + Content(t), false)
  {
    var s := Spelling(t) + stream;
    if t.Plain? {
      assert s[1..] == stream;
    } else {
      assert s[1..] == [s[1]] + stream && s[1..][1..] == stream;
    }
    assert acc + [] == acc;
  }

  lemma {:induction false} UnstuffTokens(ts: seq<Token>, stream: bytes, acc: bytes)
    requires TokensOk(ts) && |acc| + |Contents(ts)| < MAX_PACKET_SIZE
    ensures Unstuff(Spell(ts) + stream, acc, false) == Unstuff(stream, acc + Contents(ts), false)
    decreases |ts|
  {
    if ts == [] {
      assert Spell(ts) + stream == stream && acc + Contents(ts) == acc;
    } else {
      ConcatAssociative(Spelling(ts[0]), Spell(ts[1..]), stream);
      UnstuffToken(ts[0], Spell(ts[1..]) + stream, acc);
      UnstuffTokens(ts[1..], stream, acc + Content(ts[0]));
      ConcatAssociative(acc, Content(ts[0]), Contents(ts[1..]));
    }
  }

  lemma {:induction false} UnstuffLong(ts: seq<Token>, stream: bytes, acc: bytes)
    requires TokensOk(ts) && |acc| <= MAX_PACKET_SIZE <= |acc| + |Contents(ts)|
    ensures var r := Unstuff(Spell(ts) + stream, acc, false);
      r.Packet? && r.pkt == (acc + Contents(ts))[..MAX_PACKET_SIZE]
    decreases |ts|
  {
    if |acc| < MAX_PACKET_SIZE {
      ConcatAssociative(Spelling(ts[0]), Spell(ts[1..]), stream);
      UnstuffToken(ts[0], Spell(ts[1..]) + stream, acc);
      UnstuffLong(ts[1..], stream, acc + Content(ts[0]));
      ConcatAssociative(acc, Content(ts[0]), Contents(ts[1..]));
    } else {
      assert (acc + Contents(ts))[..MAX_PACKET_SIZE] == acc;
    }
  }

  /** The client's loop on every stream: the content up to the terminator and exactly what follows
      it, or nothing if the stream ends before, or the first 1024 bytes if that many come. */
  lemma UnstuffExactly(stream: bytes) returns (ts: seq<Token>, end: bytes)
    ensures TokensOk(ts) && stream == Spell(ts) + end && EndOk(end)
    ensures var r := Unstuff(stream, [], false);
      if |Contents(ts)| >= MAX_PACKET_SIZE then r.Packet? && r.pkt == Contents(ts)[..MAX_PACKET_SIZE]
      else if |end| < 2 then r == Disconnected
      else r == Packet(Contents(ts), end[2..])
  {
    ts, end := Tokenize(stream);
    assert [] + Contents(ts) == Contents(ts);
    if |Contents(ts)| >= MAX_PACKET_SIZE {
      UnstuffLong(ts, end, []);
    } else {
      UnstuffTokens(ts, end, []);
      if end != [] {
        assert end[0] == ESCAPE && end[1..] == if |end| < 2 then [] else [DONE] + end[2..];
        assert |end| >= 2 ==> end[1..][1..] == end[2..];
      }
    }
  }

  function Wires(ps: seq<bytes>): bytes {
    if ps == [] then [] else Wire(ps[0]) + Wires(ps[1..])
  }

  /** Receiving `n` packets in a row. */
  function ReceiveMany(stream: bytes, n: nat): (r: (seq<bytes>, bytes))
    decreases n
  {
    if n == 0 then ([], stream)
    else match Unstuff(stream, [], false)
      case Disconnected => ([], stream)
      case Packet(pkt, rest) =>
        var (ps, end) := ReceiveMany(rest, n - 1);
        ([pkt] + ps, end)
  }

  /** A stream of packets decodes to the same packets, stopping exactly at its end. */
  lemma {:induction false} StreamDecodes(ps: seq<bytes>, rest: bytes)
    requires forall p :: p in ps ==> |p| < MAX_PACKET_SIZE
    ensures ReceiveMany(Wires(ps) + rest, |ps|) == (ps, rest)
  {
    if ps == [] {
      assert Wires(ps) + rest == rest;
    } else {
      ConcatAssociative(Wire(ps[0]), Wires(ps[1..]), rest);
      UnstuffWire(ps[0], Wires(ps[1..]) + rest);
      StreamDecodes(ps[1..], rest);
      assert ps == [ps[0]] + ps[1..];
    }
  }

  /** The connection's transmit buffer: twice a packet, in case every byte is escaped. */
  class TransmitBuffer {
    const pktbuf: array<byte>
    var pktlen: nat

    ghost predicate Valid()
      reads this, pktbuf
    {
      pktbuf.Length == 2 * MAX_PACKET_SIZE && pktlen <= pktbuf.Length
    }

    ghost function Contents(): bytes
      requires Valid()
      reads this, pktbuf
    {
      pktbuf[..pktlen]
    }

    constructor ()
      ensures Valid() && fresh(pktbuf)
    {
      pktbuf := new byte[2 * MAX_PACKET_SIZE];
      pktlen := 0;
    }

    method Append(c: byte)
      requires Valid() && pktlen < pktbuf.Length
      modifies this, pktbuf
      ensures Valid() && pktlen == old(pktlen) + 1
      ensures Contents() == old(Contents()) + [c]
    {
      pktbuf[pktlen] := c;
      pktlen := pktlen + 1;
    }

    /** adaptor_escape_packet; the bound on `buf` is the assertion in adaptor_send_packet. */
    method EscapePacket(buf: bytes)
      requires Valid() && |buf| <= MAX_PACKET_SIZE
      modifies this, pktbuf
      ensures Valid() && Contents() == Escape(buf)
    {
      pktlen := 0;
      assert buf[..0] == [];
      for i := 0 to |buf|
        invariant Valid() && pktlen <= 2 * i
        invariant Contents() == Escape(buf[..i])
      {
        EscapeSnoc(buf, i);
        if buf[i] == ESCAPE {
          Append(ESCAPE);
          Append(ESCAPE);
        } else {
          Append(buf[i]);
        }
      }
      assert buf[..|buf|] == buf;
    }

    /** adaptor_send_packet: what goes out once the NABU has answered AUTHORIZED with `acked`. */
    method SendPacket(buf: bytes, acked: bool) returns (sent: bytes)
      requires Valid() && |buf| <= MAX_PACKET_SIZE
      modifies this, pktbuf
      ensures Valid()
      ensures sent == if acked then Wire(buf) else []
    {
      EscapePacket(buf);
      if acked {
        sent := pktbuf[..pktlen] + FINISHED;
      } else {
        sent := [];
      }
    }
  }

  // ----- Packets -----

  /** nabu_init_pkthdr; `offset` is the 16-bit argument. */
  function Header(image: nat, segment: nat, offset: nat, last: bool): (h: bytes)
    requires image <= UINT32_MAX && segment <= UINT16_MAX && offset <= UINT16_MAX
    ensures |h| == HEADER_SIZE
  {
    SetU24Be(image) + [segment % 256, 0x01] + SetU32Be(0x7fff_ffff) + [0x7f, 0x80]
    + [(if segment == 0 then 0xa1 else 0x20) + (if last then 0x10 else 0x00)]
    + SetU16(segment) + SetU16Be(offset)
  }

  function HeaderSegment(h: bytes): nat
    requires |h| == HEADER_SIZE
  {
    GetU16(h[12..14])
  }

  function HeaderOffset(h: bytes): nat
    requires |h| == HEADER_SIZE
  {
    GetU16Be(h[14..16])
  }

  /** Bit 4 of the type byte. */
  predicate HeaderLast(h: bytes)
    requires |h| == HEADER_SIZE
  {
    h[11] / 16 % 2 == 1
  }

  lemma HeaderFields(image: nat, segment: nat, offset: nat, last: bool)
    requires image <= UINT32_MAX && segment <= UINT16_MAX && offset <= UINT16_MAX
    ensures var h := Header(image, segment, offset, last);
      HeaderSegment(h) == segment && HeaderOffset(h) == offset && HeaderLast(h) == last
  {
    var h := Header(image, segment, offset, last);
    assert h[12..14] == SetU16(segment) && h[14..16] == SetU16Be(offset);
    U16Inverse(segment, [0, 0]);
    U16Inverse(offset, [0, 0]);
  }

  /** The layout: the lower 24 bits of the image number, the segment, first by its lower byte
      alone, the offset, and a type that also marks segment 0. */
  lemma HeaderLayout(image: nat, segment: nat, offset: nat, last: bool, h: bytes)
    requires image <= UINT32_MAX && segment <= UINT16_MAX && offset <= UINT16_MAX
    requires h == Header(image, segment, offset, last)
    ensures Big(h[..3]) == image % 0x100_0000 && h[3] == segment % 0x100
    ensures Little(h[12..14]) == segment && Big(h[14..16]) == offset
    ensures h[4..11] == [0x01, 0x7f, 0xff, 0xff, 0xff, 0x7f, 0x80]
    ensures h[11] in [0x20, 0x30, 0xa1, 0xb1] && (h[11] >= 0x80 <==> segment == 0) && (h[11] in [0x30, 0xb1] <==> last)
  {
    WordsDenote(image);
    WordsDenote(segment);
    WordsDenote(offset);
    assert h[..3] == SetU24Be(image) && h[12..14] == SetU16(segment) && h[14..16] == SetU16Be(offset);
    assert SetU32Be(0x7fff_ffff) == [0x7f, 0xff, 0xff, 0xff];
    assert h[5..9] == SetU32Be(0x7fff_ffff);
  }

  function Sealed(body: bytes): bytes { body + Crc.CrcBytes(Crc.Crc(body)) }

  /** Behind header and payload go two bytes: the inverted remainder of both. */
  lemma SealedLayout(body: bytes)
    ensures var p := Sealed(body);
      && |p| == |body| + 2 && p[..|body|] == body
      && Gf2.MessageBits(p[|body|..]) == Gf2.Xor(Gf2.Remainder(Crc.G, body, Gf2.Trues(16)), Gf2.Trues(16))
  {
    Crc.CrcIsRemainder(body);
    assert Sealed(body)[|body|..] == Crc.CrcBytes(Crc.Crc(body));
  }

  datatype Reply = Unauthorized | Send(packet: bytes, last: bool)

  /** The packet for one segment of a flat image: size_t offsets, a 16-bit header field. */
  function SegmentReply(image: nat, segment: nat, data: bytes): Reply
    requires image <= UINT32_MAX && segment <= UINT16_MAX
  {
    var off := segment * MAX_PAYLOAD_SIZE;
    if off >= |data| then Unauthorized
    else
      var last := off + MAX_PAYLOAD_SIZE >= |data|;
      var len := if last then |data| - off else MAX_PAYLOAD_SIZE;
      Send(Sealed(Header(image, segment, off % 65536, last) + data[off..off + len]), last)
  }

  /** Fills a freshly allocated packet buffer: header, payload, CRC. */
  method FillPacket(hdr: bytes, payload: bytes) returns (pkt: bytes)
    requires |hdr| == HEADER_SIZE
    ensures pkt == Sealed(hdr + payload)
  {
    var pktbuf := new byte[|payload| + HEADER_SIZE + FOOTER_SIZE];
    forall k | 0 <= k < HEADER_SIZE {
      pktbuf[k] := hdr[k];
    }
    forall k | 0 <= k < |payload| {
      pktbuf[HEADER_SIZE + k] := payload[k];
    }
    var i := HEADER_SIZE + |payload|;
    assert pktbuf[..i] == hdr + payload;
    var crc := Crc.Update(pktbuf[..i], Crc.INIT);
    var tail := Crc.CrcBytes(Crc.Fini(crc));
    pktbuf[i], pktbuf[i + 1] := tail[0], tail[1];
    assert pktbuf[..i] == hdr + payload && pktbuf[i..] == tail;
    pkt := pktbuf[..];
    assert pkt == pktbuf[..i] + pktbuf[i..];
  }

  /** adaptor_send_image for a flat (non-PAK) image. */
  method BuildSegment(image: nat, segment: nat, data: bytes) returns (r: Reply)
    requires image <= UINT32_MAX && segment <= UINT16_MAX
    ensures r == SegmentReply(image, segment, data)
  {
    var off, len, last := segment * MAX_PAYLOAD_SIZE, MAX_PAYLOAD_SIZE, false;
    if off >= |data| {
      return Unauthorized;
    }
    if off + len >= |data| {
      len := |data| - off;
      last := true;
    }
    var hdr := Header(image, segment, off % 65536, last);
    var pkt := FillPacket(hdr, data[off..off + len]);
    r := Send(pkt, last);
  }

  // ----- What the client makes of a packet -----

  /** The client seeds the CRC with the header, then continues over the payload. */
  predicate CrcOk(pkt: bytes)
    requires |pkt| >= HEADER_SIZE + FOOTER_SIZE
  {
    var n := |pkt| - FOOTER_SIZE;
    Crc.GetCrc(pkt[n..]) == Crc.Fini(Crc.Updated(pkt[HEADER_SIZE..n], Crc.Updated(pkt[..HEADER_SIZE], Crc.INIT)))
  }

  function PayloadOf(pkt: bytes): bytes
    requires |pkt| >= HEADER_SIZE + FOOTER_SIZE
  {
    pkt[HEADER_SIZE..|pkt| - FOOTER_SIZE]
  }

  lemma SealedChecks(h: bytes, payload: bytes)
    requires |h| == HEADER_SIZE
    ensures var p := Sealed(h + payload); CrcOk(p) && PayloadOf(p) == payload && p[..HEADER_SIZE] == h
  {
    var p := Sealed(h + payload);
    var n := |p| - FOOTER_SIZE;
    assert p[..HEADER_SIZE] == h && p[HEADER_SIZE..n] == payload;
    assert p[n..] == Crc.CrcBytes(Crc.Crc(h + payload));
    Crc.UpdatedConcat(h, payload, Crc.INIT);
    Crc.GetSetCrc(Crc.Crc(h + payload));
  }

  /** Segments an image of `size` bytes needs. */
  function SegmentCount(size: nat): nat { (size + MAX_PAYLOAD_SIZE - 1) / MAX_PAYLOAD_SIZE }

  lemma SegmentBounds(size: nat, k: nat)
    ensures k * MAX_PAYLOAD_SIZE < size <==> k < SegmentCount(size)
    ensures k * MAX_PAYLOAD_SIZE < size ==>
              (k * MAX_PAYLOAD_SIZE + MAX_PAYLOAD_SIZE >= size <==> k == SegmentCount(size) - 1)
  {
  }

  function SegmentEnd(size: nat, k: nat): nat { Min(size, (k + 1) * MAX_PAYLOAD_SIZE) }

  lemma SegmentShape(image: nat, k: nat, data: bytes, off: nat, last: bool)
    requires image <= UINT32_MAX && off == k * MAX_PAYLOAD_SIZE < |data| <= MAX_SEGMENT_SIZE
    requires last == (off + MAX_PAYLOAD_SIZE >= |data|)
    ensures SegmentReply(image, k, data)
         == Send(Sealed(Header(image, k, off, last) + data[off..SegmentEnd(|data|, k)]), last)
  {
    assert off % 65536 == off;
    assert SegmentEnd(|data|, k) == off + if last then |data| - off else MAX_PAYLOAD_SIZE;
  }

  /** What the client may rely on about a packet it asked for as segment k of n. */
  predicate GoodPacket(pkt: bytes, k: nat, n: nat, payload: bytes) {
    && HEADER_SIZE + FOOTER_SIZE < |pkt| <= 1009
    && CrcOk(pkt)
    && PayloadOf(pkt) == payload
    && var h := pkt[..HEADER_SIZE];
       HeaderSegment(h) == k && HeaderOffset(h) == k * MAX_PAYLOAD_SIZE && HeaderLast(h) == (k == n - 1)
  }

  lemma SealedIsGood(image: nat, k: nat, last: bool, payload: bytes, n: nat)
    requires image <= UINT32_MAX && k * MAX_PAYLOAD_SIZE <= UINT16_MAX
    requires 0 < |payload| <= MAX_PAYLOAD_SIZE && last == (k == n - 1)
    ensures GoodPacket(Sealed(Header(image, k, k * MAX_PAYLOAD_SIZE, last) + payload), k, n, payload)
  {
    SealedChecks(Header(image, k, k * MAX_PAYLOAD_SIZE, last), payload);
    HeaderFields(image, k, k * MAX_PAYLOAD_SIZE, last);
  }

  /** One segment, from the server's buffer through the wire to the client: it is sent exactly
      when it is one of the image's ceil(size/991) <= 256 segments, the last flag marks exactly
      the final one, the header's offset is untruncated, the packet is at most 1009 bytes, and
      the client recovers it with a good CRC and the right payload. */
  lemma SegmentDelivered(image: nat, k: nat, data: bytes, rest: bytes)
    requires image <= UINT32_MAX && k <= UINT16_MAX && |data| <= MAX_SEGMENT_SIZE
    ensures SegmentCount(|data|) <= 256
    ensures var r, n := SegmentReply(image, k, data), SegmentCount(|data|);
      && (r.Send? <==> k < n)
      && (r.Send? ==>
            && r.last == (k == n - 1)
            && GoodPacket(r.packet, k, n, data[k * MAX_PAYLOAD_SIZE..SegmentEnd(|data|, k)])
            && Unstuff(Wire(r.packet) + rest, [], false) == Packet(r.packet, rest))
  {
    SegmentBounds(|data|, k);
    if k * MAX_PAYLOAD_SIZE < |data| {
      var n := SegmentCount(|data|);
      var payload := data[k * MAX_PAYLOAD_SIZE..SegmentEnd(|data|, k)];
      SegmentShape(image, k, data, k * MAX_PAYLOAD_SIZE, k == n - 1);
      SealedIsGood(image, k, k == n - 1, payload, n);
      UnstuffWire(SegmentReply(image, k, data).packet, rest);
    }
  }

  datatype Fetched = Nothing | Piece(payload: bytes, last: bool)

  /** The client's view of one request: payload and last flag out of the decoded packet. */
  function Fetch(image: nat, k: nat, data: bytes): Fetched
    requires image <= UINT32_MAX
  {
    if k > 255 then Nothing  // the request has one byte for the segment
    else match SegmentReply(image, k, data)
    case Unauthorized => Nothing
    case Send(packet, _) =>
      match Unstuff(Wire(packet), [], false)
      case Disconnected => Nothing
      case Packet(pkt, _) =>
        if |pkt| < HEADER_SIZE + FOOTER_SIZE || !CrcOk(pkt) then Nothing
        else Piece(PayloadOf(pkt), HeaderLast(pkt[..HEADER_SIZE]))
  }

  lemma FetchSegment(image: nat, k: nat, data: bytes)
    requires image <= UINT32_MAX
    requires k * MAX_PAYLOAD_SIZE < |data| <= MAX_SEGMENT_SIZE
    ensures Fetch(image, k, data)
         == Piece(data[k * MAX_PAYLOAD_SIZE..SegmentEnd(|data|, k)], k == SegmentCount(|data|) - 1)
  {
    SegmentDelivered(image, k, data, []);
    SegmentBounds(|data|, k);
    var pkt := SegmentReply(image, k, data).packet;
    assert Wire(pkt) + [] == Wire(pkt);
  }

  /** What a client collects that asks for segment k, k+1, ... until the last flag. */
  function Collect(ask: nat -> Fetched, k: nat): bytes
    decreases 256 - k
  {
    if k > 255 then []
    else match ask(k)
      case Nothing => []
      case Piece(payload, last) => if last then payload else payload + Collect(ask, k + 1)
  }

  function Asking(image: nat, data: bytes): nat -> Fetched
    requires image <= UINT32_MAX
  {
    (k: nat) => Fetch(image, k, data)
  }

  lemma {:induction false} CollectFrom(ask: nat -> Fetched, k: nat, data: bytes)
    requires k * MAX_PAYLOAD_SIZE < |data| <= MAX_SEGMENT_SIZE
    requires forall j: nat :: j * MAX_PAYLOAD_SIZE < |data| ==>
      ask(j) == Piece(data[j * MAX_PAYLOAD_SIZE..SegmentEnd(|data|, j)], j == SegmentCount(|data|) - 1)
    ensures Collect(ask, k) == data[k * MAX_PAYLOAD_SIZE..]
    decreases |data| - k * MAX_PAYLOAD_SIZE
  {
    var off := k * MAX_PAYLOAD_SIZE;
    SegmentBounds(|data|, k);
    if off + MAX_PAYLOAD_SIZE < |data| {
      CollectFrom(ask, k + 1, data);
      SplitAt(data, off, off + MAX_PAYLOAD_SIZE);
    }
  }

  /** End to end: for an image of 1..65536 bytes, the payloads of all its segments, as sent,
      stuffed, unstuffed, checked and stripped, concatenate to the image. */
  lemma ImageDelivered(image: nat, data: bytes)
    requires image <= UINT32_MAX && 1 <= |data| <= MAX_SEGMENT_SIZE
    ensures Collect(Asking(image, data), 0) == data
  {
    forall j: nat | j * MAX_PAYLOAD_SIZE < |data|
      ensures Fetch(image, j, data)
           == Piece(data[j * MAX_PAYLOAD_SIZE..SegmentEnd(|data|, j)], j == SegmentCount(|data|) - 1)
    {
      FetchSegment(image, j, data);
    }
    CollectFrom(Asking(image, data), 0, data);
  }

  lemma SplitAt(data: bytes, a: nat, b: nat)
    requires a <= b <= |data|
    ensures data[a..] == data[a..b] + data[b..]
  {
  }
}
