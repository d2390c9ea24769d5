/** NHACP frames: the CRC-8 check sequence of nabud/nhacp.c and nabuclient/nabuclient.c, and the
    lengths the server's replies can reach. */
module Frames {
  import opened Bytes
  import Crc = Crc8Cdma2000
  import opened Sessions
  import Blocks
  import Files = FileStore

  const NHACP_REQUEST: byte := 0x8f
  const MTU := 8256
  const MTU_0_0 := 0x7fff
  const MAX_MESSAGELEN := MTU_0_0

  // ----- Requests -----

  predicate CrcOn(options: nat) { options % 2 == 1 }

  /** Everything a request's CRC covers: the two header bytes, the length, the message. */
  function Covered(sid: byte, len: nat, msg: bytes): bytes
    requires len <= UINT16_MAX
  {
    [NHACP_REQUEST, sid] + SetU16(len) + msg
  }

  /** The message byte, the session, the length, least significant byte first, and the message. */
  lemma CoveredLayout(sid: byte, len: nat, msg: bytes)
    requires len <= UINT16_MAX
    ensures var c := Covered(sid, len, msg);
      |c| == 4 + |msg| && c[..2] == [0x8f, sid] && Little(c[2..4]) == len && c[4..] == msg
  {
    WordsDenote(len);
    assert Covered(sid, len, msg)[2..4] == SetU16(len);
  }

  /** The CRC part of nhacp_request_check: a zero check byte means the client omitted it. */
  method CheckCrc(sid: byte, msg: bytes, options: nat) returns (ok: bool)
    requires 0 < |msg| <= MAX_MESSAGELEN
    ensures ok <==> CrcAccepted(sid, msg, options)
  {
    if CrcOn(options) {
      var crcByte := msg[|msg| - 1];
      if crcByte != 0 {
        var crc := Crc.Update([NHACP_REQUEST, sid], Crc.INIT);
        crc := Crc.Update(SetU16(|msg|) + msg, crc);
        Crc.UpdatedConcat([NHACP_REQUEST, sid], SetU16(|msg|) + msg, Crc.INIT);
        assert Covered(sid, |msg|, msg) == [NHACP_REQUEST, sid] + (SetU16(|msg|) + msg);
        return crc == 0;
      }
    }
    return true;
  }

  predicate CrcAccepted(sid: byte, msg: bytes, options: nat)
    requires 0 < |msg| <= MAX_MESSAGELEN
  {
    CrcOn(options) ==> msg[|msg| - 1] == 0 || Crc.Updated(Covered(sid, |msg|, msg), Crc.INIT) == 0
  }

  /** A nonzero check byte is accepted exactly when it is the CRC of all bytes before it. */
  lemma AcceptedExactly(sid: byte, msg: bytes)
    requires 0 < |msg| <= MAX_MESSAGELEN
    ensures CrcAccepted(sid, msg, OPTION_CRC8) <==>
      (msg[|msg| - 1] == 0 || msg[|msg| - 1] == Crc.Crc(Covered(sid, |msg|, msg[..|msg| - 1])))
  {
    ProtectedResidue(sid, msg);
  }

  /** nhacp_send: the message the client puts behind the header, CRC included. */
  function ClientMessage(sid: byte, msg: bytes, crc8: bool, rxonly: bool): bytes
    requires |msg| < MAX_MESSAGELEN
  {
    if !crc8 then msg
    else msg + [if rxonly then 0 else Crc.Crc(Covered(sid, |msg| + 1, msg))]
  }

  /** With CRC-8 off nothing is checked. */
  lemma UncheckedWithoutOption(sid: byte, msg: bytes, options: nat)
    requires 0 < |msg| <= MAX_MESSAGELEN && options % 2 == 0
    ensures CrcAccepted(sid, msg, options)
  {
  }

  /** The client's message, its check byte, and whose CRC that is. */
  lemma ClientProtected(sid: byte, msg: bytes, rxonly: bool)
    requires |msg| < MAX_MESSAGELEN
    ensures ClientMessage(sid, msg, false, rxonly) == msg
    ensures var m := ClientMessage(sid, msg, true, rxonly);
      |m| == |msg| + 1 && m[..|msg|] == msg && (if rxonly then m[|msg|] == 0 else Protected(sid, m))
  {
    var m := ClientMessage(sid, msg, true, rxonly);
    assert m[..|msg|] == msg;
  }

  /** Every frame the client builds with CRC-8 passes the server's check. */
  lemma ClientAccepted(sid: byte, msg: bytes, rxonly: bool)
    requires 0 < |msg| < MAX_MESSAGELEN
    ensures CrcAccepted(sid, ClientMessage(sid, msg, true, rxonly), OPTION_CRC8)
  {
    var m := ClientMessage(sid, msg, true, rxonly);
    AcceptedExactly(sid, m);
    assert m[..|m| - 1] == msg;
  }

  /** The message carries the CRC of what precedes its check byte. */
  predicate Protected(sid: byte, msg: bytes)
    requires 0 < |msg| <= MAX_MESSAGELEN
  {
    msg[|msg| - 1] == Crc.Crc(Covered(sid, |msg|, msg[..|msg| - 1]))
  }

  lemma ProtectedResidue(sid: byte, msg: bytes)
    requires 0 < |msg| <= MAX_MESSAGELEN
    ensures Protected(sid, msg) <==> Crc.Updated(Covered(sid, |msg|, msg), Crc.INIT) == 0
  {
    var n := |msg| - 1;
    Crc.ResidueZero(Covered(sid, |msg|, msg[..n]), msg[n]);
    assert Covered(sid, |msg|, msg[..n]) + [msg[n]] == Covered(sid, |msg|, msg);
  }

  /** Changing one byte of a protected message gets it refused, with two exceptions: the check
      byte itself may become the zero that means "omitted", and a message whose CRC happens to
      be zero is not checked at all. */
  lemma CorruptionRefused(sid: byte, msg: bytes, i: nat, b: byte)
    requires i < |msg| <= MAX_MESSAGELEN && b != msg[i] && Protected(sid, msg)
    ensures CrcAccepted(sid, msg[i := b], OPTION_CRC8) <==> if i == |msg| - 1 then b == 0 else msg[|msg| - 1] == 0
  {
    ProtectedResidue(sid, msg);
    var head := [NHACP_REQUEST, sid] + SetU16(|msg|);
    var pre, post := head + msg[..i], msg[i + 1..];
    assert Covered(sid, |msg|, msg) == pre + [msg[i]] + post;
    assert Covered(sid, |msg|, msg[i := b]) == pre + [b] + post;
    Crc.CorruptionDetected(pre, msg[i], b, post, Crc.INIT);
  }

  /** So it is with a message that arrives under another session's number. */
  lemma WrongSessionRefused(sid: byte, sid': byte, msg: bytes)
    requires 0 < |msg| <= MAX_MESSAGELEN && sid' != sid && Protected(sid, msg)
    ensures CrcAccepted(sid', msg, OPTION_CRC8) <==> msg[|msg| - 1] == 0
  {
    ProtectedResidue(sid, msg);
    var post := SetU16(|msg|) + msg;
    assert Covered(sid, |msg|, msg) == [NHACP_REQUEST] + [sid] + post;
    assert Covered(sid', |msg|, msg) == [NHACP_REQUEST] + [sid'] + post;
    Crc.CorruptionDetected([NHACP_REQUEST], sid, sid', post, Crc.INIT);
  }

  /** Such a message: FILE-CLOSE of slot 67 in session 0. Any of its bytes may change unnoticed. */
  lemma ZeroCrcUnchecked(i: nat, b: byte)
    requires i < 2
    ensures Protected(0, [0x05, 0x43, 0x00])
    ensures CrcAccepted(0, [0x05, 0x43, 0x00][i := b], OPTION_CRC8)
  {
    var msg: bytes := [0x05, 0x43, 0x00];
    var covered: bytes := [0x8f, 0x00, 0x03, 0x00, 0x05, 0x43];
    assert Covered(0, 3, msg[..2]) == covered;
    Crc.ZeroRequest();
    assert covered == [0x8f, 0x00, 0x03] + ([0x00, 0x05, 0x43] + []);
  }

  // ----- Replies -----

  function CrcLen(options: nat): nat { if CrcOn(options) then 1 else 0 }

  function ReplyFrame(options: nat, body: bytes): bytes
    requires |body| + CrcLen(options) <= MAX_MESSAGELEN
  {
    var head := SetU16(|body| + CrcLen(options)) + body;
    if CrcOn(options) then head + [Crc.Crc(head)] else head
  }

  /** For all options: the length comes first, counts what follows it, and can be read back; the
      body follows, and after it, with CRC-8, one byte. */
  lemma ReplyLayout(options: nat, body: bytes)
    requires |body| + CrcLen(options) <= MAX_MESSAGELEN
    ensures var frame := ReplyFrame(options, body);
      && |frame| == 2 + |body| + CrcLen(options)
      && Little(frame[..2]) == |body| + CrcLen(options) && frame[2..2 + |body|] == body
      && (options % 2 == 1 <==> |frame| == |body| + 3)
  {
    WordsDenote(|body| + CrcLen(options));
    assert ReplyFrame(options, body)[..2] == SetU16(|body| + CrcLen(options));
  }

  /** nhacp_send_reply; the precondition is its assertion. */
  method SendReply(options: nat, body: bytes) returns (frame: bytes)
    requires |body| + CrcLen(options) <= MAX_MESSAGELEN
    ensures frame == ReplyFrame(options, body)
  {
    frame := SetU16(|body| + CrcLen(options)) + body;
    if CrcOn(options) {
      var crc := Crc.Update(frame, Crc.INIT);
      frame := frame + [crc as int];
    }
  }

  /** The length the client reads first. */
  function FrameLength(stream: bytes): nat
    requires |stream| >= 2
  {
    GetU16(stream[..2])
  }

  /** nhacp_recv: the client reads as many bytes as the length says. */
  predicate Received(stream: bytes) {
    |stream| >= 2 && 0 < FrameLength(stream) <= MAX_MESSAGELEN && 2 + FrameLength(stream) <= |stream|
  }

  /** The client's check: the residue of what it has read is zero. */
  predicate ClientOk(stream: bytes) {
    Received(stream) && Crc.Updated(stream[..2 + FrameLength(stream)], Crc.INIT) == 0
  }

  /** On every stream, the check passes exactly when the last byte read is the CRC of the others. */
  lemma ClientOkExactly(stream: bytes)
    requires Received(stream)
    ensures var n := 1 + FrameLength(stream); ClientOk(stream) <==> stream[n] == Crc.Crc(stream[..n])
  {
    var n := 1 + FrameLength(stream);
    Crc.ResidueZero(stream[..n], stream[n]);
    assert stream[..n] + [stream[n]] == stream[..n + 1];
  }

  /** A frame without length, or with more than a message can have, is not received. */
  lemma BadLengthRefused(stream: bytes)
    ensures ClientOk(stream) ==> |stream| >= 2 && 0 < Little(stream[..2]) <= 0x7fff && 2 + Little(stream[..2]) <= |stream|
  {
    if |stream| >= 2 {
      LittlePair(stream[0], stream[1]);
      assert stream[..2] == [stream[0], stream[1]];
    }
  }

  lemma ReplyShape(body: bytes)
    requires |body| < MAX_MESSAGELEN
    ensures var frame := ReplyFrame(OPTION_CRC8, body);
      |frame| == |body| + 3 && frame[..2] == SetU16(|body| + 1) && Crc.Updated(frame, Crc.INIT) == 0
  {
    var head := SetU16(|body| + 1) + body;
    Crc.ResidueZero(head, Crc.Crc(head));
  }

  /** Every reply with CRC-8 passes the client's check, whatever follows it. */
  lemma ReplyResidue(body: bytes, rest: bytes)
    requires |body| < MAX_MESSAGELEN
    ensures ClientOk(ReplyFrame(OPTION_CRC8, body) + rest)
  {
    var frame := ReplyFrame(OPTION_CRC8, body);
    ReplyShape(body);
    U16Inverse(|body| + 1, SetU16(|body| + 1));
    assert (frame + rest)[..2] == frame[..2] && (frame + rest)[..|frame|] == frame;
  }

  /** No reply with a corrupted byte after the length passes it. With a corrupted length byte the
      client reads another number of bytes, and the check passes exactly when it does get them
      and the last of them is the CRC of the others. */
  lemma CorruptReplyExactly(body: bytes, i: nat, b: byte, rest: bytes)
    requires |body| < MAX_MESSAGELEN
    requires i < |ReplyFrame(OPTION_CRC8, body)| && b != ReplyFrame(OPTION_CRC8, body)[i]
    ensures var stream := ReplyFrame(OPTION_CRC8, body)[i := b] + rest;
      && (i >= 2 ==> !ClientOk(stream))
      && (ClientOk(stream) <==>
            Received(stream) && stream[1 + FrameLength(stream)] == Crc.Crc(stream[..1 + FrameLength(stream)]))
  {
    var frame := ReplyFrame(OPTION_CRC8, body);
    var stream := frame[i := b] + rest;
    if Received(stream) {
      ClientOkExactly(stream);
    }
    if i >= 2 {
      CorruptBody(body, i, b, rest);
    }
  }

  lemma CorruptBody(body: bytes, i: nat, b: byte, rest: bytes)
    requires |body| < MAX_MESSAGELEN
    requires 2 <= i < |ReplyFrame(OPTION_CRC8, body)| && b != ReplyFrame(OPTION_CRC8, body)[i]
    ensures !ClientOk(ReplyFrame(OPTION_CRC8, body)[i := b] + rest)
  {
    var frame := ReplyFrame(OPTION_CRC8, body);
    var stream := frame[i := b] + rest;
    ReplyShape(body);
    U16Inverse(|body| + 1, SetU16(|body| + 1));
    assert stream[..2] == frame[..2];
    assert stream[..|frame|] == frame[..i] + [b] + frame[i + 1..];
    assert frame == frame[..i] + [frame[i]] + frame[i + 1..];
    Crc.CorruptionDetected(frame[..i], frame[i], b, frame[i + 1..], Crc.INIT);
  }

  lemma ShortResidue(read: bytes)
    requires read == [0x04, 0x00, 0x84, 0x0a, 0x00, 0xd6]
    ensures Crc.Updated(read, Crc.INIT) == 0
  {
    Crc.ZeroReply();
    assert read == [0x04, 0x00, 0x84] + ([0x0a, 0x00, 0xd6] + []);
  }

  /** Only the bytes read count. */
  lemma ShortRead(stream: bytes, read: bytes)
    requires |stream| >= 6 && stream[..6] == read && read[..2] == [4, 0] && Crc.Updated(read, Crc.INIT) == 0
    ensures ClientOk(stream)
  {
    assert stream[..2] == read[..2];
  }

  /** The latter happens: a reply of 13 bytes that passes with its length corrupted from 14 to 4. */
  lemma CorruptLengthPasses(body: bytes, rest: bytes)
    requires body == [0x84, 0x0a, 0x00, 0xd6] + Zeros(9)
    ensures ReplyFrame(OPTION_CRC8, body)[0] == 14
    ensures ClientOk(ReplyFrame(OPTION_CRC8, body)[0 := 4] + rest)
  {
    ReplyShape(body);
    var frame := ReplyFrame(OPTION_CRC8, body);
    var read := [0x04, 0x00] + body[..4];
    ShortResidue(read);
    assert frame[2..6] == body[..4];
    ShortRead(frame[0 := 4] + rest, read);
  }

  // ----- Lengths -----

  /** The replies the handlers build, with their variable parts. */
  datatype Response =
    | SessionStarted(idLen: byte)
    | Started00(idLen: byte)
    | Ok
    | ErrorReply(messageLen: byte)
    | StorageLoaded
    | DataBuffer(dataLen: nat)
    | DateTime
    | FileInfo(nameLen: byte)
    | Uint32

  /** sizeof the response structure plus what follows it. */
  function ResponseLength(r: Response): nat {
    match r
    case SessionStarted(n) => 5 + n as int
    case Started00(n) => 4 + n as int
    case Ok => 1
    case ErrorReply(n) => 4 + n as int
    case StorageLoaded => 6
    case DataBuffer(n) => 3 + n
    case DateTime => 15
    case FileInfo(n) => 22 + n as int
    case Uint32 => 5
  }

  /** The response structures, field by field: a type, and what each holds behind it. */
  lemma ResponseLayout(ty: byte, b: byte, u16: bytes, u32: bytes, date: bytes, name: bytes, data: bytes)
    requires |u16| == 2 && |u32| == 4 && |date| == 8 + 6 && |name| < 256
    ensures |[ty, b] + u16 + ([|name|] + name)| == ResponseLength(SessionStarted(|name|))
    ensures |[ty] + u16 + ([|name|] + name)| == ResponseLength(Started00(|name|)) == ResponseLength(ErrorReply(|name|))
    ensures |[ty]| == ResponseLength(Ok)
    ensures |[ty, b] + u32| == ResponseLength(StorageLoaded)
    ensures |[ty] + u16 + data| == ResponseLength(DataBuffer(|data|))
    ensures |[ty] + date| == ResponseLength(DateTime)
    ensures |[ty] + (date + u16 + u32) + ([|name|] + name)| == ResponseLength(FileInfo(|name|))
    ensures |[ty] + u32| == ResponseLength(Uint32)
  {
  }

  /** In version 0.0 the largest DATA-BUFFER fills a message; later versions have a fixed limit. */
  lemma MaxPayloadIs(version: nat)
    ensures ResponseLength(DataBuffer(MaxPayload(VERS_0_0))) == MAX_MESSAGELEN
    ensures version != VERS_0_0 ==> MaxPayload(version) == 8192
  {
  }

  /** nhacp_max_payload for the requests answered with a DATA-BUFFER. */
  function MaxPayload(version: nat): nat {
    if version == VERS_0_0 then MTU_0_0 - 3 else Blocks.MAX_PAYLOAD
  }

  predicate Sendable(s: Session, r: Response) { r.DataBuffer? ==> r.dataLen <= MaxPayload(s.version) }

  /** The contexts a connection can reply from: a linked one, one allocated for a frame whose
      session is unknown (options as its HELLO asked), or the 0.0 loop's. */
  ghost predicate Replying(c: Conn, s: Session) {
    match c
    case Normal(ss) =>
      || (HasId(ss, s.id) && Get(ss, s.id) == s)
      || (s.version == VERS_0_1 && s.options <= OPTION_CRC8 && s.files == [])
    case Legacy(ctx, _) => s == ctx
  }

  /** In every run, from every context, for every handler's reply: the length assertion of
      nhacp_send_reply holds, CRC byte included. */
  lemma ReplyFits(events: seq<Event>, s: Session, r: Response)
    requires forall e :: e in events && e.Request? ==> RequestOk(e.r)
    requires Replying(Run(Normal([]), events), s) && Sendable(s, r)
    ensures ResponseLength(r) + CrcLen(s.options) <= MAX_MESSAGELEN
  {
    var c := Run(Normal([]), events);
    RunKeepsOk(Normal([]), events);
    if c.Normal? && HasId(c.sessions, s.id) {
      GetOk(c.sessions, s.id);
    }
    assert s.options == 0 || s.version == VERS_0_1;
  }

  /** Whatever GET-BLOCK answers an admitted request with, in every run and from every context. */
  lemma BlockReplyFits(events: seq<Event>, s: Session, live: bool, f: bytes, off: nat, n: nat, stale: bytes)
    requires forall e :: e in events && e.Request? ==> RequestOk(e.r)
    requires Replying(Run(Normal([]), events), s)
    requires off <= UINT32_MAX && n <= UINT16_MAX && n <= |stale| && Blocks.AdmittedAt(off, n)
    ensures var r := DataBuffer(|Blocks.BlockByCode(live, f, off, n, stale)|);
      Sendable(s, r) && ResponseLength(r) + CrcLen(s.options) <= MAX_MESSAGELEN
  {
    ReplyFits(events, s, DataBuffer(|Blocks.BlockByCode(live, f, off, n, stale)|));
  }

  /** nhacp_req_storage_get, past the file lookup: refused, or a sendable reply, which is the
      slice asked for exactly when the file is a shadow or the request ends below 2^32. */
  method StorageGet(s: Session, f: Files.File, buf: array<byte>, offset: nat, length: nat) returns (r: Blocks.Reply)
    requires f.Valid() && offset <= UINT32_MAX && length <= UINT16_MAX && buf.Length >= MAX_MESSAGELEN
    modifies buf
    ensures r.Invalid? <==> length > MaxPayload(s.version)
    ensures !r.Invalid? ==> r.Data? && Sendable(s, DataBuffer(|r.data|))
    ensures !r.Invalid? ==>
      (r.data == Files.Slice(f.host.data, offset, length) <==> !f.live || offset + length <= UINT32_MAX)
  {
    if length > MaxPayload(s.version) {
      return Blocks.Invalid;
    }
    var n := f.Pread(buf, offset, length);
    r := Blocks.Data(buf[..n]);
  }

  /** nhacp_req_file_read, past the file lookup: refused, or a sendable reply, which is the slice
      at the cursor. */
  method FileRead(s: Session, f: Files.File, buf: array<byte>, flags: nat, length: nat) returns (r: Blocks.Reply)
    requires f.Valid() && length <= UINT16_MAX && buf.Length >= MAX_MESSAGELEN
    modifies buf, f`cursor
    ensures f.Valid()
    ensures r.Invalid? <==> length > MaxPayload(s.version) || flags != 0
    ensures r.Invalid? ==> f.cursor == old(f.cursor)
    ensures !r.Invalid? ==>
      && r == Blocks.Data(Files.Slice(f.host.data, old(f.cursor), length)) && Sendable(s, DataBuffer(|r.data|))
      && f.cursor == old(f.cursor) + |r.data|
  {
    if length > MaxPayload(s.version) {
      return Blocks.Invalid;
    }
    if flags != 0 {
      return Blocks.Invalid;
    }
    var n := f.Read(buf, length);
    r := Blocks.Data(buf[..n]);
  }

  /** It would not hold if CRC-8 could be switched on in version 0.0. */
  lemma CrcNeedsNewVersion(files: seq<Slots.Entry>)
    ensures var s := Session(SYSTEM, VERS_0_0, OPTION_CRC8, files);
      Sendable(s, DataBuffer(MaxPayload(VERS_0_0)))
      && ResponseLength(DataBuffer(MaxPayload(VERS_0_0))) + CrcLen(s.options) > MAX_MESSAGELEN
  {
  }

  /** nhacp_reqlen_ok: 0.0 rejects lengths with the top bit set, 0.1 lengths above the MTU. */
  predicate ReqlenOk(version: nat, reqlen: nat)
    requires reqlen <= UINT16_MAX
  {
    reqlen != 0 && if version == VERS_0_0 then reqlen / 0x8000 % 2 == 0 else reqlen <= MTU
  }

  /** The lengths admitted, which all fit the buffer, and no classic message byte passes for the
      upper byte of one. */
  lemma RequestFits(version: nat, reqlen: nat)
    requires reqlen <= UINT16_MAX
    ensures ReqlenOk(version, reqlen) <==> 0 < reqlen <= if version == VERS_0_0 then MAX_MESSAGELEN else MTU
    ensures ReqlenOk(version, reqlen) ==> reqlen <= MAX_MESSAGELEN && SetU16(reqlen)[1] < 0x80
  {
  }
}
