/** The NHACP session table of one connection (nabud/nhacp.c): HELLO, GOODBYE, file requests,
    and the nested NHACP-0.0 loop. */
module Sessions {
  import opened Options
  import Slots = SlotTable

  const SYSTEM := 0x00
  const CREATE := 0xff
  const VERS_0_0 := 0
  const VERS_0_1 := 1
  const OPTION_CRC8 := 1

  /** A linked or candidate context; the request buffer is not modelled. */
  datatype Session = Session(id: nat, version: nat, options: nat, files: seq<Slots.Entry>)

  datatype Request =
    | Malformed                                            // fails nhacp_request_check
    | Hello(magicOk: bool, version: nat, options: nat)
    | Goodbye                                              // END-PROTOCOL in 0.0
    | Open(reqslot: nat, file: int)
    | Close(slot: nat)
    | Other                                                // touches no session state

  datatype Reply = Silent | Started(id: nat) | Error(code: nat) | Handled

  const EINVAL := 11
  const ESRCH := 18
  const ENSESS := 19

  /** The connection: its session list, or the context of the 0.0 loop it is inside. */
  datatype Conn =
    | Normal(sessions: seq<Session>)
    | Legacy(ctx: Session, linked: bool)

  function Linked(c: Conn): seq<Session> {
    match c
    case Normal(ss) => ss
    case Legacy(ctx, linked) => if linked then [ctx] else []
  }

  // ----- The session list -----

  predicate HasId(ss: seq<Session>, id: nat) {
    ss != [] && (ss[0].id == id || HasId(ss[1..], id))
  }

  function Get(ss: seq<Session>, id: nat): Session
    requires HasId(ss, id)
  {
    if ss[0].id == id then ss[0] else Get(ss[1..], id)
  }

  function Put(ss: seq<Session>, s: Session): seq<Session> {
    if ss == [] then [] else if ss[0].id == s.id then [s] + ss[1..] else [ss[0]] + Put(ss[1..], s)
  }

  function Remove(ss: seq<Session>, id: nat): seq<Session> {
    if ss == [] then [] else if ss[0].id == id then ss[1..] else [ss[0]] + Remove(ss[1..], id)
  }

  /** The lowest id >= `from` that is free, or CREATE. */
  function LowestFree(ss: seq<Session>, from: nat): (id: nat)
    requires from <= CREATE
    ensures from <= id <= CREATE
    ensures id < CREATE ==> !HasId(ss, id)
    ensures forall j :: from <= j < id ==> HasId(ss, j)
    decreases CREATE - from
  {
    if from == CREATE || !HasId(ss, from) then from else LowestFree(ss, from + 1)
  }

  // ----- Requests -----

  function WithFiles(s: Session, files: seq<Slots.Entry>): Session { s.(files := files) }

  /** A HELLO that is not ignored. */
  predicate Acceptable(r: Request) {
    r.Hello? && r.magicOk && (r.options == 0 || r.options == OPTION_CRC8) && r.version == VERS_0_1
  }

  /** One NHACP >= 0.1 request frame, addressed to session `sid`. */
  function Handle(ss: seq<Session>, sid: nat, r: Request): (seq<Session>, Reply) {
    match r
    case Malformed => (ss, Silent)
    case Hello(_, version, options) =>
      if !Acceptable(r) then (ss, Silent)
      else if sid == SYSTEM then ([Session(SYSTEM, version, options, [])], Started(SYSTEM))
      else if sid != CREATE then
        // The context's version and options have been overwritten by now.
        (if HasId(ss, sid) then Put(ss, Get(ss, sid).(version := version, options := options)) else ss, Error(EINVAL))
      else
        var id := LowestFree(ss, SYSTEM + 1);
        if id == CREATE then (ss, Error(ENSESS))
        else ([Session(id, version, options, [])] + ss, Started(id))
    case Goodbye =>
      if !HasId(ss, sid) then (ss, Silent)
      else (if sid == SYSTEM then [] else Remove(ss, sid), Silent)
    case _ =>
      if !HasId(ss, sid) then (ss, Error(ESRCH))
      else (Put(ss, FileRequest(Get(ss, sid), r)), Handled)
  }

  function FileRequest(s: Session, r: Request): Session {
    match r
    case Open(reqslot, file) => WithFiles(s, Slots.Opened(s.files, reqslot, file))
    case Close(slot) => WithFiles(s, if slot == Slots.ANY_SLOT then s.files else Slots.Closed(s.files, slot))
    case _ => s
  }

  datatype Event = Request(sid: nat, r: Request) | Start00 | Reboot

  /** A step of the connection.  Inside the 0.0 loop, frames carry no session id; END-PROTOCOL
      leaves it, and HELLO links the loop's own context, closing its files only if it was
      on the list already. */
  function Next(c: Conn, e: Event): (Conn, Reply) {
    match (c, e)
    case (Normal(ss), Request(sid, r)) => var (ss', reply) := Handle(ss, sid, r); (Normal(ss'), reply)
    case (Normal(ss), Start00) =>
      if ss != [] then (c, Silent) else (Legacy(Session(SYSTEM, VERS_0_0, 0, []), false), Handled)
    case (Normal(_), Reboot) => (Normal([]), Silent)
    case (Legacy(ctx, linked), Request(_, r)) =>
      (match r
       case Goodbye => (Normal([]), Silent)
       case Hello(_, version, options) =>
         if !Acceptable(r) then (c, Silent)
         else
           (Legacy(ctx.(version := version, options := options, files := if linked then [] else ctx.files), true), Started(SYSTEM))
       case Malformed => (c, Silent)
       case _ => (Legacy(FileRequest(ctx, r), linked), Handled))
    case (Legacy(_, _), Reboot) => (Normal([]), Silent)  // a legacy message is no frame length
    case (Legacy(_, _), Start00) => (c, Silent)
  }

  // ----- What every step keeps -----

  ghost predicate SessionOk(s: Session) {
    && s.id < CREATE
    && Slots.Sorted(s.files)
    && (s.options == 0 || (s.options == OPTION_CRC8 && s.version == VERS_0_1))
    && (s.version == VERS_0_0 || s.version == VERS_0_1)
  }

  /** Ids are distinct and below 255, file tables sorted, CRC-8 only with version 0.1. */
  ghost predicate ListOk(ss: seq<Session>) {
    ss == [] || (SessionOk(ss[0]) && !HasId(ss[1..], ss[0].id) && ListOk(ss[1..]))
  }

  ghost predicate ConnOk(c: Conn) {
    match c
    case Normal(ss) => ListOk(ss)
    case Legacy(ctx, linked) => SessionOk(ctx) && ctx.id == SYSTEM && (!linked ==> ctx.version == VERS_0_0)
  }

  /** Slot numbers are bytes. */
  predicate RequestOk(r: Request) { r.Open? ==> r.reqslot < 256 }

  lemma {:induction false} GetOk(ss: seq<Session>, id: nat)
    requires ListOk(ss) && HasId(ss, id)
    ensures SessionOk(Get(ss, id)) && Get(ss, id).id == id
  {
    if ss[0].id != id {
      GetOk(ss[1..], id);
    }
  }

  lemma ListCons(s: Session, ss: seq<Session>, id: nat)
    ensures HasId([s] + ss, id) == (s.id == id || HasId(ss, id))
    ensures ListOk([s] + ss) == (SessionOk(s) && !HasId(ss, s.id) && ListOk(ss))
    ensures HasId([s] + ss, id) ==> Get([s] + ss, id) == if s.id == id then s else Get(ss, id)
  {
    assert ([s] + ss)[1..] == ss;
  }

  /** Updating one session changes nothing else. */
  lemma {:induction false} PutExactly(ss: seq<Session>, s: Session, id: nat)
    requires ListOk(ss) && SessionOk(s)
    ensures ListOk(Put(ss, s)) && HasId(Put(ss, s), id) == HasId(ss, id)
    ensures HasId(ss, id) ==> Get(Put(ss, s), id) == if id == s.id then s else Get(ss, id)
  {
    if ss != [] {
      if ss[0].id == s.id {
        ListCons(s, ss[1..], id);
      } else {
        PutExactly(ss[1..], s, id);
        PutExactly(ss[1..], s, ss[0].id);
        ListCons(ss[0], Put(ss[1..], s), id);
      }
    }
  }

  lemma {:induction false} RemoveExactly(ss: seq<Session>, gone: nat, id: nat)
    requires ListOk(ss)
    ensures ListOk(Remove(ss, gone)) && HasId(Remove(ss, gone), id) == (HasId(ss, id) && id != gone)
    ensures HasId(ss, id) && id != gone ==> Get(Remove(ss, gone), id) == Get(ss, id)
  {
    if ss != [] && ss[0].id != gone {
      RemoveExactly(ss[1..], gone, id);
      RemoveExactly(ss[1..], gone, ss[0].id);
      ListCons(ss[0], Remove(ss[1..], gone), id);
    }
  }

  lemma FileRequestOk(s: Session, r: Request)
    requires SessionOk(s) && RequestOk(r)
    ensures SessionOk(FileRequest(s, r)) && FileRequest(s, r).id == s.id
  {
    match r
    case Open(reqslot, file) => Slots.OpenedExactly(s.files, reqslot, file);
    case Close(slot) => Slots.ClosedExactly(s.files, slot, slot);
    case _ =>
  }

  lemma HandleKeepsOk(ss: seq<Session>, sid: nat, r: Request)
    requires ListOk(ss) && RequestOk(r)
    ensures ListOk(Handle(ss, sid, r).0)
  {
    match r
    case Malformed =>
    case Hello(_, version, options) =>
      if Acceptable(r) {
        if sid == SYSTEM {
          ListCons(Session(SYSTEM, version, options, []), [], 0);
        } else if sid == CREATE {
          ListCons(Session(LowestFree(ss, 1), version, options, []), ss, 0);
        } else if HasId(ss, sid) {
          GetOk(ss, sid);
          PutExactly(ss, Get(ss, sid).(version := version, options := options), 0);
        }
      }
    case Goodbye => RemoveExactly(ss, sid, 0);
    case _ =>
      if HasId(ss, sid) {
        GetOk(ss, sid);
        FileRequestOk(Get(ss, sid), r);
        PutExactly(ss, FileRequest(Get(ss, sid), r), 0);
      }
  }

  lemma NextKeepsOk(c: Conn, e: Event)
    requires ConnOk(c) && (e.Request? ==> RequestOk(e.r))
    ensures ConnOk(Next(c, e).0) && ListOk(Linked(c))
  {
    match c
    case Normal(ss) =>
      if e.Request? {
        HandleKeepsOk(ss, e.sid, e.r);
      }
    case Legacy(ctx, linked) =>
      ListCons(ctx, [], 0);
      assert [ctx] + [] == [ctx];
      if e.Request? {
        FileRequestOk(ctx, e.r);
      }
  }

  function Run(c: Conn, events: seq<Event>): Conn
    decreases |events|
  {
    if events == [] then c else Run(Next(c, events[0]).0, events[1..])
  }

  /** In every run from a new connection, linked ids are distinct and in 0..254, every file
      table is sorted, and CRC-8 is on only in 0.1 sessions. */
  lemma {:induction false} RunKeepsOk(c: Conn, events: seq<Event>)
    requires ConnOk(c) && forall e :: e in events && e.Request? ==> RequestOk(e.r)
    ensures ConnOk(Run(c, events)) && ListOk(Linked(Run(c, events)))
    decreases |events|
  {
    if events == [] {
      NextKeepsOk(c, Reboot);
    } else {
      NextKeepsOk(c, events[0]);
      RunKeepsOk(Next(c, events[0]).0, events[1..]);
    }
  }

  // ----- What requests achieve -----

  /** CREATE yields the lowest free id in 1..254 and fails exactly when all are taken. */
  lemma CreateExactly(ss: seq<Session>, r: Request)
    requires ListOk(ss) && Acceptable(r)
    ensures var (ss', reply) := Handle(ss, CREATE, r);
      if forall j :: 1 <= j < CREATE ==> HasId(ss, j) then ss' == ss && reply == Error(ENSESS)
      else
        && reply.Started? && 1 <= reply.id < CREATE && !HasId(ss, reply.id)
        && (forall j :: 1 <= j < reply.id ==> HasId(ss, j))
        && HasId(ss', reply.id) && Get(ss', reply.id) == Session(reply.id, VERS_0_1, r.options, [])
        && forall j :: j != reply.id ==> HasId(ss', j) == HasId(ss, j) && (HasId(ss, j) ==> Get(ss', j) == Get(ss, j))
  {
    var id := LowestFree(ss, 1);
    if id < CREATE {
      var s := Session(id, VERS_0_1, r.options, []);
      forall j: nat
        ensures HasId([s] + ss, j) == (j == id || HasId(ss, j))
        ensures HasId([s] + ss, j) ==> Get([s] + ss, j) == if j == id then s else Get(ss, j)
      {
        ListCons(s, ss, j);
      }
    }
  }

  /** A SYSTEM HELLO leaves exactly session 0.  It has no open files, except when it is the
      first HELLO inside the 0.0 loop and files were opened there before it. */
  lemma SystemHelloExactly(c: Conn, r: Request)
    requires ConnOk(c) && Acceptable(r)
    ensures var (c', reply) := Next(c, Request(SYSTEM, r));
      && reply == Started(SYSTEM)
      && |Linked(c')| == 1 && Linked(c')[0].id == SYSTEM && Linked(c')[0].options == r.options
      && (Linked(c')[0].files == [] <==> !(c.Legacy? && !c.linked && c.ctx.files != []))
  {
  }

  /** That exception is reachable: a file opened inside the 0.0 loop survives the HELLO. */
  lemma FilesSurviveHello(reqslot: nat, file: int, r: Request)
    requires reqslot <= Slots.ANY_SLOT && Acceptable(r)
    ensures var c := Run(Normal([]), [Start00, Request(SYSTEM, Open(reqslot, file))]);
      && c.Legacy? && !c.linked
      && c.ctx.files == [Slots.Entry(if reqslot == Slots.ANY_SLOT then 0 else reqslot, file)]
      && Linked(Next(c, Request(SYSTEM, r)).0)[0].files == c.ctx.files
  {
    var events := [Start00, Request(SYSTEM, Open(reqslot, file))];
    var c := Next(Normal([]), Start00).0;
    assert Run(Normal([]), events) == Run(c, events[1..]);
    assert Run(c, events[1..]) == Run(Next(c, events[1]).0, events[1..][1..]);
    assert events[1..][1..] == [];
  }

  /** GOODBYE ends the session it is sent on, and on the system session all of them; the others
      stay as they are. No reply is sent. */
  lemma GoodbyeExactly(ss: seq<Session>, sid: nat, id: nat)
    requires ListOk(ss)
    ensures var (ss', reply) := Handle(ss, sid, Goodbye);
      && reply == Silent
      && (HasId(ss', id) <==> HasId(ss, id) && id != sid && !(sid == SYSTEM && HasId(ss, sid)))
      && (HasId(ss', id) ==> Get(ss', id) == Get(ss, id))
  {
    RemoveExactly(ss, sid, id);
  }

  /** A file request on a linked session acts on its table alone; on any other it is refused. */
  lemma FileRequestExactly(ss: seq<Session>, sid: nat, r: Request, id: nat)
    requires ListOk(ss) && RequestOk(r) && (r.Open? || r.Close? || r.Other?)
    ensures var (ss', reply) := Handle(ss, sid, r);
      && (reply == Error(ESRCH) <==> !HasId(ss, sid)) && (reply == Handled <==> HasId(ss, sid))
      && HasId(ss', id) == HasId(ss, id) && HasId(ss', sid) == HasId(ss, sid)
      && (HasId(ss, id) && id != sid ==> Get(ss', id) == Get(ss, id))
      && (HasId(ss, sid) ==>
            var s, s' := Get(ss, sid), Get(ss', sid);
            && s' == s.(files := s'.files)
            && s'.files == match r
               case Open(reqslot, file) => Slots.Opened(s.files, reqslot, file)
               case Close(slot) => if slot == Slots.ANY_SLOT then s.files else Slots.Closed(s.files, slot)
               case _ => s.files)
  {
    if HasId(ss, sid) {
      GetOk(ss, sid);
      FileRequestOk(Get(ss, sid), r);
      PutExactly(ss, FileRequest(Get(ss, sid), r), id);
      PutExactly(ss, FileRequest(Get(ss, sid), r), sid);
    }
  }

  /** A malformed request and a HELLO that is not acceptable change nothing and get no reply; an
      acceptable one on a session that is neither the system's nor to be created gets EINVAL, but
      has set the version and the options of that session by then, if there is one. */
  lemma IgnoredExactly(ss: seq<Session>, sid: nat, r: Request, id: nat)
    requires ListOk(ss) && (r.Malformed? || r.Hello?)
    ensures r.Malformed? || !Acceptable(r) ==> Handle(ss, sid, r) == (ss, Silent)
    ensures r.Hello? ==> (r.magicOk && r.version == VERS_0_1 && r.options in [0, 1] <==> Acceptable(r))
    ensures Acceptable(r) && sid != SYSTEM && sid != CREATE ==>
      var (ss', reply) := Handle(ss, sid, r);
      && reply == Error(EINVAL) && HasId(ss', id) == HasId(ss, id)
      && (HasId(ss, id) ==>
            Get(ss', id) == if id == sid then Get(ss, id).(version := r.version, options := r.options) else Get(ss, id))
  {
    if Acceptable(r) && HasId(ss, sid) {
      GetOk(ss, sid);
      PutExactly(ss, Get(ss, sid).(version := r.version, options := r.options), id);
    }
  }

  /** The 0.0 loop is entered only without sessions, and left by END-PROTOCOL or a reboot, with
      none; inside it, file requests act on its own table. */
  lemma LegacyExactly(c: Conn, r: Request)
    requires ConnOk(c) && RequestOk(r)
    ensures c.Normal? ==>
      Next(c, Start00).0 == if c.sessions == [] then Legacy(Session(SYSTEM, VERS_0_0, 0, []), false) else c
    ensures Next(c, Reboot).0 == Normal([])
    ensures c.Legacy? ==>
      && Next(c, Request(0, Goodbye)).0 == Normal([])
      && (r.Open? ==> Next(c, Request(0, r)).0 == c.(ctx := WithFiles(c.ctx, Slots.Opened(c.ctx.files, r.reqslot, r.file))))
      && (r.Close? && r.slot != Slots.ANY_SLOT ==>
            Next(c, Request(0, r)).0 == c.(ctx := WithFiles(c.ctx, Slots.Closed(c.ctx.files, r.slot))))
  {
  }

  /** A request on a non-system session leaves every other session as it was. */
  lemma OthersUntouched(ss: seq<Session>, sid: nat, r: Request, other: nat)
    requires ListOk(ss) && RequestOk(r) && sid != SYSTEM && other != sid && HasId(ss, other)
    ensures var ss' := Handle(ss, sid, r).0; HasId(ss', other) && Get(ss', other) == Get(ss, other)
  {
    match r
    case Malformed =>
    case Hello(_, version, options) =>
      if Acceptable(r) {
        if sid == CREATE {
          ListCons(Session(LowestFree(ss, 1), version, options, []), ss, other);
        } else if HasId(ss, sid) {
          GetOk(ss, sid);
          PutExactly(ss, Get(ss, sid).(version := version, options := options), other);
        }
      }
    case Goodbye => RemoveExactly(ss, sid, other);
    case _ =>
      if HasId(ss, sid) {
        GetOk(ss, sid);
        FileRequestOk(Get(ss, sid), r);
        PutExactly(ss, FileRequest(Get(ss, sid), r), other);
      }
  }

  // ----- The list object -----

  lemma {:induction false} AtFirst(ss: seq<Session>, i: nat, s: Session)
    requires i < |ss| && ss[i].id == s.id
    requires forall j :: 0 <= j < i ==> ss[j].id != s.id
    ensures HasId(ss, s.id) && Get(ss, s.id) == ss[i]
    ensures Put(ss, s) == ss[i := s]
    decreases i
  {
    if i > 0 {
      AtFirst(ss[1..], i - 1, s);
      assert ss[i := s] == [ss[0]] + ss[1..][i - 1 := s];
    } else {
      assert ss[i := s] == [s] + ss[1..];
    }
  }

  lemma {:induction false} RemoveFirst(ss: seq<Session>, i: nat, id: nat)
    requires i < |ss| && ss[i].id == id
    requires forall j :: 0 <= j < i ==> ss[j].id != id
    ensures Remove(ss, id) == ss[..i] + ss[i + 1..]
    decreases i
  {
    if i > 0 {
      RemoveFirst(ss[1..], i - 1, id);
      assert ss[..i] + ss[i + 1..] == [ss[0]] + (ss[1..][..i - 1] + ss[1..][i..]);
    }
  }

  /** What nhacp_conn_reset leaves on the list. */
  function Survivors(ss: seq<Session>, keep: Option<nat>): seq<Session> {
    if ss == [] then []
    else (if keep == Some(ss[0].id) then [WithFiles(ss[0], [])] else []) + Survivors(ss[1..], keep)
  }

  lemma {:induction false} SurvivorsUnique(ss: seq<Session>, keep: Option<nat>)
    requires ListOk(ss)
    ensures Survivors(ss, keep) == if keep.Some? && HasId(ss, keep.value)
                                   then [WithFiles(Get(ss, keep.value), [])] else []
  {
    if ss != [] {
      SurvivorsUnique(ss[1..], keep);
    }
  }

  class SessionList {
    var sessions: seq<Session>

    ghost predicate Valid()
      reads this
    {
      ListOk(sessions)
    }

    constructor ()
      ensures Valid() && sessions == []
    {
      sessions := [];
    }

    /** nhacp_context_lookup: the index of the context, or None. */
    method Lookup(id: nat) returns (r: Option<nat>)
      ensures r.Some? <==> HasId(sessions, id)
      ensures r.Some? ==> r.value < |sessions| && sessions[r.value].id == id
                          && forall j :: 0 <= j < r.value ==> sessions[j].id != id
    {
      var i := 0;
      assert sessions[0..] == sessions;
      while i < |sessions|
        invariant 0 <= i <= |sessions|
        invariant HasId(sessions[i..], id) == HasId(sessions, id)
        invariant forall j :: 0 <= j < i ==> sessions[j].id != id
      {
        if sessions[i].id == id {
          return Some(i);
        }
        assert sessions[i..][1..] == sessions[i + 1..];
        i := i + 1;
      }
      return None;
    }

    /** nhacp_context_init: links the context, after picking an id if asked to create one. */
    method ContextInit(ctx: Session) returns (ok: bool, id: nat)
      requires ctx.id == SYSTEM || ctx.id == CREATE
      requires ctx.id == SYSTEM ==> !HasId(sessions, SYSTEM)
      modifies this
      ensures id == if ctx.id == CREATE then LowestFree(old(sessions), SYSTEM + 1) else SYSTEM
      ensures ok == (id < CREATE)
      ensures sessions == if ok then [ctx.(id := id)] + old(sessions) else old(sessions)
    {
      id := ctx.id;
      if id == CREATE {
        id := SYSTEM + 1;
        while id < CREATE
          invariant SYSTEM < id <= CREATE && sessions == old(sessions)
          invariant LowestFree(sessions, id) == LowestFree(sessions, SYSTEM + 1)
        {
          var used := Lookup(id);
          if used.None? {
            break;
          }
          id := id + 1;
        }
        if id == CREATE {
          return false, id;
        }
      }
      sessions := [ctx.(id := id)] + sessions;
      ok := true;
    }

    /** nhacp_conn_reset: frees every context except `keep`, which only loses its files. */
    method Reset(keep: Option<nat>)
      requires Valid()
      modifies this
      ensures sessions == if keep.Some? && HasId(old(sessions), keep.value)
                          then [WithFiles(Get(old(sessions), keep.value), [])] else []
    {
      var kept: seq<Session>, i := [], 0;
      SurvivorsUnique(sessions, keep);
      assert sessions[0..] == sessions;
      while i < |sessions|
        invariant 0 <= i <= |sessions| && sessions == old(sessions)
        invariant kept + Survivors(sessions[i..], keep) == Survivors(sessions, keep)
      {
        assert sessions[i..][1..] == sessions[i + 1..];
        if keep == Some(sessions[i].id) {
          kept := kept + [WithFiles(sessions[i], [])];
        }
        i := i + 1;
      }
      sessions := kept;
    }

    /** nhacp_request and the handlers behind it, for one frame. */
    method Receive(sid: nat, r: Request) returns (reply: Reply)
      requires Valid() && sid <= CREATE && RequestOk(r)
      modifies this
      ensures Valid()
      ensures (sessions, reply) == Handle(old(sessions), sid, r)
    {
      HandleKeepsOk(sessions, sid, r);
      if r.Malformed? {
        return Silent;
      }
      var at := Lookup(sid);
      var linked := at.Some?;
      var ctx := Session(sid, VERS_0_1, 0, []);
      if linked {
        ctx := sessions[at.value];
        AtFirst(sessions, at.value, ctx);
        GetOk(sessions, sid);
        assert sid < CREATE;
      }
      if r.Hello? {
        reply := ReceiveHello(ctx, linked, r);
        return;
      }
      if !linked {
        return if r.Goodbye? then Silent else Error(ESRCH);
      }
      if r.Goodbye? {
        if sid == SYSTEM {
          Reset(None);
        } else {
          RemoveFirst(sessions, at.value, sid);
          sessions := sessions[..at.value] + sessions[at.value + 1..];
        }
        return Silent;
      }
      var ctx' := FileRequest(ctx, r);
      FileRequestOk(ctx, r);
      AtFirst(sessions, at.value, ctx');
      sessions := sessions[at.value := ctx'];
      return Handled;
    }

    /** nhacp_req_hello on the context found or allocated for the frame. */
    method ReceiveHello(ctx: Session, linked: bool, r: Request) returns (reply: Reply)
      requires Valid() && r.Hello? && linked == HasId(sessions, ctx.id)
      requires ctx == if linked then Get(sessions, ctx.id) else Session(ctx.id, VERS_0_1, 0, [])
      requires linked ==> ctx.id < CREATE
      modifies this
      ensures (sessions, reply) == Handle(old(sessions), ctx.id, r)
    {
      if !Acceptable(r) {
        return Silent;
      }
      var ctx' := ctx.(version := r.version, options := r.options);
      if linked {
        var at := Lookup(ctx.id);
        AtFirst(sessions, at.value, ctx');
        GetOk(sessions, ctx.id);
        PutExactly(sessions, ctx', ctx.id);
        sessions := sessions[at.value := ctx'];
      }
      if ctx.id == SYSTEM {
        Reset(Some(SYSTEM));
      } else if ctx.id != CREATE {
        return Error(EINVAL);
      }
      if linked {
        assert ctx.id == SYSTEM;
        return Started(SYSTEM);
      }
      var ok, id := ContextInit(ctx');
      assert ctx.id == SYSTEM ==> sessions == [ctx'];
      reply := if ok then Started(id) else Error(ENSESS);
    }
  }
}
