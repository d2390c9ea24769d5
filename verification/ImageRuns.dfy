/** Loads, unloads, cache clears and connection teardowns by any number of threads
    (nabud/image.c, nabud/conn.c): each region under image_cache_lock is one step. */
module ImageRuns {
  import opened Options
  import opened ImageCache

  datatype Event =
    | Connect(c: ConnId, chan: Option<nat>, selected: Option<string>)
    | SetChannel(c: ConnId, ch: nat)
    | SelectFile(c: ConnId, file: Option<string>)
    | Pick(c: ConnId, number: nat)
    | Lookup(c: ConnId)
    | LoadFailed(c: ConnId)
    | Insert(c: ConnId, i: Id, img: Image)
    | Unload(c: ConnId, lastuse: bool)
    | Disconnect(c: ConnId)
    | DropLast(c: ConnId)
    | ClearBegin(t: Thread, ch: nat)
    | ClearNext(t: Thread)
    | FreeImage(i: Id)

  function Initial(channels: nat, defaults: seq<Option<string>>): State {
    State(map[], map[], {}, seq(channels, _ => []), 0, map[], map[], {}, {}, defaults, true)
  }

  // ----- What each region does -----

  /** The file that replaces image 000001, if one is selected. */
  function Selected(s: State, conn: Conn): Option<string> {
    if conn.selected.Some? then conn.selected
    else if conn.chan.Some? && conn.chan.value < |s.defaults| then s.defaults[conn.chan.value]
    else None
  }

  function PickKey(s: State, conn: Conn, number: nat): Key {
    if number == 1 && Selected(s, conn).Some? then Named(Selected(s, conn).value) else Numbered(number)
  }

  /** A loaded image: its number or its name is the one asked for. */
  predicate Made(img: Image, ch: nat, key: Key) {
    img.chan == ch && match key
      case Numbered(n) => img.number == n
      case Named(f) => img.number == NAMED && img.name == f
  }

  /** A retain for the last-image slot; what the slot held before is released. */
  function Adopt(s: State, c: ConnId, key: Key, i: Id): State
    requires c in s.conns
  {
    var conn := s.conns[c];
    ReleaseOpt(SetConn(Retain(s, i), c, conn.(last := Some(i), pc := Holding(key, i))), conn.last)
  }

  /** The images a lookup may have to look at. */
  function Examined(s: State, conn: Conn): seq<Id> {
    (if conn.last.Some? then [conn.last.value] else []) + (if conn.chan.Some? then ListOf(s, conn.chan.value) else [])
  }

  /** The first region of image_load. */
  function LookedUp(s: State, c: ConnId, key: Key): State
    requires c in s.conns
  {
    var conn := s.conns[c];
    if conn.last.Some? && Matches(key, ImageAt(s, conn.last.value)) then
      SetConn(Retain(s, conn.last.value), c, conn.(pc := Holding(key, conn.last.value)))
    else if conn.chan.None? then
      SetConn(s, c, conn.(pc := Idle))
    else
      var number := if key.Named? then NAMED else key.number;
      match LookupNumber(s, ListOf(s, conn.chan.value), number)
      case Some(i) => Adopt(Retain(s, i), c, key, i)
      case None => SetConn(s, c, conn.(pc := Fetching(conn.chan.value, key)))
  }

  /** The second region of image_load, for the image this thread loaded in between. */
  function Inserted(s: State, c: ConnId, key: Key, i: Id, img: Image): State
    requires c in s.conns
  {
    match Collision(s, ListOf(s, img.chan), img)
    case None => Adopt(Link(Retain(s, i), i), c, key, i)
    case Some(j) => Release(Adopt(Retain(s.(ok := s.ok && j in s.cached), j), c, key, j), i)
  }

  /** The last-image slot is emptied; the result of this release is ignored. */
  function DropSlot(s: State, c: ConnId, i: Id): State
    requires c in s.conns
  {
    var conn := s.conns[c];
    Release(SetConn(s, c, conn.(last := None)).(ok := s.ok && conn.last == Some(i) && Count(s, i) > 1), i)
  }

  /** A local image leaves the cache; the result of this release is ignored too. */
  function DropCached(s: State, i: Id): State {
    if ImageAt(s, i).isLocal && i in s.cached then
      Release(Unlink(s.(ok := s.ok && Count(s, i) > 1), i), i)
    else s
  }

  /** image_unload. */
  function Unloaded(s: State, c: ConnId, i: Id, lastuse: bool): State
    requires c in s.conns
  {
    var s1 := SetConn(s, c, s.conns[c].(pc := Idle));
    Release(if lastuse then DropCached(DropSlot(s1, c, i), i) else s1, i)
  }

  /** The locked loop of image_cache_clear, `n` times. */
  function DetachAll(s: State, t: Thread, ch: nat, n: nat): State
    decreases n
  {
    if n == 0 || ListOf(s, ch) == [] then s
    else DetachAll(DetachFirst(s, t, ListOf(s, ch)[0]), t, ch, n - 1)
  }

  function DetachFirst(s: State, t: Thread, i: Id): State {
    SetDetached(Unlink(s.(ok := s.ok && i in s.cached), i), t, [i] + Detached(s, t))
  }

  function ClearedNext(s: State, t: Thread): State {
    if Detached(s, t) == [] then s.(clears := s.clears - {t})
    else Release(SetDetached(s, t, Detached(s, t)[1..]), Detached(s, t)[0])
  }

  predicate Enabled(s: State, e: Event) {
    match e
    case Connect(c, chan, _) => c !in s.conns && (chan.Some? ==> chan.value < |s.caches|)
    case SetChannel(c, ch) => c in s.conns && ch < |s.caches|
    case SelectFile(c, _) => c in s.conns
    case Pick(c, number) => c in s.conns && s.conns[c].pc.Idle? && number < 0x100_0000
    case Lookup(c) => c in s.conns && s.conns[c].pc.Asking?
    case LoadFailed(c) => c in s.conns && s.conns[c].pc.Fetching?
    case Insert(c, i, img) =>
      && c in s.conns && s.conns[c].pc.Fetching? && Made(img, s.conns[c].pc.chan, s.conns[c].pc.key)
      && i !in s.live && i !in s.freed
    case Unload(c, _) => c in s.conns && s.conns[c].pc.Holding?
    case Disconnect(c) => c in s.conns && s.conns[c].pc.Idle?
    case DropLast(c) => c in s.conns && s.conns[c].pc.Releasing?
    case ClearBegin(t, ch) => t !in s.clears && ch < |s.caches|
    case ClearNext(t) => t in s.clears
    case FreeImage(i) => i in s.garbage
  }

  function Next(s: State, e: Event): State
    requires Enabled(s, e)
  {
    match e
    case Connect(c, chan, selected) => SetConn(s, c, Conn(None, chan, selected, Idle))
    case SetChannel(c, ch) => SetConn(s, c, s.conns[c].(chan := Some(ch), selected := None))
    case SelectFile(c, file) => SetConn(s, c, s.conns[c].(selected := file))
    case Pick(c, number) => SetConn(s, c, s.conns[c].(pc := Asking(PickKey(s, s.conns[c], number))))
    case Lookup(c) => LookedUp(Touch(s, Examined(s, s.conns[c])), c, s.conns[c].pc.key)
    case LoadFailed(c) => SetConn(s, c, s.conns[c].(pc := Idle))
    case Insert(c, i, img) => Inserted(Alloc(Touch(s, ListOf(s, img.chan)), i, img), c, s.conns[c].pc.key, i, img)
    case Unload(c, lastuse) => Unloaded(s, c, s.conns[c].pc.img, lastuse)
    case Disconnect(c) => SetConn(s, c, s.conns[c].(last := None, pc := Releasing(s.conns[c].last)))
    case DropLast(c) => Dropped(s, c)
    case ClearBegin(t, ch) => DetachAll(SetDetached(s, t, []), t, ch, |ListOf(s, ch)|)
    case ClearNext(t) => ClearedNext(s, t)
    case FreeImage(i) => Free(s, i)
  }

  /** image_release of conn_destroy, and the end of the connection. */
  function Dropped(s: State, c: ConnId): State
    requires c in s.conns
  {
    var conn := s.conns[c];
    var s1 := SetConn(s, c, conn.(last := None, pc := Idle));
    ReleaseOpt(s1.(conns := s1.conns - {c}), PinOf(conn.pc))
  }

  // ----- Every region keeps the invariant -----

  lemma ReleaseOptKeeps(s: State, x: multiset<Id>, o: Option<Id>)
    requires Inv(s, x + One(o))
    ensures Inv(ReleaseOpt(s, o), x)
  {
    if o.Some? {
      ReleaseKeeps(s, x + One(o), o.value);
      assert x + One(o) - multiset{o.value} == x;
    }
  }

  lemma AdoptKeeps(s: State, x: multiset<Id>, c: ConnId, key: Key, i: Id)
    requires c in s.conns && PinOf(s.conns[c].pc) == None && Inv(s, x + multiset{i})
    requires Matches(key, ImageAt(s, i)) && ConnOk(s.live, |s.caches|, s.conns[c])
    ensures Inv(Adopt(s, c, key, i), x)
  {
    var conn := s.conns[c];
    assert Count(s, i) == Refs(s, i) + (x + multiset{i})[i];
    RetainKeeps(s, x + multiset{i}, i);
    var conn' := conn.(last := Some(i), pc := Holding(key, i));
    assert x + One(conn.last) + Held(conn') == x + multiset{i} + multiset{i} + Held(conn);
    SetConnKeeps(Retain(s, i), x + multiset{i} + multiset{i}, c, conn', x + One(conn.last));
    ReleaseOptKeeps(SetConn(Retain(s, i), c, conn'), x, conn.last);
  }

  lemma LastLive(s: State, x: multiset<Id>, c: ConnId, i: Id)
    requires Inv(s, x) && c in s.conns && (s.conns[c].last == Some(i) || PinOf(s.conns[c].pc) == Some(i))
    ensures Count(s, i) > 0 && i in s.live
  {
    assert Count(s, i) == Refs(s, i) + x[i];
    assert c in Lasts(s.conns, i) || c in Pins(s.conns, i);
  }

  lemma CachedLive(s: State, x: multiset<Id>, ch: nat, i: Id)
    requires Inv(s, x) && i in ListOf(s, ch)
    ensures Count(s, i) > 0 && i in s.live && i in s.cached && s.live[i].chan == ch
  {
    assert ListOk(s.live, s.cached, ch, s.caches[ch]);
    assert Count(s, i) == Refs(s, i) + x[i];
  }

  /** image_cache_size cannot underflow when a cached image is removed. */
  lemma CachedSize(s: State, x: multiset<Id>, i: Id)
    requires Inv(s, x) && i in s.cached
    ensures i in s.live && s.live[i].chan < |s.caches| && s.cacheSize >= s.live[i].length
  {
    UnlinkKeeps(s, x, i);
  }

  lemma ListLive(s: State, x: multiset<Id>, ch: nat)
    requires Inv(s, x)
    ensures Touch(s, ListOf(s, ch)) == s
  {
    if ch < |s.caches| {
      assert ListOk(s.live, s.cached, ch, s.caches[ch]);
    }
  }

  lemma ExaminedLive(s: State, c: ConnId)
    requires Inv(s, multiset{}) && c in s.conns
    ensures Touch(s, Examined(s, s.conns[c])) == s
  {
    var conn := s.conns[c];
    if conn.last.Some? {
      LastLive(s, multiset{}, c, conn.last.value);
    }
    if conn.chan.Some? {
      ListLive(s, multiset{}, conn.chan.value);
    }
  }

  /** A change of a connection that keeps its references. */
  lemma RelabelKeeps(s: State, c: ConnId, conn: Conn)
    requires Inv(s, multiset{}) && ConnOk(s.live, |s.caches|, conn)
    requires if c in s.conns then Held(conn) == Held(s.conns[c]) else Held(conn) == multiset{}
    ensures Inv(SetConn(s, c, conn), multiset{})
  {
    SetConnKeeps(s, multiset{}, c, conn, multiset{});
  }

  lemma HitKeeps(s: State, c: ConnId, key: Key, i: Id)
    requires Inv(s, multiset{}) && c in s.conns && s.conns[c].pc == Asking(key)
    requires s.conns[c].last == Some(i) && Matches(key, ImageAt(s, i))
    ensures Inv(SetConn(Retain(s, i), c, s.conns[c].(pc := Holding(key, i))), multiset{})
  {
    LastLive(s, multiset{}, c, i);
    RetainKeeps(s, multiset{}, i);
    var conn' := s.conns[c].(pc := Holding(key, i));
    assert multiset{} + Held(conn') == multiset{} + multiset{i} + Held(s.conns[c]);
    SetConnKeeps(Retain(s, i), multiset{} + multiset{i}, c, conn', multiset{});
  }

  lemma ChannelHitKeeps(s: State, c: ConnId, key: Key, ch: nat, i: Id)
    requires Inv(s, multiset{}) && c in s.conns && s.conns[c].pc == Asking(key)
    requires i in ListOf(s, ch) && Matches(key, ImageAt(s, i))
    ensures Inv(Adopt(Retain(s, i), c, key, i), multiset{})
  {
    CachedLive(s, multiset{}, ch, i);
    RetainKeeps(s, multiset{}, i);
    AdoptKeeps(Retain(s, i), multiset{}, c, key, i);
  }

  lemma LookupKeeps(s: State, c: ConnId, key: Key)
    requires Inv(s, multiset{}) && c in s.conns && s.conns[c].pc == Asking(key)
    ensures Inv(LookedUp(s, c, key), multiset{})
  {
    var conn := s.conns[c];
    assert ConnOk(s.live, |s.caches|, conn);
    if conn.last.Some? && Matches(key, ImageAt(s, conn.last.value)) {
      HitKeeps(s, c, key, conn.last.value);
    } else if conn.chan.None? {
      RelabelKeeps(s, c, conn.(pc := Idle));
    } else {
      var ch := conn.chan.value;
      var r := LookupNumber(s, ListOf(s, ch), if key.Named? then NAMED else key.number);
      if r.Some? {
        ChannelHitKeeps(s, c, key, ch, r.value);
      } else {
        RelabelKeeps(s, c, conn.(pc := Fetching(ch, key)));
      }
    }
  }

  lemma NewImageKeeps(s: State, c: ConnId, key: Key, i: Id)
    requires Inv(s, multiset{i}) && c in s.conns && s.conns[c].pc.Fetching? && i in s.live && i !in s.cached
    requires Matches(key, s.live[i]) && s.live[i].chan < |s.caches|
    requires Collision(s, ListOf(s, s.live[i].chan), s.live[i]).None?
    ensures Inv(Adopt(Link(Retain(s, i), i), c, key, i), multiset{})
  {
    assert Count(s, i) == Refs(s, i) + multiset{i}[i];
    RetainKeeps(s, multiset{i}, i);
    LinkKeeps(Retain(s, i), multiset{i} + multiset{i}, i);
    assert multiset{i} + multiset{i} - multiset{i} == multiset{} + multiset{i};
    AdoptKeeps(Link(Retain(s, i), i), multiset{}, c, key, i);
  }

  lemma CollisionKeeps(s: State, c: ConnId, key: Key, i: Id, ch: nat, j: Id)
    requires Inv(s, multiset{i}) && c in s.conns && s.conns[c].pc.Fetching?
    requires j in ListOf(s, ch) && Matches(key, ImageAt(s, j))
    ensures Inv(Release(Adopt(Retain(s, j), c, key, j), i), multiset{})
  {
    CachedLive(s, multiset{i}, ch, j);
    RetainKeeps(s, multiset{i}, j);
    AdoptKeeps(Retain(s, j), multiset{i}, c, key, j);
    ReleaseKeeps(Adopt(Retain(s, j), c, key, j), multiset{i}, i);
    assert multiset{i} - multiset{i} == multiset{};
  }

  /** The image loaded in vain is still there to be released. */
  lemma DuplicateLive(s: State, c: ConnId, key: Key, i: Id, ch: nat, j: Id)
    requires Inv(s, multiset{i}) && c in s.conns && s.conns[c].pc.Fetching?
    requires j in ListOf(s, ch) && Matches(key, ImageAt(s, j))
    ensures i in s.live && Count(Adopt(Retain(s, j), c, key, j), i) > 0
  {
    CachedLive(s, multiset{i}, ch, j);
    RetainKeeps(s, multiset{i}, j);
    AdoptKeeps(Retain(s, j), multiset{i}, c, key, j);
    var s' := Adopt(Retain(s, j), c, key, j);
    assert Count(s', i) == Refs(s', i) + multiset{i}[i];
    assert Count(s, i) == Refs(s, i) + multiset{i}[i];
  }

  lemma AllocReady(s: State, c: ConnId, i: Id, img: Image)
    requires Inv(s, multiset{}) && Enabled(s, Insert(c, i, img))
    ensures Inv(Alloc(s, i, img), multiset{i}) && i !in s.cached && img.chan < |s.caches|
    ensures Next(s, Insert(c, i, img)) == Inserted(Alloc(s, i, img), c, s.conns[c].pc.key, i, img)
  {
    assert ConnOk(s.live, |s.caches|, s.conns[c]);
    ListLive(s, multiset{}, img.chan);
    AllocKeeps(s, multiset{}, i, img);
    assert multiset{} + multiset{i} == multiset{i};
  }

  lemma InsertKeeps(s: State, c: ConnId, i: Id, img: Image)
    requires Inv(s, multiset{}) && Enabled(s, Insert(c, i, img))
    ensures Inv(Next(s, Insert(c, i, img)), multiset{})
  {
    AllocReady(s, c, i, img);
    var s1, key := Alloc(s, i, img), s.conns[c].pc.key;
    var r := Collision(s1, ListOf(s1, img.chan), img);
    if r.None? {
      NewImageKeeps(s1, c, key, i);
    } else {
      CachedLive(s1, multiset{i}, img.chan, r.value);
      CollisionKeeps(s1, c, key, i, img.chan, r.value);
      assert s1.(ok := s1.ok && r.value in s1.cached) == s1;
    }
  }

  /** The first ignored release of image_unload leaves the caller's reference. */
  lemma DropSlotKeeps(s: State, c: ConnId, i: Id)
    requires Inv(s, multiset{i}) && c in s.conns && s.conns[c].pc.Idle? && s.conns[c].last == Some(i)
    ensures Inv(DropSlot(s, c, i), multiset{i}) && Count(s, i) > 1
  {
    assert Count(s, i) == Refs(s, i) + multiset{i}[i];
    assert c in Lasts(s.conns, i);
    var conn' := s.conns[c].(last := None);
    assert multiset{i, i} + Held(conn') == multiset{i} + Held(s.conns[c]);
    SetConnKeeps(s, multiset{i}, c, conn', multiset{i, i});
    ReleaseKeeps(SetConn(s, c, conn'), multiset{i, i}, i);
    assert multiset{i, i} - multiset{i} == multiset{i};
  }

  /** So does the second. */
  lemma DropCachedKeeps(s: State, i: Id)
    requires Inv(s, multiset{i})
    ensures Inv(DropCached(s, i), multiset{i}) && (i in s.cached ==> Count(s, i) > 1)
  {
    assert Count(s, i) == Refs(s, i) + multiset{i}[i];
    if ImageAt(s, i).isLocal && i in s.cached {
      UnlinkKeeps(s, multiset{i}, i);
      ReleaseKeeps(Unlink(s, i), multiset{i} + multiset{i}, i);
      assert multiset{i} + multiset{i} - multiset{i} == multiset{i};
    }
  }

  /** image_unload takes over the reference that image_load gave out. */
  lemma UnpinKeeps(s: State, c: ConnId, i: Id)
    requires Inv(s, multiset{}) && c in s.conns && s.conns[c].pc.Holding? && s.conns[c].pc.img == i
    ensures Inv(SetConn(s, c, s.conns[c].(pc := Idle)), multiset{i}) && s.conns[c].last == Some(i)
  {
    assert ConnOk(s.live, |s.caches|, s.conns[c]);
    var conn' := s.conns[c].(pc := Idle);
    assert multiset{i} + Held(conn') == multiset{} + Held(s.conns[c]);
    SetConnKeeps(s, multiset{}, c, conn', multiset{i});
  }

  lemma UnloadKeeps(s: State, c: ConnId, i: Id, lastuse: bool)
    requires Inv(s, multiset{}) && c in s.conns && s.conns[c].pc.Holding? && s.conns[c].pc.img == i
    ensures Inv(Unloaded(s, c, i, lastuse), multiset{})
  {
    UnpinKeeps(s, c, i);
    var s1 := SetConn(s, c, s.conns[c].(pc := Idle));
    if lastuse {
      DropSlotKeeps(s1, c, i);
      DropCachedKeeps(DropSlot(s1, c, i), i);
      ReleaseKeeps(DropCached(DropSlot(s1, c, i), i), multiset{i}, i);
    } else {
      ReleaseKeeps(s1, multiset{i}, i);
    }
    assert multiset{i} - multiset{i} == multiset{};
  }

  lemma DisconnectKeeps(s: State, c: ConnId)
    requires Inv(s, multiset{}) && c in s.conns && s.conns[c].pc.Idle?
    ensures Inv(Next(s, Disconnect(c)), multiset{})
  {
    var conn := s.conns[c];
    assert ConnOk(s.live, |s.caches|, conn);
    var conn' := conn.(last := None, pc := Releasing(conn.last));
    assert Held(conn') == Held(conn);
    RelabelKeeps(s, c, conn');
  }

  lemma DropLastKeeps(s: State, c: ConnId)
    requires Inv(s, multiset{}) && c in s.conns && s.conns[c].pc.Releasing?
    ensures Inv(Dropped(s, c), multiset{})
  {
    var conn := s.conns[c];
    assert ConnOk(s.live, |s.caches|, conn);
    var x := multiset{} + One(PinOf(conn.pc));
    var conn' := conn.(last := None, pc := Idle);
    assert x + Held(conn') == multiset{} + Held(conn);
    SetConnKeeps(s, multiset{}, c, conn', x);
    var s1 := SetConn(s, c, conn');
    DropConnKeeps(s1, x, c);
    ReleaseOptKeeps(s1.(conns := s1.conns - {c}), multiset{}, PinOf(conn.pc));
  }

  // ----- Clearing a channel's cache -----

  /** Inside the loop: what the clear took is no longer cached. */
  ghost predicate Clearing(s: State, t: Thread) {
    Inv(s, multiset{}) && t in s.clears && forall j :: j in s.clears[t] ==> j !in s.cached
  }

  lemma DetachFirstKeeps(s: State, t: Thread, ch: nat, i: Id)
    requires Clearing(s, t) && ListOf(s, ch) != [] && i == ListOf(s, ch)[0]
    ensures Clearing(DetachFirst(s, t, i), t) && ListOf(DetachFirst(s, t, i), ch) == ListOf(s, ch)[1..]
  {
    CachedLive(s, multiset{}, ch, i);
    UnlinkKeeps(s, multiset{}, i);
    DetachKeeps(Unlink(s, i), multiset{} + multiset{i}, t, i);
    assert multiset{} + multiset{i} - multiset{i} == multiset{};
    assert s.(ok := s.ok && i in s.cached) == s;
  }

  lemma DetachUnfold(s: State, t: Thread, ch: nat, q: seq<Id>)
    requires q == ListOf(s, ch) && q != []
    ensures DetachAll(s, t, ch, |q|) == DetachAll(DetachFirst(s, t, q[0]), t, ch, |q[1..]|)
  {
  }

  /** One turn of the loop. */
  lemma DetachStep(s: State, t: Thread, ch: nat, q: seq<Id>, end: State) returns (s1: State)
    requires Clearing(s, t) && q == ListOf(s, ch) && q != [] && end == DetachAll(s, t, ch, |q|)
    ensures Clearing(s1, t) && ListOf(s1, ch) == q[1..] && end == DetachAll(s1, t, ch, |q[1..]|)
    ensures Detached(s1, t) == [q[0]] + Detached(s, t)
  {
    DetachFirstKeeps(s, t, ch, q[0]);
    DetachUnfold(s, t, ch, q);
    return DetachFirst(s, t, q[0]);
  }

  lemma {:induction false} DetachAllKeeps(s: State, t: Thread, ch: nat, q: seq<Id>, end: State)
    requires Clearing(s, t) && q == ListOf(s, ch) && end == DetachAll(s, t, ch, |q|)
    ensures Clearing(end, t) && ListOf(end, ch) == []
    decreases |q|
  {
    if q != [] {
      var s1 := DetachStep(s, t, ch, q, end);
      DetachAllKeeps(s1, t, ch, q[1..], end);
    }
  }

  function Reversed(q: seq<Id>): seq<Id> { if q == [] then [] else Reversed(q[1..]) + [q[0]] }

  lemma {:induction false} DetachAllMoves(s: State, t: Thread, ch: nat, q: seq<Id>, end: State)
    requires Clearing(s, t) && q == ListOf(s, ch) && end == DetachAll(s, t, ch, |q|)
    ensures Detached(end, t) == Reversed(q) + Detached(s, t)
    decreases |q|
  {
    if q == [] {
      assert Reversed(q) + Detached(s, t) == Detached(s, t);
    } else {
      var s1 := DetachStep(s, t, ch, q, end);
      DetachAllMoves(s1, t, ch, q[1..], end);
      ReversedMoves(q, Detached(s, t), Detached(s1, t));
    }
  }

  lemma ReversedMoves(q: seq<Id>, d: seq<Id>, d': seq<Id>)
    requires q != [] && d' == [q[0]] + d
    ensures Reversed(q[1..]) + d' == Reversed(q) + d
  {
  }

  /** Clearing detaches the whole cache of the channel in one step. */
  lemma ClearBeginKeeps(s: State, t: Thread, ch: nat)
    requires Inv(s, multiset{}) && Enabled(s, ClearBegin(t, ch))
    ensures Inv(Next(s, ClearBegin(t, ch)), multiset{})
    ensures ListOf(Next(s, ClearBegin(t, ch)), ch) == []
    ensures Detached(Next(s, ClearBegin(t, ch)), t) == Reversed(ListOf(s, ch))
  {
    EmptyClearKeeps(s, multiset{}, t);
    DetachAllKeeps(SetDetached(s, t, []), t, ch, ListOf(s, ch), Next(s, ClearBegin(t, ch)));
    DetachAllMoves(SetDetached(s, t, []), t, ch, ListOf(s, ch), Next(s, ClearBegin(t, ch)));
    assert Reversed(ListOf(s, ch)) + [] == Reversed(ListOf(s, ch));
  }

  lemma ClearNextKeeps(s: State, t: Thread)
    requires Inv(s, multiset{}) && t in s.clears
    ensures Inv(ClearedNext(s, t), multiset{})
  {
    if s.clears[t] == [] {
      EmptyClearKeeps(s, multiset{}, t);
    } else {
      var i := s.clears[t][0];
      PopKeeps(s, multiset{}, t);
      ReleaseKeeps(SetDetached(s, t, s.clears[t][1..]), multiset{} + multiset{i}, i);
      assert multiset{} + multiset{i} - multiset{i} == multiset{};
    }
  }

  // ----- What `ok` records -----

  /** Each operation is fine exactly when it touches live images only and its assertions hold. */
  lemma TrapsExactly(s: State, i: Id, t: Thread, c: ConnId, q: seq<Id>)
    ensures Touch(s, q).ok <==> s.ok && forall j :: j in q ==> j in s.live
    ensures Retain(s, i).ok <==> s.ok && i in s.live
    ensures Release(s, i).ok <==> s.ok && i in s.live && Count(s, i) > 0
    ensures Free(s, i).ok <==> s.ok && i in s.live && Count(s, i) == 0 && i !in s.cached
    ensures Link(s, i).ok <==> s.ok && i in s.live && i !in s.cached
    ensures Unlink(s, i).ok <==> s.ok && i in s.live && s.cacheSize >= s.live[i].length
    ensures DetachFirst(s, t, i).ok <==> s.ok && i in s.live && i in s.cached && s.cacheSize >= s.live[i].length
    ensures c in s.conns ==>
      (DropSlot(s, c, i).ok <==> s.ok && s.conns[c].last == Some(i) && Count(s, i) > 1 && i in s.live)
    ensures ImageAt(s, i).isLocal && i in s.cached ==>
      (DropCached(s, i).ok <==> s.ok && Count(s, i) > 1 && i in s.live && s.cacheSize >= s.live[i].length)
  {
  }

  /** A lookup looks at the last image and at the channel's cache. */
  lemma ExaminedCovers(s: State, conn: Conn, i: Id)
    ensures i in Examined(s, conn) <==> conn.last == Some(i) || (conn.chan.Some? && i in ListOf(s, conn.chan.value))
  {
  }

  // ----- Whole runs -----

  /** Steps that change what a connection asks for, not what it owns. */
  lemma ConnStepKeeps(s: State, e: Event)
    requires Inv(s, multiset{}) && Enabled(s, e) && (e.SetChannel? || e.SelectFile? || e.Pick? || e.LoadFailed?)
    ensures Inv(Next(s, e), multiset{})
  {
    var conn := s.conns[e.c];
    assert ConnOk(s.live, |s.caches|, conn);
    match e
    case SetChannel(c, ch) => RelabelKeeps(s, c, conn.(chan := Some(ch), selected := None));
    case SelectFile(c, file) => RelabelKeeps(s, c, conn.(selected := file));
    case Pick(c, number) => RelabelKeeps(s, c, conn.(pc := Asking(PickKey(s, conn, number))));
    case LoadFailed(c) => RelabelKeeps(s, c, conn.(pc := Idle));
  }

  lemma NextKeeps(s: State, e: Event)
    requires Inv(s, multiset{}) && Enabled(s, e)
    ensures Inv(Next(s, e), multiset{})
  {
    match e
    case Connect(c, chan, selected) => RelabelKeeps(s, c, Conn(None, chan, selected, Idle));
    case SetChannel(_, _) => ConnStepKeeps(s, e);
    case SelectFile(_, _) => ConnStepKeeps(s, e);
    case Pick(_, _) => ConnStepKeeps(s, e);
    case Lookup(c) =>
      ExaminedLive(s, c);
      LookupKeeps(s, c, s.conns[c].pc.key);
    case LoadFailed(_) => ConnStepKeeps(s, e);
    case Insert(c, i, img) => InsertKeeps(s, c, i, img);
    case Unload(c, lastuse) => UnloadKeeps(s, c, s.conns[c].pc.img, lastuse);
    case Disconnect(c) => DisconnectKeeps(s, c);
    case DropLast(c) => DropLastKeeps(s, c);
    case ClearBegin(t, ch) => ClearBeginKeeps(s, t, ch);
    case ClearNext(t) => ClearNextKeeps(s, t);
    case FreeImage(i) => FreeKeeps(s, i);
  }

  function Step(s: State, e: Event): State { if Enabled(s, e) then Next(s, e) else s }

  function Run(s: State, events: seq<Event>): State
    decreases |events|
  {
    if events == [] then s else Run(Step(s, events[0]), events[1..])
  }

  lemma {:induction false} TotalEmpty(live: map<Id, Image>, caches: seq<seq<Id>>)
    requires forall ch :: 0 <= ch < |caches| ==> caches[ch] == []
    ensures Total(live, caches) == 0
  {
    if caches != [] {
      TotalEmpty(live, caches[1..]);
    }
  }

  lemma InitialInv(channels: nat, defaults: seq<Option<string>>)
    ensures Inv(Initial(channels, defaults), multiset{})
  {
    var s := Initial(channels, defaults);
    TotalEmpty(s.live, s.caches);
    forall i: Id
      ensures Count(s, i) == Refs(s, i) + multiset{}[i]
    {
      assert Lasts(s.conns, i) == {} && Pins(s.conns, i) == {} && Detachers(s.clears, i) == {};
    }
  }

  lemma {:induction false} RunKeeps(s: State, events: seq<Event>)
    requires Inv(s, multiset{})
    ensures Inv(Run(s, events), multiset{})
    decreases |events|
  {
    if events != [] {
      if Enabled(s, events[0]) {
        NextKeeps(s, events[0]);
      }
      RunKeeps(Step(s, events[0]), events[1..]);
    }
  }

  /** In every reachable state no assertion has failed, no freed image was touched, and a
      reference count is exactly the number of owners. */
  lemma RefcntIsOwners(channels: nat, defaults: seq<Option<string>>, events: seq<Event>, i: Id)
    ensures var s := Run(Initial(channels, defaults), events);
      && s.ok && (i in s.live <==> i in s.refcnt)
      && (i in s.live ==>
            s.refcnt[i] == (if i in s.cached then 1 else 0)
                           + |Lasts(s.conns, i)| + |Pins(s.conns, i)| + |Detachers(s.clears, i)|)
  {
    InitialInv(channels, defaults);
    RunKeeps(Initial(channels, defaults), events);
    var s := Run(Initial(channels, defaults), events);
    assert Count(s, i) == Refs(s, i) + multiset{}[i];
  }

  /** In every reachable state image_cache_size is the sum of the lengths of the cached images,
      the cached flag says which list an image is on, and a channel caches at most one image
      per number and per selected name. */
  lemma CacheConsistent(channels: nat, defaults: seq<Option<string>>, events: seq<Event>, i: Id, j: Id)
    ensures var s := Run(Initial(channels, defaults), events);
      && s.cacheSize == Total(s.live, s.caches) >= 0
      && (i in s.cached <==> exists ch :: 0 <= ch < |s.caches| && i in s.caches[ch])
      && (i in s.cached ==> i in s.live && i in ListOf(s, s.live[i].chan) && NoDup(ListOf(s, s.live[i].chan)))
      && (i in s.cached && j in s.cached && i != j && ImageAt(s, i).chan == ImageAt(s, j).chan ==>
            !SameKey(ImageAt(s, i), ImageAt(s, j)))
  {
    InitialInv(channels, defaults);
    RunKeeps(Initial(channels, defaults), events);
    var s := Run(Initial(channels, defaults), events);
    if i in s.cached {
      var ch := s.live[i].chan;
      assert ListOk(s.live, s.cached, ch, s.caches[ch]);
    }
    forall ch | 0 <= ch < |s.caches| && i in s.caches[ch]
      ensures i in s.cached && ch >= 0
    {
      assert ListOk(s.live, s.cached, ch, s.caches[ch]);
    }
  }

  /** Whatever a load hands out is live, is the last image of the connection, and has the
      number or the name that was asked for. */
  lemma LoadedMatches(channels: nat, defaults: seq<Option<string>>, events: seq<Event>, c: ConnId)
    ensures var s := Run(Initial(channels, defaults), events);
      c in s.conns && s.conns[c].pc.Holding? ==>
        var i := s.conns[c].pc.img;
        i in s.live && Count(s, i) >= 2 && s.conns[c].last == Some(i) && Matches(s.conns[c].pc.key, s.live[i])
  {
    InitialInv(channels, defaults);
    RunKeeps(Initial(channels, defaults), events);
    var s := Run(Initial(channels, defaults), events);
    if c in s.conns && s.conns[c].pc.Holding? {
      var i := s.conns[c].pc.img;
      assert ConnOk(s.live, |s.caches|, s.conns[c]);
      assert Count(s, i) == Refs(s, i) + multiset{}[i];
      assert c in Lasts(s.conns, i) && c in Pins(s.conns, i);
    }
  }

  // ----- Freeing -----

  /** An image may be freed exactly when it is live and nothing can reach it any more. */
  lemma FreedExactlyUnreachable(s: State, i: Id)
    requires Inv(s, multiset{})
    ensures Enabled(s, FreeImage(i)) <==>
      && i in s.live && (forall ch :: 0 <= ch < |s.caches| ==> i !in s.caches[ch])
      && (forall c :: c in s.conns ==> s.conns[c].last != Some(i) && PinOf(s.conns[c].pc) != Some(i))
      && (forall t :: t in s.clears ==> i !in s.clears[t])
  {
    assert Count(s, i) == Refs(s, i) + multiset{}[i];
    if i in s.garbage {
      forall ch | 0 <= ch < |s.caches|
        ensures i !in s.caches[ch]
      {
        assert ListOk(s.live, s.cached, ch, s.caches[ch]);
      }
      assert Lasts(s.conns, i) == {} && Pins(s.conns, i) == {} && Detachers(s.clears, i) == {};
      assert forall c :: c in s.conns && s.conns[c].last == Some(i) ==> c in Lasts(s.conns, i);
      assert forall c :: c in s.conns && PinOf(s.conns[c].pc) == Some(i) ==> c in Pins(s.conns, i);
      assert forall t :: t in s.clears && i in s.clears[t] ==> t in Detachers(s.clears, i);
    } else if i in s.live {
      assert i in s.cached || Lasts(s.conns, i) != {} || Pins(s.conns, i) != {} || Detachers(s.clears, i) != {};
    }
  }

  /** How often a run frees an image. */
  function Frees(s: State, events: seq<Event>, i: Id): nat
    decreases |events|
  {
    if events == [] then 0
    else (if events[0] == FreeImage(i) && Enabled(s, events[0]) then 1 else 0) + Frees(Step(s, events[0]), events[1..], i)
  }

  lemma LookedUpFreed(s: State, c: ConnId, key: Key)
    requires c in s.conns
    ensures LookedUp(s, c, key).freed == s.freed
  {
  }

  lemma InsertedFreed(s: State, c: ConnId, key: Key, i: Id, img: Image)
    requires c in s.conns
    ensures Inserted(s, c, key, i, img).freed == s.freed
  {
  }

  /** An image is freed by its own free and by no other step, and stays freed. */
  lemma FreedExactly(s: State, e: Event, i: Id)
    requires Enabled(s, e)
    ensures i in Next(s, e).freed <==> i in s.freed || e == FreeImage(i)
  {
    match e
    case Lookup(c) => LookedUpFreed(Touch(s, Examined(s, s.conns[c])), c, s.conns[c].pc.key);
    case Insert(c, j, img) => InsertedFreed(Alloc(Touch(s, ListOf(s, img.chan)), j, img), c, s.conns[c].pc.key, j, img);
    case ClearBegin(t, ch) => DetachAllFreed(SetDetached(s, t, []), t, ch, |ListOf(s, ch)|);
    case _ =>
  }

  lemma {:induction false} DetachAllFreed(s: State, t: Thread, ch: nat, n: nat)
    ensures DetachAll(s, t, ch, n).freed == s.freed
    decreases n
  {
    if n > 0 && ListOf(s, ch) != [] {
      DetachAllFreed(DetachFirst(s, t, ListOf(s, ch)[0]), t, ch, n - 1);
    }
  }

  /** Over a whole run an image is freed at most once, and never again once freed: exactly once if
      it is freed at the end and was not at the beginning. */
  lemma {:induction false} FreedAtMostOnce(s: State, events: seq<Event>, i: Id)
    requires Inv(s, multiset{})
    ensures Frees(s, events, i) == if i in Run(s, events).freed && i !in s.freed then 1 else 0
    ensures i in s.freed ==> i in Run(s, events).freed
    decreases |events|
  {
    if events != [] {
      var e := events[0];
      if Enabled(s, e) {
        NextKeeps(s, e);
        FreedExactly(s, e, i);
      }
      FreedAtMostOnce(Step(s, e), events[1..], i);
    }
  }

  /** Nothing leaks: with no connection, no clear under way and empty caches, every image
      left is on its way to image_free. */
  lemma NothingLeaks(s: State)
    requires Inv(s, multiset{}) && s.conns == map[] && s.clears == map[]
    requires forall ch :: 0 <= ch < |s.caches| ==> s.caches[ch] == []
    ensures s.live.Keys == s.garbage && s.cacheSize == 0
  {
    TotalEmpty(s.live, s.caches);
    forall i: Id | i in s.live
      ensures i in s.garbage
    {
      assert Count(s, i) == Refs(s, i) + multiset{}[i];
      assert Lasts(s.conns, i) == {} && Pins(s.conns, i) == {} && Detachers(s.clears, i) == {};
    }
  }

  lemma SubsetSize<T>(a: set<T>, b: set<T>)
    requires a <= b
    ensures |a| <= |b|
  {
    assert b == a + (b - a);
  }

  /** The 32-bit count cannot wrap while there are fewer than 2^32 possible owners. */
  lemma RefcntBounded(s: State, i: Id)
    requires Inv(s, multiset{}) && i in s.live
    ensures 0 <= s.refcnt[i] <= 1 + 2 * |s.conns| + |s.clears|
  {
    assert Count(s, i) == Refs(s, i) + multiset{}[i];
    SubsetSize(Lasts(s.conns, i), s.conns.Keys);
    SubsetSize(Pins(s.conns, i), s.conns.Keys);
    SubsetSize(Detachers(s.clears, i), s.clears.Keys);
  }
}
