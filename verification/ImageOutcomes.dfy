/** What every step on the image cache achieves (nabud/image.c, nabud/conn.c), beyond keeping
    the invariant: which image is handed out, cached, given back. */
module ImageOutcomes {
  import opened Options
  import opened ImageCache
  import opened ImageRuns

  /** Some image of the list has the number asked for. */
  ghost predicate Served(s: State, q: seq<Id>, key: Key) {
    key.Numbered? && exists i :: i in q && ImageAt(s, i).number == key.number
  }

  /** A connection alone changes, and neither its channel nor its selection. */
  ghost predicate OnlyConn(s: State, s': State, c: ConnId) {
    && c in s.conns && c in s'.conns && s'.conns.Keys == s.conns.Keys
    && (forall d :: d in s.conns && d != c ==> s'.conns[d] == s.conns[d])
    && s'.conns[c].chan == s.conns[c].chan && s'.conns[c].selected == s.conns[c].selected
  }

  ghost predicate SameCache(s: State, s': State) {
    s'.live == s.live && s'.cached == s.cached && s'.caches == s.caches && s'.cacheSize == s.cacheSize && s'.clears == s.clears
  }

  // ----- Asking -----

  /** Image 000001 stands for the selected file or, without one, for the channel's default file;
      any other number for itself. */
  lemma PickExactly(s: State, c: ConnId, number: nat, file: string)
    requires Enabled(s, Pick(c, number))
    ensures var conn, s' := s.conns[c], Next(s, Pick(c, number));
      && s' == s.(conns := s'.conns) && OnlyConn(s, s', c) && s'.conns[c].last == conn.last && s'.conns[c].pc.Asking?
      && (s'.conns[c].pc.key == Named(file) <==>
            number == 1 && (conn.selected == Some(file) ||
              (conn.selected == None && conn.chan.Some? && conn.chan.value < |s.defaults| && s.defaults[conn.chan.value] == Some(file))))
      && (s'.conns[c].pc.key.Numbered? ==> s'.conns[c].pc.key.number == number)
  {
  }

  /** Changing the channel deselects the file; selecting a file keeps the channel. */
  lemma SelectExactly(s: State, c: ConnId, ch: nat, file: Option<string>)
    requires c in s.conns && ch < |s.caches|
    ensures var s' := Next(s, SetChannel(c, ch));
      s' == s.(conns := s'.conns) && s'.conns == s.conns[c := Conn(s.conns[c].last, Some(ch), None, s.conns[c].pc)]
    ensures var s' := Next(s, SelectFile(c, file));
      s' == s.(conns := s'.conns) && s'.conns == s.conns[c := Conn(s.conns[c].last, s.conns[c].chan, file, s.conns[c].pc)]
  {
  }

  /** A new connection asks for nothing and holds nothing; a load that failed leaves the connection
      as it was before it asked. */
  lemma IdleExactly(s: State, c: ConnId, chan: Option<nat>, selected: Option<string>)
    ensures Enabled(s, Connect(c, chan, selected)) ==>
      var s' := Next(s, Connect(c, chan, selected));
      s' == s.(conns := s'.conns) && s'.conns == s.conns[c := Conn(None, chan, selected, Idle)]
    ensures Enabled(s, LoadFailed(c)) ==>
      var s' := Next(s, LoadFailed(c));
      s' == s.(conns := s'.conns) && OnlyConn(s, s', c) && s'.conns[c].pc == Idle && s'.conns[c].last == s.conns[c].last
  {
  }

  /** A lookup hands out the last image if that satisfies the request; else, with a channel, the
      image in the channel's cache that has the number; else it goes to the loader. */
  lemma LookupExactly(s: State, c: ConnId)
    requires Inv(s, multiset{}) && Enabled(s, Lookup(c))
    ensures var conn, s' := s.conns[c], Next(s, Lookup(c));
      var key, conn' := conn.pc.key, s'.conns[c];
      && SameCache(s, s') && OnlyConn(s, s', c)
      && (if conn.last.Some? && Matches(key, ImageAt(s, conn.last.value)) then
            conn'.pc == Holding(key, conn.last.value) && conn'.last == conn.last
          else if conn.chan.None? then
            conn'.pc == Idle && conn'.last == conn.last
          else if Served(s, ListOf(s, conn.chan.value), key) then
            && conn'.pc.Holding? && conn'.pc.key == key && conn'.last == Some(conn'.pc.img)
            && conn'.pc.img in ListOf(s, conn.chan.value) && ImageAt(s, conn'.pc.img).number == key.number
          else
            conn'.pc == Fetching(conn.chan.value, key) && conn'.last == conn.last)
  {
    ExaminedLive(s, c);
    var conn := s.conns[c];
    assert ConnOk(s.live, |s.caches|, conn);
  }

  // ----- Inserting -----

  /** What is adopted is held and remembered; the cache is not touched. */
  lemma AdoptOutcome(s: State, c: ConnId, key: Key, i: Id, s': State)
    requires c in s.conns && s' == Adopt(s, c, key, i)
    ensures OnlyConn(s, s', c) && SameCache(s, s') && s'.conns[c].pc == Holding(key, i) && s'.conns[c].last == Some(i)
  {
  }

  /** The images of the list are what they were before. */
  lemma AliveAfterAlloc(s: State, i: Id, img: Image, ch: nat)
    requires Inv(s, multiset{}) && i !in s.live
    ensures forall j :: j in ListOf(s, ch) ==> j != i && ImageAt(Alloc(s, i, img), j) == ImageAt(s, j)
  {
    ListLive(s, multiset{}, ch);
    assert Touch(s, ListOf(s, ch)).ok;
  }

  lemma NewOutcome(s: State, c: ConnId, key: Key, i: Id, img: Image, s': State)
    requires c in s.conns && i !in s.live && img.chan < |s.caches|
    requires s' == Adopt(Link(Retain(Alloc(s, i, img), i), i), c, key, i)
    ensures OnlyConn(s, s', c) && s'.conns[c].pc == Holding(key, i) && s'.conns[c].last == Some(i)
    ensures s'.live == s.live[i := img] && s'.cached == s.cached + {i} && s'.cacheSize == s.cacheSize + img.length
    ensures ListOf(s', img.chan) == [i] + ListOf(s, img.chan)
  {
    AdoptOutcome(Link(Retain(Alloc(s, i, img), i), i), c, key, i, s');
  }

  /** An image that collides with none is cached at the head, handed out and remembered. */
  lemma InsertNew(s: State, c: ConnId, i: Id, img: Image, s': State)
    requires Inv(s, multiset{}) && Enabled(s, Insert(c, i, img)) && s' == Next(s, Insert(c, i, img))
    requires forall j :: j in ListOf(s, img.chan) ==> !SameKey(ImageAt(s, j), img)
    ensures OnlyConn(s, s', c) && s'.conns[c].pc == Holding(s.conns[c].pc.key, i) && s'.conns[c].last == Some(i)
    ensures s'.live == s.live[i := img] && s'.cached == s.cached + {i} && s'.cacheSize == s.cacheSize + img.length
    ensures ListOf(s', img.chan) == [i] + ListOf(s, img.chan)
  {
    AllocReady(s, c, i, img);
    AliveAfterAlloc(s, i, img, img.chan);
    var s1 := Alloc(s, i, img);
    assert Collision(s1, ListOf(s1, img.chan), img).None?;
    NewOutcome(s, c, s.conns[c].pc.key, i, img, s');
  }

  /** Only the image in the cache that has the key collides. */
  lemma CollisionIs(s: State, i: Id, img: Image, j: Id)
    requires Inv(s, multiset{}) && i !in s.live && j in ListOf(s, img.chan) && SameKey(ImageAt(s, j), img)
    ensures j in s.cached && j in s.live && Collision(Alloc(s, i, img), ListOf(s, img.chan), img) == Some(j)
  {
    AliveAfterAlloc(s, i, img, img.chan);
    CachedLive(s, multiset{}, img.chan, j);
    assert ListOk(s.live, s.cached, img.chan, s.caches[img.chan]);
    var r := Collision(Alloc(s, i, img), ListOf(s, img.chan), img);
    assert r.Some?;
    assert SameKey(ImageAt(s, r.value), ImageAt(s, j));
  }

  /** On a collision the cached image is handed out and remembered, and the one loaded in vain
      goes to image_free. */
  lemma InsertCollision(s: State, c: ConnId, i: Id, img: Image, j: Id, s': State)
    requires Inv(s, multiset{}) && Enabled(s, Insert(c, i, img)) && s' == Next(s, Insert(c, i, img))
    requires j in ListOf(s, img.chan) && SameKey(ImageAt(s, j), img)
    ensures OnlyConn(s, s', c) && s'.conns[c].pc == Holding(s.conns[c].pc.key, j) && s'.conns[c].last == Some(j)
    ensures s'.caches == s.caches && s'.cached == s.cached && s'.cacheSize == s.cacheSize && i in s'.garbage
  {
    AllocReady(s, c, i, img);
    CollisionIs(s, i, img, j);
    var s1 := Alloc(s, i, img);
    assert s1.(ok := s1.ok && j in s1.cached) == s1;
    AdoptOutcome(Retain(s1, j), c, s.conns[c].pc.key, j, Adopt(Retain(s1, j), c, s.conns[c].pc.key, j));
    InVain(s, c, i, img, j);
  }

  lemma InVain(s: State, c: ConnId, i: Id, img: Image, j: Id)
    requires Inv(s, multiset{}) && Enabled(s, Insert(c, i, img)) && j in s.live
    ensures i in Release(Adopt(Retain(Alloc(s, i, img), j), c, s.conns[c].pc.key, j), i).garbage
  {
    if s.conns[c].last.Some? {
      LastLive(s, multiset{}, c, s.conns[c].last.value);
    }
  }

  // ----- Unloading -----

  /** Unloading gives back the caller's reference; the last use also empties the slot and takes a
      local image out of its cache. */
  lemma UnloadExactly(s: State, c: ConnId, lastuse: bool)
    requires Inv(s, multiset{}) && Enabled(s, Unload(c, lastuse))
    ensures var s', i := Next(s, Unload(c, lastuse)), s.conns[c].pc.img;
      var uncached := lastuse && ImageAt(s, i).isLocal && i in s.cached;
      && OnlyConn(s, s', c) && s'.conns[c].pc == Idle && s'.conns[c].last == (if lastuse then None else Some(i))
      && s'.cached == (if uncached then s.cached - {i} else s.cached)
      && s'.cacheSize == s.cacheSize - (if uncached then ImageAt(s, i).length else 0)
      && Count(s', i) == Count(s, i) - 1 - (if lastuse then 1 else 0) - (if uncached then 1 else 0)
  {
    assert ConnOk(s.live, |s.caches|, s.conns[c]);
  }

  // ----- Clearing, tearing down, freeing -----

  /** A turn of a clear releases the first image it detached and drops it from its list; a turn
      without images ends the clear. */
  lemma ClearNextExactly(s: State, t: Thread)
    requires Inv(s, multiset{}) && t in s.clears
    ensures var s' := Next(s, ClearNext(t));
      if s.clears[t] == [] then s' == s.(clears := s.clears - {t})
      else
        && s'.clears == s.clears[t := s.clears[t][1..]]
        && Count(s', s.clears[t][0]) == Count(s, s.clears[t][0]) - 1
        && s'.caches == s.caches && s'.conns == s.conns
  {
  }

  /** A teardown takes the connection's last image, releases it, and the connection is gone. */
  lemma TeardownExactly(s: State, c: ConnId)
    requires Inv(s, multiset{}) && Enabled(s, Disconnect(c))
    ensures var s1 := Next(s, Disconnect(c));
      && Enabled(s1, DropLast(c))
      && var s2 := Next(s1, DropLast(c));
         && s2.conns == s.conns - {c} && SameCache(s, s2)
         && forall i: Id :: Count(s2, i) == Count(s, i) - if s.conns[c].last == Some(i) then 1 else 0
  {
    var s1 := Next(s, Disconnect(c));
    var s2 := Next(s1, DropLast(c));
    assert s2.conns == s.conns - {c};
  }

  /** A freed image is gone, and nothing else is. */
  lemma FreeExactly(s: State, i: Id)
    requires Inv(s, multiset{}) && Enabled(s, FreeImage(i))
    ensures var s' := Next(s, FreeImage(i));
      && i in s.live && s'.live == s.live - {i} && s'.freed == s.freed + {i} && s'.garbage == s.garbage - {i}
      && s'.caches == s.caches && s'.conns == s.conns && s'.clears == s.clears
  {
  }
}
