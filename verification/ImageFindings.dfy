/** Which image a load hands out, beyond its number or name (nabud/image.c): the channel is
    right except on a last-image hit, and a cached selected file is fetched again. */
module ImageFindings {
  import opened Options
  import opened ImageCache
  import opened ImageRuns

  // ----- The channel of what is handed out -----

  /** A lookup hands out an image of another channel than the selected one exactly when the
      last image satisfies the request and is of another channel. */
  lemma LookupChannelExactly(s: State, c: ConnId)
    requires Inv(s, multiset{}) && Enabled(s, Lookup(c)) && s.conns[c].chan.Some?
    requires Next(s, Lookup(c)).conns[c].pc.Holding?
    ensures var conn, i := s.conns[c], Next(s, Lookup(c)).conns[c].pc.img;
      && i in s.live
      && (s.live[i].chan != conn.chan.value <==>
            conn.last.Some? && Matches(conn.pc.key, ImageAt(s, conn.last.value))
            && ImageAt(s, conn.last.value).chan != conn.chan.value)
  {
    var conn := s.conns[c];
    ExaminedLive(s, c);
    if conn.last.Some? {
      LastLive(s, multiset{}, c, conn.last.value);
    }
    if !(conn.last.Some? && Matches(conn.pc.key, ImageAt(s, conn.last.value))) {
      var ch := conn.chan.value;
      var r := LookupNumber(s, ListOf(s, ch), if conn.pc.key.Named? then NAMED else conn.pc.key.number);
      assert r.Some?;
      CachedLive(s, multiset{}, ch, r.value);
    }
  }

  /** An insertion hands out an image of the channel it was fetched from, on a collision too. */
  lemma InsertChannel(s: State, c: ConnId, i: Id, img: Image)
    requires Inv(s, multiset{}) && Enabled(s, Insert(c, i, img))
    ensures var s' := Next(s, Insert(c, i, img));
      && s'.conns[c].pc.Holding?
      && s'.conns[c].pc.img in s'.live && s'.live[s'.conns[c].pc.img].chan == s.conns[c].pc.chan
  {
    AllocReady(s, c, i, img);
    var s1 := Alloc(s, i, img);
    var r := Collision(s1, ListOf(s1, img.chan), img);
    if r.Some? {
      CachedLive(s1, multiset{i}, img.chan, r.value);
    }
  }

  /** Which is another channel than the one selected by then exactly when that was changed while
      the image was being fetched. */
  lemma InsertChannelExactly(s: State, c: ConnId, i: Id, img: Image)
    requires Inv(s, multiset{}) && Enabled(s, Insert(c, i, img))
    ensures var s' := Next(s, Insert(c, i, img));
      && s'.conns[c].chan == s.conns[c].chan
      && s'.conns[c].pc.Holding? && s'.conns[c].pc.img in s'.live
      && (Some(s'.live[s'.conns[c].pc.img].chan) != s'.conns[c].chan <==> Some(s.conns[c].pc.chan) != s.conns[c].chan)
  {
    InsertChannel(s, c, i, img);
    AllocReady(s, c, i, img);
  }

  // ----- Selected files and the channel's cache -----

  /** A request for a selected file that the last image does not satisfy is never served from
      the channel's cache. */
  lemma NamedNeverHitsChannel(s: State, c: ConnId)
    requires Inv(s, multiset{}) && Enabled(s, Lookup(c)) && s.conns[c].pc.key.Named?
    ensures var conn := s.conns[c];
      Next(s, Lookup(c)).conns[c].pc ==
        if conn.last.Some? && ImageAt(s, conn.last.value).name == conn.pc.key.name then Holding(conn.pc.key, conn.last.value)
        else if conn.chan.None? then Idle
        else Fetching(conn.chan.value, conn.pc.key)
  {
    if s.conns[c].last.Some? {
      LastLive(s, multiset{}, c, s.conns[c].last.value);
    }
  }

  // ----- Runs that reach the exceptional cases -----

  lemma RunCons(s: State, e: Event, rest: seq<Event>)
    ensures Run(s, [e] + rest) == Run(Step(s, e), rest)
  {
    assert ([e] + rest)[1..] == rest;
  }

  lemma {:induction false} RunConcat(s: State, a: seq<Event>, b: seq<Event>)
    ensures Run(s, a + b) == Run(Run(s, a), b)
    decreases |a|
  {
    if a == [] {
      assert a + b == b;
    } else {
      assert (a + b)[1..] == a[1..] + b;
      RunConcat(Step(s, a[0]), a[1..], b);
    }
  }

  /** Two channels; one connection, on channel 0, in the middle of a request. */
  function Alone(defaults: seq<Option<string>>, conn: Conn): State {
    Initial(2, defaults).(conns := map[0 := conn])
  }

  /** The same after the first image came in: one image, cached, with `refs` references. */
  function WithImage(defaults: seq<Option<string>>, conn: Conn, i: Id, img: Image, refs: int): State {
    Alone(defaults, conn).(live := map[i := img], refcnt := map[i := refs], cached := {i}, caches := [[i], []],
                           cacheSize := img.length)
  }

  function AskEvents(selected: Option<string>, number: nat): seq<Event> {
    [Connect(0, Some(0), selected), Pick(0, number), Lookup(0)]
  }

  function LoadEvents(selected: Option<string>, number: nat, i: Id, img: Image): seq<Event> {
    AskEvents(selected, number) + [Insert(0, i, img)]
  }

  /** The first request: nothing is cached. */
  lemma FirstMiss(defaults: seq<Option<string>>, selected: Option<string>, number: nat, key: Key)
    requires number < 0x100_0000
    requires key == PickKey(Initial(2, defaults), Conn(None, Some(0), selected, Idle), number)
    ensures Run(Initial(2, defaults), AskEvents(selected, number))
         == Alone(defaults, Conn(None, Some(0), selected, Fetching(0, key)))
  {
    var conn := Conn(None, Some(0), selected, Idle);
    var s0 := Initial(2, defaults);
    var e := AskEvents(selected, number);
    assert s0.caches == [[], []];
    RunCons(s0, e[0], e[1..]);
    assert e == [e[0]] + e[1..];
    var s1 := Alone(defaults, conn);
    assert Step(s0, e[0]) == s1;
    RunCons(s1, e[1], e[2..]);
    assert e[1..] == [e[1]] + e[2..];
    var s2 := Alone(defaults, conn.(pc := Asking(key)));
    assert Step(s1, e[1]) == s2;
    RunCons(s2, e[2], []);
    assert e[2..] == [e[2]] + [];
  }

  /** The first load: the image is cached, is the last image, and is held. */
  lemma FirstLoad(defaults: seq<Option<string>>, selected: Option<string>, number: nat, key: Key, i: Id, img: Image)
    requires number < 0x100_0000 && Made(img, 0, key)
    requires key == PickKey(Initial(2, defaults), Conn(None, Some(0), selected, Idle), number)
    ensures Run(Initial(2, defaults), LoadEvents(selected, number, i, img))
         == WithImage(defaults, Conn(Some(i), Some(0), selected, Holding(key, i)), i, img, 3)
  {
    var conn := Conn(None, Some(0), selected, Fetching(0, key));
    RunConcat(Initial(2, defaults), AskEvents(selected, number), [Insert(0, i, img)]);
    FirstMiss(defaults, selected, number, key);
    RunCons(Alone(defaults, conn), Insert(0, i, img), []);
    assert [Insert(0, i, img)] + [] == [Insert(0, i, img)];
    FirstInsert(defaults, conn, key, i, img);
  }

  lemma FirstInsert(defaults: seq<Option<string>>, conn: Conn, key: Key, i: Id, img: Image)
    requires conn.pc == Fetching(0, key) && conn.last.None? && Made(img, 0, key)
    ensures Step(Alone(defaults, conn), Insert(0, i, img))
         == WithImage(defaults, conn.(last := Some(i), pc := Holding(key, i)), i, img, 3)
  {
    var s := Alone(defaults, conn);
    assert s.caches == [[], []];
    var s1 := Alloc(s, i, img);
    assert s1.live == map[i := img] && s1.refcnt == map[i := 1];
    var s2 := Link(Retain(s1, i), i);
    assert [i] + [] == [i];
    assert s2 == WithImage(defaults, conn, i, img, 2);
    assert Touch(s, ListOf(s, img.chan)) == s;
    var s3 := Adopt(s2, 0, key, i);
    assert s3 == WithImage(defaults, conn.(last := Some(i), pc := Holding(key, i)), i, img, 3);
  }

  /** Unloading the image: the cache keeps it, and the last-image slot unless this was the last use. */
  lemma FirstUnload(defaults: seq<Option<string>>, conn: Conn, i: Id, img: Image, lastuse: bool)
    requires conn.pc.Holding? && conn.pc.img == i && conn.last == Some(i) && !(lastuse && img.isLocal)
    ensures Step(WithImage(defaults, conn, i, img, 3), Unload(0, lastuse))
         == if lastuse then WithImage(defaults, conn.(last := None, pc := Idle), i, img, 1)
            else WithImage(defaults, conn.(pc := Idle), i, img, 2)
  {
    var s1 := WithImage(defaults, conn.(pc := Idle), i, img, 3);
    assert SetConn(WithImage(defaults, conn, i, img, 3), 0, conn.(pc := Idle)) == s1;
    if lastuse {
      assert DropSlot(s1, 0, i) == WithImage(defaults, conn.(last := None, pc := Idle), i, img, 2);
    }
  }

  /** Asking for the next image. */
  lemma NextRequest(defaults: seq<Option<string>>, conn: Conn, number: nat, i: Id, img: Image, refs: int)
    requires conn.pc.Idle? && number < 0x100_0000
    ensures var s := WithImage(defaults, conn, i, img, refs);
      Run(s, [Pick(0, number), Lookup(0)])
      == Step(WithImage(defaults, conn.(pc := Asking(PickKey(s, conn, number))), i, img, refs), Lookup(0))
  {
    var s := WithImage(defaults, conn, i, img, refs);
    var s1 := WithImage(defaults, conn.(pc := Asking(PickKey(s, conn, number))), i, img, refs);
    assert Step(s, Pick(0, number)) == s1;
    RunCons(s, Pick(0, number), [Lookup(0)]);
    RunCons(s1, Lookup(0), []);
    assert [Pick(0, number)] + [Lookup(0)] == [Pick(0, number), Lookup(0)] && [Lookup(0)] + [] == [Lookup(0)];
  }

  /** A run in which an image of channel 0 is served to a connection on channel 1. */
  lemma WrongChannelServed(defaults: seq<Option<string>>, number: nat, i: Id, img: Image)
    requires number < 0x100_0000 && number != 1 && img.chan == 0 && img.number == number
    ensures var s := Run(Initial(2, defaults), LoadEvents(None, number, i, img)
                         + ([Unload(0, false)] + ([SetChannel(0, 1)] + [Pick(0, number), Lookup(0)])));
      0 in s.conns && i in s.live && s.conns[0].chan == Some(1)
      && s.conns[0].pc == Holding(Numbered(number), i) && s.live[i].chan == 0
  {
    var conn := Conn(Some(i), Some(0), None, Holding(Numbered(number), i));
    var last := [Pick(0, number), Lookup(0)];
    FirstLoad(defaults, None, number, Numbered(number), i, img);
    RunConcat(Initial(2, defaults), LoadEvents(None, number, i, img), [Unload(0, false)] + ([SetChannel(0, 1)] + last));
    RunCons(WithImage(defaults, conn, i, img, 3), Unload(0, false), [SetChannel(0, 1)] + last);
    FirstUnload(defaults, conn, i, img, false);
    var s1 := WithImage(defaults, conn.(pc := Idle), i, img, 2);
    RunCons(s1, SetChannel(0, 1), last);
    assert Step(s1, SetChannel(0, 1)) == WithImage(defaults, conn.(pc := Idle, chan := Some(1)), i, img, 2);
    NextRequest(defaults, conn.(pc := Idle, chan := Some(1)), number, i, img, 2);
  }

  /** A run in which the channel is changed during the fetch: again an image of channel 0 for a
      connection on channel 1, with no last image to blame. */
  lemma ChannelChangedMeanwhile(defaults: seq<Option<string>>, number: nat, i: Id, img: Image)
    requires number < 0x100_0000 && number != 1 && img.chan == 0 && img.number == number
    ensures var s := Run(Initial(2, defaults), AskEvents(None, number) + ([SetChannel(0, 1)] + [Insert(0, i, img)]));
      0 in s.conns && i in s.live && s.conns[0].chan == Some(1)
      && s.conns[0].pc == Holding(Numbered(number), i) && s.live[i].chan == 0
  {
    var s0, conn := Initial(2, defaults), Conn(None, Some(0), None, Fetching(0, Numbered(number)));
    var e, more := AskEvents(None, number), [SetChannel(0, 1)] + [Insert(0, i, img)];
    RunConcat(s0, e, more);
    FirstMiss(defaults, None, number, Numbered(number));
    RunCons(Alone(defaults, conn), SetChannel(0, 1), [Insert(0, i, img)]);
    var s1 := Alone(defaults, conn.(chan := Some(1)));
    assert Step(Alone(defaults, conn), SetChannel(0, 1)) == s1;
    RunCons(s1, Insert(0, i, img), []);
    assert [Insert(0, i, img)] + [] == [Insert(0, i, img)];
    FirstInsert(defaults, conn.(chan := Some(1)), Numbered(number), i, img);
  }

  /** A run in which a selected file is in the channel's cache and is fetched all the same. */
  lemma CachedFileFetchedAgain(defaults: seq<Option<string>>, file: string, i: Id, img: Image)
    requires Made(img, 0, Named(file)) && !img.isLocal
    ensures var s := Run(Initial(2, defaults), LoadEvents(Some(file), 1, i, img)
                         + ([Unload(0, true)] + [Pick(0, 1), Lookup(0)]));
      0 in s.conns && i in s.live && s.live[i] == img && i in ListOf(s, 0)
      && s.conns[0].pc == Fetching(0, Named(file))
  {
    var conn := Conn(Some(i), Some(0), Some(file), Holding(Named(file), i));
    var last := [Pick(0, 1), Lookup(0)];
    FirstLoad(defaults, Some(file), 1, Named(file), i, img);
    RunConcat(Initial(2, defaults), LoadEvents(Some(file), 1, i, img), [Unload(0, true)] + last);
    RunCons(WithImage(defaults, conn, i, img, 3), Unload(0, true), last);
    FirstUnload(defaults, conn, i, img, true);
    NextRequest(defaults, conn.(last := None, pc := Idle), 1, i, img, 1);
  }
}
