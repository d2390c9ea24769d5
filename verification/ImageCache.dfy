/** Reference-counted images (nabud/image.c): the operations that run with image_cache_lock
    held, and the invariant they keep. Every operation is total, and records in `ok` whether
    the assertions of the code held and only live images were touched. */
module ImageCache {
  import opened Options

  type Id = nat       // an image structure; never reused
  type ConnId = nat
  type Thread = nat   // one call of image_cache_clear

  const NAMED: nat := 0xffff_ffff

  datatype Image = Image(chan: nat, name: string, number: nat, length: nat, isLocal: bool)

  /** What image_load was asked for. */
  datatype Key = Numbered(number: nat) | Named(name: string)

  /** Where a connection's thread is. Holding and Releasing own a reference. */
  datatype Pc =
    | Idle
    | Asking(key: Key)
    | Fetching(chan: nat, key: Key)
    | Holding(key: Key, img: Id)
    | Releasing(dropped: Option<Id>)

  datatype Conn = Conn(last: Option<Id>, chan: Option<nat>, selected: Option<string>, pc: Pc)

  datatype State = State(
    live: map<Id, Image>,
    refcnt: map<Id, int>,
    cached: set<Id>,
    caches: seq<seq<Id>>,           // the image_cache list of every channel
    cacheSize: int,
    conns: map<ConnId, Conn>,
    clears: map<Thread, seq<Id>>,   // images detached by a clear and not yet released
    garbage: set<Id>,               // handed to image_free, not yet freed
    freed: set<Id>,
    defaults: seq<Option<string>>,  // the default file of every channel
    ok: bool)

  // ----- Operations -----

  function Count(s: State, i: Id): int { if i in s.refcnt then s.refcnt[i] else 0 }

  /** Reading fields of these images. */
  function Touch(s: State, q: seq<Id>): State { s.(ok := s.ok && forall i :: i in q ==> i in s.live) }

  /** image_retain_locked. */
  function Retain(s: State, i: Id): State {
    s.(refcnt := s.refcnt[i := Count(s, i) + 1], ok := s.ok && i in s.live)
  }

  /** image_release_locked, the image going to image_free when the count drops to zero. */
  function Release(s: State, i: Id): State {
    s.(refcnt := s.refcnt[i := Count(s, i) - 1],
       garbage := if Count(s, i) == 1 then s.garbage + {i} else s.garbage,
       ok := s.ok && i in s.live && Count(s, i) > 0)
  }

  function ReleaseOpt(s: State, o: Option<Id>): State {
    match o
    case None => s
    case Some(i) => Release(s, i)
  }

  /** image_free. */
  function Free(s: State, i: Id): State {
    s.(live := s.live - {i}, refcnt := s.refcnt - {i}, garbage := s.garbage - {i}, freed := s.freed + {i},
       ok := s.ok && i in s.live && Count(s, i) == 0 && i !in s.cached)
  }

  /** A freshly loaded image, owned by the thread that loaded it. */
  function Alloc(s: State, i: Id, img: Image): State {
    s.(live := s.live[i := img], refcnt := s.refcnt[i := 1])
  }

  function SetConn(s: State, c: ConnId, conn: Conn): State { s.(conns := s.conns[c := conn]) }

  function Without(q: seq<Id>, i: Id): seq<Id> {
    if q == [] then [] else if q[0] == i then q[1..] else [q[0]] + Without(q[1..], i)
  }

  function ListOf(s: State, ch: nat): seq<Id> { if ch < |s.caches| then s.caches[ch] else [] }

  function SetList(caches: seq<seq<Id>>, ch: nat, q: seq<Id>): seq<seq<Id>> {
    if ch < |caches| then caches[ch := q] else caches
  }

  function ImageAt(s: State, i: Id): Image { if i in s.live then s.live[i] else Image(0, "", NAMED, 0, false) }

  /** LIST_INSERT_HEAD on the image's channel; the cache takes over a reference. */
  function Link(s: State, i: Id): State {
    var img := ImageAt(s, i);
    s.(caches := SetList(s.caches, img.chan, [i] + ListOf(s, img.chan)), cached := s.cached + {i},
       cacheSize := s.cacheSize + img.length, ok := s.ok && i in s.live && i !in s.cached)
  }

  /** image_cache_remove_locked of a cached image; the caller takes over the reference. */
  function Unlink(s: State, i: Id): State {
    var img := ImageAt(s, i);
    s.(caches := SetList(s.caches, img.chan, Without(ListOf(s, img.chan), i)), cached := s.cached - {i},
       cacheSize := s.cacheSize - img.length, ok := s.ok && i in s.live && s.cacheSize >= img.length)
  }

  function Detached(s: State, t: Thread): seq<Id> { if t in s.clears then s.clears[t] else [] }

  function SetDetached(s: State, t: Thread, q: seq<Id>): State { s.(clears := s.clears[t := q]) }

  // ----- The invariant -----

  ghost function Lasts(conns: map<ConnId, Conn>, i: Id): set<ConnId> {
    set c | c in conns && conns[c].last == Some(i)
  }

  function PinOf(pc: Pc): Option<Id> {
    match pc
    case Holding(_, i) => Some(i)
    case Releasing(o) => o
    case _ => None
  }

  ghost function Pins(conns: map<ConnId, Conn>, i: Id): set<ConnId> {
    set c | c in conns && PinOf(conns[c].pc) == Some(i)
  }

  ghost function Detachers(clears: map<Thread, seq<Id>>, i: Id): set<Thread> {
    set t | t in clears && i in clears[t]
  }

  /** Everything that owns a reference to an image. */
  ghost function Refs(s: State, i: Id): nat {
    (if i in s.cached then 1 else 0) + |Lasts(s.conns, i)| + |Pins(s.conns, i)| + |Detachers(s.clears, i)|
  }

  /** `x` holds the references in local variables of the region being executed. */
  ghost predicate Counted(s: State, x: multiset<Id>) {
    forall i: Id :: Count(s, i) == Refs(s, i) + x[i]
  }

  /** An image is live until freed, and awaits image_free exactly when its count is zero. */
  ghost predicate Accounted(live: map<Id, Image>, refcnt: map<Id, int>, garbage: set<Id>, freed: set<Id>) {
    && live.Keys == refcnt.Keys && live.Keys !! freed
    && forall i :: i in garbage <==> i in refcnt && refcnt[i] == 0
  }

  ghost predicate NoDup(q: seq<Id>) { q == [] || (q[0] !in q[1..] && NoDup(q[1..])) }

  /** The two lookups of the cache: by number, and by name among images selected by name. */
  predicate SameKey(a: Image, b: Image) {
    a.number == b.number && (a.number == NAMED ==> a.name == b.name)
  }

  ghost predicate ListOk(live: map<Id, Image>, cached: set<Id>, ch: nat, q: seq<Id>) {
    && NoDup(q)
    && (forall i :: i in q ==> i in cached && i in live && live[i].chan == ch)
    && (forall i, j :: i in q && j in q && i != j ==> !SameKey(live[i], live[j]))
  }

  ghost predicate CacheOk(live: map<Id, Image>, cached: set<Id>, caches: seq<seq<Id>>) {
    && (forall ch :: 0 <= ch < |caches| ==> ListOk(live, cached, ch, caches[ch]))
    && (forall i :: i in cached ==> i in live && live[i].chan < |caches| && i in caches[live[i].chan])
  }

  function Sum(live: map<Id, Image>, q: seq<Id>): nat {
    if q == [] then 0 else (if q[0] in live then live[q[0]].length else 0) + Sum(live, q[1..])
  }

  function Total(live: map<Id, Image>, caches: seq<seq<Id>>): nat {
    if caches == [] then 0 else Sum(live, caches[0]) + Total(live, caches[1..])
  }

  /** The number or the name is the one asked for. */
  predicate Matches(key: Key, img: Image) {
    match key
    case Numbered(n) => img.number == n
    case Named(f) => img.name == f
  }

  predicate KeyOk(key: Key) { key.Numbered? ==> key.number != NAMED }

  ghost predicate ConnOk(live: map<Id, Image>, channels: nat, conn: Conn) {
    && (conn.chan.Some? ==> conn.chan.value < channels)
    && match conn.pc
       case Asking(key) => KeyOk(key)
       case Fetching(ch, key) => ch < channels && KeyOk(key)
       case Holding(key, i) => conn.last == Some(i) && i in live && Matches(key, live[i])
       case Releasing(_) => conn.last.None?
       case Idle => true
  }

  ghost predicate ConnsOk(live: map<Id, Image>, channels: nat, conns: map<ConnId, Conn>) {
    forall c :: c in conns ==> ConnOk(live, channels, conns[c])
  }

  ghost predicate ClearsOk(clears: map<Thread, seq<Id>>) { forall t :: t in clears ==> NoDup(clears[t]) }

  ghost predicate Inv(s: State, x: multiset<Id>) {
    && s.ok
    && Counted(s, x)
    && Accounted(s.live, s.refcnt, s.garbage, s.freed)
    && CacheOk(s.live, s.cached, s.caches)
    && s.cacheSize == Total(s.live, s.caches)
    && ConnsOk(s.live, |s.caches|, s.conns)
    && ClearsOk(s.clears)
  }

  // ----- Lists -----

  lemma {:induction false} WithoutMembers(q: seq<Id>, i: Id)
    requires NoDup(q)
    ensures NoDup(Without(q, i)) && forall j :: j in Without(q, i) <==> j in q && j != i
  {
    if q != [] && q[0] != i {
      WithoutMembers(q[1..], i);
      assert Without(q, i)[1..] == Without(q[1..], i);
    }
  }

  lemma {:induction false} SumWithout(live: map<Id, Image>, q: seq<Id>, i: Id)
    requires i in q && i in live
    ensures Sum(live, Without(q, i)) == Sum(live, q) - live[i].length
  {
    if q[0] != i {
      SumWithout(live, q[1..], i);
      assert Without(q, i)[1..] == Without(q[1..], i);
    }
  }

  lemma {:induction false} SumFrame(live: map<Id, Image>, live': map<Id, Image>, q: seq<Id>)
    requires forall i :: i in q ==> i in live && i in live' && live[i] == live'[i]
    ensures Sum(live, q) == Sum(live', q)
  {
    if q != [] {
      SumFrame(live, live', q[1..]);
    }
  }

  lemma {:induction false} TotalFrame(live: map<Id, Image>, live': map<Id, Image>, caches: seq<seq<Id>>)
    requires forall ch :: 0 <= ch < |caches| ==>
      forall i :: i in caches[ch] ==> i in live && i in live' && live[i] == live'[i]
    ensures Total(live, caches) == Total(live', caches)
  {
    if caches != [] {
      SumFrame(live, live', caches[0]);
      TotalFrame(live, live', caches[1..]);
    }
  }

  lemma {:induction false} TotalUpdate(live: map<Id, Image>, caches: seq<seq<Id>>, ch: nat, q: seq<Id>)
    requires ch < |caches|
    ensures Total(live, caches[ch := q]) == Total(live, caches) - Sum(live, caches[ch]) + Sum(live, q)
  {
    if ch == 0 {
      assert caches[0 := q][1..] == caches[1..];
    } else {
      TotalUpdate(live, caches[1..], ch - 1, q);
      assert caches[ch := q][1..] == caches[1..][ch - 1 := q];
    }
  }

  // ----- Every operation keeps the invariant -----

  lemma RetainKeeps(s: State, x: multiset<Id>, i: Id)
    requires Inv(s, x) && Count(s, i) > 0
    ensures Inv(Retain(s, i), x + multiset{i})
  {
    var s' := Retain(s, i);
    forall j: Id
      ensures Count(s', j) == Refs(s', j) + (x + multiset{i})[j]
    {
      assert Count(s, j) == Refs(s, j) + x[j];
    }
  }

  lemma ReleaseKeeps(s: State, x: multiset<Id>, i: Id)
    requires Inv(s, x) && x[i] > 0
    ensures Inv(Release(s, i), x - multiset{i})
  {
    var s' := Release(s, i);
    assert Count(s, i) == Refs(s, i) + x[i];
    forall j: Id
      ensures Count(s', j) == Refs(s', j) + (x - multiset{i})[j]
    {
      assert Count(s, j) == Refs(s, j) + x[j];
    }
  }

  lemma AllocKeeps(s: State, x: multiset<Id>, i: Id, img: Image)
    requires Inv(s, x) && i !in s.live && i !in s.freed
    ensures Inv(Alloc(s, i, img), x + multiset{i})
  {
    var s' := Alloc(s, i, img);
    forall j: Id
      ensures Count(s', j) == Refs(s', j) + (x + multiset{i})[j]
    {
      assert Count(s, j) == Refs(s, j) + x[j];
    }
    LiveFrame(s.live, s'.live, s.cached, s.caches, s.conns);
  }

  /** The cache and the connections speak only of images that stay. */
  lemma LiveFrame(live: map<Id, Image>, live': map<Id, Image>, cached: set<Id>, caches: seq<seq<Id>>, conns: map<ConnId, Conn>)
    requires CacheOk(live, cached, caches) && ConnsOk(live, |caches|, conns)
    requires forall i :: i in live && (i in cached || Pins(conns, i) != {}) ==> i in live' && live'[i] == live[i]
    ensures CacheOk(live', cached, caches) && ConnsOk(live', |caches|, conns) && Total(live', caches) == Total(live, caches)
  {
    forall ch | 0 <= ch < |caches|
      ensures ListOk(live', cached, ch, caches[ch])
      ensures forall i :: i in caches[ch] ==> i in live && i in live' && live[i] == live'[i]
    {
      assert ListOk(live, cached, ch, caches[ch]);
    }
    TotalFrame(live, live', caches);
    forall c | c in conns
      ensures ConnOk(live', |caches|, conns[c])
    {
      assert ConnOk(live, |caches|, conns[c]);
      if conns[c].pc.Holding? {
        assert c in Pins(conns, conns[c].pc.img);
      }
    }
  }

  lemma FreeKeeps(s: State, i: Id)
    requires Inv(s, multiset{}) && i in s.garbage
    ensures Inv(Free(s, i), multiset{})
  {
    var s' := Free(s, i);
    assert Count(s, i) == Refs(s, i) + multiset{}[i];
    forall j: Id
      ensures Count(s', j) == Refs(s', j) + multiset{}[j]
    {
      assert Count(s, j) == Refs(s, j) + multiset{}[j];
    }
    LiveFrame(s.live, s'.live, s.cached, s.caches, s.conns);
  }

  // ----- Connections -----

  function One(o: Option<Id>): multiset<Id> {
    match o
    case None => multiset{}
    case Some(i) => multiset{i}
  }

  /** The references a connection owns. */
  function Held(conn: Conn): multiset<Id> { One(conn.last) + One(PinOf(conn.pc)) }

  function HeldAt(conns: map<ConnId, Conn>, c: ConnId): multiset<Id> {
    if c in conns then Held(conns[c]) else multiset{}
  }

  lemma LastMove(conns: map<ConnId, Conn>, c: ConnId, conn: Conn, i: Id)
    ensures |Lasts(conns[c := conn], i)|
         == |Lasts(conns, i)| - (if c in Lasts(conns, i) then 1 else 0) + (if conn.last == Some(i) then 1 else 0)
  {
    var before, after := Lasts(conns, i), Lasts(conns[c := conn], i);
    if conn.last == Some(i) {
      assert after == before + {c};
    } else {
      assert after == before - {c};
    }
  }

  lemma PinMove(conns: map<ConnId, Conn>, c: ConnId, conn: Conn, i: Id)
    ensures |Pins(conns[c := conn], i)|
         == |Pins(conns, i)| - (if c in Pins(conns, i) then 1 else 0) + (if PinOf(conn.pc) == Some(i) then 1 else 0)
  {
    var before, after := Pins(conns, i), Pins(conns[c := conn], i);
    if PinOf(conn.pc) == Some(i) {
      assert after == before + {c};
    } else {
      assert after == before - {c};
    }
  }

  lemma DetachMove(clears: map<Thread, seq<Id>>, t: Thread, q: seq<Id>, i: Id)
    ensures |Detachers(clears[t := q], i)|
         == |Detachers(clears, i)| - (if t in Detachers(clears, i) then 1 else 0) + (if i in q then 1 else 0)
  {
    var before, after := Detachers(clears, i), Detachers(clears[t := q], i);
    if i in q {
      assert after == before + {t};
    } else {
      assert after == before - {t};
    }
  }

  lemma HeldTally(conn: Conn, i: Id)
    ensures Held(conn)[i] == (if conn.last == Some(i) then 1 else 0) + (if PinOf(conn.pc) == Some(i) then 1 else 0)
  {
    assert One(conn.last)[i] == if conn.last == Some(i) then 1 else 0;
    assert One(PinOf(conn.pc))[i] == if PinOf(conn.pc) == Some(i) then 1 else 0;
  }

  lemma ConnMove(conns: map<ConnId, Conn>, c: ConnId, conn: Conn, i: Id)
    ensures |Lasts(conns[c := conn], i)| + |Pins(conns[c := conn], i)|
         == |Lasts(conns, i)| + |Pins(conns, i)| - HeldAt(conns, c)[i] + Held(conn)[i]
  {
    LastMove(conns, c, conn, i);
    PinMove(conns, c, conn, i);
    HeldTally(conn, i);
    if c in conns {
      HeldTally(conns[c], i);
    }
  }

  lemma SetConnKeeps(s: State, x: multiset<Id>, c: ConnId, conn: Conn, x': multiset<Id>)
    requires Inv(s, x) && ConnOk(s.live, |s.caches|, conn)
    requires x' + Held(conn) == x + HeldAt(s.conns, c)
    ensures Inv(SetConn(s, c, conn), x')
  {
    var s' := SetConn(s, c, conn);
    forall i: Id
      ensures Count(s', i) == Refs(s', i) + x'[i]
    {
      assert Count(s, i) == Refs(s, i) + x[i];
      ConnMove(s.conns, c, conn, i);
      assert (x' + Held(conn))[i] == (x + HeldAt(s.conns, c))[i];
    }
  }

  lemma DropConnKeeps(s: State, x: multiset<Id>, c: ConnId)
    requires Inv(s, x) && c in s.conns && Held(s.conns[c]) == multiset{}
    ensures Inv(s.(conns := s.conns - {c}), x)
  {
    var s' := s.(conns := s.conns - {c});
    forall i: Id
      ensures Count(s', i) == Refs(s', i) + x[i]
    {
      assert Count(s, i) == Refs(s, i) + x[i];
      assert Held(s.conns[c])[i] == 0;
      assert Lasts(s'.conns, i) == Lasts(s.conns, i) && Pins(s'.conns, i) == Pins(s.conns, i);
    }
  }

  // ----- The channel caches -----

  /** image_cache_lookup_locked: images selected by name are skipped. */
  function LookupNumber(s: State, q: seq<Id>, number: nat): (r: Option<Id>)
    ensures r.Some? ==> r.value in q && ImageAt(s, r.value).number == number != NAMED
    ensures r.None? ==> number == NAMED || forall i :: i in q ==> ImageAt(s, i).number != number
  {
    if q == [] then None
    else if ImageAt(s, q[0]).number != NAMED && ImageAt(s, q[0]).number == number then Some(q[0])
    else LookupNumber(s, q[1..], number)
  }

  /** image_cache_lookup_named_locked: only images selected by name are considered. */
  function LookupName(s: State, q: seq<Id>, name: string): (r: Option<Id>)
    ensures r.Some? ==> r.value in q && ImageAt(s, r.value).number == NAMED && ImageAt(s, r.value).name == name
    ensures r.None? ==> forall i :: i in q && ImageAt(s, i).number == NAMED ==> ImageAt(s, i).name != name
  {
    if q == [] then None
    else if ImageAt(s, q[0]).number == NAMED && ImageAt(s, q[0]).name == name then Some(q[0])
    else LookupName(s, q[1..], name)
  }

  /** The cached image that a newly loaded one collides with. */
  function Collision(s: State, q: seq<Id>, img: Image): (r: Option<Id>)
    ensures r.Some? ==> r.value in q && SameKey(ImageAt(s, r.value), img)
    ensures r.None? ==> forall i :: i in q ==> !SameKey(ImageAt(s, i), img)
  {
    if img.number == NAMED then LookupName(s, q, img.name) else LookupNumber(s, q, img.number)
  }

  lemma LinkKeeps(s: State, x: multiset<Id>, i: Id)
    requires Inv(s, x) && x[i] > 0 && i !in s.cached && ImageAt(s, i).chan < |s.caches|
    requires Collision(s, ListOf(s, ImageAt(s, i).chan), ImageAt(s, i)).None?
    ensures Inv(Link(s, i), x - multiset{i})
  {
    var s' := Link(s, i);
    assert Count(s, i) == Refs(s, i) + x[i];
    forall j: Id
      ensures Count(s', j) == Refs(s', j) + (x - multiset{i})[j]
    {
      assert Count(s, j) == Refs(s, j) + x[j];
    }
    LinkCache(s.live, s.cached, s.caches, i, s.live[i].chan);
  }

  lemma LinkCache(live: map<Id, Image>, cached: set<Id>, caches: seq<seq<Id>>, i: Id, ch: nat)
    requires CacheOk(live, cached, caches) && i in live && i !in cached && ch == live[i].chan < |caches|
    requires forall j :: j in caches[ch] ==> j in live && !SameKey(live[j], live[i])
    ensures CacheOk(live, cached + {i}, caches[ch := [i] + caches[ch]])
    ensures Total(live, caches[ch := [i] + caches[ch]]) == Total(live, caches) + live[i].length
  {
    TotalUpdate(live, caches, ch, [i] + caches[ch]);
    assert ([i] + caches[ch])[1..] == caches[ch];
    var caches' := caches[ch := [i] + caches[ch]];
    forall k | 0 <= k < |caches'|
      ensures ListOk(live, cached + {i}, k, caches'[k])
    {
      assert ListOk(live, cached, k, caches[k]);
      assert i !in caches[k];
    }
  }

  lemma UnlinkKeeps(s: State, x: multiset<Id>, i: Id)
    requires Inv(s, x) && i in s.cached
    ensures Inv(Unlink(s, i), x + multiset{i})
  {
    var s' := Unlink(s, i);
    forall j: Id
      ensures Count(s', j) == Refs(s', j) + (x + multiset{i})[j]
    {
      assert Count(s, j) == Refs(s, j) + x[j];
    }
    UnlinkCache(s.live, s.cached, s.caches, i, s.live[i].chan);
  }

  lemma UnlinkCache(live: map<Id, Image>, cached: set<Id>, caches: seq<seq<Id>>, i: Id, ch: nat)
    requires CacheOk(live, cached, caches) && i in cached && ch == live[i].chan
    ensures CacheOk(live, cached - {i}, caches[ch := Without(caches[ch], i)])
    ensures Total(live, caches[ch := Without(caches[ch], i)]) == Total(live, caches) - live[i].length
  {
    assert ListOk(live, cached, ch, caches[ch]);
    WithoutMembers(caches[ch], i);
    SumWithout(live, caches[ch], i);
    TotalUpdate(live, caches, ch, Without(caches[ch], i));
    var caches' := caches[ch := Without(caches[ch], i)];
    forall k | 0 <= k < |caches'|
      ensures ListOk(live, cached - {i}, k, caches'[k])
    {
      assert ListOk(live, cached, k, caches[k]);
    }
  }

  // ----- Detached images -----

  /** A clear takes over the reference in `x`. */
  lemma DetachKeeps(s: State, x: multiset<Id>, t: Thread, i: Id)
    requires Inv(s, x) && x[i] > 0 && t in s.clears && i !in s.clears[t]
    ensures Inv(SetDetached(s, t, [i] + s.clears[t]), x - multiset{i})
  {
    var q := [i] + s.clears[t];
    var s' := SetDetached(s, t, q);
    assert q[1..] == s.clears[t];
    forall j: Id
      ensures Count(s', j) == Refs(s', j) + (x - multiset{i})[j]
    {
      assert Count(s, j) == Refs(s, j) + x[j];
      DetachMove(s.clears, t, q, j);
    }
  }

  /** A clear gives up the reference it is about to release. */
  lemma PopKeeps(s: State, x: multiset<Id>, t: Thread)
    requires Inv(s, x) && t in s.clears && s.clears[t] != []
    ensures Inv(SetDetached(s, t, s.clears[t][1..]), x + multiset{s.clears[t][0]})
  {
    var i, q := s.clears[t][0], s.clears[t][1..];
    var s' := SetDetached(s, t, q);
    assert NoDup(s.clears[t]);
    forall j: Id
      ensures Count(s', j) == Refs(s', j) + (x + multiset{i})[j]
    {
      assert Count(s, j) == Refs(s, j) + x[j];
      DetachMove(s.clears, t, q, j);
    }
  }

  /** A clear begins with nothing detached, and is over when nothing is. */
  lemma EmptyClearKeeps(s: State, x: multiset<Id>, t: Thread)
    requires Inv(s, x) && (t in s.clears ==> s.clears[t] == [])
    ensures Inv(SetDetached(s, t, []), x) && Inv(s.(clears := s.clears - {t}), x)
  {
    var a, b := SetDetached(s, t, []), s.(clears := s.clears - {t});
    forall j: Id
      ensures Count(a, j) == Refs(a, j) + x[j] && Count(b, j) == Refs(b, j) + x[j]
    {
      assert Count(s, j) == Refs(s, j) + x[j];
      assert Detachers(a.clears, j) == Detachers(s.clears, j) && Detachers(b.clears, j) == Detachers(s.clears, j);
    }
  }
}
