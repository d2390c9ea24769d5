/** The image cache in place (nabud/image.c, nabud/conn.c): each method is a region under
    image_cache_lock, or part of one. */
module ImageStore {
  import opened Options
  import opened ImageCache
  import opened ImageRuns

  lemma RemovedAnyway(conns: map<ConnId, Conn>, c: ConnId, conn: Conn)
    ensures conns[c := conn] - {c} == conns - {c}
  {
  }

  class Store {
    var live: map<Id, Image>
    var refcnt: map<Id, int>
    var cached: set<Id>
    var caches: seq<seq<Id>>
    var cacheSize: int
    var conns: map<ConnId, Conn>
    var clears: map<Thread, seq<Id>>
    var garbage: set<Id>
    var defaults: seq<Option<string>>
    ghost var freed: set<Id>

    /** The state, with every assertion so far discharged. */
    ghost function View(): State
      reads this
    {
      State(live, refcnt, cached, caches, cacheSize, conns, clears, garbage, freed, defaults, true)
    }

    constructor (channels: nat, files: seq<Option<string>>)
      ensures View() == Initial(channels, files) && Inv(View(), multiset{})
    {
      live, refcnt, cached, caches, cacheSize := map[], map[], {}, seq(channels, _ => []), 0;
      conns, clears, garbage, defaults, freed := map[], map[], {}, files, {};
      new;
      InitialInv(channels, files);
    }

    // ----- Parts of regions -----

    /** image_retain_locked. */
    method RetainLocked(i: Id)
      requires i in live && i in refcnt
      modifies this`refcnt
      ensures View() == Retain(old(View()), i)
    {
      refcnt := refcnt[i := refcnt[i] + 1];
    }

    /** image_release_locked: the image, if this was its last reference. */
    method ReleaseLocked(i: Id) returns (dead: Option<Id>)
      requires i in live && Count(View(), i) > 0
      modifies this`refcnt, this`garbage
      ensures View() == Release(old(View()), i)
      ensures dead == if old(Count(View(), i)) == 1 then Some(i) else None
    {
      var ocnt := refcnt[i];
      refcnt := refcnt[i := ocnt - 1];
      dead := if ocnt > 1 then None else Some(i);
      if dead.Some? {
        garbage := garbage + {i};
      }
    }

    /** image_release_locked of a pointer that may be NULL. */
    method ReleaseMaybe(o: Option<Id>)
      requires o.Some? ==> o.value in live && Count(View(), o.value) > 0
      modifies this`refcnt, this`garbage
      ensures View() == ReleaseOpt(old(View()), o)
    {
      if o.Some? {
        var _ := ReleaseLocked(o.value);
      }
    }

    /** image_cache_lookup_locked: gains a retain on the image found. */
    method CacheLookup(ch: nat, number: nat) returns (r: Option<Id>)
      requires ch < |caches| && forall i :: i in caches[ch] ==> i in live && i in refcnt
      modifies this`refcnt
      ensures r == LookupNumber(old(View()), caches[ch], number)
      ensures View() == if r.Some? then Retain(old(View()), r.value) else old(View())
    {
      var k := 0;
      while k < |caches[ch]|
        invariant 0 <= k <= |caches[ch]| && View() == old(View())
        invariant LookupNumber(View(), caches[ch], number) == LookupNumber(View(), caches[ch][k..], number)
      {
        var i := caches[ch][k];
        if live[i].number != NAMED && live[i].number == number {
          RetainLocked(i);
          return Some(i);
        }
        assert caches[ch][k..][1..] == caches[ch][k + 1..];
        k := k + 1;
      }
      r := None;
    }

    /** image_cache_lookup_named_locked. */
    method CacheLookupNamed(ch: nat, name: string) returns (r: Option<Id>)
      requires ch < |caches| && forall i :: i in caches[ch] ==> i in live && i in refcnt
      modifies this`refcnt
      ensures r == LookupName(old(View()), caches[ch], name)
      ensures View() == if r.Some? then Retain(old(View()), r.value) else old(View())
    {
      var k := 0;
      while k < |caches[ch]|
        invariant 0 <= k <= |caches[ch]| && View() == old(View())
        invariant LookupName(View(), caches[ch], name) == LookupName(View(), caches[ch][k..], name)
      {
        var i := caches[ch][k];
        if live[i].number == NAMED && live[i].name == name {
          RetainLocked(i);
          return Some(i);
        }
        assert caches[ch][k..][1..] == caches[ch][k + 1..];
        k := k + 1;
      }
      r := None;
    }

    /** image_cache_insert_locked: the cached image to use, with a retain for the caller. */
    method CacheInsert(ch: nat, i: Id) returns (using: Id)
      requires i in live && i in refcnt && i !in cached && ch == live[i].chan < |caches|
      requires forall j :: j in caches[ch] ==> j in live && j in refcnt && j in cached
      modifies this`refcnt, this`caches, this`cached, this`cacheSize
      ensures var r := Collision(old(View()), old(caches[ch]), live[i]);
        && using == (if r.Some? then r.value else i)
        && View() == if r.Some? then Retain(old(View()), r.value) else Link(Retain(old(View()), i), i)
    {
      var r: Option<Id>;
      if live[i].number == NAMED {
        r := CacheLookupNamed(ch, live[i].name);
      } else {
        r := CacheLookup(ch, live[i].number);
      }
      if r.Some? {
        return r.value;
      }
      RetainLocked(i);
      caches := caches[ch := [i] + caches[ch]];
      cacheSize := cacheSize + live[i].length;
      cached := cached + {i};
      using := i;
    }

    /** image_cache_remove_locked: the image, if it was cached; its retain is the caller's now. */
    method CacheRemove(i: Id) returns (r: Option<Id>)
      requires i in live && live[i].chan < |caches| && (i in cached ==> cacheSize >= live[i].length)
      modifies this`caches, this`cached, this`cacheSize
      ensures r == if i in old(cached) then Some(i) else None
      ensures View() == if r.Some? then Unlink(old(View()), i) else old(View())
    {
      if i !in cached {
        return None;
      }
      cacheSize := cacheSize - live[i].length;
      var ch := live[i].chan;
      caches := caches[ch := Without(caches[ch], i)];
      cached := cached - {i};
      r := Some(i);
    }

    /** conn_set_last_image: the old value. */
    method SetLastImage(c: ConnId, o: Option<Id>) returns (oimg: Option<Id>)
      requires c in conns
      modifies this`conns
      ensures oimg == old(conns[c].last) && View() == SetConn(old(View()), c, old(conns[c]).(last := o))
    {
      oimg := conns[c].last;
      conns := conns[c := conns[c].(last := o)];
    }

    /** The connection's thread moves on. */
    method SetPc(c: ConnId, pc: Pc)
      requires c in conns
      modifies this`conns
      ensures View() == SetConn(old(View()), c, old(conns[c]).(pc := pc))
    {
      conns := conns[c := conns[c].(pc := pc)];
    }

    /** The tail shared by a channel cache hit and an insertion. */
    method AdoptLocked(c: ConnId, key: Key, i: Id)
      requires c in conns && i in live && i in refcnt
      requires conns[c].last.Some? ==> conns[c].last.value in live && Count(View(), conns[c].last.value) > 0
      requires Count(View(), i) > 0
      modifies this`refcnt, this`garbage, this`conns
      ensures View() == Adopt(old(View()), c, key, i)
    {
      RetainLocked(i);
      var oimg := SetLastImage(c, Some(i));
      SetPc(c, Holding(key, i));
      assert conns == old(conns)[c := old(conns)[c].(last := Some(i), pc := Holding(key, i))];
      ReleaseMaybe(oimg);
    }

    // ----- Regions -----

    /** image_load up to its first unlock. */
    method LoadLookup(c: ConnId)
      requires Inv(View(), multiset{}) && Enabled(View(), Lookup(c))
      modifies this
      ensures View() == Next(old(View()), Lookup(c)) && Inv(View(), multiset{})
    {
      NextKeeps(View(), Lookup(c));
      ExaminedLive(View(), c);
      var conn := conns[c];
      var key := conn.pc.key;
      if conn.last.Some? {
        LastLive(View(), multiset{}, c, conn.last.value);
        if Matches(key, live[conn.last.value]) {
          RetainLocked(conn.last.value);
          SetPc(c, Holding(key, conn.last.value));
          return;
        }
      }
      if conn.chan.None? {
        SetPc(c, Idle);
        return;
      }
      LookupChannel(c, key, conn.chan.value);
    }

    method LookupChannel(c: ConnId, key: Key, ch: nat)
      requires Inv(View(), multiset{}) && c in conns && conns[c].pc == Asking(key) && conns[c].chan == Some(ch)
      requires conns[c].last.Some? ==> !Matches(key, ImageAt(View(), conns[c].last.value))
      modifies this
      ensures View() == LookedUp(old(View()), c, key)
    {
      assert ConnOk(live, |caches|, conns[c]);
      assert ListOk(live, cached, ch, caches[ch]);
      if conns[c].last.Some? {
        LastLive(View(), multiset{}, c, conns[c].last.value);
      }
      var r := CacheLookup(ch, if key.Named? then NAMED else key.number);
      if r.Some? {
        AdoptLocked(c, key, r.value);
      } else {
        SetPc(c, Fetching(ch, key));
      }
    }

    /** image_load after the image came in: an image this thread alone knows of, so far. */
    method LoadInsert(c: ConnId, i: Id, img: Image)
      requires Inv(View(), multiset{}) && Enabled(View(), Insert(c, i, img))
      modifies this
      ensures View() == Next(old(View()), Insert(c, i, img)) && Inv(View(), multiset{})
    {
      NextKeeps(View(), Insert(c, i, img));
      AllocReady(View(), c, i, img);
      AllocImage(i, img);
      InsertLocked(c, conns[c].pc.key, i);
    }

    /** image_from_nabu or image_from_pak. */
    method AllocImage(i: Id, img: Image)
      modifies this`live, this`refcnt
      ensures View() == Alloc(old(View()), i, img)
    {
      live, refcnt := live[i := img], refcnt[i := 1];
    }

    method InsertLocked(c: ConnId, key: Key, i: Id)
      requires Inv(View(), multiset{i}) && c in conns && conns[c].pc.Fetching?
      requires i in live && i !in cached && live[i].chan < |caches| && Made(live[i], live[i].chan, key)
      modifies this
      ensures View() == Inserted(old(View()), c, key, i, old(live[i]))
    {
      var ch := live[i].chan;
      assert ListOk(live, cached, ch, caches[ch]);
      if conns[c].last.Some? {
        LastLive(View(), multiset{i}, c, conns[c].last.value);
      }
      ghost var s := View();
      assert Count(s, i) == Refs(s, i) + multiset{i}[i];
      var using := CacheInsert(ch, i);
      AdoptLocked(c, key, using);
      if using != i {
        DuplicateLive(s, c, key, i, ch, using);
        var _ := ReleaseLocked(i);
      }
    }

    /** The last-use part of image_unload. The assertion is the one in the code; the results
        of both releases are ignored, and both are nothing. */
    method DropCachingRetains(c: ConnId, i: Id)
      requires Inv(View(), multiset{i}) && c in conns && conns[c].pc.Idle? && conns[c].last == Some(i)
      modifies this
      ensures View() == DropCached(DropSlot(old(View()), c, i), i)
    {
      DropSlotKeeps(View(), c, i);
      assert Count(View(), i) == Refs(View(), i) + multiset{i}[i];
      assert c in Lasts(conns, i);
      var oimg := SetLastImage(c, None);
      assert oimg == Some(i);
      var dead := ReleaseLocked(i);
      assert dead.None?;
      if live[i].isLocal {
        RemoveLocal(i);
      }
    }

    method RemoveLocal(i: Id)
      requires Inv(View(), multiset{i}) && i in live && live[i].isLocal
      modifies this
      ensures View() == DropCached(old(View()), i)
    {
      assert Count(View(), i) == Refs(View(), i) + multiset{i}[i];
      if i in cached {
        CachedSize(View(), multiset{i}, i);
        var oimg := CacheRemove(i);
        var dead := ReleaseLocked(i);
        assert oimg == Some(i) && dead.None?;
      }
    }

    /** image_unload. */
    method UnloadImage(c: ConnId, lastuse: bool)
      requires Inv(View(), multiset{}) && Enabled(View(), Unload(c, lastuse))
      modifies this
      ensures View() == Next(old(View()), Unload(c, lastuse)) && Inv(View(), multiset{})
    {
      var i := conns[c].pc.img;
      NextKeeps(View(), Unload(c, lastuse));
      UnpinKeeps(View(), c, i);
      SetPc(c, Idle);
      if lastuse {
        DropSlotKeeps(View(), c, i);
        DropCachedKeeps(DropSlot(View(), c, i), i);
        DropCachingRetains(c, i);
      }
      assert Count(View(), i) == Refs(View(), i) + multiset{i}[i];
      var _ := ReleaseLocked(i);
    }

    /** The locked part of image_cache_clear. */
    method ClearLocked(t: Thread, ch: nat)
      requires Inv(View(), multiset{}) && Enabled(View(), ClearBegin(t, ch))
      modifies this
      ensures View() == Next(old(View()), ClearBegin(t, ch)) && Inv(View(), multiset{})
      ensures ListOf(View(), ch) == [] && Detached(View(), t) == Reversed(old(ListOf(View(), ch)))
    {
      ClearBeginKeeps(View(), t, ch);
      EmptyClearKeeps(View(), multiset{}, t);
      ghost var end := Next(View(), ClearBegin(t, ch));
      clears := clears[t := []];
      while caches[ch] != []
        invariant ch < |caches| && Clearing(View(), t)
        invariant end == DetachAll(View(), t, ch, |caches[ch]|)
        decreases |caches[ch]|
      {
        DetachFirstKeeps(View(), t, ch, caches[ch][0]);
        DetachUnfold(View(), t, ch, caches[ch]);
        DetachOne(t, ch);
      }
    }

    method DetachOne(t: Thread, ch: nat)
      requires ch < |caches| && caches[ch] != [] && Inv(View(), multiset{}) && t in clears
      modifies this`caches, this`cached, this`cacheSize, this`clears
      ensures |caches| == old(|caches|) && View() == DetachFirst(old(View()), t, old(caches[ch][0]))
    {
      var i := caches[ch][0];
      CachedLive(View(), multiset{}, ch, i);
      CachedSize(View(), multiset{}, i);
      var _ := CacheRemove(i);
      clears := clears[t := [i] + clears[t]];
    }

    /** One turn of the unlocked loop of image_cache_clear. */
    method ClearRelease(t: Thread)
      requires Inv(View(), multiset{}) && Enabled(View(), ClearNext(t))
      modifies this
      ensures View() == Next(old(View()), ClearNext(t)) && Inv(View(), multiset{})
    {
      NextKeeps(View(), ClearNext(t));
      if clears[t] == [] {
        clears := clears - {t};
      } else {
        var i := clears[t][0];
        assert Count(View(), i) == Refs(View(), i) + multiset{}[i];
        assert t in Detachers(clears, i);
        clears := clears[t := clears[t][1..]];
        var _ := ReleaseLocked(i);
      }
    }

    /** conn_destroy: the slot is emptied under the connection's own lock. */
    method DestroyTake(c: ConnId)
      requires Inv(View(), multiset{}) && Enabled(View(), Disconnect(c))
      modifies this
      ensures View() == Next(old(View()), Disconnect(c)) && Inv(View(), multiset{})
    {
      NextKeeps(View(), Disconnect(c));
      var oimg := SetLastImage(c, None);
      SetPc(c, Releasing(oimg));
      assert conns == old(conns)[c := old(conns)[c].(last := None, pc := Releasing(oimg))];
    }

    /** conn_destroy: image_release of what the slot held. */
    method DestroyRelease(c: ConnId)
      requires Inv(View(), multiset{}) && Enabled(View(), DropLast(c))
      modifies this
      ensures View() == Next(old(View()), DropLast(c)) && Inv(View(), multiset{})
    {
      NextKeeps(View(), DropLast(c));
      var oimg := PinOf(conns[c].pc);
      if oimg.Some? {
        LastLive(View(), multiset{}, c, oimg.value);
      }
      RemovedAnyway(conns, c, conns[c].(last := None, pc := Idle));
      conns := conns - {c};
      ReleaseMaybe(oimg);
    }

    /** image_free, with its two assertions. */
    method FreeNow(i: Id)
      requires Inv(View(), multiset{}) && Enabled(View(), FreeImage(i))
      modifies this
      ensures View() == Next(old(View()), FreeImage(i)) && Inv(View(), multiset{})
    {
      NextKeeps(View(), FreeImage(i));
      assert Count(View(), i) == Refs(View(), i) + multiset{}[i];
      assert refcnt[i] == 0;
      assert i !in cached;
      live, refcnt, garbage := live - {i}, refcnt - {i}, garbage - {i};
      freed := freed + {i};
    }
  }
}
