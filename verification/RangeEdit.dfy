/** FH-INSERT and FH-DELETE-RANGE (nabud/retronet.c): editing a file in place through a bounded
    copy buffer. */
module RangeEdit {
  import opened Bytes
  import opened FileStore

  const COPY_BUFSIZE := 65535

  // ----- What the requests mean -----

  /** The file with `d` inserted; past end-of-file the gap is zeros; oversize is refused. */
  function Inserted(f: bytes, off: nat, d: bytes): bytes {
    if Max(|f|, off) + |d| > UINT32_MAX then f
    else if off >= |f| then Overlay(f, off, d)
    else f[..off] + d + f[off..]
  }

  /** The file without the range. */
  function Deleted(f: bytes, off: nat, len: nat): bytes {
    if off >= |f| then f
    else if off + len >= |f| then f[..off]
    else f[..off] + f[off + len..]
  }

  /** Byte by byte: an insertion that fits lengthens the file, up to its offset if need be, puts
      the data at the offset and what followed behind it, and fills a gap with zeros. */
  lemma InsertedAt(f: bytes, off: nat, d: bytes, i: nat)
    ensures Max(|f|, off) + |d| > UINT32_MAX ==> Inserted(f, off, d) == f
    ensures Max(|f|, off) + |d| <= UINT32_MAX && d != [] ==>
      && |Inserted(f, off, d)| == Max(|f|, off) + |d|
      && (i < |Inserted(f, off, d)| ==>
            Inserted(f, off, d)[i] ==
              if i < off then (if i < |f| then f[i] else 0)
              else if i < off + |d| then d[i - off]
              else f[i - |d|])
    ensures d == [] ==> Inserted(f, off, d) == f
  {
    if d != [] && Max(|f|, off) + |d| <= UINT32_MAX && off >= |f| && i < |Inserted(f, off, d)| {
      OverlayAt(f, off, d, i);
    }
    if d == [] {
      InsertNothing(f, off, d);
    }
  }

  /** Byte by byte: a deletion takes at most what is there after its offset. */
  lemma DeletedAt(f: bytes, off: nat, len: nat, i: nat)
    ensures off >= |f| ==> Deleted(f, off, len) == f
    ensures off < |f| ==>
      && |Deleted(f, off, len)| == |f| - Min(len, |f| - off)
      && (i < |Deleted(f, off, len)| ==> Deleted(f, off, len)[i] == if i < off then f[i] else f[i + len])
  {
  }

  // ----- FH-INSERT -----

  /** Everything from `at` on has moved up by n; everything before `at` is in place. */
  ghost predicate Shifted(g: bytes, f: bytes, n: nat, at: nat) {
    at <= |f| && |g| == |f| + n && g[..at] == f[..at] && g[at + n..] == f[at..]
  }

  /** One chunk of the backward move: overlapping source and target, zero-filled growth. */
  lemma ShiftChunk(g: bytes, f: bytes, n: nat, at: nat, len: nat)
    requires n > 0 && 0 < len <= at <= |f|
    requires Shifted(g, f, n, at) || (at == |f| && g == f)
    ensures at <= |g| && g[at - len..at] == f[at - len..at]
    ensures Shifted(Overlay(g, at - len + n, f[at - len..at]), f, n, at - len)
  {
    var lo := at - len;
    var d := f[lo..at];
    var h := Overlay(g, lo + n, d);
    assert |h| == |f| + n;
    forall i | 0 <= i < |h|
      ensures i < lo ==> h[i] == f[i]
      ensures lo + n <= i ==> h[i] == f[i - n]
    {
      OverlayAt(g, lo + n, d, i);
      if at + n <= i < |g| {
        assert g[i] == g[at + n..][i - at - n];
      }
    }
    assert h[..lo] == f[..lo] && h[lo + n..] == f[lo..];
  }

  lemma FillHole(g: bytes, f: bytes, off: nat, d: bytes)
    requires Shifted(g, f, |d|, off)
    ensures Overlay(g, off, d) == f[..off] + d + f[off..]
  {
  }

  /** One pass of the copy loop: read a chunk, write it `to` where it belongs.  Within these
      bounds the read is never short and the write never hits the EFBIG check. */
  method CopyChunk(f: File, buf: array<byte>, from: nat, to: nat, len: nat) returns (e: Error)
    requires f.Valid() && len <= COPY_BUFSIZE == buf.Length
    requires from + len <= |f.host.data| && to + len <= UINT32_MAX
    modifies f.host, buf
    ensures f.Valid()
    ensures e == if f.live then Success else EROFS
    ensures f.host.data == if f.live then Overlay(old(f.host.data), to, old(f.host.data)[from..from + len])
                           else old(f.host.data)
  {
    var n := f.Pread(buf, from, len);
    e := f.Pwrite(buf[..n], to);
  }

  /** Nothing has moved yet, or, in a live file, everything from `at` on has. */
  ghost predicate Moving(live: bool, g: bytes, f: bytes, n: nat, at: nat) {
    (at == |f| && g == f) || (live && Shifted(g, f, n, at))
  }

  lemma MovingStep(live: bool, g: bytes, f: bytes, n: nat, at: nat, len: nat)
    requires n > 0 && 0 < len <= at && Moving(live, g, f, n, at)
    ensures at <= |g| && (live ==> Moving(live, Overlay(g, at - len + n, g[at - len..at]), f, n, at - len))
  {
    ShiftChunk(g, f, n, at, len);
  }

  /** One pass of the backward loop. */
  method MoveUpChunk(f: File, buf: array<byte>, readoff: nat, n: nat, iolen: nat, ghost was: bytes) returns (ok: bool)
    requires f.Valid() && buf.Length == COPY_BUFSIZE && 0 < n && |was| + n <= UINT32_MAX
    requires 0 < iolen <= COPY_BUFSIZE && iolen <= readoff && Moving(f.live, f.host.data, was, n, readoff)
    modifies f.host, buf
    ensures f.Valid() && ok == f.live
    ensures if ok then Moving(f.live, f.host.data, was, n, readoff - iolen) else f.host.data == old(f.host.data)
  {
    MovingStep(f.live, f.host.data, was, n, readoff, iolen);
    var e := CopyChunk(f, buf, readoff - iolen, readoff - iolen + n, iolen);
    ok := e == Success;
  }

  /** The backward loop that makes room for n bytes at `offset`. */
  method MakeRoom(f: File, offset: nat, n: nat) returns (ok: bool)
    requires f.Valid() && offset < |f.host.data| && 0 < n && |f.host.data| + n <= UINT32_MAX
    modifies f.host
    ensures f.Valid() && ok == f.live
    ensures if ok then Shifted(f.host.data, old(f.host.data), n, offset) else f.host.data == old(f.host.data)
  {
    ghost var was := f.host.data;
    var buf := new byte[COPY_BUFSIZE];
    var readoff, resid := |f.host.data|, |f.host.data| - offset;
    while resid != 0
      invariant f.Valid() && 0 <= resid && readoff == offset + resid
      invariant Moving(f.live, f.host.data, was, n, readoff)
      decreases resid
    {
      var iolen := if resid < COPY_BUFSIZE then resid else COPY_BUFSIZE;
      ok := MoveUpChunk(f, buf, readoff, n, iolen, was);
      if !ok {
        return;
      }
      readoff := readoff - iolen;
      resid := resid - iolen;
    }
    ok := true;
  }

  /** rn_req_fh_insert, once the request and its data are in. */
  method Insert(f: File, offset: nat, d: bytes)
    requires f.Valid() && offset <= UINT32_MAX && |d| <= UINT16_MAX
    modifies f.host
    ensures f.Valid()
    ensures f.host.data == if f.live then Inserted(old(f.host.data), offset, d) else old(f.host.data)
  {
    if |d| == 0 {
      InsertNothing(f.host.data, offset, d);
      return;
    }
    ghost var was := f.host.data;
    if offset < |f.host.data| {
      if |f.host.data| + |d| > UINT32_MAX {
        return;
      }
      var ok := MakeRoom(f, offset, |d|);
      if !ok {
        return;
      }
      FillHole(f.host.data, was, offset, d);
    }
    var e := f.Pwrite(d, offset);
  }

  lemma InsertNothing(f: bytes, off: nat, d: bytes)
    requires |d| == 0
    ensures Inserted(f, off, d) == f
  {
    if off < |f| {
      assert f[..off] + d + f[off..] == f;
    }
  }

  // ----- FH-DELETE-RANGE -----

  /** The first read position, stepping from k by full chunks, whose chunk passes 2^32 - 1. */
  function FirstClamped(k: nat): (r: nat)
    requires k <= UINT32_MAX
    ensures k <= r <= UINT32_MAX < r + COPY_BUFSIZE
    decreases UINT32_MAX - k
  {
    if k + COPY_BUFSIZE > UINT32_MAX then k else FirstClamped(k + COPY_BUFSIZE)
  }

  /** When a deletion inside a file of `size` bytes does what it should: the data is moved
      before any read is clamped, or the clamped read's inflated count still fits the file. */
  predicate DeleteWorks(size: nat, off: nat, len: nat)
    requires off + len < size <= UINT32_MAX
  {
    var k := FirstClamped(off + len);
    k >= size || size - len + COPY_BUFSIZE + k <= 2 * UINT32_MAX
  }

  /** The file as the code leaves it: when the inflated write is refused, the tail is lost. */
  function DeletedByCode(f: bytes, off: nat, len: nat): bytes
    requires |f| <= UINT32_MAX
  {
    if off + len >= |f| || DeleteWorks(|f|, off, len) then Deleted(f, off, len)
    else
      var k := FirstClamped(off + len);
      f[..off] + f[off + len..k] + f[k - len..|f| - len]
  }

  /** `t` is `f` without `len` bytes from `off` on. */
  ghost predicate WithoutRange(t: bytes, f: bytes, off: nat, len: nat) {
    && 0 < len && off + len < |f| <= UINT32_MAX && |t| == |f| - len
    && (forall i :: 0 <= i < off ==> t[i] == f[i])
    && (forall i :: off <= i < |t| ==> t[i] == f[i + len])
  }

  lemma DeletedIsWithout(f: bytes, off: nat, len: nat)
    requires 0 < len && off + len < |f| <= UINT32_MAX
    ensures WithoutRange(Deleted(f, off, len), f, off, len)
  {
  }

  /** Data remains to be moved: the prefix is final, the rest untouched. */
  ghost predicate DeletingLow(g: bytes, f: bytes, t: bytes, offset: nat) {
    offset < |t| <= |f| && g == t[..offset] + f[offset..]
  }

  /** All data is moved: only what truncation removes changes from here on. */
  ghost predicate DeletingHigh(g: bytes, t: bytes) { t <= g && |g| <= UINT32_MAX }

  /** The loop's state; `offset` is the write position, `keepoff` the read position. */
  ghost predicate Deleting(g: bytes, f: bytes, t: bytes, off: nat, len: nat, offset: nat, keepoff: nat) {
    && WithoutRange(t, f, off, len) && off <= offset <= UINT32_MAX && keepoff <= UINT32_MAX
    && if offset < |t| then
         && keepoff == offset + len && FirstClamped(keepoff) == FirstClamped(off + len)
         && DeletingLow(g, f, t, offset)
       else
         DeletingHigh(g, t) && DeleteWorks(|f|, off, len)
  }

  /** A write of file data and then `junk` extends the final prefix. */
  lemma ExtendPrefix(g: bytes, f: bytes, t: bytes, off: nat, len: nat, offset: nat, m: nat, junk: bytes)
    requires WithoutRange(t, f, off, len) && DeletingLow(g, f, t, offset) && off <= offset
    requires 0 < m && offset + m <= |t|
    requires junk == [] || offset + m == |t|
    ensures var h := Overlay(g, offset, f[offset + len..offset + len + m] + junk);
      if offset + m == |t| then t <= h else DeletingLow(h, f, t, offset + m)
  {
    var d := f[offset + len..offset + len + m] + junk;
    var h := Overlay(g, offset, d);
    forall i | 0 <= i < |h|
      ensures i < offset + m ==> h[i] == t[i]
      ensures offset + |d| <= i < |f| ==> h[i] == f[i]
    {
      OverlayAt(g, offset, d, i);
    }
    if offset + m == |t| {
      assert h[..|t|] == t;
    } else {
      assert h[..offset + m] == t[..offset + m] && h[offset + m..] == f[offset + m..];
    }
  }

  /** What a read delivers while data remains to be moved. */
  lemma DeleteRead(g: bytes, f: bytes, t: bytes, len: nat, offset: nat, keepoff: nat, m: nat)
    requires |t| + len == |f| <= UINT32_MAX && DeletingLow(g, f, t, offset) && keepoff == offset + len
    requires m == Min(COPY_BUFSIZE, |f| - keepoff)
    ensures PreadData(true, g, keepoff, COPY_BUFSIZE) == f[keepoff..keepoff + m]
    ensures PreadCount(true, g, keepoff, COPY_BUFSIZE) == m + Max(0, COPY_BUFSIZE - (UINT32_MAX - keepoff))
  {
    assert g[keepoff..] == f[keepoff..];
  }

  lemma WriteBeyond(g: bytes, t: bytes, offset: nat, d: bytes)
    requires DeletingHigh(g, t) && |t| <= offset && offset + |d| <= UINT32_MAX
    ensures DeletingHigh(Overlay(g, offset, d), t)
  {
    var h := Overlay(g, offset, d);
    forall i | 0 <= i < |t|
      ensures h[i] == t[i]
    {
      OverlayAt(g, offset, d, i);
    }
  }

  /** Positions after a low write of m bytes of file data and x stale ones. */
  lemma LowPositions(size: nat, off: nat, len: nat, offset: nat, keepoff: nat, m: nat, x: nat)
    requires 0 < len && off + len < size <= UINT32_MAX && off <= offset < size - len && keepoff == offset + len
    requires FirstClamped(keepoff) == FirstClamped(off + len)
    requires m == Min(COPY_BUFSIZE, size - keepoff) && x == Max(0, COPY_BUFSIZE - (UINT32_MAX - keepoff))
    requires offset + m + x <= UINT32_MAX
    ensures 0 < m && offset + m <= size - len && (x > 0 ==> offset + m == size - len)
    ensures offset + m < size - len ==> FirstClamped(keepoff + m) == FirstClamped(off + len)
    ensures offset + m == size - len ==> DeleteWorks(size, off, len)
  {
  }

  lemma DeleteWriteLow(g: bytes, f: bytes, t: bytes, off: nat, len: nat, offset: nat, keepoff: nat, m: nat, junk: bytes, h: bytes)
    requires Deleting(g, f, t, off, len, offset, keepoff) && offset < |t|
    requires m == Min(COPY_BUFSIZE, |f| - keepoff) && |junk| == Max(0, COPY_BUFSIZE - (UINT32_MAX - keepoff))
    requires offset + m + |junk| <= UINT32_MAX && h == Overlay(g, offset, f[keepoff..keepoff + m] + junk)
    ensures if offset + m < |t| then junk == [] && Deleting(h, f, t, off, len, offset + m, keepoff + m)
            else DeletingHigh(h, t) && DeleteWorks(|f|, off, len)
  {
    LowPositions(|f|, off, len, offset, keepoff, m, |junk|);
    ExtendPrefix(g, f, t, off, len, offset, m, junk);
    assert |h| == Max(|g|, offset + m + |junk|);
  }

  /** A write that is accepted keeps the loop's state: an unclamped chunk is all file data; the
      clamped one is the file's last data and then stale bytes, which truncation removes. */
  lemma DeleteWrite(g: bytes, f: bytes, t: bytes, off: nat, len: nat, offset: nat, keepoff: nat, d: bytes, keepoff': nat)
    requires Deleting(g, f, t, off, len, offset, keepoff)
    requires |d| == PreadCount(true, g, keepoff, COPY_BUFSIZE) && offset + |d| <= UINT32_MAX
    requires PreadData(true, g, keepoff, COPY_BUFSIZE) <= d
    requires keepoff' == (keepoff + |d|) % 0x1_0000_0000
    ensures Deleting(Overlay(g, offset, d), f, t, off, len, offset + |d|, keepoff')
  {
    if offset >= |t| {
      WriteBeyond(g, t, offset, d);
    } else {
      var m := Min(COPY_BUFSIZE, |f| - keepoff);
      DeleteRead(g, f, t, len, offset, keepoff, m);
      assert d == f[keepoff..keepoff + m] + d[m..];
      DeleteWriteLow(g, f, t, off, len, offset, keepoff, m, d[m..], Overlay(g, offset, d));
    }
  }

  lemma LostTail(g: bytes, f: bytes, t: bytes, off: nat, len: nat, offset: nat)
    requires WithoutRange(t, f, off, len) && DeletingLow(g, f, t, offset) && off <= offset
    ensures |t| <= |g| && g[..|t|] == f[..off] + f[off + len..offset + len] + f[offset..|t|]
  {
    var moved := f[..off] + f[off + len..offset + len];
    forall i | 0 <= i < offset
      ensures t[i] == moved[i]
    {
      if i >= off {
        assert moved[i] == f[off + len..offset + len][i - off] == f[i + len];
      }
    }
    assert t[..offset] == moved;
    assert g[..|t|] == t[..offset] + f[offset..|t|];
  }

  lemma DeleteRefused(size: nat, off: nat, len: nat, offset: nat, keepoff: nat)
    requires 0 < len && off + len < size <= UINT32_MAX && off <= offset < size - len && keepoff == offset + len
    requires FirstClamped(keepoff) == FirstClamped(off + len)
    requires var n := Min(COPY_BUFSIZE, size - keepoff) + Max(0, COPY_BUFSIZE - (UINT32_MAX - keepoff));
      n == 0 || offset + n > UINT32_MAX
    ensures keepoff == FirstClamped(off + len) && !DeleteWorks(size, off, len)
  {
  }

  lemma DoneLow(g: bytes, f: bytes, t: bytes, off: nat, len: nat, offset: nat)
    requires WithoutRange(t, f, off, len) && DeletingLow(g, f, t, offset) && off <= offset
    requires offset + len == FirstClamped(off + len) && !DeleteWorks(|f|, off, len)
    ensures Resized(g, |t|) == DeletedByCode(f, off, len)
  {
    LostTail(g, f, t, off, len, offset);
    DamagedIs(f, off, len, offset + len);
  }

  /** The damaged file, in pieces. */
  lemma DamagedIs(f: bytes, off: nat, len: nat, k: nat)
    requires off + len < |f| <= UINT32_MAX && !DeleteWorks(|f|, off, len) && k == FirstClamped(off + len)
    ensures off + len <= k < |f| && DeletedByCode(f, off, len) == f[..off] + f[off + len..k] + f[k - len..|f| - len]
  {
  }

  lemma DoneHigh(g: bytes, f: bytes, t: bytes, off: nat, len: nat)
    requires t == Deleted(f, off, len) && t <= g
    requires off + len < |f| <= UINT32_MAX && DeleteWorks(|f|, off, len)
    ensures Resized(g, |t|) == DeletedByCode(f, off, len)
  {
    assert g[..|t|] == t;
  }

  /** When the loop stops, at end-of-file or at a refused write, truncating yields the result. */
  lemma DeleteDone(g: bytes, f: bytes, t: bytes, off: nat, len: nat, offset: nat, keepoff: nat)
    requires Deleting(g, f, t, off, len, offset, keepoff) && t == Deleted(f, off, len)
    requires var n := PreadCount(true, g, keepoff, COPY_BUFSIZE); n == 0 || offset + n > UINT32_MAX
    ensures Resized(g, |t|) == DeletedByCode(f, off, len)
  {
    if offset < |t| {
      DeleteRead(g, f, t, len, offset, keepoff, Min(COPY_BUFSIZE, |f| - keepoff));
      DeleteRefused(|f|, off, len, offset, keepoff);
      DoneLow(g, f, t, off, len, offset);
    } else {
      DoneHigh(g, f, t, off, len);
    }
  }

  lemma DeleteStart(f: bytes, off: nat, len: nat)
    requires off + len < |f| <= UINT32_MAX && 0 < len
    ensures Deleting(f, f, Deleted(f, off, len), off, len, off, off + len)
  {
    DeletedIsWithout(f, off, len);
    assert Deleted(f, off, len)[..off] == f[..off];
    assert f == f[..off] + f[off..];
  }

  /** One pass of the forward loop; `more` is false when the loop stops. */
  method DeleteChunk(f: File, buf: array<byte>, offset: nat, keepoff: nat) returns (more: bool, n: nat, ghost d: bytes)
    requires f.Valid() && f.live && buf.Length == COPY_BUFSIZE && offset <= UINT32_MAX && keepoff <= UINT32_MAX
    modifies f.host, buf
    ensures f.Valid() && n == PreadCount(true, old(f.host.data), keepoff, COPY_BUFSIZE)
    ensures more == (0 < n && offset + n <= UINT32_MAX)
    ensures !more ==> f.host.data == old(f.host.data)
    ensures |d| == n && PreadData(true, old(f.host.data), keepoff, COPY_BUFSIZE) <= d
    ensures more ==> f.host.data == Overlay(old(f.host.data), offset, d)
  {
    n := f.Pread(buf, keepoff, COPY_BUFSIZE);
    d := buf[..n];
    if n == 0 {
      return false, n, d;
    }
    var e := f.Pwrite(buf[..n], offset);
    more := e == Success;
  }

  method MoveDownChunk(f: File, buf: array<byte>, offset: nat, keepoff: nat, ghost was: bytes, ghost t: bytes,
                       ghost off: nat, ghost len: nat) returns (more: bool, n: nat)
    requires f.Valid() && f.live && buf.Length == COPY_BUFSIZE && t == Deleted(was, off, len)
    requires Deleting(f.host.data, was, t, off, len, offset, keepoff)
    modifies f.host, buf
    ensures f.Valid()
    ensures more ==> 0 < n && Deleting(f.host.data, was, t, off, len, offset + n, (keepoff + n) % 0x1_0000_0000)
    ensures !more ==> Resized(f.host.data, |t|) == DeletedByCode(was, off, len)
  {
    ghost var g, d := f.host.data, [];
    more, n, d := DeleteChunk(f, buf, offset, keepoff);
    if more {
      DeleteWrite(g, was, t, off, len, offset, keepoff, d, (keepoff + n) % 0x1_0000_0000);
    } else {
      DeleteDone(g, was, t, off, len, offset, keepoff);
    }
  }

  /** The forward loop on a live file. */
  method MoveDown(f: File, start: nat, length: nat)
    requires f.Valid() && f.live && 0 < length && start + length < |f.host.data|
    modifies f.host
    ensures f.Valid()
    ensures Resized(f.host.data, |old(f.host.data)| - length) == DeletedByCode(old(f.host.data), start, length)
  {
    ghost var was := f.host.data;
    ghost var target := Deleted(was, start, length);
    var buf := new byte[COPY_BUFSIZE];
    var offset: nat, keepoff: nat := start, start + length;
    DeleteStart(was, start, length);
    while true
      invariant f.Valid() && Deleting(f.host.data, was, target, start, length, offset, keepoff)
      decreases UINT32_MAX - offset
    {
      var more, n := MoveDownChunk(f, buf, offset, keepoff, was, target, start, length);
      if !more {
        return;
      }
      keepoff := (keepoff + n) % 0x1_0000_0000;
      offset := offset + n;
    }
  }

  /** rn_req_fh_delete_range.  A shadow file is read-only and stays as it is. */
  method DeleteRange(f: File, start: nat, length: nat)
    requires f.Valid() && start <= UINT32_MAX && length <= UINT16_MAX
    modifies f.host
    ensures f.Valid()
    ensures f.host.data == if f.live && length > 0 then DeletedByCode(old(f.host.data), start, length)
                           else old(f.host.data)
  {
    var size := |f.host.data|;
    if length == 0 || start >= size {
      return;
    }
    if size - start <= length {
      var e := f.Truncate(start);
      return;
    }
    if f.live {
      MoveDown(f, start, length);
    } else {
      // The first write is refused, and so is the truncation.
      var buf := new byte[COPY_BUFSIZE];
      var n := f.Pread(buf, start + length, COPY_BUFSIZE);
      var e := f.Pwrite(buf[..n], start);
    }
    var e := f.Truncate(size - length);
  }

  // ----- Consequences -----

  /** The first clamped read is a whole number of chunks away. */
  lemma {:induction false} FirstClampedIs(k: nat) returns (n: nat)
    requires k <= UINT32_MAX
    ensures FirstClamped(k) == k + n * COPY_BUFSIZE
    decreases UINT32_MAX - k
  {
    if FirstClamped(k) == k {
      n := 0;
    } else {
      var m := FirstClampedIs(k + COPY_BUFSIZE);
      n := m + 1;
    }
  }

  /** What the code leaves, byte by byte: the data below the first clamped read has moved down,
      the rest of what the truncation leaves has not. */
  lemma DeletedByCodeAt(f: bytes, off: nat, len: nat, i: nat)
    requires |f| <= UINT32_MAX && 0 < len && off + len < |f|
    ensures |DeletedByCode(f, off, len)| == |f| - len
    ensures i < |f| - len ==>
      DeletedByCode(f, off, len)[i] ==
        if i < off || (!DeleteWorks(|f|, off, len) && i >= FirstClamped(off + len) - len) then f[i] else f[i + len]
  {
    if DeleteWorks(|f|, off, len) {
      DeletedAt(f, off, len, i);
    } else {
      DamagedIs(f, off, len, FirstClamped(off + len));
    }
  }

  /** A file that the code damages when the condition fails. */
  lemma DeleteLoses(size: nat, off: nat, len: nat) returns (f: bytes)
    requires 0 < len && off + len < size <= UINT32_MAX && !DeleteWorks(size, off, len)
    ensures |f| == size && DeletedByCode(f, off, len) != Deleted(f, off, len)
  {
    f := Zeros(size - 1) + [1];
    var k := FirstClamped(off + len);
    assert DeletedByCode(f, off, len)[size - len - 1] == f[size - len - 1] == 0;
    DeletedIsWithout(f, off, len);
    assert Deleted(f, off, len)[size - len - 1] == 1;
  }

  /** Where the code is right, for every file of a size, and only there. */
  lemma DeleteExactly(size: nat, off: nat, len: nat)
    requires 0 < len && off + len < size <= UINT32_MAX
    ensures DeleteWorks(size, off, len) <==>
      forall f: bytes :: |f| == size ==> DeletedByCode(f, off, len) == Deleted(f, off, len)
  {
    if !DeleteWorks(size, off, len) {
      var _ := DeleteLoses(size, off, len);
    }
  }

  /** One chunk of slack below 2^32 - 1 is always enough. */
  lemma DeleteSafe(size: nat, off: nat, len: nat)
    requires off + len < size && size + COPY_BUFSIZE <= UINT32_MAX
    ensures DeleteWorks(size, off, len)
  {
  }

  lemma {:induction false} FirstClampedSteps(k: nat, n: nat)
    requires k + n * COPY_BUFSIZE <= UINT32_MAX
    ensures FirstClamped(k) == FirstClamped(k + n * COPY_BUFSIZE)
    decreases n
  {
    if n > 0 {
      FirstClampedSteps(k + COPY_BUFSIZE, n - 1);
    }
  }

  /** The largest file loses data when, say, one byte at offset 65533 is deleted: the last
      chunk is read at 2^32 - 2 and its inflated write is refused. */
  lemma DeleteFails()
    ensures !DeleteWorks(UINT32_MAX, 65533, 1)
  {
    FirstClampedSteps(65534, 65536);
  }

  /** Deleting what was just inserted restores the file. */
  predicate Restored(f: bytes, off: nat, d: bytes)
    requires |f| <= UINT32_MAX
  {
    |Inserted(f, off, d)| <= UINT32_MAX && DeletedByCode(Inserted(f, off, d), off, |d|) == f
  }

  lemma InsertThenDelete(f: bytes, off: nat, d: bytes)
    requires off <= |f| && 0 < |d| && |f| + |d| <= UINT32_MAX
    requires off == |f| || DeleteWorks(|f| + |d|, off, |d|)
    ensures Restored(f, off, d)
  {
    var g := Inserted(f, off, d);
    if off < |f| {
      assert f == f[..off] + f[off..];
    } else {
      assert g[..off] == f;
    }
  }

  lemma DeleteThenInsert(g: bytes, off: nat, n: nat, f: bytes, d: bytes)
    requires off + n < |g| <= UINT32_MAX && f == g[..off] + g[off + n..] && d == g[off..off + n]
    ensures Inserted(f, off, d) == g
  {
    assert f[..off] == g[..off] && f[off..] == g[off + n..];
    assert g == g[..off] + d + g[off + n..];
  }

  /** Otherwise some file is not restored. */
  lemma InsertThenDeleteFails(size: nat, off: nat, n: nat) returns (f: bytes, d: bytes)
    requires off < size && 0 < n && size + n <= UINT32_MAX && !DeleteWorks(size + n, off, n)
    ensures |f| == size && |d| == n && !Restored(f, off, d)
  {
    var g := DeleteLoses(size + n, off, n);
    f, d := g[..off] + g[off + n..], g[off..off + n];
    DeleteThenInsert(g, off, n, f, d);
  }

  /** The condition is exact for the files of a size; DeleteSafe bounds where it holds. */
  lemma InsertThenDeleteExactly(size: nat, off: nat, n: nat)
    requires off <= size && 0 < n && size + n <= UINT32_MAX
    ensures (off == size || DeleteWorks(size + n, off, n)) <==>
      forall f: bytes, d: bytes :: |f| == size && |d| == n ==> Restored(f, off, d)
  {
    if off == size || DeleteWorks(size + n, off, n) {
      forall f: bytes, d: bytes | |f| == size && |d| == n
        ensures Restored(f, off, d)
      {
        InsertThenDelete(f, off, d);
      }
    } else {
      var _, _ := InsertThenDeleteFails(size, off, n);
    }
  }
}
