/** Storage files behind the extensions (nabud/stext.c): live host files reached through short
    transfers, and read-only shadow buffers. */
module FileStore {
  import opened Bytes

  const MAX_FILEIO_LENGTH := UINT32_MAX         // off_t wider than 32 bits
  const MAX_SHADOW_LENGTH := 10 * 1024 * 1024

  datatype Error = Success | EROFS | EFBIG | EINVAL

  datatype Whence = SeekSet | SeekCur | SeekEnd

  // ----- One specification of file contents -----

  /** What a positional read of n bytes at off yields. */
  function Slice(f: bytes, off: nat, n: nat): (r: bytes)
    ensures |r| <= n
  {
    if off >= |f| then [] else f[off..Min(|f|, off + n)]
  }

  /** What a positional write leaves: a gap past the end reads as zeros. */
  function Overlay(f: bytes, off: nat, d: bytes): (r: bytes)
    ensures |r| == if d == [] then |f| else Max(|f|, off + |d|)
  {
    if d == [] then f
    else if off >= |f| then f + Zeros(off - |f|) + d
    else if off + |d| >= |f| then f[..off] + d
    else f[..off] + d + f[off + |d|..]
  }

  function Resized(f: bytes, n: nat): (r: bytes)
    ensures |r| == n
  {
    if n <= |f| then f[..n] else f + Zeros(n - |f|)
  }

  lemma OverlayAt(f: bytes, off: nat, d: bytes, i: nat)
    requires i < |Overlay(f, off, d)|
    ensures Overlay(f, off, d)[i]
         == if off <= i < off + |d| then d[i - off] else if i < |f| then f[i] else 0
  {
  }

  /** Byte by byte: a read delivers what is there. */
  lemma SliceAt(f: bytes, off: nat, n: nat, i: nat)
    ensures |Slice(f, off, n)| == if off < |f| then Min(n, |f| - off) else 0
    ensures i < |Slice(f, off, n)| ==> Slice(f, off, n)[i] == f[off + i]
  {
  }

  /** Byte by byte: resizing keeps what stays, and grows with zeros. */
  lemma ResizedAt(f: bytes, n: nat, i: nat)
    requires i < n
    ensures |Resized(f, n)| == n && Resized(f, n)[i] == if i < |f| then f[i] else 0
  {
  }

  /** Writing in two pieces is writing the whole. */
  lemma OverlayTwice(f: bytes, off: nat, d: bytes, k: nat)
    requires k <= |d|
    ensures Overlay(Overlay(f, off, d[..k]), off + k, d[k..]) == Overlay(f, off, d)
  {
    var g := Overlay(f, off, d[..k]);
    var x, y := Overlay(g, off + k, d[k..]), Overlay(f, off, d);
    assert d[..k] == [] || k > 0;
    forall i | 0 <= i < |x|
      ensures |x| == |y| && x[i] == y[i]
    {
      OverlayAt(g, off + k, d[k..], i);
      OverlayAt(f, off, d, i);
      if i < |g| {
        OverlayAt(f, off, d[..k], i);
      }
    }
  }

  // ----- Host files -----

  /** A short write continues the one before. */
  lemma WriteMore(f: bytes, off: nat, d: bytes, done: nat, r: bytes)
    requires done <= |d| && r <= d[done..]
    ensures Overlay(Overlay(f, off, d[..done]), off + done, r) == Overlay(f, off, d[..done + |r|])
  {
    var e := d[..done + |r|];
    assert e[..done] == d[..done] && e[done..] == r;
    OverlayTwice(f, off, e, done);
  }

  /** A host file: every transfer may be short, never empty unless at end-of-file. */
  class HostFile {
    var data: bytes

    constructor (contents: bytes)
      ensures data == contents
    {
      data := contents;
    }

    method Pread(len: nat, off: nat) returns (r: bytes)
      requires len > 0
      ensures r <= Slice(data, off, len)
      ensures r == [] ==> Slice(data, off, len) == []
    {
      var whole := Slice(data, off, len);
      if whole == [] {
        r := [];
      } else {
        var n :| 0 < n <= |whole|;
        r := whole[..n];
      }
    }

    method Pwrite(d: bytes, off: nat) returns (n: nat)
      requires d != []
      modifies this
      ensures 0 < n <= |d|
      ensures data == Overlay(old(data), off, d[..n])
    {
      n :| 0 < n <= |d|;
      data := Overlay(data, off, d[..n]);
    }

    method Truncate(size: nat)
      modifies this
      ensures data == Resized(old(data), size)
    {
      data := Resized(data, size);
    }
  }

  lemma SliceRest(f: bytes, off: nat, n: nat, r: bytes)
    requires r <= Slice(f, off, n)
    ensures Slice(f, off + |r|, n - |r|) == Slice(f, off, n)[|r|..]
  {
  }

  /** `was` with its beginning replaced by `s`. */
  function Patched(was: bytes, s: bytes): bytes
    requires |s| <= |was|
  {
    s + was[|s|..]
  }

  /** `was` with the piece `r` written at `at`. */
  function Spliced(was: bytes, at: nat, r: bytes): bytes
    requires at + |r| <= |was|
  {
    was[..at] + r + was[at + |r|..]
  }

  /** The first `done` bytes of a read are in the buffer `b`, which held `was` before. */
  ghost predicate ReadSoFar(f: bytes, offset: nat, want: nat, was: bytes, done: nat, b: bytes) {
    want <= |was| && done <= |Slice(f, offset, want)| && b == Patched(was, Slice(f, offset, want)[..done])
  }

  lemma PatchMore(was: bytes, s: bytes, done: nat, m: nat)
    requires done + m <= |s| <= |was|
    ensures Spliced(Patched(was, s[..done]), done, s[done..done + m]) == Patched(was, s[..done + m])
  {
  }

  lemma Advance(f: bytes, offset: nat, want: nat, was: bytes, done: nat, m: nat, b: bytes, b': bytes)
    requires ReadSoFar(f, offset, want, was, done, b)
    requires m <= |Slice(f, offset + done, want - done)|
    requires b' == Spliced(b, done, Slice(f, offset + done, want - done)[..m])
    ensures ReadSoFar(f, offset, want, was, done + m, b')
  {
    var s := Slice(f, offset, want);
    SliceRest(f, offset, want, s[..done]);
    assert s[done..][..m] == s[done..done + m];
    PatchMore(was, s, done, m);
  }

  lemma Complete(f: bytes, offset: nat, want: nat, was: bytes, done: nat, b: bytes)
    requires ReadSoFar(f, offset, want, was, done, b)
    requires done == want || Slice(f, offset + done, want - done) == []
    ensures done == |Slice(f, offset, want)| && b == Patched(was, Slice(f, offset, want))
  {
    var s := Slice(f, offset, want);
    SliceRest(f, offset, want, s[..done]);
    assert s[..|s|] == s;
  }

  lemma SliceClamped(f: bytes, off: nat, n: nat)
    requires |f| <= MAX_FILEIO_LENGTH && off <= MAX_FILEIO_LENGTH
    ensures Slice(f, off, Min(n, MAX_FILEIO_LENGTH - off)) == Slice(f, off, n)
  {
  }

  /** An open storage file.  `live` chooses the operations table. */
  class File {
    const live: bool
    const host: HostFile
    var cursor: nat

    ghost predicate Valid()
      reads this, host
    {
      && |host.data| <= MaxLength()
      && (!live ==> cursor <= MAX_SHADOW_LENGTH)
    }

    function MaxLength(): nat { if live then MAX_FILEIO_LENGTH else MAX_SHADOW_LENGTH }

    constructor (live: bool, host: HostFile)
      requires |host.data| <= if live then MAX_FILEIO_LENGTH else MAX_SHADOW_LENGTH
      ensures Valid() && this.live == live && this.host == host && cursor == 0
    {
      this.live, this.host, cursor := live, host, 0;
    }

    /** stext_fileop_pread_fileio into the caller's buffer.  `n` is what *lengthp becomes.
        Near 2^32 the loop is clamped but the count is not, so the count is right exactly
        when offset + length stays within 32 bits. */
    method PreadLive(buf: array<byte>, offset: nat, length: nat) returns (n: nat)
      requires Valid() && live
      requires offset <= UINT32_MAX && length <= UINT16_MAX && length <= buf.Length
      modifies buf
      ensures var k := Min(length, MAX_FILEIO_LENGTH - offset);
        var s := Slice(host.data, offset, k);
        buf[..] == Patched(old(buf[..]), s) && n == |s| + (length - k)
      ensures n == |Slice(host.data, offset, length)| <==> offset + length <= MAX_FILEIO_LENGTH
    {
      var resid := length;
      if resid > MAX_FILEIO_LENGTH - offset {
        resid := MAX_FILEIO_LENGTH - offset;
      }
      resid := ReadFully(buf, offset, resid);
      n := length - resid;
      SliceClamped(host.data, offset, length);
    }

    /** The transfer loop: whatever the short reads, one slice; the rest of `buf` is kept. */
    method ReadFully(buf: array<byte>, offset: nat, want: nat) returns (resid: nat)
      requires want <= buf.Length && offset + want <= UINT32_MAX
      modifies buf
      ensures var s := Slice(host.data, offset, want);
        buf[..] == Patched(old(buf[..]), s) && resid == want - |s|
    {
      ghost var f, was := host.data, buf[..];
      var done := 0;
      resid := want;
      while resid != 0
        invariant resid == want - done && host.data == f
        invariant ReadSoFar(f, offset, want, was, done, buf[..])
      {
        assert offset + done <= UINT32_MAX;
        var m := ReadMore(buf, done, offset + done, resid, was);
        if m == 0 {
          break;
        }
        done := done + m;
        resid := resid - m;
      }
      Complete(f, offset, want, was, done, buf[..]);
    }

    /** One turn of a transfer loop: `done` bytes are in the buffer, `resid` are wanted from `off` on. */
    method ReadMore(buf: array<byte>, done: nat, off: nat, resid: nat, ghost was: bytes) returns (m: nat)
      requires 0 < resid && done <= off && done + resid <= buf.Length
      requires ReadSoFar(host.data, off - done, done + resid, was, done, buf[..])
      modifies buf
      ensures m <= resid && ReadSoFar(host.data, off - done, done + resid, was, done + m, buf[..])
      ensures m == 0 ==> Slice(host.data, off, resid) == []
    {
      ghost var before := buf[..];
      m := ReadSome(buf, done, off, resid);
      Advance(host.data, off - done, done + resid, was, done, m, before, buf[..]);
    }

    /** One transfer into buf[at..]. */
    method ReadSome(buf: array<byte>, at: nat, off: nat, resid: nat) returns (m: nat)
      requires 0 < resid && at + resid <= buf.Length
      modifies buf
      ensures m <= |Slice(host.data, off, resid)|
      ensures m == 0 ==> Slice(host.data, off, resid) == []
      ensures buf[..] == Spliced(old(buf[..]), at, Slice(host.data, off, resid)[..m])
    {
      var r := host.Pread(resid, off);
      m := |r|;
      CopyIn(buf, at, r);
    }

    /** stext_fileop_pread_shadow. */
    method PreadShadow(buf: array<byte>, offset: nat, length: nat) returns (n: nat)
      requires Valid() && length <= buf.Length
      modifies buf
      ensures var s := Slice(host.data, offset, length);
        buf[..] == Patched(old(buf[..]), s) && n == |s|
    {
      n := length;
      if offset >= |host.data| {
        n := 0;
      } else if n > |host.data| - offset {
        n := |host.data| - offset;
      }
      if n != 0 {
        CopyIn(buf, 0, host.data[offset..offset + n]);
      }
    }

    /** stext_file_pread: both back ends refine one specification within 32 bits. */
    method Pread(buf: array<byte>, offset: nat, length: nat) returns (n: nat)
      requires Valid()
      requires offset <= UINT32_MAX && length <= UINT16_MAX && length <= buf.Length
      modifies buf
      ensures n == PreadCount(live, host.data, offset, length)
      ensures var s := PreadData(live, host.data, offset, length);
        buf[..] == Patched(old(buf[..]), s)
      ensures offset + length <= UINT32_MAX ==>
        n == |Slice(host.data, offset, length)| && buf[..n] == Slice(host.data, offset, length)
    {
      if live {
        n := PreadLive(buf, offset, length);
      } else {
        n := PreadShadow(buf, offset, length);
      }
    }

    /** stext_fileop_read_fileio: the loop reads on from the cursor, whatever the short reads. */
    method ReadLive(buf: array<byte>, length: nat) returns (n: nat)
      requires Valid() && live && length <= buf.Length
      modifies buf, this`cursor
      ensures Valid()
      ensures var s := Slice(host.data, old(cursor), length);
        buf[..] == Patched(old(buf[..]), s) && n == |s| && cursor == old(cursor) + |s|
    {
      ghost var f, was := host.data, buf[..];
      var resid, done := length, 0;
      while resid != 0
        invariant resid == length - done && cursor == old(cursor) + done && host.data == f
        invariant ReadSoFar(f, old(cursor), length, was, done, buf[..])
      {
        var m := ReadMore(buf, done, cursor, resid, was);
        if m == 0 {
          break;
        }
        cursor := cursor + m;
        done := done + m;
        resid := resid - m;
      }
      Complete(f, old(cursor), length, was, done, buf[..]);
      n := length - resid;
    }

    /** stext_file_read: both back ends deliver the slice at the cursor, and move past it. */
    method Read(buf: array<byte>, length: nat) returns (n: nat)
      requires Valid() && length <= buf.Length
      modifies buf, this`cursor
      ensures Valid()
      ensures var s := Slice(host.data, old(cursor), length);
        buf[..] == Patched(old(buf[..]), s) && n == |s| && cursor == old(cursor) + |s|
    {
      if live {
        n := ReadLive(buf, length);
      } else {
        n := PreadShadow(buf, cursor, length);
        cursor := cursor + n;
      }
    }

    /** The write loops: short writes add up to one overlay. */
    method WriteFully(d: bytes, offset: nat)
      modifies host
      ensures host.data == Overlay(old(host.data), offset, d)
    {
      var resid, off := d, offset;
      ghost var was, done := host.data, 0;
      assert d[..0] == [];
      while resid != []
        invariant 0 <= done <= |d| && resid == d[done..] && off == offset + done
        invariant host.data == Overlay(was, offset, d[..done])
        decreases |resid|
      {
        var n := host.Pwrite(resid, off);
        WriteMore(was, offset, d, done, resid[..n]);
        done := done + n;
        off := off + n;
        resid := resid[n..];
      }
      assert d[..done] == d;
    }

    /** stext_fileop_pwrite_fileio; within the limit its 32-bit offset does not wrap. */
    method PwriteLive(d: bytes, offset: nat)
      requires Valid() && live && offset + |d| <= MAX_FILEIO_LENGTH
      modifies host
      ensures Valid() && host.data == Overlay(old(host.data), offset, d)
    {
      WriteFully(d, offset);
    }

    /** stext_file_write: it checks no length, so a live file stays within the limit that all
        else relies on exactly when the write ends within it. */
    method Write(d: bytes) returns (e: Error)
      requires Valid()
      modifies host, this`cursor
      ensures e == if live then Success else EROFS
      ensures if live then host.data == Overlay(old(host.data), old(cursor), d) && cursor == old(cursor) + |d|
              else host.data == old(host.data) && cursor == old(cursor)
      ensures Valid() <==> !live || d == [] || old(cursor) + |d| <= MAX_FILEIO_LENGTH
    {
      if !live {
        return EROFS;
      }
      WriteFully(d, cursor);
      cursor := cursor + |d|;
      return Success;
    }

    /** stext_file_pwrite. */
    method Pwrite(d: bytes, offset: nat) returns (e: Error)
      requires Valid() && offset <= UINT32_MAX && |d| <= UINT16_MAX
      modifies host
      ensures Valid()
      ensures e == if !live then EROFS else if offset + |d| > MAX_FILEIO_LENGTH then EFBIG else Success
      ensures host.data == if e == Success then Overlay(old(host.data), offset, d) else old(host.data)
    {
      if !live {
        return EROFS;
      }
      if |d| > MAX_FILEIO_LENGTH - offset {
        return EFBIG;
      }
      PwriteLive(d, offset);
      return Success;
    }

    /** stext_file_truncate; a 32-bit size never exceeds the live limit. */
    method Truncate(size: nat) returns (e: Error)
      requires Valid() && size <= UINT32_MAX
      modifies host
      ensures Valid()
      ensures e == if live then Success else EROFS
      ensures host.data == if live then Resized(old(host.data), size) else old(host.data)
    {
      if !live {
        return EROFS;
      }
      host.Truncate(size);
      return Success;
    }

    /** stext_file_seek: it lands on the target or leaves the cursor where it was. The position it
        reports is an int32_t. */
    method Seek(offset: int, whence: Whence) returns (e: Error, at: int)
      requires Valid() && -0x8000_0000 <= offset <= 0x7fff_ffff
      modifies this
      ensures Valid()
      ensures var target := SeekTarget(old(cursor), |host.data|, offset, whence);
        && e == (if target < 0 then EINVAL else if target >= MaxLength() then EFBIG else Success)
        && cursor == (if e == Success then target else old(cursor))
        && (e == Success ==> at == ToInt32(cursor))
    {
      var ooff := cursor;
      var moved := SeekRaw(offset, whence);
      at := ToInt32(cursor);
      if !moved {
        return EINVAL, at;
      }
      if cursor >= MaxLength() {
        cursor := ooff;
        return EFBIG, at;
      }
      return Success, at;
    }

    /** lseek, or stext_fileop_seek_shadow whose cursor is a uint32_t. */
    method SeekRaw(offset: int, whence: Whence) returns (moved: bool)
      requires Valid() && -0x8000_0000 <= offset <= 0x7fff_ffff
      modifies this
      ensures var target := SeekTarget(old(cursor), |host.data|, offset, whence);
        moved == (target >= 0) && cursor == if moved then target else old(cursor)
    {
      match whence {
        case SeekSet =>
          if offset < 0 { return false; }
          cursor := Cursor(offset);
        case SeekCur =>
          if offset < 0 && -offset > cursor { return false; }
          cursor := Cursor(cursor + offset);
        case SeekEnd =>
          if offset < 0 && -offset > |host.data| { return false; }
          cursor := Cursor(|host.data| + offset);
      }
      return true;
    }

    /** A position as the back end stores it. */
    function Cursor(at: nat): nat { if live then at else at % 0x1_0000_0000 }
  }

  /** A position cast to int32_t: negative from 2^31 on. */
  function ToInt32(at: nat): (r: int)
    ensures -0x8000_0000 <= r < 0x8000_0000
    ensures r == at <==> at < 0x8000_0000
    ensures at <= UINT32_MAX ==> r % 0x1_0000_0000 == at
  {
    (at + 0x8000_0000) % 0x1_0000_0000 - 0x8000_0000
  }

  /** A position is reached by its distance from the beginning, the cursor or the end. */
  lemma SeekAgrees(cursor: nat, size: nat, target: int)
    ensures SeekTarget(cursor, size, target, SeekSet) == target
    ensures SeekTarget(cursor, size, target - cursor, SeekCur) == target
    ensures SeekTarget(cursor, size, target - size, SeekEnd) == target
  {
  }

  /** Two seeks, and a write of two bytes, leave a file above the limit. */
  lemma WriteOutgrows(f: bytes, d: bytes)
    requires |f| <= MAX_FILEIO_LENGTH && |d| == 2
    ensures var at := SeekTarget(SeekTarget(0, |f|, 0x7fff_ffff, SeekSet), |f|, 0x7fff_ffff, SeekCur);
      at < MAX_FILEIO_LENGTH < |Overlay(f, at, d)|
  {
  }

  function SeekTarget(cursor: nat, size: nat, offset: int, whence: Whence): int {
    match whence
    case SeekSet => offset
    case SeekCur => cursor + offset
    case SeekEnd => size + offset
  }

  /** The bytes a positional read delivers. */
  function PreadData(live: bool, f: bytes, offset: nat, length: nat): bytes
    requires offset <= UINT32_MAX
  {
    if live then Slice(f, offset, Min(length, MAX_FILEIO_LENGTH - offset)) else Slice(f, offset, length)
  }

  /** The count it reports: too large by what the live loop was clamped. */
  function PreadCount(live: bool, f: bytes, offset: nat, length: nat): nat
    requires offset <= UINT32_MAX
  {
    |PreadData(live, f, offset, length)|
    + if live then length - Min(length, MAX_FILEIO_LENGTH - offset) else 0
  }

  /** memcpy into a buffer. */
  method CopyIn(buf: array<byte>, at: nat, r: bytes)
    requires at + |r| <= buf.Length
    modifies buf
    ensures buf[..] == Spliced(old(buf[..]), at, r)
  {
    forall i | 0 <= i < |r| {
      buf[at + i] := r[i];
    }
  }
}
