/** STORAGE-GET-BLOCK and STORAGE-PUT-BLOCK (nabud/nhacp.c) over storage files. */
module Blocks {
  import opened Bytes
  import opened FileStore

  const MAX_PAYLOAD := 8192          // NHACP_MAX_PAYLOAD
  const SPACE: nat := 0x1_0000_0000  // offsets are 32 bits wide

  datatype Reply = Invalid | Data(data: bytes) | Done | Failed(error: Error)

  // ----- What a block is -----

  function Padded(s: bytes, n: nat): (r: bytes)
    requires |s| <= n
    ensures |r| == n
  {
    s + Zeros(n - |s|)
  }

  /** The block of n bytes at `off`: nothing at or past end-of-file, else zero-padded. */
  function BlockAt(f: bytes, off: nat, n: nat): bytes {
    if Slice(f, off, n) == [] then [] else Padded(Slice(f, off, n), n)
  }

  function Block(f: bytes, k: nat, n: nat): bytes { BlockAt(f, k * n, n) }

  // ----- The handlers, past the file lookup -----

  /** The offset check in 32-bit unsigned arithmetic: blklen 0 wraps the bound to 0. */
  predicate AdmittedAt(offset: nat, blklen: nat)
    requires blklen <= UINT16_MAX
  {
    offset <= (SPACE - blklen) % SPACE && blklen <= MAX_PAYLOAD
  }

  predicate Admitted(blkno: nat, blklen: nat)
    requires blklen <= UINT16_MAX
  {
    AdmittedAt(blkno * blklen, blklen)
  }

  /** What GET-BLOCK answers, given what the reply buffer held: the inflated count of a read
      that ends at 2^32 lets one stale byte through and hides end-of-file. */
  function BlockByCode(live: bool, f: bytes, off: nat, n: nat, stale: bytes): bytes
    requires off <= UINT32_MAX && n <= |stale|
  {
    var got, count := PreadData(live, f, off, n), PreadCount(live, f, off, n);
    if count == 0 then [] else Padded(Patched(stale, got)[..count], n)
  }

  /** The read and the zero padding of nhacp_req_storage_get_block. */
  method ReadBlock(f: File, buf: array<byte>, offset: nat, blklen: nat) returns (d: bytes)
    requires f.Valid() && offset <= UINT32_MAX && blklen <= MAX_PAYLOAD <= buf.Length
    modifies buf
    ensures d == BlockByCode(f.live, f.host.data, offset, blklen, old(buf[..]))
  {
    var save := blklen;
    var n := f.Pread(buf, offset, blklen);
    ghost var got := buf[..n];
    if n == 0 {
      save := 0;
    } else if n != save {
      assert save > n;
      forall i | n <= i < save {
        buf[i] := 0;
      }
    }
    d := buf[..save];
    assert n > 0 ==> d == got + Zeros(save - n);
  }

  /** nhacp_req_storage_get_block. */
  method GetBlock(f: File, buf: array<byte>, blkno: nat, blklen: nat) returns (r: Reply)
    requires f.Valid() && blkno <= UINT32_MAX && blklen <= UINT16_MAX && buf.Length >= MAX_PAYLOAD
    modifies buf
    ensures if !Admitted(blkno, blklen) then r == Invalid
            else blkno * blklen <= UINT32_MAX &&
                 r == Data(BlockByCode(f.live, f.host.data, blkno * blklen, blklen, old(buf[..])))
    ensures r.Data? ==> |r.data| <= MAX_PAYLOAD
  {
    var offset := blkno * blklen;
    if offset > (UINT32_MAX - blklen + 1) % 0x1_0000_0000 {
      return Invalid;
    }
    if blklen > MAX_PAYLOAD {
      return Invalid;
    }
    var d := ReadBlock(f, buf, offset, blklen);
    r := Data(d);
  }

  /** nhacp_req_storage_put_block; `d` is the request's data. */
  method PutBlock(f: File, blkno: nat, blklen: nat, d: bytes) returns (r: Reply)
    requires f.Valid() && blkno <= UINT32_MAX && blklen <= UINT16_MAX && |d| == blklen
    modifies f.host
    ensures f.Valid()
    ensures r == (if !Admitted(blkno, blklen) then Invalid
                  else if !f.live then Failed(EROFS)
                  else if blkno * blklen + blklen > UINT32_MAX then Failed(EFBIG)
                  else Done)
    ensures f.host.data == if r == Done then Overlay(old(f.host.data), blkno * blklen, d) else old(f.host.data)
  {
    var offset := blkno * blklen;
    if offset > (UINT32_MAX - blklen + 1) % 0x1_0000_0000 {
      return Invalid;
    }
    if blklen > MAX_PAYLOAD {
      return Invalid;
    }
    var e := f.Pwrite(d, offset);
    r := if e == Success then Done else Failed(e);
  }

  /** A request is admitted exactly when its block ends by 2^32 and is not too long; one without
      a length always is, and reads nothing. */
  lemma AdmittedExactly(k: nat, n: nat)
    requires n <= UINT16_MAX
    ensures Admitted(k, n) <==> n == 0 || (k * n + n <= SPACE && n <= MAX_PAYLOAD)
  {
    if n == 0 {
      assert k * n == 0;
    }
  }

  // ----- When GET-BLOCK answers with the block -----

  lemma BlockWithin(live: bool, f: bytes, off: nat, n: nat, stale: bytes)
    requires |f| <= UINT32_MAX && off <= UINT32_MAX && n <= |stale|
    requires !live || off + n <= UINT32_MAX
    ensures BlockByCode(live, f, off, n, stale) == BlockAt(f, off, n)
  {
    var s := Slice(f, off, n);
    assert Patched(stale, s)[..|s|] == s;
  }

  /** Requests and replies share a buffer: where the data will go, the request has left the upper
      bytes of its block number, and its block length. */
  function Left(k: int, n: nat): (left: bytes)
    ensures |left| == 5
  {
    [k / 0x100 % 0x100, k / 0x1_0000 % 0x100, k / 0x100_0000 % 0x100, n % 0x100, n / 0x100 % 0x100]
  }

  /** They are the bytes of the two numbers, least significant first, without the first. */
  lemma LeftIs(k: nat, n: nat)
    requires k <= UINT32_MAX && n <= UINT16_MAX
    ensures k == k % 0x100 + 0x100 * Little(Left(k, n)[..3]) && n == Little(Left(k, n)[3..])
  {
    var l := Left(k, n);
    LittlePair(l[3], l[4]);
    assert l[3..] == [l[3], l[4]];
    LittlePair(l[1], l[2]);
    LittleCons(l[0], [l[1], l[2]]);
    assert l[..3] == [l[0]] + [l[1], l[2]];
    assert k / 0x1_0000 == k / 0x100 / 0x100 && k / 0x100_0000 == k / 0x100 / 0x100 / 0x100;
  }

  /** A buffer in which a request left these bytes; a request may be longer than it need be, so
      what follows is arbitrary. */
  predicate Holds(stale: bytes, left: bytes) { |stale| >= MAX_PAYLOAD && |left| == 5 && stale[..5] == left }

  /** The stale byte that the answer lets through after `got` bytes of data is zero, as padding is. */
  predicate Lucky(left: bytes, got: int) { 0 < got < 5 == |left| && left[got] == 0 }

  /** A buffer without zeros beyond the request. */
  function Worst(left: bytes): (b: bytes)
    requires |left| == 5
    ensures Holds(b, left)
  {
    left + seq(MAX_PAYLOAD, _ => 1)
  }

  /** The answer for a live block that ends at 2^32. */
  lemma AnswerAtEnd(f: bytes, off: nat, n: nat, stale: bytes)
    requires |f| <= UINT32_MAX && 0 < n <= |stale| && off + n == SPACE
    ensures var got := Slice(f, off, n);
      |got| < n && BlockByCode(true, f, off, n, stale) == got + [stale[|got|]] + Zeros(n - |got| - 1)
  {
    var got := Slice(f, off, n);
    assert PreadData(true, f, off, n) == got && PreadCount(true, f, off, n) == |got| + 1;
    assert Patched(stale, got)[..|got| + 1] == got + [stale[|got|]];
  }

  lemma AnswerLucky(f: bytes, off: nat, n: nat, left: bytes, stale: bytes)
    requires |f| <= UINT32_MAX && 0 < n <= MAX_PAYLOAD && off + n == SPACE && Holds(stale, left)
    requires Lucky(left, |f| - off)
    ensures BlockByCode(true, f, off, n, stale) == BlockAt(f, off, n)
  {
    AnswerAtEnd(f, off, n, stale);
    var got := Slice(f, off, n);
    assert stale[|got|] == stale[..5][|got|] == 0;
    assert got + [0] + Zeros(n - |got| - 1) == Padded(got, n);
  }

  lemma AnswerWrong(f: bytes, off: nat, n: nat, left: bytes)
    requires |f| <= UINT32_MAX && 0 < n <= MAX_PAYLOAD && off + n == SPACE && |left| == 5 && !Lucky(left, |f| - off)
    ensures |BlockByCode(true, f, off, n, Worst(left))| == n
    ensures BlockByCode(true, f, off, n, Worst(left)) != BlockAt(f, off, n)
  {
    AnswerAtEnd(f, off, n, Worst(left));
    var got := Slice(f, off, n);
    if got != [] {
      assert Worst(left)[|got|] != 0;
      assert Padded(got, n)[|got|] == 0;
    }
  }

  lemma AnswerExactly(live: bool, f: bytes, off: nat, n: nat, left: bytes)
    requires |f| <= UINT32_MAX && 0 < n <= MAX_PAYLOAD && off + n <= SPACE && |left| == 5
    ensures (!live || off + n <= UINT32_MAX || Lucky(left, |f| - off)) <==>
      forall stale: bytes :: Holds(stale, left) ==> BlockByCode(live, f, off, n, stale) == BlockAt(f, off, n)
  {
    if !live || off + n <= UINT32_MAX || Lucky(left, |f| - off) {
      forall stale: bytes | Holds(stale, left)
        ensures BlockByCode(live, f, off, n, stale) == BlockAt(f, off, n)
      {
        if !live || off + n <= UINT32_MAX {
          BlockWithin(live, f, off, n, stale);
        } else {
          AnswerLucky(f, off, n, left, stale);
        }
      }
    } else {
      AnswerWrong(f, off, n, left);
      assert Holds(Worst(left), left);
    }
  }

  /** An admitted request is answered with its block, whatever its buffer held besides, exactly
      when the file is a shadow, or the block ends below 2^32, or the stale byte is a zero of the
      request. */
  lemma GetBlockExactly(live: bool, f: bytes, k: nat, n: nat)
    requires |f| <= UINT32_MAX && 0 < n <= MAX_PAYLOAD && k <= UINT32_MAX && Admitted(k, n)
    ensures k * n <= UINT32_MAX
    ensures (!live || k * n + n <= UINT32_MAX || Lucky(Left(k, n), |f| - k * n)) <==>
      forall stale: bytes :: Holds(stale, Left(k, n)) ==> BlockByCode(live, f, k * n, n, stale) == Block(f, k, n)
  {
    AnswerExactly(live, f, k * n, n, Left(k, n));
  }

  /** Both happen: the last block of 8192 bytes is admitted, and is answered wrongly for every
      live file, but for those that end two or three bytes into it. */
  lemma LastBlockFails(f: bytes)
    requires |f| <= UINT32_MAX
    ensures Admitted(0x7ffff, 8192) && 0x7ffff * 8192 + 8192 == SPACE
    ensures BlockByCode(true, f, 0x7ffff * 8192, 8192, Worst(Left(0x7ffff, 8192))) != Block(f, 0x7ffff, 8192)
      <==> |f| - 0x7ffff * 8192 != 2 && |f| - 0x7ffff * 8192 != 3
  {
    var left := Left(0x7ffff, 8192);
    assert left == [0xff, 0x07, 0, 0, 0x20];
    if Lucky(left, |f| - 0x7ffff * 8192) {
      AnswerLucky(f, 0x7ffff * 8192, 8192, left, Worst(left));
    } else {
      AnswerWrong(f, 0x7ffff * 8192, 8192, left);
    }
  }

  // ----- What a client collects -----

  /** The answers to requests for blocks k, k+1, ... up to the first that is empty. */
  function Collect(ask: nat -> bytes, k: nat): bytes
    decreases SPACE - k
  {
    if k >= SPACE || ask(k) == [] then [] else ask(k) + Collect(ask, k + 1)
  }

  lemma {:induction false} CollectAgree(a: nat -> bytes, b: nat -> bytes, k: nat, m: nat)
    requires k <= m && a(m) == b(m) == [] && forall j :: k <= j < m ==> a(j) == b(j)
    ensures Collect(a, k) == Collect(b, k)
    decreases m - k
  {
    if k < m {
      CollectAgree(a, b, k + 1, m);
    }
  }

  lemma ConcatDiffers(a: bytes, x: bytes, b: bytes, y: bytes)
    requires |a| == |b| && (a != b || x != y)
    ensures a + x != b + y
  {
    assert (a + x)[..|a|] == a && (b + y)[..|a|] == b;
    assert (a + x)[|a|..] == x && (b + y)[|a|..] == y;
  }

  /** One wrong answer is enough. */
  lemma {:induction false} CollectDiffers(a: nat -> bytes, b: nat -> bytes, k: nat, m: nat)
    requires k <= m < SPACE && forall j :: k <= j < m ==> a(j) == b(j) != []
    requires a(m) != b(m) && a(m) != [] && (b(m) == [] || |b(m)| == |a(m)|)
    ensures Collect(a, k) != Collect(b, k)
    decreases m - k
  {
    if k < m {
      CollectDiffers(a, b, k + 1, m);
      ConcatDiffers(a(k), Collect(a, k + 1), b(k), Collect(b, k + 1));
    } else if b(m) != [] {
      ConcatDiffers(a(k), Collect(a, k + 1), b(k), Collect(b, k + 1));
    }
  }

  lemma {:induction false} CollectShort(ask: nat -> bytes, k: nat, m: nat, n: nat)
    requires k <= m && ask(m) == [] && forall j :: k <= j < m ==> |ask(j)| <= n
    ensures |Collect(ask, k)| <= (m - k) * n
    decreases m - k
  {
    if k < m {
      CollectShort(ask, k + 1, m, n);
      assert (m - k) * n == (m - k - 1) * n + n;
    }
  }

  // ----- Blocks tile the file -----

  /** The zeros that complete the last block of `rest` bytes. */
  function Pad(rest: nat, n: nat): (p: nat)
    requires n > 0
    ensures p < n
  {
    if rest == 0 then 0 else if rest >= n then Pad(rest - n, n) else n - rest
  }

  /** Padding completes the last block, with less than a block. */
  lemma {:induction false} PadIs(rest: nat, n: nat) returns (m: nat)
    requires n > 0
    ensures Pad(rest, n) < n && rest + Pad(rest, n) == m * n
  {
    if rest == 0 {
      m := 0;
    } else if rest >= n {
      m := PadIs(rest - n, n);
      m := m + 1;
    } else {
      m := 1;
    }
  }

  lemma EmptyBlock(f: bytes, off: nat, n: nat)
    requires n > 0
    ensures BlockAt(f, off, n) == [] <==> off >= |f|
  {
  }

  lemma FullBlock(f: bytes, off: nat, n: nat, z: bytes)
    requires n > 0 && off + n <= |f|
    ensures BlockAt(f, off, n) + (f[off + n..] + z) == f[off..] + z
  {
    assert BlockAt(f, off, n) == f[off..off + n];
  }

  lemma PartialBlock(f: bytes, off: nat, n: nat)
    requires off < |f| < off + n
    ensures BlockAt(f, off, n) == f[off..] + Zeros(Pad(|f| - off, n))
  {
    assert Slice(f, off, n) == f[off..];
  }

  lemma NextBlock(f: bytes, off: nat, n: nat, more: bytes)
    requires n > 0 && off < |f|
    requires more == if off + n < |f| then f[off + n..] + Zeros(Pad(|f| - off - n, n)) else []
    ensures BlockAt(f, off, n) + more == f[off..] + Zeros(Pad(|f| - off, n))
  {
    if off + n < |f| {
      FullBlock(f, off, n, Zeros(Pad(|f| - off - n, n)));
    } else if off + n == |f| {
      FullBlock(f, off, n, []);
      assert f[off + n..] + [] == [] && f[off..] + Zeros(0) == f[off..] + [];
    } else {
      PartialBlock(f, off, n);
    }
  }

  /** What is left of the padded file from `off` on. */
  function Padding(f: bytes, off: nat, n: nat): bytes
    requires n > 0
  {
    if off < |f| then f[off..] + Zeros(Pad(|f| - off, n)) else []
  }

  lemma TileStep(f: bytes, n: nat, ask: nat -> bytes, k: nat, off: nat)
    requires n > 0 && k < SPACE && ask(k) == BlockAt(f, off, n)
    requires off < |f| ==> Collect(ask, k + 1) == Padding(f, off + n, n)
    ensures Collect(ask, k) == Padding(f, off, n)
  {
    EmptyBlock(f, off, n);
    if off < |f| {
      NextBlock(f, off, n, Padding(f, off + n, n));
    }
  }

  lemma Successor(k: nat, n: nat)
    ensures (k + 1) * n == k * n + n && (n > 0 ==> k <= k * n)
  {
  }

  lemma {:induction false} BlocksTile(f: bytes, n: nat, ask: nat -> bytes, k: nat, off: nat)
    requires n > 0 && |f| <= UINT32_MAX && off == k * n && (off == 0 || off - n < |f|)
    requires forall j: nat :: ask(j) == Block(f, j, n)
    ensures Collect(ask, k) == Padding(f, off, n)
    decreases |f| - off
  {
    assert ask(k) == Block(f, k, n) == BlockAt(f, off, n);
    Successor(k, n);
    if off < |f| {
      BlocksTile(f, n, ask, k + 1, off + n);
    }
    if k < SPACE {
      TileStep(f, n, ask, k, off);
    }
  }

  /** Blocks 0, 1, ... up to the empty one are the file, zero-padded to whole blocks. */
  lemma BlocksAreFile(f: bytes, n: nat) returns (blocks: nat -> bytes)
    requires n > 0 && |f| <= UINT32_MAX
    ensures (forall k: nat :: blocks(k) == Block(f, k, n)) && Collect(blocks, 0) == f + Zeros(Pad(|f|, n))
  {
    blocks := k => Block(f, k, n);
    BlocksTile(f, n, blocks, 0, 0);
    assert f[0..] == f;
    assert f == [] ==> f + Zeros(0) == [];
  }

  // ----- Collecting through the handler -----

  /** The buffers in which the requests for blocks of n bytes came in, by block number. */
  ghost predicate Buffers(stale: nat -> bytes, n: nat) { forall k: nat :: Holds(stale(k), Left(k, n)) }

  /** What GET-BLOCK answers the request for the block at `off`; a refused one yields nothing. */
  function AnswerAt(live: bool, f: bytes, n: nat, off: nat, stale: bytes): bytes
    requires 0 < n <= MAX_PAYLOAD
  {
    if AdmittedAt(off, n) && |stale| >= MAX_PAYLOAD then BlockByCode(live, f, off, n, stale) else []
  }

  function Answer(live: bool, f: bytes, n: nat, k: nat, stale: bytes): bytes
    requires 0 < n <= MAX_PAYLOAD
  {
    AnswerAt(live, f, n, k * n, stale)
  }

  function Answers(live: bool, f: bytes, n: nat, stale: nat -> bytes): nat -> bytes
    requires 0 < n <= MAX_PAYLOAD
  {
    k => Answer(live, f, n, k, stale(k))
  }

  /** When the collection is the file: its data lies in whole blocks below 2^32, and, for a live
      file, no block that ends at 2^32 is asked for, or its answer happens to be right. */
  predicate Collectable(live: bool, size: nat, n: nat)
    requires n > 0
  {
    FitsBelow(live, size, n, SPACE / n * n, Left(SPACE / n - 1, n))
  }

  /** The same; whole blocks end at `top`, and the request for the last of them leaves `left`. */
  predicate FitsBelow(live: bool, size: nat, n: nat, top: nat, left: bytes) {
    && size <= top
    && (live && top == SPACE && size > SPACE - 2 * n ==> Lucky(left, size - (SPACE - n)))
  }

  /** Block numbers and offsets: q whole blocks fit below 2^32. */
  lemma BlockEnds(k: nat, n: nat, q: nat)
    requires 0 < n <= MAX_PAYLOAD && q == SPACE / n
    ensures q * n <= SPACE < q * n + n
    ensures k < q ==> k * n + n <= q * n
    ensures k >= q ==> k * n >= q * n
    ensures Admitted(k, n) <==> k < q
  {
    if k < q {
      assert (k + 1) * n <= q * n;
    } else {
      assert k * n >= q * n;
    }
  }

  /** The number of blocks that hold data. */
  function DataBlocks(size: nat, n: nat): (m: nat)
    requires n > 0
  {
    (size + n - 1) / n
  }

  lemma DataBlocksBound(size: nat, n: nat, k: nat)
    requires n > 0
    ensures k * n < size <==> k < DataBlocks(size, n)
  {
    var m := DataBlocks(size, n);
    if k < m {
      assert k * n <= (m - 1) * n;
    } else {
      assert k * n >= m * n;
    }
  }

  lemma LastNumber(k: nat, n: nat, q: nat)
    requires 0 < n <= MAX_PAYLOAD && q == SPACE / n && k * n + n == SPACE
    ensures k == q - 1 && q * n == SPACE && (k > 0 ==> (k - 1) * n == SPACE - 2 * n)
  {
    Successor(k, n);
    BlockEnds(k, n, q);
    BlockEnds(k + 1, n, q);
    if k > 0 {
      Successor(k - 1, n);
    }
  }

  /** A block that ends at 2^32 is asked for only if its answer happens to be right. */
  lemma LastIsLucky(size: nat, n: nat, k: nat)
    requires 0 < n <= MAX_PAYLOAD && Collectable(true, size, n) && k * n + n == SPACE
    requires k == 0 || (k - 1) * n < size
    ensures Lucky(Left(k, n), size - (SPACE - n))
  {
    LastNumber(k, n, SPACE / n);
  }

  /** What makes the answer for the block at `off` right, in a file of `size` bytes. */
  predicate Fits(live: bool, size: nat, n: nat, off: nat, left: bytes) {
    if off + n <= SPACE then live && off + n == SPACE ==> Lucky(left, size - off) else off >= size
  }

  lemma FitsFrom(live: bool, size: nat, n: nat, off: nat, top: nat, left: bytes)
    requires size <= top <= SPACE && (off < top ==> off + n <= top)
    requires live && off + n == SPACE ==> Lucky(left, size - off)
    ensures Fits(live, size, n, off, left)
  {
  }

  lemma EndsWithin(k: nat, n: nat, off: nat, top: nat)
    requires 0 < n <= MAX_PAYLOAD && off == k * n && top == SPACE / n * n
    ensures top <= SPACE && (off < top ==> off + n <= top)
  {
    BlockEnds(k, n, SPACE / n);
  }

  lemma AskedFits(live: bool, size: nat, n: nat, k: nat, off: nat, top: nat)
    requires 0 < n <= MAX_PAYLOAD && Collectable(live, size, n) && (k == 0 || (k - 1) * n < size)
    requires off == k * n && top == SPACE / n * n
    ensures Fits(live, size, n, off, Left(k, n))
  {
    EndsWithin(k, n, off, top);
    if live && off + n == SPACE {
      LastIsLucky(size, n, k);
    }
    FitsFrom(live, size, n, off, top, Left(k, n));
  }

  lemma AnswerRight(live: bool, f: bytes, n: nat, off: nat, left: bytes, stale: bytes)
    requires |f| <= UINT32_MAX && 0 < n <= MAX_PAYLOAD && Holds(stale, left)
    requires Fits(live, |f|, n, off, left)
    ensures AnswerAt(live, f, n, off, stale) == BlockAt(f, off, n)
  {
    if off + n > SPACE {
      EmptyBlock(f, off, n);
    } else {
      AnswerInside(live, f, n, off, left, stale);
    }
  }

  lemma AnswerInside(live: bool, f: bytes, n: nat, off: nat, left: bytes, stale: bytes)
    requires |f| <= UINT32_MAX && 0 < n <= MAX_PAYLOAD && Holds(stale, left) && off + n <= SPACE
    requires live && off + n == SPACE ==> Lucky(left, |f| - off)
    ensures BlockByCode(live, f, off, n, stale) == BlockAt(f, off, n)
  {
    if live && off + n == SPACE {
      AnswerLucky(f, off, n, left, stale);
    } else {
      BlockWithin(live, f, off, n, stale);
    }
  }

  lemma AnswerLength(live: bool, f: bytes, n: nat, k: nat, stale: bytes)
    requires 0 < n <= MAX_PAYLOAD
    ensures |Answer(live, f, n, k, stale)| <= n && (k >= SPACE / n ==> Answer(live, f, n, k, stale) == [])
  {
    BlockEnds(k, n, SPACE / n);
  }

  /** The requests for the blocks with data, and the one after them, are answered right. */
  lemma AskedRight(live: bool, f: bytes, n: nat, k: nat, stale: bytes)
    requires |f| <= UINT32_MAX && 0 < n <= MAX_PAYLOAD && Holds(stale, Left(k, n)) && Collectable(live, |f|, n)
    requires k <= DataBlocks(|f|, n)
    ensures Answer(live, f, n, k, stale) == Block(f, k, n)
  {
    if k > 0 {
      DataBlocksBound(|f|, n, k - 1);
    }
    AskedFits(live, |f|, n, k, k * n, SPACE / n * n);
    AnswerRight(live, f, n, k * n, Left(k, n), stale);
  }

  lemma AfterData(f: bytes, n: nat)
    requires n > 0
    ensures Block(f, DataBlocks(|f|, n), n) == []
  {
    DataBlocksBound(|f|, n, DataBlocks(|f|, n));
    EmptyBlock(f, DataBlocks(|f|, n) * n, n);
  }

  lemma CollectedRight(live: bool, f: bytes, n: nat, stale: nat -> bytes, blocks: nat -> bytes)
    requires |f| <= UINT32_MAX && 0 < n <= MAX_PAYLOAD && Collectable(live, |f|, n) && Buffers(stale, n)
    requires forall k: nat :: blocks(k) == Block(f, k, n)
    ensures Collect(Answers(live, f, n, stale), 0) == Collect(blocks, 0)
  {
    var m, asked := DataBlocks(|f|, n), Answers(live, f, n, stale);
    forall k: nat | k <= m
      ensures asked(k) == blocks(k)
    {
      assert asked(k) == Answer(live, f, n, k, stale(k)) && Holds(stale(k), Left(k, n));
      AskedRight(live, f, n, k, stale(k));
    }
    AfterData(f, n);
    CollectAgree(asked, blocks, 0, m);
  }

  lemma CollectedShort(live: bool, f: bytes, n: nat, stale: nat -> bytes)
    requires |f| <= UINT32_MAX && 0 < n <= MAX_PAYLOAD
    ensures |Collect(Answers(live, f, n, stale), 0)| <= SPACE / n * n
  {
    var q, asked := SPACE / n, Answers(live, f, n, stale);
    forall k: nat
      ensures |asked(k)| <= n && (k == q ==> asked(k) == [])
    {
      assert asked(k) == Answer(live, f, n, k, stale(k));
      AnswerLength(live, f, n, k, stale(k));
    }
    CollectShort(asked, 0, q, n);
  }

  lemma CollectedWrong(f: bytes, n: nat, stale: nat -> bytes, blocks: nat -> bytes, last: nat)
    requires |f| <= UINT32_MAX && 0 < n <= MAX_PAYLOAD && last == SPACE / n - 1 && last * n + n == SPACE
    requires SPACE - 2 * n < |f| && !Lucky(Left(last, n), |f| - (SPACE - n))
    requires (forall k: nat :: blocks(k) == Block(f, k, n)) && forall k: nat :: stale(k) == Worst(Left(k, n))
    ensures Collect(Answers(true, f, n, stale), 0) != Collect(blocks, 0)
  {
    var asked := Answers(true, f, n, stale);
    forall k: nat | k < last
      ensures asked(k) == blocks(k) != []
    {
      AnswerBefore(f, n, k, last, stale(k));
    }
    BlockEnds(last, n, last + 1);
    AnswerWrong(f, last * n, n, Left(last, n));
    assert |asked(last)| == n && asked(last) != blocks(last);
    EmptyBlock(f, last * n, n);
    if last * n < |f| {
      BlockIndex(f, last * n, n, 0);
    }
    CollectDiffers(asked, blocks, 0, last);
  }

  lemma EndsBefore(k: nat, last: nat, n: nat)
    requires k < last
    ensures k * n + n <= last * n
  {
    assert last * n == k * n + n + (last - k - 1) * n;
  }

  lemma AnswerBefore(f: bytes, n: nat, k: nat, last: nat, stale: bytes)
    requires SPACE - 2 * n < |f| <= UINT32_MAX && 0 < n <= MAX_PAYLOAD && |stale| >= MAX_PAYLOAD
    requires k < last == SPACE / n - 1 && last * n + n == SPACE
    ensures Answer(true, f, n, k, stale) == Block(f, k, n) != []
  {
    EndsBefore(k, last, n);
    AnswerBeforeAt(f, n, k * n, stale);
  }

  lemma AnswerBeforeAt(f: bytes, n: nat, off: nat, stale: bytes)
    requires off < |f| <= UINT32_MAX && 0 < n <= MAX_PAYLOAD && |stale| >= MAX_PAYLOAD && off + n < SPACE
    ensures AnswerAt(true, f, n, off, stale) == BlockAt(f, off, n) != []
  {
    BlockWithin(true, f, off, n, stale);
    EmptyBlock(f, off, n);
  }

  /** The two ways not to be collectable. */
  lemma NotCollectable(live: bool, size: nat, n: nat) returns (last: nat)
    requires 0 < n <= MAX_PAYLOAD && !Collectable(live, size, n)
    ensures last == SPACE / n - 1
    ensures size <= SPACE / n * n ==>
      live && last * n + n == SPACE && SPACE - 2 * n < size && !Lucky(Left(last, n), size - (SPACE - n))
  {
    SomeBlocks(n);
    last := SPACE / n - 1;
    Successor(last, n);
  }

  lemma SomeBlocks(n: nat)
    requires 0 < n <= SPACE
    ensures SPACE / n > 0
  {
  }

  lemma TailLost(live: bool, f: bytes, n: nat, stale: nat -> bytes)
    requires |f| <= UINT32_MAX && 0 < n <= MAX_PAYLOAD && |f| > SPACE / n * n
    ensures Collect(Answers(live, f, n, stale), 0) != f + Zeros(Pad(|f|, n))
  {
    CollectedShort(live, f, n, stale);
  }

  lemma WorstSpoils(live: bool, f: bytes, n: nat, stale: nat -> bytes)
    requires |f| <= UINT32_MAX && 0 < n <= MAX_PAYLOAD && !Collectable(live, |f|, n)
    requires forall k: nat :: stale(k) == Worst(Left(k, n))
    ensures Collect(Answers(live, f, n, stale), 0) != f + Zeros(Pad(|f|, n))
  {
    var last := NotCollectable(live, |f|, n);
    if |f| > SPACE / n * n {
      TailLost(live, f, n, stale);
    } else {
      var blocks := BlocksAreFile(f, n);
      CollectedWrong(f, n, stale, blocks, last);
    }
  }

  /** Otherwise some contents of the buffers spoil the collection. */
  lemma CollectedFails(live: bool, f: bytes, n: nat) returns (stale: nat -> bytes)
    requires |f| <= UINT32_MAX && 0 < n <= MAX_PAYLOAD && !Collectable(live, |f|, n)
    ensures Buffers(stale, n) && Collect(Answers(live, f, n, stale), 0) != f + Zeros(Pad(|f|, n))
  {
    stale := (k: nat) => Worst(Left(k, n));
    WorstSpoils(live, f, n, stale);
  }

  /** Asking for blocks 0, 1, ... until an empty or a refused answer yields the zero-padded file,
      whatever the buffers hold besides the requests, exactly under this condition. */
  lemma CollectedExactly(live: bool, f: bytes, n: nat)
    requires |f| <= UINT32_MAX && 0 < n <= MAX_PAYLOAD
    ensures Collectable(live, |f|, n) <==>
      forall stale: nat -> bytes :: Buffers(stale, n) ==> Collect(Answers(live, f, n, stale), 0) == f + Zeros(Pad(|f|, n))
  {
    if Collectable(live, |f|, n) {
      var blocks := BlocksAreFile(f, n);
      forall stale: nat -> bytes | Buffers(stale, n)
        ensures Collect(Answers(live, f, n, stale), 0) == f + Zeros(Pad(|f|, n))
      {
        CollectedRight(live, f, n, stale, blocks);
      }
    } else {
      var _ := CollectedFails(live, f, n);
    }
  }

  /** The largest live file cannot be collected in 8192-byte blocks, whose last one ends at 2^32,
      nor in 7-byte blocks, whose last one is refused; one that ends two bytes into the last
      8192-byte block can. */
  lemma LargestNotCollectable()
    ensures !Collectable(true, UINT32_MAX, 8192) && !Collectable(true, UINT32_MAX, 7)
    ensures Collectable(true, SPACE - 8192 + 2, 8192)
  {
    assert Left(0x7ffff, 8192) == [0xff, 0x07, 0, 0, 0x20];
  }

  // ----- PUT-BLOCK then GET-BLOCK -----

  lemma BlockIndex(f: bytes, off: nat, n: nat, i: nat)
    requires off < |f| && i < n
    ensures |BlockAt(f, off, n)| == n
    ensures BlockAt(f, off, n)[i] == if off + i < |f| then f[off + i] else 0
  {
  }

  lemma BlocksApart(j: nat, k: nat, n: nat)
    requires j != k
    ensures j * n + n <= k * n || k * n + n <= j * n
  {
    if j < k {
      assert (j + 1) * n <= k * n;
    } else {
      assert (k + 1) * n <= j * n;
    }
  }

  lemma PutThenGetAt(f: bytes, off: nat, n: nat, d: bytes)
    requires |d| == n > 0
    ensures BlockAt(Overlay(f, off, d), off, n) == d
  {
    var g := Overlay(f, off, d);
    forall i | 0 <= i < n
      ensures BlockAt(g, off, n)[i] == d[i]
    {
      BlockIndex(g, off, n, i);
      OverlayAt(f, off, d, off + i);
    }
    BlockIndex(g, off, n, 0);
  }

  lemma PutKeepsOthersAt(f: bytes, off: nat, n: nat, d: bytes, at: nat)
    requires |d| == n > 0 && (at + n <= off || off + n <= at) && BlockAt(f, at, n) != []
    ensures BlockAt(Overlay(f, off, d), at, n) == BlockAt(f, at, n)
  {
    var g := Overlay(f, off, d);
    forall i | 0 <= i < n
      ensures BlockAt(g, at, n)[i] == BlockAt(f, at, n)[i]
    {
      BlockIndex(g, at, n, i);
      BlockIndex(f, at, n, i);
      if at + i < |g| {
        OverlayAt(f, off, d, at + i);
      }
    }
    BlockIndex(g, at, n, 0);
    BlockIndex(f, at, n, 0);
  }

  lemma PutKeepsTail(f: bytes, off: nat, d: bytes, at: nat, m: nat)
    requires off + |d| <= at < |f|
    ensures Slice(Overlay(f, off, d), at, m) == Slice(f, at, m)
  {
    var g := Overlay(f, off, d);
    forall i | at <= i < |f|
      ensures g[i] == f[i]
    {
      OverlayAt(f, off, d, i);
    }
    assert g[at..] == f[at..];
  }

  /** Whether the answer may depend on what the buffer holds besides the request. */
  predicate Settled(f: bytes, off: nat, n: nat) { off + n < SPACE || |f| - off < 5 }

  lemma PutKeepsAnswer(f: bytes, off: nat, n: nat, d: bytes, at: nat, left: bytes, stale: bytes, stale': bytes)
    requires |f| <= UINT32_MAX && 0 < |d| == n <= MAX_PAYLOAD && off + n <= UINT32_MAX && at + n <= SPACE
    requires (at + n <= off || off + n <= at) && BlockAt(f, at, n) != []
    requires Holds(stale, left) && Holds(stale', left) && Settled(f, at, n)
    ensures BlockByCode(true, Overlay(f, off, d), at, n, stale') == BlockByCode(true, f, at, n, stale)
  {
    var g := Overlay(f, off, d);
    if at + n < SPACE {
      PutKeepsOthersAt(f, off, n, d, at);
      BlockWithin(true, g, at, n, stale');
      BlockWithin(true, f, at, n, stale);
    } else {
      EmptyBlock(f, at, n);
      PutKeepsTail(f, off, d, at, n);
      AnswerAtEnd(g, at, n, stale');
      AnswerAtEnd(f, at, n, stale);
      assert stale[..5][|f| - at] == stale'[..5][|f| - at];
    }
  }

  /** PUT-BLOCK then GET-BLOCK: once PUT-BLOCK has answered OK, GET-BLOCK answers with the
      data, and a request for another block that had data in it gets the answer it had before,
      although the buffer has been used in between, if that answer was settled. Both times the
      request left the same bytes. */
  lemma PutThenGetByCode(f: bytes, off: nat, n: nat, d: bytes, at: nat, left: bytes, stale: bytes, stale': bytes)
    requires |f| <= UINT32_MAX && 0 < |d| == n <= MAX_PAYLOAD && Holds(stale, left) && Holds(stale', left)
    requires off + n <= UINT32_MAX && AdmittedAt(at, n)
    ensures AdmittedAt(off, n) && BlockByCode(true, Overlay(f, off, d), off, n, stale') == d
    ensures (at + n <= off || off + n <= at) && BlockAt(f, at, n) != [] && Settled(f, at, n) ==>
      BlockByCode(true, Overlay(f, off, d), at, n, stale') == BlockByCode(true, f, at, n, stale)
  {
    PutThenGetAt(f, off, n, d);
    BlockWithin(true, Overlay(f, off, d), off, n, stale');
    if (at + n <= off || off + n <= at) && BlockAt(f, at, n) != [] && Settled(f, at, n) {
      PutKeepsAnswer(f, off, n, d, at, left, stale, stale');
    }
  }

  /** An answer that is not settled differs between two buffers, with no write in between. */
  lemma Unsettled(f: bytes, n: nat, at: nat, left: bytes)
    requires |f| <= UINT32_MAX && 0 < n <= MAX_PAYLOAD && at + n == SPACE && |left| == 5 && !Settled(f, at, n)
    ensures var zeros := left + Zeros(MAX_PAYLOAD);
      Holds(zeros, left) && BlockByCode(true, f, at, n, zeros) != BlockByCode(true, f, at, n, Worst(left))
  {
    var zeros := left + Zeros(MAX_PAYLOAD);
    AnswerAtEnd(f, at, n, zeros);
    AnswerAtEnd(f, at, n, Worst(left));
    var g := |f| - at;
    assert BlockByCode(true, f, at, n, zeros)[g] == 0 && BlockByCode(true, f, at, n, Worst(left))[g] == 1;
  }

  /** In terms of block numbers. */
  lemma PutThenGetOther(f: bytes, k: nat, n: nat, d: bytes, j: nat, left: bytes, stale: bytes, stale': bytes)
    requires |f| <= UINT32_MAX && 0 < |d| == n <= MAX_PAYLOAD && Holds(stale, left) && Holds(stale', left)
    requires k * n + n <= UINT32_MAX && Admitted(j, n) && j != k
    requires Block(f, j, n) != [] && Settled(f, j * n, n)
    ensures AnswerAt(true, Overlay(f, k * n, d), n, j * n, stale') == AnswerAt(true, f, n, j * n, stale)
  {
    BlocksApart(j, k, n);
    PutThenGetByCode(f, k * n, n, d, j * n, left, stale, stale');
  }
}
