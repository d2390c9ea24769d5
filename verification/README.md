# nabud: a verified model of its hard core

nabud serves program images and file storage to NABU PCs. This project models, in Dafny, the parts of
it whose correctness is not obvious from any single function, and proves what they promise.

| file | what it models |
|---|---|
| `ImageCache.dfy`, `ImageRuns.dfy`, `ImageStore.dfy`, `ImageOutcomes.dfy`, `ImageFindings.dfy` | reference-counted images: channel caches, last-image slots, in-flight holders, asynchronous clears, over all interleavings of any number of threads |
| `ConnList.dfy` | `conn_enumerate` against concurrent `conn_insert` and `conn_remove` |
| `FileStore.dfy`, `RangeEdit.dfy`, `Blocks.dfy` | storage files: short transfers, in-place insertion and deletion through a 65535-byte buffer, NHACP blocks |
| `Packets.dfy` | classic packets: segmentation, header, CRC, byte stuffing, and the client's decoder |
| `Gf2.dfy`, `Crc16Genibus.dfy`, `Crc8Cdma2000.dfy` | the two table-driven CRCs against polynomial division over GF(2) |
| `Atoms.dfy` | control-message atoms: serializer, stateful parser, and the grammar of the protocol |
| `PathCheck.dfy` | the path automaton against the depth of path components |
| `SlotTable.dfy`, `Sessions.dfy`, `Frames.dfy` | open-file slots, NHACP sessions, NHACP frames and their CRC |
| `Bytes.dfy`, `Options.dfy` | byte strings, fixed-width integers, optional values |

Two kinds of modelling recur. Code that updates objects in place is a class or a method with a loop,
proved against a function on values; what the source promises is then proved about that function.
Concurrent code is a transition system whose steps are the regions that run with the lock held: the
state after a step is a function `Next`, an invariant is shown to be kept by every step and hence by
every run, and the class in the same group of files performs each region in place with the contract
`View() == Next(old(View()), event)`.

In the image model the operations are total and carry a flag `ok`, which becomes false as soon as an
assertion of the C code would fail or a freed image would be touched. `ok` is part of the invariant.
While a region is being executed, references held in its local variables are counted in a multiset,
so that the invariant is stated between any two operations and not only at the ends of regions.

## What was found

Each of these is stated by a member listed below. Where the code and its documentation or comments disagree, the model
follows the code.

- `stext_fileop_pread_fileio` clamps the transfer at 2^32 - 1 but subtracts from the unclamped length:
  the reported count is right if and only if offset + length <= 2^32 - 1 (`FileStore.File.PreadLive`).
- FH-DELETE-RANGE inherits this: close to 2^32 a clamped read has an inflated count, the write of it
  is refused with EFBIG, the loop stops, and the tail of the file is not moved before truncation. The
  exact condition is `RangeEdit.DeleteWorks`, computed from size, offset and length
  (`RangeEdit.DeleteExactly`; a concrete case is `RangeEdit.DeleteFails`).
- STORAGE-GET-BLOCK admits offset + length = 2^32. A live file is then read one byte short, with a count
  that is one too large, and one stale byte of the buffer goes out. Requests and replies share this
  buffer, so up to five bytes into the block the stale byte is one of the request; further on it may be
  anything. The answer is right if and only if it is a zero of the request, and there is data at all
  (`Blocks.GetBlockExactly`; `Blocks.LastBlockFails` works out the last block of 8192 bytes).
- Hence a client that reads block after block does not always get the file: not if a live file reaches
  into the last two blocks below 2^32 and the answer for the last is not right by chance, nor if 2^32 is
  no multiple of the block length and there is data after the last whole block, which is refused. The
  exact condition is `Blocks.Collectable` (`Blocks.CollectedExactly`, `Blocks.LargestNotCollectable`).
- `stext_file_write` checks no length: a cursor write keeps a live file within the limit that everything
  else relies on if and only if it ends within it (`FileStore.File.Write`, `FileStore.WriteOutgrows`).
- A request for a selected file never hits the channel's cache, because the lookup by number skips
  named images and the lookup by name is used only on insertion (`ImageFindings.NamedNeverHitsChannel`);
  so a cached file can be fetched again (`ImageFindings.CachedFileFetchedAgain`).
- A load can hand out an image of another channel than the one selected by then. The last-image hit
  ignores the channel, and the channel can be changed while an image is being fetched; a lookup hands
  out such an image if and only if the last image is a hit of another channel, an insertion if and only
  if the channel was changed meanwhile (`ImageFindings.LookupChannelExactly`,
  `ImageFindings.InsertChannelExactly`). There are runs into both (`ImageFindings.WrongChannelServed`,
  `ImageFindings.ChannelChangedMeanwhile`).
- The path check refuses some harmless paths: a name that starts with a dot does not count as a
  descent. Every such name has a path that is refused for it (`PathCheck.HiddenNameRefused`), so the
  check is exact on the paths over a set of names if and only if none of them starts with a dot
  (`PathCheck.ExactWithoutDotNames`).
- A packet of exactly 1024 bytes leaves its terminator unread at the client (`Packets.UnstuffWire`).
- A zero NHACP check byte means "omitted". So among the changes of one byte of a protected message, those
  that turn the check byte into zero pass, and all changes of a message whose CRC is zero do
  (`Frames.CorruptionRefused`; such a message is in `Frames.ZeroCrcUnchecked`).
- The client checks as many bytes of a reply as the length says. A corrupted length therefore passes if
  and only if the last byte read is the CRC of those before it (`Frames.CorruptReplyExactly`), which can
  happen (`Frames.CorruptLengthPasses`).
- A SYSTEM HELLO as the first one inside the 0.0 loop keeps files opened there before it open
  (`Sessions.SystemHelloExactly`, `Sessions.FilesSurviveHello`).

## Model

| member | source | states |
|---|---|---|
| `ImageRuns.RefcntIsOwners` | nabud/image.c:76-130 | in every state reachable by any interleaving, no assertion has failed, no freed image was touched, and every live image's count is (1 if cached) + connections whose last image it is + in-flight holders + clears that detached and have not released it |
| `ImageRuns.RunKeeps` | nabud/image.c:825-1021 | the whole invariant is kept by every run of loads, unloads, clears, teardowns and frees |
| `ImageRuns.NextKeeps` | nabud/image.c:825-1021 | every single region keeps the invariant |
| `ImageRuns.InitialInv` | nabud/image.c:61-71 | the invariant holds with no images, for any number of channels and any default files |
| `ImageRuns.FreedAtMostOnce` | nabud/image.c:104-117 | a run frees an image exactly once if it is freed at its end and was not at its beginning, and else not at all |
| `ImageRuns.FreedExactly` | nabud/image.c:104-117 | an image is freed by its own free and by no other step |
| `ImageRuns.TrapsExactly` | nabud/image.c:76-117 | for every operation, exactly when its assertions hold and it touches live images only |
| `ImageRuns.ExaminedCovers` | nabud/image.c:848-883 | a lookup looks at the last image and at the whole of the channel's cache |
| `ImageRuns.FreedExactlyUnreachable` | nabud/image.c:87-130 | an image is about to be freed if and only if it is live and no cache, last-image slot, holder or clear refers to it |
| `ImageRuns.CacheConsistent` | nabud/image.c:308-410 | in every reachable state `image_cache_size` is the sum of the cached lengths over all channels, the cached flag tells list membership, and a channel caches at most one image per number and per selected name |
| `ImageRuns.LoadedMatches` | nabud/image.c:841-954 | in every reachable state an image handed out by a load is live, has at least two references, is the connection's last image, and has the requested number or name |
| `ImageRuns.NothingLeaks` | nabud/image.c:417-443 | with no connections, no clears and empty caches, every remaining image is on its way to `image_free` and the cache size is zero |
| `ImageRuns.RefcntBounded` | nabud/image.c:77-81 | a count never exceeds 1 + 2 connections + clears, so the 32-bit counter does not wrap below that many owners |
| `ImageOutcomes.LookupExactly` | nabud/image.c:848-900 | the last image if it satisfies the request; else, with a channel, the cached image with the number asked for if there is one; else the loader; the cache and the other connections stay as they are |
| `ImageOutcomes.InsertNew` | nabud/image.c:932-953 | an image that collides with none is cached at the head, handed out and remembered |
| `ImageOutcomes.InsertCollision` | nabud/image.c:932-953 | on a collision the cached image is handed out and remembered, and the one loaded in vain goes to `image_free` |
| `ImageOutcomes.UnloadExactly` | nabud/image.c:982-1021 | the references given back, the slot emptied on last use, and the local image that then leaves its cache |
| `ImageOutcomes.ClearNextExactly` | nabud/image.c:438-441 | a turn of a clear releases its first image and drops it from its list |
| `ImageOutcomes.TeardownExactly` | nabud/conn.c:500-514 | a teardown releases exactly the last image, and the connection is gone |
| `ImageOutcomes.FreeExactly` | nabud/image.c:104-117 | a freed image is gone and nothing else is |
| `ImageOutcomes.PickExactly` | nabud/image.c:841-846 | image 000001, and no other, stands for the selected or else the default file |
| `ImageOutcomes.SelectExactly` | nabud/conn.c:613-632 | changing the channel deselects the file, selecting a file keeps the channel |
| `ImageOutcomes.IdleExactly` | nabud/image.c:955-975 | a failed load leaves the connection as it was before it asked |
| `ImageFindings.NamedNeverHitsChannel` | nabud/image.c:850-897 | a request for a selected file is answered by the last image or goes to the loader, never by the channel cache |
| `ImageFindings.CachedFileFetchedAgain` | nabud/image.c:848-900 | for every file, a run after which its image is in the channel's cache and its connection is fetching it again |
| `ImageFindings.LookupChannelExactly` | nabud/image.c:848-897 | a lookup hands out an image of another channel if and only if the last image satisfies the request and is of another channel |
| `ImageFindings.InsertChannel` | nabud/image.c:932-953 | a loaded image, or the one it collides with, is of the channel it was fetched from |
| `ImageFindings.InsertChannelExactly` | nabud/image.c:932-953 | it is of another channel than the one selected by then if and only if that was changed during the fetch |
| `ImageFindings.ChannelChangedMeanwhile` | nabud/conn.c:613-632 | for every number but 1, a run in which the channel is changed during the fetch, and the image of channel 0 goes to a connection on channel 1 |
| `ImageFindings.WrongChannelServed` | nabud/image.c:850-868 | for every number but 1, a run after which a connection on channel 1 holds an image of channel 0 |
| `ImageRuns.LookupKeeps` | nabud/image.c:848-900 | all outcomes of the first region of `image_load` keep the invariant |
| `ImageRuns.InsertKeeps` | nabud/image.c:935-953 | inserting a loaded image, with and without a collision, keeps the invariant |
| `ImageRuns.DropSlotKeeps` | nabud/image.c:996-1003 | the last-image slot holds the image being unloaded, and the ignored release is not its last |
| `ImageRuns.DropCachedKeeps` | nabud/image.c:1005-1015 | nor is the ignored release of the cache's reference |
| `ImageRuns.UnloadKeeps` | nabud/image.c:982-1021 | unloading keeps the invariant for both values of `lastuse` and for local and remote images |
| `ImageRuns.ClearBeginKeeps` | nabud/image.c:424-436 | a clear detaches the channel's whole list, reversed, and keeps the invariant |
| `ImageRuns.ClearNextKeeps` | nabud/image.c:438-441 | every later release by the clearing thread keeps the invariant |
| `ImageRuns.DropLastKeeps` | nabud/conn.c:500-514 | tearing a connection down gives back its last image |
| `ImageRuns.CachedSize` | nabud/image.c:397-410 | removing a cached image cannot make the cache size underflow |
| `ImageCache.RetainKeeps` | nabud/image.c:76-81 | a retain of a referenced image adds one local reference and nothing else |
| `ImageCache.ReleaseKeeps` | nabud/image.c:87-98 | a release of a local reference never underflows, and an image awaits freeing exactly when its count reaches zero |
| `ImageCache.FreeKeeps` | nabud/image.c:104-117 | freeing an image whose count is zero disturbs no cache, connection or clear |
| `ImageCache.LinkKeeps` | nabud/image.c:374-379 | linking an image that collides with none turns a local reference into the cache's and keeps keys unique |
| `ImageCache.UnlinkKeeps` | nabud/image.c:397-410 | unlinking turns the cache's reference into a local one |
| `ImageCache.SetConnKeeps` | nabud/conn.c:557-568 | changing what a connection holds moves exactly those references to or from local variables |
| `ImageCache.LookupNumber` | nabud/image.c:308-323 | finds an image with the number, which is never the named marker, or there is none |
| `ImageCache.LookupName` | nabud/image.c:331-347 | finds a named image with the name, or there is none |
| `ImageCache.Collision` | nabud/image.c:363-373 | finds a cached image with the same key as a new one, or there is none |
| `ImageStore.Store.RetainLocked` | nabud/image.c:76-81 | in place, is the retain of the transition system |
| `ImageStore.Store.ReleaseLocked` | nabud/image.c:87-98 | in place, is the release, and returns the image exactly when it was the last reference |
| `ImageStore.Store.CacheLookup` | nabud/image.c:308-323 | the scan returns what the lookup by number specifies, retained |
| `ImageStore.Store.CacheLookupNamed` | nabud/image.c:331-347 | the scan returns what the lookup by name specifies, retained |
| `ImageStore.Store.CacheInsert` | nabud/image.c:363-389 | returns the colliding image retained, or links the new one at the head |
| `ImageStore.Store.CacheRemove` | nabud/image.c:396-410 | returns the image exactly when it was cached, and unlinks it |
| `ImageStore.Store.SetLastImage` | nabud/conn.c:557-568 | returns the old last image and changes nothing but the slot |
| `ImageStore.Store.LoadLookup` | nabud/image.c:848-900 | in place, is one step of the transition system and keeps its invariant |
| `ImageStore.Store.LoadInsert` | nabud/image.c:932-953 | likewise, for the region after the image came in |
| `ImageStore.Store.DropCachingRetains` | nabud/image.c:996-1015 | the code's assertion holds and neither ignored release returns an image |
| `ImageStore.Store.UnloadImage` | nabud/image.c:982-1021 | in place, is one step of the transition system and keeps its invariant |
| `ImageStore.Store.ClearLocked` | nabud/image.c:424-436 | the loop empties the channel's list into the clearing thread's, in one step |
| `ImageStore.Store.ClearRelease` | nabud/image.c:438-441 | one turn of the unlocked loop is one step |
| `ImageStore.Store.DestroyTake` | nabud/conn.c:501-505 | emptying the slot keeps the image referenced by the destroying thread |
| `ImageStore.Store.DestroyRelease` | nabud/conn.c:505 | the release of what the slot held is one step, after which the connection is gone |
| `ImageStore.Store.FreeNow` | nabud/image.c:104-117 | both assertions hold: the count is zero and the image is not cached |
| `ConnList.RunKeeps` | nabud/conn.c:72-129 | in every reachable state `enum_count` is the number of enumerators on the connection, `conn_count` the list's length, and every region that can be entered follows only links of listed connections |
| `ConnList.RunTakes` | nabud/conn.c:72-129 | in a run every region that can be entered is entered |
| `ConnList.AlwaysSafe` | nabud/conn.c:112-125 | an enumerator's connection is still listed when its callback returns, and its `enum_count` is not zero |
| `ConnList.NextKeeps` | nabud/conn.c:72-129 | every insertion, removal and enumeration step keeps the invariant |
| `ConnList.VisitedExactlyOnce` | nabud/conn.c:104-129 | a connection listed from beginning to end of an enumeration that no callback stops is visited exactly once, whatever other threads do |
| `ConnList.NotStopped` | nabud/conn.c:111-125 | in no run is an enumeration stopped except by a callback of its own |
| `ConnList.WalkExactly` | nabud/conn.c:111-125 | an enumeration begins with the first connection and goes on to the next one in the list, or ends; a callback that returns false ends it without another visit |
| `ConnList.ListExactly` | nabud/conn.c:72-98 | a new connection is listed last, a removed one no more, and the others keep their order |
| `ConnList.Connections.InsertConn` | nabud/conn.c:72-82 | in place, is the insertion step and keeps the invariant |
| `ConnList.Connections.RemoveConn` | nabud/conn.c:84-98 | in place, is the removal step, entered only when nobody enumerates the connection |
| `ConnList.Connections.BeginEnumeration` | nabud/conn.c:104-114 | in place, is the step up to the first callback |
| `ConnList.Connections.AfterCallback` | nabud/conn.c:118-126 | the code's assertion holds; in place, is the step to the next connection or to the end |
| `FileStore.OverlayAt` | nabud/stext.c:329-350 | what every byte is after a positional write, with zeros in a gap past the end |
| `FileStore.OverlayTwice` | nabud/stext.c:339-347 | writing in two pieces, wherever the cut, is writing the whole |
| `FileStore.SliceAt` | nabud/stext.c:438-454 | how many bytes a read delivers, and which |
| `FileStore.ResizedAt` | nabud/stext.c:358-365 | what every byte is after a truncation, with zeros where the file grew |
| `FileStore.SeekAgrees` | nabud/stext.c:480-512 | a position is reached by its distance from the beginning, the cursor or the end |
| `FileStore.File.ReadFully` | nabud/stext.c:309-323 | under any short reads the loop delivers one slice, keeps the rest of the buffer, and its 32-bit offset does not wrap |
| `FileStore.File.PreadLive` | nabud/stext.c:297-327 | delivers the slice; the reported count is right if and only if offset + length <= 2^32 - 1 |
| `FileStore.File.PreadShadow` | nabud/stext.c:438-454 | delivers the same slice with the right count |
| `FileStore.File.Pread` | nabud/stext.c:743-748 | both back ends refine one file specification within 32 bits |
| `FileStore.File.PwriteLive` | nabud/stext.c:329-350 | under any short writes the loop leaves one zero-filling overlay |
| `FileStore.File.Pwrite` | nabud/stext.c:754-765 | EROFS for shadow files, EFBIG exactly past 2^32 - 1, else the overlay; an error leaves the file as it was |
| `FileStore.File.Read` | nabud/stext.c:250-273 | under any short reads both back ends deliver the slice at the cursor and move past it |
| `FileStore.File.Write` | nabud/stext.c:275-295 | under any short writes one overlay at the cursor, EROFS for shadow files; the file stays within its limit if and only if the write ends within it |
| `FileStore.WriteOutgrows` | nabud/stext.c:730-737 | two seeks and a write of two bytes that leave a file above the limit |
| `FileStore.File.Truncate` | nabud/stext.c:801-813 | cuts or zero-extends a live file, refuses a shadow one |
| `FileStore.File.Seek` | nabud/stext.c:771-795 | lands on the target or, with EINVAL or EFBIG, leaves the cursor where it was, despite the shadow cursor's 32 bits; the position reported is an int32_t |
| `FileStore.File.SeekRaw` | nabud/stext.c:480-512 | moves to the target exactly when it is not negative, for both back ends |
| `RangeEdit.Insert` | nabud/retronet.c:568-658 | FH-INSERT leaves F[..off] + data + F[off..], zero-fills a gap past the end, leaves F alone when the result is too big or the file read-only |
| `RangeEdit.InsertedAt` | nabud/retronet.c:568-658 | byte by byte, for every file, offset and data: prefix, zeros in a gap, data, what followed; an oversize result leaves the file alone |
| `RangeEdit.MakeRoom` | nabud/retronet.c:610-646 | the backward loop over overlapping chunks moves everything from the offset on, and no write hits the EFBIG check |
| `RangeEdit.CopyChunk` | nabud/retronet.c:618-640 | one chunk is read whole and written whole at its new place |
| `RangeEdit.DeleteRange` | nabud/retronet.c:698-774 | FH-DELETE-RANGE terminates and leaves the file described by `DeletedByCode`, on every size, offset and length |
| `RangeEdit.DeletedAt` | nabud/retronet.c:720-734 | byte by byte, for every file, offset and length: what is deleted is at most what is there after the offset |
| `RangeEdit.DeletedByCodeAt` | nabud/retronet.c:698-774 | byte by byte, what the code leaves, the damaged case included |
| `RangeEdit.FirstClampedIs` | nabud/retronet.c:736-760 | the first clamped read is a whole number of chunks away |
| `RangeEdit.MoveDown` | nabud/retronet.c:733-768 | the forward loop over overlapping chunks, up to end-of-file or a refused write, followed by truncation |
| `RangeEdit.DeleteExactly` | nabud/retronet.c:698-774 | `DeleteWorks` holds if and only if every file of that size becomes F[..off] + F[off+len..] |
| `RangeEdit.DeleteLoses` | nabud/stext.c:305-325 | whenever it does not hold, a file that is damaged |
| `RangeEdit.DeleteSafe` | nabud/retronet.c:698-774 | it holds for every file with size + 65535 <= 2^32 - 1 |
| `RangeEdit.DeleteFails` | nabud/stext.c:305-325 | it does not hold for a file of 2^32 - 1 bytes, offset 65533 and length 1 |
| `RangeEdit.InsertThenDelete` | nabud/retronet.c:568-774 | deleting what was just inserted restores the file when the insertion was at the end or the deletion works |
| `RangeEdit.InsertThenDeleteExactly` | nabud/retronet.c:568-774 | and it restores every file of a size only then |
| `Blocks.GetBlock` | nabud/nhacp.c:1007-1074 | which requests are refused, and what the reply holds, given what the reply buffer held before; never more than 8192 bytes |
| `Blocks.AdmittedExactly` | nabud/nhacp.c:1036-1050 | a request is admitted exactly when its block ends by 2^32 and has at most 8192 bytes, or has none |
| `Blocks.PutBlock` | nabud/nhacp.c:1080-1132 | which requests are refused with which error, and otherwise the overlay |
| `Blocks.LeftIs` | libnabud/nhacp_proto.h:206-211 | the bytes a request leaves where the data will go are those of block number and length |
| `Blocks.GetBlockExactly` | nabud/nhacp.c:1026-1073 | an admitted request gets its zero-padded block, whatever the shared buffer held besides the request, if and only if the file is a shadow, the block ends below 2^32, or the stale byte is a zero of the request |
| `Blocks.LastBlockFails` | nabud/nhacp.c:1040-1055 | block 0x7ffff of 8192 bytes is admitted, ends at 2^32, and is answered wrongly for exactly the live files that do not end two or three bytes into it |
| `Blocks.CollectedExactly` | nabud/nhacp.c:1026-1073 | what a client collects from the answers to requests 0, 1, ... until an empty or refused one is the zero-padded file, whatever the shared buffer held besides the requests, if and only if `Collectable` holds of back end, size and block length |
| `Blocks.PadIs` | nabud/nhacp.c:1064-1072 | the padding completes the last block, with less than a block |
| `Blocks.LargestNotCollectable` | nabud/nhacp.c:1040-1055 | both ways in which it does not hold, for a file of 2^32 - 1 bytes, and a file for which the last answer is right by chance |
| `Blocks.EmptyBlock` | README.md:447-449 | a block is empty if and only if it starts at or past end-of-file |
| `Blocks.PutThenGetByCode` | nabud/nhacp.c:1026-1131 | after a successful PUT-BLOCK, GET-BLOCK answers with the data, and a request for another block that had data in it gets the answer it had before although the buffer was used in between, if that answer was settled |
| `Blocks.PutThenGetOther` | nabud/nhacp.c:1026-1131 | the latter in terms of block numbers: any other block than the one written |
| `Blocks.Unsettled` | nabud/nhacp.c:1040-1055 | an answer that is not settled, in a block ending at 2^32 with five or more bytes of data, depends on the buffer even without a write |
| `Packets.TransmitBuffer.EscapePacket` | nabud/adaptor.c:96-111 | the buffer holds the stuffed packet and never overflows |
| `Packets.TransmitBuffer.SendPacket` | nabud/adaptor.c:206-227 | the stuffed packet and its terminator are sent exactly when the NABU acknowledged |
| `Packets.ReceivePacket` | nabuclient/nabuclient.c:149-166 | the client's loop is the unstuffing function on every stream |
| `Packets.Escape` | nabud/adaptor.c:96-111 | the stuffed length lies between the packet's and twice the packet's |
| `Packets.UnstuffWire` | nabuclient/nabuclient.c:146-166 | unstuffing a sent packet followed by anything returns the packet and stops exactly before the rest, the terminator being consumed exactly below 1024 bytes |
| `Packets.UnstuffExactly` | nabuclient/nabuclient.c:149-166 | on every stream: the content up to the terminator and exactly what follows it, nothing if the stream ends before, or the first 1024 bytes if that many come; unknown escapes are skipped |
| `Packets.StreamDecodes` | nabud/adaptor.c:206-227 | a stream of packets decodes to the same packets |
| `Packets.HeaderFields` | libnabud/nabu_proto.h:293-311 | segment, offset and last flag can be read back from the header |
| `Packets.HeaderLayout` | libnabud/nabu_proto.h:293-311 | where every field is, in which byte order, and the four types |
| `Packets.SealedLayout` | nabud/adaptor.c:331-345 | a packet is header and payload, and behind them the inverted remainder of both |
| `Packets.SealedChecks` | nabuclient/nabuclient.c:168-187 | a sealed packet passes the client's CRC check and gives back header and payload |
| `Packets.BuildSegment` | nabud/adaptor.c:290-351 | the in-place construction is the reply specified for the segment |
| `Packets.SegmentDelivered` | nabud/adaptor.c:290-351 | a segment is sent exactly when it is one of the ceil(size/991) <= 256, exactly the last carries the flag, the offset is untruncated, the packet has at most 1009 bytes, and the client recovers it through the wire |
| `Packets.ImageDelivered` | nabud/adaptor.c:290-351 | what a client collects segment by segment through the wire is the image, for all images of 1..65536 bytes |
| `Crc16Genibus.CrcTab` | libnabud/crc16_genibus.c:33-66 | every table entry is the remainder of its index |
| `Crc16Genibus.Update` | libnabud/crc16_genibus.c:74-87 | the table-driven loop is the octet-wise update |
| `Crc16Genibus.UpdatedIsRemainder` | libnabud/crc16_genibus.c:74-87 | which is bit-by-bit polynomial division, on every message and register |
| `Crc16Genibus.UpdatedConcat` | libnabud/crc16_genibus.c:74-87 | a CRC may be computed piecewise |
| `Crc16Genibus.CrcIsRemainder` | libnabud/crc16_genibus.c:68-94 | the two bytes sent are, bit by bit, the inverted remainder of the message from a register of ones |
| `Crc16Genibus.GetSetCrc` | libnabud/nabu_proto.h:317-338 | reading a stored CRC gives it back |
| `Crc16Genibus.CorruptionDetected` | libnabud/crc16_genibus.c:68-94 | replacing one byte or two adjacent ones changes the CRC of a message of any length |
| `Crc8Cdma2000.CrcTab` | libnabud/crc8_cdma2000.c:33-66 | every table entry is the remainder of its index |
| `Crc8Cdma2000.Update` | libnabud/crc8_cdma2000.c:74-84 | the table-driven loop is the octet-wise update |
| `Crc8Cdma2000.UpdatedIsRemainder` | libnabud/crc8_cdma2000.c:74-84 | which is bit-by-bit polynomial division, on every message and register |
| `Crc8Cdma2000.UpdatedConcat` | libnabud/crc8_cdma2000.c:74-84 | a CRC may be computed piecewise |
| `Crc8Cdma2000.CrcIsRemainder` | libnabud/crc8_cdma2000.c:68-90 | the check byte is, bit by bit, the remainder of the message from a register of ones |
| `Crc8Cdma2000.CorruptionDetected` | libnabud/crc8_cdma2000.c:68-90 | replacing one byte changes the CRC of a message of any length |
| `Crc8Cdma2000.ResidueZero` | libnabud/crc8_cdma2000.c:68-90 | appending a byte leaves residue zero if and only if it is the message's CRC |
| `Gf2.BurstDetected` | libnabud/crc16_genibus.c:68-94 | any change confined to as many adjacent bits as the generator's degree changes the remainder, for every generator with a constant term |
| `Atoms.SendAtom` | libnabud/atom.c:221-228 | the bytes sent are the encoding of the atom |
| `Atoms.EncodeLayout` | libnabud/atom.c:194-228 | tag and length go out most significant byte first, then the data |
| `Atoms.AtomOkExactly` | libnabud/atom.c:245-325 | what is accepted, type by type: nothing, a terminated text, a terminated number, a blob, one byte |
| `Atoms.DecodeEncode` | libnabud/atom.c:221-330 | receiving a sent atom returns it and leaves exactly the rest |
| `Atoms.EncodeDecode` | libnabud/atom.c:234-330 | an accepted atom is within its type's limits and re-sends the bytes consumed |
| `Atoms.AcceptedExactly` | libnabud/atom.c:490-582 | the parser returns a list and a rest if and only if the list is well-formed and the stream is its sending followed by the rest |
| `Atoms.WellFormedExactly` | libnabud/atom.c:520-570 | the stateful check accepts exactly the grammar: fields and unnested objects closed by DONE, ended by DONE or ERROR, within the size limit |
| `Atoms.AtomList.Append` | libnabud/atom.c:363-393 | the list grows by one atom with the data, or with the normalised boolean followed by zeros, and the count is its length; the receiver accepts a boolean exactly when it has one byte |
| `Atoms.AtomList.AppendString` | libnabud/atom.c:399-407 | appends the text with its terminator, as an atom the receiver accepts exactly when the text is shorter than 65536 bytes |
| `Atoms.AtomList.AppendNumber` | libnabud/atom.c:411-419 | every 64-bit number becomes an atom the receiver accepts |
| `Atoms.HexDenotes` | libnabud/atom.c:411-419 | the digits appended denote the number, without leading zeros |
| `Atoms.AtomList.Send` | libnabud/atom.c:490-499 | sends the encodings in order |
| `Atoms.AtomList.Receive` | libnabud/atom.c:505-582 | the loop accepts exactly what the parser specification accepts, with count equal to the length; a failure empties the list |
| `PathCheck.CheckLocalRootEscape` | libnabud/fileio.c:187-332 | the automaton refuses a path if and only if some prefix of its components has negative depth, dot names counting zero |
| `PathCheck.ScanMeans` | libnabud/fileio.c:200-330 | what each of the seven states remembers of the component being scanned |
| `PathCheck.SplitJoined` | libnabud/fileio.c:187-332 | the components are free of slashes and, joined by slashes, are the path |
| `PathCheck.AcceptedStaysInside` | libnabud/fileio.c:187-332 | an accepted path never leaves the root, and a path without components that start with a dot is refused only if it leaves it |
| `PathCheck.HiddenNameRefused` | libnabud/fileio.c:187-332 | for every name that starts with a dot, a path that stays inside and is refused |
| `PathCheck.ExactWithoutDotNames` | libnabud/fileio.c:187-332 | on the paths over a set of names the check refuses exactly what leaves the root, if and only if no name starts with a dot |
| `SlotTable.OpenedExactly` | nabud/stext.c:128-190 | 0xff takes the lowest free slot, EMFILE if and only if all 255 are used, EBUSY if and only if the slot asked for is; success changes that slot only, failure nothing |
| `SlotTable.ClosedExactly` | nabud/stext.c:704-714 | a close frees exactly its slot and keeps the order |
| `SlotTable.RunKeepsSorted` | nabud/stext.c:128-211 | every run of opens and closes keeps the list strictly sorted within 0..254 |
| `SlotTable.FreeFromIsLowest` | nabud/stext.c:140-160 | the scan over the sorted list finds the lowest free slot |
| `SlotTable.PlacedIsInsertion` | nabud/stext.c:160-188 | linking in order adds exactly one entry to the map |
| `SlotTable.Table.Insert` | nabud/stext.c:128-190 | in place, result and list are as specified |
| `SlotTable.Table.Find` | nabud/stext.c:192-211 | the scan with early exit is the map lookup |
| `SlotTable.Table.Close` | nabud/stext.c:704-714 | in place, the list without the slot |
| `Sessions.RunKeepsOk` | nabud/nhacp.c:239-309 | in every run session ids are distinct and in 0..254, file tables sorted, CRC-8 on only in 0.1 sessions |
| `Sessions.CreateExactly` | nabud/nhacp.c:256-290 | CREATE yields the lowest free id in 1..254, fails if and only if all are taken, and leaves the other sessions alone |
| `Sessions.SystemHelloExactly` | nabud/nhacp.c:757-786 | a SYSTEM HELLO leaves exactly session 0; it has no open files, except as the first HELLO inside a 0.0 loop that opened some |
| `Sessions.FilesSurviveHello` | nabud/nhacp.c:1895-2047 | a run into that exception: any file opened inside the 0.0 loop, in any slot, is still open after the HELLO |
| `Sessions.GoodbyeExactly` | nabud/nhacp.c:2170-2183 | GOODBYE ends exactly the session it is sent on, on the system session all of them, and gets no reply |
| `Sessions.FileRequestExactly` | nabud/nhacp.c:1858-1875 | a file request acts on the table of its linked session alone, and is refused with ESRCH on any other |
| `Sessions.IgnoredExactly` | nabud/nhacp.c:710-786 | malformed requests and unacceptable HELLOs change nothing; a HELLO on a numbered session gets EINVAL but has changed that session's version and options |
| `Sessions.LegacyExactly` | nabud/nhacp.c:1895-2047 | the 0.0 loop is entered only without sessions, left with none, and has its own file table |
| `Sessions.OthersUntouched` | nabud/nhacp.c:2053-2191 | a request on a non-system session changes no other session |
| `Sessions.SessionList.Lookup` | nabud/nhacp.c:239-250 | finds the first context with the id, or there is none |
| `Sessions.SessionList.ContextInit` | nabud/nhacp.c:256-290 | links the context under the lowest free id, or leaves the list alone |
| `Sessions.SessionList.Reset` | nabud/nhacp.c:297-309 | only the kept context survives, without its files |
| `Sessions.SessionList.Receive` | nabud/nhacp.c:2053-2191 | in place, list and reply are as specified for the frame |
| `Sessions.SessionList.ReceiveHello` | nabud/nhacp.c:710-812 | in place, list and reply are as specified for a HELLO |
| `Frames.CheckCrc` | nabud/nhacp.c:1811-1856 | accepts exactly the messages `CrcAccepted` describes |
| `Frames.CoveredLayout` | nabud/nhacp.c:1824-1838 | what a request's CRC covers: the message byte, the session, the length, the message |
| `Frames.AcceptedExactly` | nabud/nhacp.c:1811-1856 | a nonzero check byte is accepted if and only if it is the CRC of header, length and preceding bytes |
| `Frames.UncheckedWithoutOption` | nabud/nhacp.c:1811-1812 | without the option nothing is checked |
| `Frames.ClientProtected` | nabuclient/nabuclient.c:1220-1258 | the client sends its message, behind it the CRC of header, length and message, or zero if it only receives CRCs |
| `Frames.ClientAccepted` | nabuclient/nabuclient.c:1220-1258 | every frame the client builds with CRC-8 passes the server's check |
| `Frames.CorruptionRefused` | nabud/nhacp.c:1811-1856 | changing one byte of a message that carries its CRC gets it refused, unless it zeroes the check byte, or the CRC is zero and another byte changes |
| `Frames.WrongSessionRefused` | nabud/nhacp.c:1811-1856 | so does arriving under another session's number, unless the CRC is zero |
| `Frames.ZeroCrcUnchecked` | nabud/nhacp.c:1811-1820 | a request whose CRC is zero, and which passes with any of its bytes changed |
| `Frames.SendReply` | nabud/nhacp.c:481-512 | builds length, body and, with CRC-8, the check byte |
| `Frames.ReplyLayout` | nabud/nhacp.c:481-512 | for all options: the length counts what follows it and can be read back, the body follows, then one more byte exactly with CRC-8 |
| `Frames.ReplyResidue` | nabuclient/nabuclient.c:1261-1349 | every reply with CRC-8 passes the client's check, whatever follows it |
| `Frames.ClientOkExactly` | nabuclient/nabuclient.c:1261-1349 | what the client reads passes if and only if the last byte is the CRC of the others |
| `Frames.BadLengthRefused` | nabuclient/nabuclient.c:1261-1274 | a frame passes only with a length within limits, and as many bytes |
| `Frames.CorruptReplyExactly` | nabuclient/nabuclient.c:1261-1349 | a reply with a byte changed after the length never passes; with a length byte changed it passes if and only if the client gets the bytes it waits for and the last is the CRC of the others |
| `Frames.CorruptLengthPasses` | nabuclient/nabuclient.c:1261-1349 | a reply that passes with its length corrupted |
| `Frames.ReplyFits` | nabud/nhacp.c:352-379 | in every run, for every handler's reply and every version, the length assertion of `nhacp_send_reply` holds |
| `Frames.ResponseLayout` | libnabud/nhacp_proto.h:289-350 | the length of every response is that of its fields |
| `Frames.MaxPayloadIs` | nabud/nhacp.c:352-379 | in version 0.0 the largest DATA-BUFFER fills a message, later ones hold 8192 bytes |
| `Frames.BlockReplyFits` | nabud/nhacp.c:1040-1073 | whatever GET-BLOCK answers an admitted request with fits, in every run, context and version |
| `Frames.StorageGet` | nabud/nhacp.c:921-958 | STORAGE-GET is refused exactly above the version's limit, and otherwise sends a reply within it, which is the slice asked for if and only if the file is a shadow or the request ends below 2^32 |
| `Frames.FileRead` | nabud/nhacp.c:1189-1230 | FILE-READ is refused exactly above the version's limit or with flags, and otherwise sends a reply within it, the slice at the cursor |
| `Frames.CrcNeedsNewVersion` | nabud/nhacp.c:352-379 | it would not if CRC-8 could be on in version 0.0 |
| `Frames.RequestFits` | nabud/nhacp.c:314-345 | exactly which lengths each version admits; all fit the buffer, and their high byte is below 0x80 |

## Left out

- I/O errors, EINTR, allocation failure, timeouts and `conn_io`: streams are byte sequences, host transfers are any nonempty prefix.
- `off_t` is taken to have 64 bits, so the limit on live files is 2^32 - 1 bytes.
- Loading an image is "a fresh image, or failure": URLs, PAK decryption and the second attempt with the encrypted name are not modelled. The fresh image enters the shared state in the region that inserts it, since until then only its thread knows it.
- `image_load_image_from_url` uses its image without checking it; the model takes a failed conversion as a failed load.
- PAK images (`adaptor_send_pak`) and time packets: the wire format is the same, the segmentation comes from the file.
- The client reads the 16 header bytes without unstuffing them; the model runs its unstuffing loop over the whole packet, as the server escapes the whole packet.
- A connection is inserted before its own thread tears it down (the thread is started first in the code).
- Progress: that `conn_remove`'s wait ends, and that enumerations end when connections keep arriving.
- ConnList.Connections.RemoveConn: models the wait as the region being entered when `enum_count` is zero, not the condition variable; `enum_count` and `conn_count` do not wrap.
- ImageCache.RetainKeeps: does not model 32-bit wrap-around of `refcnt`; ImageRuns.RefcntBounded gives the bound below which there is none.
- FileStore.File.Pread: the first two clauses describe the code on all inputs; the slice specification is claimed only for offset + length <= 2^32 - 1, where it holds.
- FileStore.File.Write: a live file that a cursor write has grown past 2^32 - 1 bytes is outside the model; every other file result assumes the limit.
- RangeEdit.InsertThenDelete: requires the exact condition of RangeEdit.InsertThenDeleteExactly instead of holding everywhere, because the code does not.
- Sessions.OthersUntouched: covers the session list; memory ownership of NHACP contexts on HELLO error exits is not modelled, nor the request buffer.
- Frames.ReplyFits: takes a DATA-BUFFER as within the version's limit; this is derived for the three handlers that send one (Frames.BlockReplyFits, Frames.StorageGet, Frames.FileRead).
- Atoms.AtomList.Append: lengths above 2^32 - 1, which the length field cannot hold, and the bytes of a boolean beyond the eight stored inline.
- Sessions.SessionList.Receive: reading a frame and the checks of `nhacp_request_check` are one case, a malformed request; the CRC part of them is `Frames.CheckCrc`.
- File attributes, opening by path, directory listing and file copying.
- RetroNet requests other than FH-INSERT and FH-DELETE-RANGE; NHACP requests that touch neither sessions, files nor blocks.
- libmj, listing and command-line parsing, nabuctl, the control thread, configuration, logging and date formatting.
