# Haarp's cache, proved

Haarp is a caching HTTP proxy for large files. What makes it hard to get right is that a
cached object is *sparse*: its row in the database lists intervals `(a, b, position)`, meaning
that the origin's bytes `a..b` lie in the cache file at offset `position`. Missing pieces are
always appended at the end of the file, so file order and origin order differ. This project
models that cache and the machinery around it, and proves that it serves and keeps the right
bytes.

The origin is a function `origin(k)`, the byte at offset `k`. Everything a list says about an
object is the relation `Holds(l, k, q)`: byte `k` is at disk offset `q`. All main results are
about these two.

**The range cache**

- `Intervals` - lists of intervals: the append point, appending with and without merging,
  checkpoints, size, sorting.
- `RangeWork` - `getRangeWork`: a window becomes a plan of cached and missing segments. A plan
  is described once more, without the loops (`Segments`), and the description determines it.
- `Text`, `RangeText`, `Ledger` - the columns `rg`, `pos` and `users`: written, read, and
  written again.
- `CacheFile` - the cache file with its buffered writes: what the process sees (`data`), what
  has left it (`durable`), and what a crash may or may not keep (`pending`). A flush, a close
  and a seek that moves write the buffer out.
- `Blocks` - what one write, one finished block, one checkpoint do to the agreement of list,
  file and origin.
- `Session` - one request: the class has the fields of `ConnectionToHTTP2`, its methods are the
  branches of `Cache`, `Cache2`, `ReadBodyPart`, `SubUpdate`, `Update` and `CloseUpdate`. The
  cursor invariant is `Active`. A crash at any moment of a request leaves a row and a file that
  the next request can use (`CrashRecovers`).
- `Serve` - whole transfers and how they end (`Delivered`), one request from row to row
  (`Handle`), any number of requests in a row (`Run`), and what comes of them:
  what was downloaded serves every later request (`DownloadedIsServed`), and the accounts are
  conserved (`RunCharges`).

**Around it**

- `Lease` - the `file_used` flag that serialises sessions on a file, as atomic steps of any
  number of sessions over one row and a clock.
- `Md5Core`, `Md5` - incremental MD5 (RFC 1321), with the meaning of its parts: byte order,
  padding, mixing functions, rotations, the order of words and registers.
- `Socket`, `Http`, `Chunked` - the peek/consume receive buffer, header framing and chunked
  bodies (section 4.1 of RFC 7230) over it. The network is the list of what successive receives
  give.
- `Shared` - many sessions on one file: with the lease of `Lease` the requests of `Serve` come
  out as if they had come one after the other.
- `Relay` - the body loop of the proxy, bounded by the announced length.

## Where the code does less than one expects

The model follows the code. In four places the obvious claim is false; each has a concrete input
at which it fails and a theorem that says exactly when it holds.

1. `haarp/utils.cpp:335` compares with `>`: a window that ends one byte behind everything stored
   is planned without its last byte. `RangeWork.WindowCoveredIff` covers the window if and only
   if that is not the case, `RangeWork.OneByteTailExample` is an input, and `Serve.Handle` shows
   that such a request never ends complete.
2. `haarp/httphandler.cpp:101`: when a receive ends right before the last byte of a header, the
   length asked for is -1 as an unsigned number and reading the header fails.
   `Http.ReadHeader` succeeds if and only if no receive ends there; `Http.CutHeaderExample` reads
   one header in two ways.
3. `haarp/httphandler.cpp:228` looks at the buffer again without receiving: a chunk's size line
   cut by a receive is never assembled. `Chunked.ReadChunk` succeeds if and only if the whole
   line is in the buffer when it is looked for, `Chunked.ReadChunks` says how far a body comes,
   and `Chunked.CutLineExample` reads one chunk in two ways.
4. A lease lasts 30 seconds, but a session that only makes checkpoints touches its row at most
   every 32 (`Session.Tick`), and a release carries no owner (`Lease.SilentHolderExample`).
   `Lease.ExclusiveIffNeverStolen`: over a run, at most one session holds the file at any time if
   and only if no step takes it from a holder whose row was not stamped for 30 seconds;
   `Lease.MutualExclusion` follows for holders that refresh in time. What is lost when a file
   is taken from a session at work is `Shared.StolenIsLost`.

## Model

| member | source | states |
|---|---|---|
| Intervals.GetLastNode | haarp/utils.cpp:163-179 | the first of the intervals with the greatest position |
| Intervals.GetPointEnd | haarp/utils.cpp:221-226 | the end of that interval's block, 0 for an empty list |
| Intervals.GetFileSize | haarp/utils.cpp:142-150 | the sum of the interval sizes; with FileSizeIsPointEnd, the append point |
| Intervals.GetExtremeB | haarp/utils.cpp:152-161 | an end that is reached by some interval and exceeded by none, -1 for none |
| Intervals.AppendNode | haarp/utils.cpp:181-196 | the list with the block merged into the last block or inserted behind it |
| Intervals.AppendSubNode | haarp/utils.cpp:198-216 | the same for the first `length` bytes of a block |
| Intervals.AppendedHolds | haarp/utils.cpp:181-196 | a block appended at the end of the file adds exactly its own bytes at its own offsets, merged or not |
| Intervals.AppendKeepsLayout | haarp/utils.cpp:181-226 | appending an unknown block at the append point keeps the blocks tiling [0, end) and the origin ranges disjoint, and moves the append point by its size |
| Intervals.CheckpointsInvisible | haarp/utils.cpp:181-216 | any placement of checkpoints inside a block, then its completion, leaves the same list as appending the block once |
| Intervals.FileSizeIsPointEnd | haarp/utils.cpp:142-226 | on a valid list the summed sizes are the append point |
| Intervals.ReorderKeepsMeaning | haarp/utils.cpp:142-226 | lists with the same entries in any order agree on layout, append point, size, extreme and on every byte they name |
| Intervals.SortKeepsMeaning | haarp/utils.cpp:228-246 | sorting in place has the same entries and changes nothing a list says |
| Intervals.SortForgetsOrder | haarp/utils.cpp:228-246 | disjoint lists with the same entries sort to the same list |
| RangeWork.GetRangeWork | haarp/utils.cpp:238-345 | the loops compute the plan, and leave the caller's list sorted |
| RangeWork.PlanMeaning | haarp/utils.cpp:238-345 | on disjoint intervals the plan is contiguous from a to the planned end, cached segments inside one interval with shifted position and as long as they can be, missing ones touching no interval and as long as they can be; hit if and only if none is missing |
| RangeWork.SegmentsUnique | haarp/utils.cpp:238-345 | that description leaves no second plan |
| RangeWork.WindowCoveredIff | haarp/utils.cpp:335-343 | every byte of the window, and no other, is planned if and only if the window does not end one byte behind everything stored |
| RangeWork.OneByteTailExample | haarp/utils.cpp:335-343 | a list and a window whose last byte is not planned although nothing is said to be missing |
| RangeWork.PlanForgetsOrder | haarp/utils.cpp:238-345 | the plan does not depend on the order of the list |
| Text.StringExplode | haarp/utils.cpp:467-480 | appends the nonempty fields between separators |
| Text.ExplodeOfJoin | haarp/utils.cpp:467-480 | splitting undoes joining for nonempty fields without the separator |
| Text.AtollMeaning | haarp/utils.cpp:353-375 | a decimal number is read with blanks and a sign before it and anything but a digit behind it |
| RangeText.List2String | haarp/utils.cpp:377-389 | the two columns for a list |
| RangeText.GenerateList | haarp/utils.cpp:353-375 | the list of two columns, failing on unequal lengths, a missing end or an end before its start, with what was read so far |
| RangeText.LoadMeaning | haarp/utils.cpp:353-375 | the columns load if and only if they have as many fields and every range has two numbers in order; the list is what the fields say, last first, also when loading fails on the way |
| RangeText.LoadOfText | haarp/utils.cpp:353-389 | reading what was written succeeds and gives the list reversed |
| RangeText.RowRoundTrip | haarp/utils.cpp:142-389 | a valid list survives its columns: what is loaded is valid, names the same bytes at the same offsets, has the same append point, size and extreme and the same plan for every window |
| Ledger.AddUserCache | haarp/utils.cpp:28-59 | books on the caller's account, or on a stand-in when address or date is unusable, and says which |
| Ledger.CreditBooks | haarp/utils.cpp:28-59 | a credit adds its bytes to its own account, as downloaded or as served from the cache, and nothing to any other |
| Ledger.CreditDates | haarp/utils.cpp:28-59 | the credited account gets the date and keeps the one it was opened at; no other account changes in any way |
| Ledger.SortUsersMeaning | haarp/utils.cpp:88-116 | the accounts sort stably, latest first, and none is lost |
| Ledger.LuserCache2Str | haarp/utils.cpp:88-112 | the column holds the first ten of the sorted accounts |
| Ledger.UserTextIs | haarp/utils.cpp:88-112 | an account is its address, its two dates and its two sums in decimal, with commas between |
| Ledger.Str2LuserCache | haarp/utils.cpp:61-86 | reads accounts up to the first malformed one |
| Ledger.ReadUsersMeaning | haarp/utils.cpp:61-86 | reading fails at the first record without five fields, and the accounts are those of the records before it, in order |
| Ledger.LedgerRoundTrip | haarp/utils.cpp:61-116 | for addresses without separators, reading what was written gives the first ten of the stable sort |
| Ledger.RankIsPosition | haarp/utils.cpp:88-116 | an account's place in the sorted list is the number of accounts changed later, or changed at the same time and in front of it |
| Ledger.KeptBooks | haarp/utils.cpp:88-112 | of distinct accounts exactly those with fewer than ten before them keep what is booked on them, the others lose it |
| Ledger.CreditBills | haarp/utils.cpp:28-59 | credits of one request add up to one bill on the browser's account |
| Ledger.BillBooks | haarp/utils.cpp:28-59 | a bill changes what is booked on its own account, in its column, and on no other; who is among the ten depends on the dates alone |
| Ledger.BillCredits | haarp/utils.cpp:28-116 | what the next request reads after a bill was written: the first ten accounts by date, each with what it had and the date it was opened at, the browser's with what it was served besides |
| Ledger.CreditsAmongFew | haarp/utils.cpp:28-116 | with at most ten browsers nobody is dropped, and a bill changes the browser's own account only |
| CacheFile.File.LongSeek | haarp/utils.cpp:864-879 | seeking in steps an int can hold lands exactly at the position, and no byte stays buffered |
| CacheFile.WrittenBehind | haarp/connectiontohttp2.cpp:1542-1577 | a write behind the end of the file leaves a hole of zeros |
| CacheFile.File.Write | haarp/connectiontohttp2.cpp:1542-1577 | overwrites at the cursor, moves it, and leaves the bytes pending |
| CacheFile.File.Read | haarp/connectiontohttp2.cpp:1358-1364 | the bytes at the cursor, as many as there are |
| Blocks.WriteBlock | haarp/connectiontohttp2.cpp:1537-1579 | origin bytes written at the cursor keep list and file in agreement; rewriting a cached block changes no byte |
| Blocks.FinishBlock | haarp/connectiontohttp2.cpp:1547-1592 | a finished block enters the list: layout and agreement stay, and exactly its bytes become known |
| Blocks.CheckpointBlock | haarp/connectiontohttp2.cpp:1625-1633 | a checkpoint enters what is written and leaves the rest as a block of its own that may go on |
| Blocks.WriteIsCrashSafe | haarp/connectiontohttp2.cpp:1542-1577 | no write can disturb a byte that the saved row, or any list the current one extends, names |
| Blocks.CrashSafeIff | haarp/connectiontohttp2.cpp:223-236 | the condition kept for the saved row holds if and only if the row agrees with every file a crash can leave, whichever unflushed bytes are kept |
| Blocks.SegmentsRemain | haarp/connectiontohttp2.cpp:1524-1531 | every plan can be served: cached segments are on disk at their place, missing ones unknown |
| Blocks.RemainingStays | haarp/connectiontohttp2.cpp:1547-1569 | the rest of a plan stays valid when earlier blocks enter the list |
| Blocks.EntryDecides | haarp/connectiontohttp2.cpp:1571-1573 | with something missing in the rest of a plan, some byte from the segment's last one on is unknown: the switch to the disk is made exactly when nothing is |
| Session.IsAllHit | haarp/utils.cpp:133-140 | whether nothing from the given segment on is missing |
| Session.Session.constructor | haarp/connectiontohttp2.cpp:35-45 | a request with nothing served yet |
| Session.Session.StartNewFile | haarp/connectiontohttp2.cpp:701-724 | a file not on disk: everything is missing; the row is emptied, or, without space, left as it is while the request leaves the cache |
| Session.Session.LoadRow | haarp/connectiontohttp2.cpp:752-781 | the size, the accounts of the users column, and the list of the row (RangeText.LoadMeaning); the empty list and columns when it cannot be read |
| Session.Session.FitWindow | haarp/connectiontohttp2.cpp:782-793 | an open window ends at the object's size, one that overshoots is cut unless it starts at the object's last byte or behind, and flags remember both |
| Session.Session.ReadRow | haarp/connectiontohttp2.cpp:726-808 | what Cache leaves: the accounts, the fitted window and its flags; a plan exactly when the size is known or the list tells how far the window goes, and then the plan of the window |
| Session.Session.Cache2 | haarp/connectiontohttp2.cpp:113-153 | from every state Cache leaves: the window is the announced bytes from its start, the body length is the announced one, the size follows the flags, and the plan is the plan of that window |
| Session.Session.ReadTotal | haarp/connectiontohttp2.cpp:1038-1042 | an unknown size is taken from a partial answer, and an open window ends with it |
| Session.Session.PlannedIsAtStart | haarp/connectiontohttp2.cpp:1034-1049 | a planned window meets everything the first part of the body relies on |
| Session.HitMeans | haarp/utils.cpp:238-345 | a plan is a hit if and only if the list knows every planned byte |
| Session.Session.EnterSegment | haarp/connectiontohttp2.cpp:1523-1531 | a missing segment is placed at the append point, the cursor at its start, the cursor invariant holds, and everything the list names has left the process |
| Session.Session.FinishSegment | haarp/connectiontohttp2.cpp:1546-1555 | a finished block of the request's own enters the list, a cached one does not; the plan from the next segment on is still to be served; the list is crash-safe unless the block is still buffered |
| Session.Session.FillSegment | haarp/connectiontohttp2.cpp:1537-1576 | a turn of the overflow loop: the segment is full, the next one entered, the disk takes over exactly when all that follows is cached |
| Session.Session.FillSegments | haarp/connectiontohttp2.cpp:1537-1576 | the overflow loop ends, keeps the cursor invariant at every turn, and writes all but the piece that fits |
| Session.Session.NextSegment | haarp/connectiontohttp2.cpp:1602-1617 | the next segment is entered, and the disk takes over exactly when all that follows is cached |
| Session.Session.WriteLastPiece | haarp/connectiontohttp2.cpp:1577-1642 | the piece that fits: cursor invariant, or plan exhausted, with the file left open, or closed and -1 when the announced length was not reached; what the timer does, as for Tick, with a piece that ends inside a block of its own; a switch to the disk leaves everything flushed |
| Session.Session.Checkpoint | haarp/connectiontohttp2.cpp:1625-1637 | the block is cut, the row saved with the current list, which knows everything served and is crash-safe, the browser billed, and the cursor invariant holds for the rest |
| Session.Session.SubUpdate | haarp/connectiontohttp2.cpp:223-236 | the saved row names exactly what the list names, is crash-safe, and the browser is credited with exactly what it was served since the last save |
| Session.Session.SaveRow | haarp/connectiontohttp2.cpp:223-236 | the row names exactly what the list names; the accounts are those after one credit of the bytes to the browser (Ledger.CreditBooks), and the users column is their text |
| Session.Session.Tick | haarp/connectiontohttp2.cpp:1620-1638 | the timer keeps the cursor invariant; within a second of the last flush it changes nothing, later everything is flushed, and a checkpoint is made if and only if it is the sixteenth flush inside a block of the request's own: the list, the plan, the row and the bill are then exactly those of a checkpoint; the row is touched at most once in 32 seconds |
| Session.Session.FromServer | haarp/connectiontohttp2.cpp:1394-1646 | a miss-path call on a part of any size: list, file and row stay coherent and crash-safe, the cursor invariant holds again, and the result is the part's length while the plan holds it, -1 exactly when it overflows the plan or the plan ends off the announced length; while the plan goes on, more than a second after the last flush everything is flushed, and the row knows everything served if it was the sixteenth time and the part ends inside a block of the request's own |
| Session.Session.WritePart | haarp/connectiontohttp2.cpp:1535-1642 | the same once the file is open |
| Session.Session.FromCache | haarp/connectiontohttp2.cpp:1327-1393 | a hit-path call, also after a switch: the next bytes of the origin, a whole buffer or what is left of the segment; the plan's end closes the file, and is a normal end exactly when the announced length is reached |
| Session.Session.ActiveIsBeforeEnd | haarp/connectiontohttp2.cpp:1580-1612 | with a segment left, less was served than planned: the call sequence ends |
| Session.Session.ServingDecides | haarp/connectiontohttp2.cpp:1327-1394 | between two calls the disk serves next if and only if the next byte and all that follows were known when the request came |
| Session.Session.KeepUnfinished | haarp/connectiontohttp2.cpp:175-182 | the written part of an unfinished block enters the list after a flush; everything served is then known |
| Session.Session.Update | haarp/connectiontohttp2.cpp:172-222 | after a miss the row names exactly the final list, which holds everything served, and the accounts are those the request found with the browser billed exactly the bytes served, as downloaded; after a hit only the account changes, by the bytes served from the cache; the saved row is crash-safe in every case, although the file is not flushed |
| Session.Session.CloseUpdate | haarp/connectiontohttp2.cpp:1648-1663 | after it the row agrees with the file, crash-safe, has lost nothing it knew before the request, and the accounts are billed as for Update |
| Session.Session.CrashRecovers | haarp/connectiontohttp2.cpp:1301-1663 | row and whatever file a crash leaves are fit for the next request; what it needs, RowSafe, is in every invariant above, at every turn of every loop, and holds after every checkpoint, after the last update and after the close |
| Serve.ReadBodyPart | haarp/connectiontohttp2.cpp:1301-1646 | every part handed out is the next bytes of the origin, across hit, miss and the switch from one to the other; no part leaves everything served as it was; a part fails exactly when it overflows the plan or ends one that is too short |
| Serve.Turn | haarp/proxyhandler.cpp:484-536 | one part read and handed out, cut at the announced length: every way it can go on or end, with its result |
| Serve.TurnOfMany | haarp/proxyhandler.cpp:484-536 | a turn with parts still to come: it ends as the outcome of the transfer says, or leaves the same outcome to the rest |
| Serve.Serve | haarp/proxyhandler.cpp:475-542 | how many bytes the browser gets and with which result, as a function of the list, the server's parts and the announced length, also when the disk takes over in the middle; when the disk ends a plan one byte short, at most the last read is missing; how many bytes are booked; the relay asks for more than the plan has if and only if more than the window was announced and all of it delivered |
| Serve.OutcomeFacts | haarp/connectiontohttp2.cpp:1327-1394 | a window known from its start is served by the disk alone; a server that stops first, overflows the plan or ends a plan one byte short leaves less than announced |
| Serve.Begin | haarp/connectiontohttp2.cpp:1031-1049 | row, window, announcement and Content-Range determine the window that is served, the size left in the row, and whether the list serves it at once; the request is ready for its first part, with the plan of that window |
| Serve.Answer | haarp/connectiontohttp2.cpp:1031-1646 | the browser gets the origin's bytes from the start of its final window, as many as the outcome says; what the transfer cost |
| Serve.Handle | haarp/connectiontohttp2.cpp:1301-1663 | one request from row to row: cache coherent and crash-safe, the answer and its length determined by row and request, nothing forgotten, what was delivered known afterwards unless the plan overflowed; the accounts the next request will read are the first ten of those found, with the browser's grown by exactly what the transfer cost, in the column it belongs to, and all others as they were |
| Serve.WholeWindowIff | haarp/connectiontohttp2.cpp:1301-1663 | an announced window is delivered in full if and only if the plan reaches its end and the server's parts reach it, or the part of it the disk serves |
| Serve.WholeWindow | haarp/connectiontohttp2.cpp:1301-1663 | it is when the list knows all of it, or the server's parts make all of it |
| Serve.SizeLaw | haarp/connectiontohttp2.cpp:113-153 | which size a request that is not served by the disk at once leaves in the row: one more than the last byte of an open window the server announces, the size a partial answer names, the old one otherwise |
| Serve.KnownIsServed | haarp/connectiontohttp2.cpp:726-808 | a window inside an object of known size whose bytes are all known is a hit and served in full, whatever the server would do |
| Serve.AnnouncedIsDelivered | haarp/connectiontohttp2.cpp:1031-1646 | an announced window is delivered in full when the server gives all of it and it does not end one byte behind everything stored |
| Serve.DownloadedIsServed | haarp/connectiontohttp2.cpp:1031-1663 | after a first download that delivered all it announced, every window inside the object is a hit for the next request, which gets exactly the bytes the first one got there |
| Serve.Run | haarp/connectiontohttp2.cpp:1301-1663 | any number of requests: each that is a window is answered and booked as Handle says for the row the one before it left, every other is passed over, and no byte once cached is lost in any later row |
| Serve.StepCharges | haarp/connectiontohttp2.cpp:172-222 | one request of at most ten browsers moves nothing but its browser's account, in one column, by what the transfer cost |
| Serve.RunCharges | haarp/connectiontohttp2.cpp:172-222 | over any number of requests of at most ten browsers the accounts are conserved: each ends with what it had and what its own requests were charged |
| Lease.FileRow.LockFile | haarp/connectiontohttp2.cpp:241-341 | one locking transaction: -1 on a failing database or when the stamps of a row in use cannot be compared, 0 when the later stamp is at most 30 seconds away, else the row is taken and stamped |
| Lease.Session.Acquire | haarp/connectiontohttp2.cpp:420-541 | the two flags after a lock: owned only when the row was taken |
| Lease.Session.LiberateEdition | haarp/connectiontohttp2.cpp:343-351 | frees the row only as owner and at most once per acquire |
| Lease.EveryReleaseHasItsAcquire | haarp/connectiontohttp2.cpp:343-351 | in every run each session's releases are matched by earlier acquires of its own |
| Lease.ExclusiveIffNeverStolen | haarp/connectiontohttp2.cpp:241-351 | over every run of any number of sessions: at most one holds the file at any time if and only if no step takes it from another holder after its lease has run out |
| Lease.MutualExclusion | haarp/connectiontohttp2.cpp:241-351 | in every run whose holders refresh within 30 seconds, at most one holds the file at any time |
| Lease.TakenIffStale | haarp/connectiontohttp2.cpp:311-329 | another session gets a held file if and only if its row was not stamped for more than 30 seconds |
| Lease.ReleaseFreesForAll | haarp/connectiontohttp2.cpp:343-351 | with two holders, one's release lets a third in beside the other, however fresh the other is |
| Lease.SilentHolderExample | haarp/connectiontohttp2.cpp:241-351 | a run with a holder silent for 31 seconds that ends with two holders |
| Lease.CheckpointsAreTooRare | haarp/connectiontohttp2.cpp:1620-1636 | from every state in which a holder just refreshed, 31 seconds of silence let a second session in, if and only if the row has a `last_request` |
| Shared.StepKeeps | haarp/connectiontohttp2.cpp:172-351 | a step that takes no held file keeps the sessions exclusive, the one at work aware of all that is there, and the requests one after the other |
| Shared.SerialUnlessStolen | haarp/connectiontohttp2.cpp:172-351 | over every run that takes no held file no update is lost: whatever is saved is saved by a session that had seen all that was there |
| Shared.StolenIsLost | haarp/connectiontohttp2.cpp:311-329 | from every state in which the file of a session at work is taken, what that session saves next is overwritten unseen |
| Shared.Alone | haarp/connectiontohttp2.cpp:1301-1663 | what a request does when it is alone with the file is what ConcurrentRequests asks of each session |
| Shared.LogIsTrace | haarp/connectiontohttp2.cpp:1301-1663 | requests one after the other, each as on its own, are a run of Serve that ends with row and file in agreement |
| Shared.ConcurrentRequests | haarp/connectiontohttp2.cpp:172-351 | any number of sessions: unless a held file is taken, the rows their requests leave are those of a run of Serve, no byte once cached is lost, and row and file agree whenever nobody is at work |
| Md5Core.Transform | haarp/md5.cpp:161-245 | decoding and 64 steps on one block |
| Md5Core.FChooses | haarp/md5.cpp:61-63 | F takes each bit from the second word where the first is set, from the third elsewhere (section 3.4 of RFC 1321) |
| Md5Core.GChooses | haarp/md5.cpp:65-67 | G takes it from the first where the third is set, from the second elsewhere |
| Md5Core.HIsParity | haarp/md5.cpp:69-71 | H is the parity of the three |
| Md5Core.ITurns | haarp/md5.cpp:73-75 | I turns the second around where the first is set or the third is not |
| Md5Core.RotatesLeft | haarp/md5.cpp:78-80 | the rotation is one to the left, for each of the sixteen amounts |
| Md5Core.Rounds | haarp/md5.cpp:161-245 | each round goes through the block once, in steps of 1, 5, 3 and 7 words |
| Md5Core.FourSteps | haarp/md5.cpp:84-245 | four steps replace the registers a, d, c and b, one after the other |
| Md5.CountedAdds | haarp/md5.cpp:256-259 | the two words with wrap and carry add 8 times the length modulo 2^64 |
| Md5.BoundDoesNotWrap | haarp/md5.cpp:273-275 | at the lengths the loop of update ends at, its bound does not wrap |
| Md5.LoopNeverEnds | haarp/md5.cpp:273-275 | at every other length it goes on wherever it stands |
| Md5.MD5.Update | haarp/md5.cpp:251-284 | full blocks of everything handed over are in the state, the rest in the buffer, the bit count in the two words, for every way of cutting the message at which the loop ends |
| Md5.MD5.Finalize | haarp/md5.cpp:298-330 | the digest of the whole message padded as in sections 3.1 and 3.2 of RFC 1321; then wiped, and idempotent |
| Md5.PaddedIsBlocks | haarp/md5.cpp:311-317 | the padded message is a whole number of blocks |
| Md5.PaddedMeaning | haarp/md5.cpp:298-317 | the message, 0x80, zeros, and in the last eight bytes the number of bits modulo 2^64, low byte first |
| Md5.EncodeIsLow | haarp/md5.cpp:148-156 | encode writes a word low byte first |
| Md5.DecodeIsLow | haarp/md5.cpp:137-142 | decode reads four bytes low byte first |
| Md5.EncodeRoundTrip | haarp/md5.cpp:137-156 | decode undoes encode |
| Md5.InitialBytes | haarp/md5.cpp:120-131 | the initial state is the bytes 01 23 .. ef fe dc .. 10 (section 3.3 of RFC 1321) |
| Md5.DigestIsState | haarp/md5.cpp:298-330 | the digest is the four state words, low byte first |
| Md5.DigestOf | haarp/md5.cpp:103-330 | any cutting of a message into pieces gives the digest of the message |
| Socket.SocketHandler.Recv | haarp/sockethandler.cpp:348-410 | what is consumed followed by what is left is the stream; a peek leaves it as it is |
| Socket.SocketHandler.RecvLength | haarp/sockethandler.cpp:414-477 | exactly n bytes if and only if that many come before an error; consumed and left are the stream, also when it fails part way; a success leaves buffer and network where n bytes put them |
| Http.SkipBlanks | haarp/httphandler.cpp:19-57 | leading blanks are consumed however they are cut, nothing else is |
| Http.BlanksMeaning | haarp/httphandler.cpp:19-57 | the blanks are the line breaks, tabs and spaces a text begins with |
| Http.SeekHeaderEnd | haarp/httphandler.cpp:59-98 | for a header within the limits the loop stops with its end in the buffer, at the position where the text has it |
| Http.HeaderEndMeaning | haarp/httphandler.cpp:59-98 | a header ends with the first line break that another one follows |
| Http.LastLengthIff | haarp/httphandler.cpp:101 | the length computed at the end is -1 as an unsigned number if and only if a receive ends right before the header's last byte |
| Http.ReadHeader | haarp/httphandler.cpp:10-116 | the same header for every cutting of the stream, which is left right behind it, if and only if no receive ends right before its last byte |
| Http.CutHeaderExample | haarp/httphandler.cpp:100-104 | one header in one receive is read, cut before its last byte it is not |
| Chunked.ReadSizeLine | haarp/httphandler.cpp:225-269 | the size of a chunk whose whole size line is visible, -1 otherwise; HexRoundTrip says what the digits mean |
| Chunked.ReadChunk | haarp/httphandler.cpp:202-284 | the chunk's data, the stream left right behind it, if and only if its size line is visible; else -1 |
| Chunked.ReadChunks | haarp/httphandler.cpp:202-284 | repeated calls on an encoded body give the chunks' data in order up to the first whose size line is cut, then -1; they end with 0 if and only if none is cut |
| Chunked.HexRoundTrip | haarp/httphandler.cpp:240-255 | a size printed in hex, in either case, is read back as that number |
| Chunked.WrittenLine | haarp/httphandler.cpp:240-280 | a chunk of up to a megabyte written with its size in hex is one ReadChunk reads |
| Chunked.WrittenBody | haarp/httphandler.cpp:202-284 | so is a body of such chunks, part by part: ReadChunks applies to it |
| Chunked.CutLineExample | haarp/httphandler.cpp:225-269 | one chunk in one receive is read, with its size line cut it is not |
| Relay.ProxyHandler.Transfer | haarp/proxyhandler.cpp:475-542 | the turn at which the transfer ends and its result are determined by what the reads give, what the browser takes and the announced length; the browser gets the front of what was read, never more than announced and no less, without the part it did not take; a failed or overlong server loses its connection, a browser that got less than announced its own |
| Relay.EndCodeMeaning | haarp/proxyhandler.cpp:484-536 | -10 when the browser takes no more, -75 when the server fails before the announced length is reached, else 0 |
| Relay.EndsOnce | haarp/proxyhandler.cpp:484-536 | a transfer ends at one turn only |

## Left out

- Session.Session.FromServer: a call after the plan was exhausted with more data is excluded, because the source then follows an iterator past the end of its list. Serve.Serve says when the relay makes such a call.
- Session.Session.FromCache: a call after the plan was exhausted is excluded likewise; the source then opens the file again and starts the plan over.
- Serve.Serve: a failure of the very first part is code -75 here and -74 in the source; when the disk ends a plan one byte short, how many of the last bytes are missing is bounded by one buffer and not computed.
- Serve.Handle: a partial request of an object of known size whose server announces more than the window is excluded, because the relay may then make one of the calls just named. What is booked for a request that left the cache is what its checkpoints had saved, bounded by the plan and not computed; the accounts are followed for addresses without separators, as in Ledger.LedgerRoundTrip.
- Serve.Run: requests that are not `Admissible` are passed over, where the source serves them somehow; a file that vanishes from disk between requests is not part of a run, StartNewFile models that case for one request.
- Http.ReadHeader: the tolerated ends (a bare empty line, a stream that closes after a line break) are modelled, but nothing is claimed about them; the size limit counts the first receive twice, as the code does, so a header of more than 65536 bytes less the first receive is claimed only as far as every way of cutting it stays within the limit.
- Md5.MD5.Update: lengths at which its loop never ends are excluded (LoopNeverEnds).
- Lease.Session.Acquire: the session's other duties at these points (leaving the cache, closing the file) are in Session; the lease calls inside Session's methods are modelled only here, as steps.
- Md5.DigestOf: cuttings with a piece at which update's loop never ends are excluded.
- The hit path's waiting for a file that another process is still writing (sleep, ten-second timeout): with one writer a read of a planned segment is never empty. Stream error states are not modelled.
- The guard of the hit path against a plan that begins with a missing segment (haarp/connectiontohttp2.cpp:1342-1348): a hit's plan has none.
- Integer widths: offsets and lengths are unbounded, except in MD5 and in the one unsigned header length, where wrap-around matters.
- The database: a row with atomic updates and a clock stands for it. Failing checkpoint and update statements, the `np` and `filesize` columns, `deleted`, `static` and the row's removal by the cleaning programs are not modelled; nor is the variant of the lock for the netflix domain.
- Parsing the Content-Range header: the size it names is an input. Answers that announce no length.
- Shared.ConcurrentRequests: files of the general plugin are worked on without a lease (haarp/connectiontohttp2.cpp:523-536), so nothing is claimed for them; a session's file stays open after the release, and what may still be buffered then rewrites bytes the file has.
- A request that begins at or behind the end of an object whose size is known.
- Formatting one account into a 100-byte buffer: the text is taken to fit.
- Sockets, name lookup, select, signals, forking, logging, configuration, the tunnel for encrypted connections; the network is what successive receives give.
- Site plugins: matching a URL and naming its file is an input.
- Resuming, static files, expiry of general plugins, rewriting of Netflix and YouTube bodies, SearchReplace.
- base64, GetLine, ConvertChar, getdomain, the cleaning programs, the web pages and the build.
- Why MD5's compression function is hard to invert: it is computed, and nothing more is said about it.
