# Verified models of seven libcurl components

A Dafny project that models the logic of seven parts of the libcurl copy under `libcurl/`, and proves what
they are for. `dafny verify dfyconfig.toml` checks all of it.

| component | files | main results |
|---|---|---|
| byte queue (`bufq.c`) | `Buf*.dfy` | a linked list of chunks, with spares, limits and a shared pool, answers and ends on every run exactly as one byte sequence of a fixed capacity; draining and filling lose, duplicate or reorder no byte, for every callback |
| cookie jar (`cookie.c`) | `Cookie*.dfy` | 63 lists and a cached expiration refine a map from replacement keys to cookies on every run; one bucket is enough for a look-up, with the exact condition; an exact condition for the Netscape round trip |
| threaded resolver (`asyn-thread.c`) | `Resolver.dfy` | freed exactly once on every interleaving, no deadlock, what becomes of the address list, and the one access that can come too late |
| connection pool (`conncache.c`) | `Timeval.dfy`, `PoolBundles.dfy`, `ConnPool.dfy` | counts, ids and lists agree; no connection is lost or freed twice; limit enforcement evicts, only when needed, the idle connection of the destination or pool that was unused for the longest at that reading of the clock |
| happy eyeballs (`connect.c`) | `EyeballAddrs.dfy`, `EyeballRacer.dfy`, `Eyeballs.dfy` | a failure verdict means that every address was tried, in order; every racer, the winner included, started after its delay or once the first was done; at most one winner; the retry loop ends |
| gzip header skip (`content_encoding.c`) | `Gzip*.dfy` | accepts exactly the headers of RFC 1952; how the stream is cut into writes does not matter |
| base64 (`base64.c`) | `Base64.dfy` | round trips in both directions, and exactly what is accepted |

Conventions. A class stands for a C struct whose functions update it; its methods are proved against functions
on plain values, and the theorems are about those. Callbacks, the network and the clock are arbitrary choices:
function parameters where a property speaks about all of them, nondeterministic values elsewhere; the clock
is any sequence of readings that does not go back. Allocation succeeds. Text is the characters of a C string, without its NUL.

Findings, where the code is not quite what its comments or its callers may expect:

- `destroy_async_data` (asyn-thread.c:414-416) uses the thread handle after it released the mutex. If done was
  not set at that point the thread may free the record first; `Resolver.MisuseIffUnfinished` shows that this is
  possible exactly then, `Resolver.LateAccessExample` that it happens on a run from the start, and
  `Resolver.OnlyMisuse` that no other step, of either side, accesses freed memory.
- When a resolve succeeds but the wake-up write fails (asyn-thread.c:336-339), the parent reports the error and
  `getaddrinfo_complete` clears the list without freeing it: `Resolver.ListFate`.
- A cookie without a domain, with a domain that has no dot, or with an IP literal that the host ends in, can
  match a host and not be found in its bucket: `CookieDomain.NoDomainMissed`, `DotlessMissed`, `LiteralMissed`.
  What the hash looks at is that of the host exactly for the others (`CookieDomain.SameKeyIff`): a cookie without
  a domain if the host is an IP literal, one with a domain that is the host, or has a dot and is no IP literal.
- A Netscape line gives its cookie back if and only if: the cookie has a domain, which does not start with '.',
  and it is a tail-match domain, or is not empty and does not start with '#'; the path, or "/" if there is none,
  is neither TRUE nor FALSE, and the sanitized path is that of it; the name is not empty; a secure cookie is read
  over a secure origin or by a running jar; and the expiration is not negative (`CookieFile.Survives`,
  `CookieFile.RoundTripIff`).
- The path that `parse_netscape` makes up for a missing one (cookie.c:875-881) is "/" with the sanitized path "/",
  while "/" itself is sanitized to "". So a cookie with an empty path changes its replacement key when it is
  saved and read twice: `CookieFile.EmptyPathDrifts`.
- The comment at bufq.h:202-203 says that peeking does not modify the queue; `Curl_bufq_peek` drops empty leading
  chunks. The bytes stay the same: `BufQueue.Bufq.Peek`.
- A queue past its soft limit calls itself full while its tail still has room: `BufQueue.Bufq.EmptyAndFull`.
- The base64 decoder refuses the empty string, so empty data is the one input that does not round-trip.
- Connections used within less than two milliseconds of each other can have the same idle score
  (`Timeval.EarlierCanTie`); which of them is evicted then depends on the order of the lists.

## Model

| member | source | states |
|---|---|---|
| `BufChunk.Chunk.Append` | libcurl/lib/bufq.c:59-71 | stores the longest prefix that fits behind the unread bytes, and nothing else changes |
| `BufChunk.Chunk.Read` | libcurl/lib/bufq.c:73-92 | hands out the first unread bytes, as many as fit, and keeps the others; an emptied chunk starts at 0 again |
| `BufChunk.Chunk.Unwrite` | libcurl/lib/bufq.c:94-109 | takes back the last unread bytes, at most those there are |
| `BufChunk.Chunk.Slurp` | libcurl/lib/bufq.c:111-132 | appends exactly the bytes the reader produced, never more than the room or the limit; none on an error; (-1, AGAIN) and no call for a full chunk |
| `BufChunk.Chunk.Skip` | libcurl/lib/bufq.c:151-162 | drops the first unread bytes, at most those there are |
| `BufPool.Pool.Take` | libcurl/lib/bufq.c:186-208 | gives a clean chunk that no list holds: the first spare one, or a new one |
| `BufPool.Pool.Put` | libcurl/lib/bufq.c:210-222 | keeps the chunk as the first spare, unless the pool is at its maximum |
| `BufWindows.CapacityLaw` | libcurl/lib/bufq.c:290-306 | value form of the space law: bytes stored, free space and the consumed front of the head chunk add up to the capacity |
| `BufWindows.FreeBytesZero` | libcurl/lib/bufq.c:290-323 | the space sum is zero exactly if there is no spare chunk, no chunk may be added and the tail is full |
| `BufWindows.WholeChunks` | libcurl/lib/bufq.c:533-569 | where a byte of the sequence is in its chunk: its place plus the consumed front, modulo the chunk size, which tells how many bytes follow it there |
| `BufQueue.Bufq.constructor` | libcurl/lib/bufq.c:230-257 | a new queue is empty and satisfies the invariant, in every option mode |
| `BufQueue.Bufq.Layout` | libcurl/lib/bufq.c:325-445 | the invariant on the real chunks: all but the tail are full and not empty, only the head has been read from, the tail ends the list, the counter counts both lists and keeps the hard limit |
| `BufQueue.Bufq.GetSpare` | libcurl/lib/bufq.c:325-353 | a clean chunk: the first own spare, else the first spare of the pool, else a new one, with the lists and the counter that leaves; null exactly if a hard limit is reached and there is no own spare |
| `BufQueue.Bufq.BeforeTail` | libcurl/lib/bufq.c:383-394 | the walk over the links finds the chunk in front of the tail |
| `BufQueue.Bufq.Retire` | libcurl/lib/bufq.c:363-379 | an emptied chunk goes to the pool, which may be full, else to the heap if the queue is above its maximum or wants no spares, else to the front of the own spares |
| `BufQueue.Bufq.PutCounts` | libcurl/lib/bufq.c:355-424 | over several emptied chunks: with a pool all leave the queue and the pool fills up to its maximum; without one the queue gives up chunks only down to its maximum, or all if it wants no spares, and keeps each of the others as a spare |
| `BufQueue.Bufq.PruneHead` | libcurl/lib/bufq.c:355-381 | drops the empty chunks at the front, and only those, one after the other to where Retire puts them |
| `BufQueue.Bufq.PruneTail` | libcurl/lib/bufq.c:396-424 | drops the empty chunks at the end, and only those, the last first, to where Retire puts them |
| `BufQueue.Bufq.GetNonFullTail` | libcurl/lib/bufq.c:426-445 | the tail if it has room, else a new one behind it; null exactly if a hard limit leaves no space |
| `BufQueue.Bufq.Write` | libcurl/lib/bufq.c:447-478 | appends exactly the prefix it reports; under the hard limit that is min(len, space) and the space falls by it, past a soft limit it is everything; (-1, AGAIN) exactly if nothing of a non-empty buffer fits |
| `BufQueue.Bufq.Unwrite` | libcurl/lib/bufq.c:491-498 | takes bytes back from the end, fails with AGAIN exactly if there are fewer (which then are all gone) |
| `BufQueue.Bufq.Read` | libcurl/lib/bufq.c:500-521 | moves min(len, bytes stored) bytes from the front to the caller, in order, and touches no other byte of the buffer; the place of the next byte in its chunk follows |
| `BufQueue.Bufq.Peek` | libcurl/lib/bufq.c:533-546 | shows the bytes from the front to the end of their chunk, nothing exactly if the queue is empty; contents unchanged |
| `BufQueue.Bufq.PeekAt` | libcurl/lib/bufq.c:548-569 | shows the bytes from the offset to the end of their chunk, or nothing exactly if the offset is past the end |
| `BufQueue.Bufq.Skip` | libcurl/lib/bufq.c:571-580 | drops min(amount, bytes stored) bytes from the front |
| `BufQueue.Bufq.Reset` | libcurl/lib/bufq.c:267-277 | empties the queue and keeps every chunk as a spare |
| `BufQueue.Bufq.Free` | libcurl/lib/bufq.c:259-265 | empties the queue and lets go of all its chunks |
| `BufQueue.Bufq.Len` | libcurl/lib/bufq.c:279-288 | the sum over the list is the length of the byte sequence |
| `BufQueue.Bufq.SpaceLeft` | libcurl/lib/bufq.c:290-306 | the sum over tail and spares, plus the chunks still allowed, is the free space |
| `BufQueue.Bufq.SpaceLaw` | libcurl/lib/bufq.c:290-323 | under the hard limit: length + space + consumed front of the head chunk = max_chunks * chunk_size |
| `BufQueue.Bufq.EmptyAndFull` | libcurl/lib/bufq.c:308-323 | empty exactly if there are no bytes; full exactly if there is no space, but past a soft limit also with room in the tail |
| `BufQueue.Bufq.Sip` | libcurl/lib/bufq.c:665-693 | one reader call; the queue grows by exactly what it produced; no call at all only if a hard limit leaves no space |
| `BufIo.Pass` | libcurl/lib/bufq.c:582-612 | for every writer: accepted bytes followed by the queue are the old queue; (-1, AGAIN) took nothing; ends only with an empty queue or a blocked writer |
| `BufIo.WritePass` | libcurl/lib/bufq.c:614-663 | for every writer: accepted bytes followed by the queue are the old queue followed by a prefix of buf, the reported one; nothing of buf on (-1, AGAIN); a short count or an error means that the writer was called and took nothing more; with room for all of it the writer is not called |
| `BufIo.Slurp` | libcurl/lib/bufq.c:704-746 | for every reader: the queue grows by exactly what the reader produced, also when the result is -1; it stops at the end of file, at a blocked or failed reader, with the maximum, with a full queue or with room left in the tail, and no call after one that falls short; under the hard limit at most space + 1 reader calls; see below for a soft limit |
| `BufIo.SlurpOn` | libcurl/lib/bufq.c:704-746 | with a soft limit and no maximum, a reader that always fills its room keeps the loop going for any number of rounds |
| `BufRuns.Run` | libcurl/lib/bufq.c:447-580 | any sequence of writes, reads, skips, unwrites, resets, peeks and length queries gives exactly the answers of one byte sequence with a capacity, write counts and peeked lengths included, and ends as it does |
| `BufRuns.RunShared` | libcurl/lib/bufq.c:186-222 | two queues that exchange chunks through one pool, operated in any order, each answer and end exactly as their own byte sequence |
| `BufRuns.WithinCapacity` | libcurl/lib/bufq.c:325-353 | no run under the hard limit stores more than max_chunks * chunk_size bytes, counting what was read but not reclaimed |
| `BufRuns.FirstInFirstOut` | libcurl/lib/bufq.c:447-580 | over a run without unwrite and reset: bytes taken out followed by bytes left are the bytes at the start followed by the bytes that went in |
| `CookieDomain.SameTopIff` | libcurl/lib/cookie.c:110-137 | a host that tail-matches a domain has its top domain, up to letter case, exactly if the domain has a dot or is the host |
| `CookieDomain.TopOfSuffix` | libcurl/lib/cookie.c:217-236 | a host ending in a dot and the domain has the same top domain exactly if the domain has a dot |
| `CookieDomain.HashDomain` | libcurl/lib/cookie.c:246-258 | the loop over the characters computes the 64-bit hash function, modulo 63 |
| `CookieDomain.HashIgnoresCase` | libcurl/lib/cookie.c:246-258 | strings that differ in letter case only have equal hashes |
| `CookieDomain.HashOfEqualFold` | libcurl/lib/cookie.c:267-277 | domains that differ in letter case only are in the same bucket |
| `CookieDomain.SameKeyIff` | libcurl/lib/cookie.c:267-277 | what the hash looks at is the same for a matching cookie and the host if and only if the cookie is routable: no domain and an IP-literal host, or the host itself as domain, or a domain with a dot that is no IP literal |
| `CookieDomain.MatchIsInBucket` | libcurl/lib/cookie.c:1356-1392 | a routable domain that matches the host is in the bucket of the host |
| `CookieDomain.NoDomainMissed` | libcurl/lib/cookie.c:1356-1389 | a cookie without a domain goes to every host, but is in bucket 0 while host "a" looks in bucket 39 |
| `CookieDomain.DotlessMissed` | libcurl/lib/cookie.c:1356-1392 | domain "b" tail-matches host "a.b" but they hash to buckets 42 and 32 |
| `CookieDomain.LiteralMissed` | libcurl/lib/cookie.c:1356-1392 | an IP-literal domain "1.2.3.4" tail-matches host "a.1.2.3.4" but is in bucket 0, not 61 |
| `CookieJar.ReplacesIffKeys` | libcurl/lib/cookie.c:1033-1056 | the name, domain, tailmatch and path comparisons of a replacement are equality of a key |
| `CookieJar.HomeOfKey` | libcurl/lib/cookie.c:267-277 | the bucket of a cookie depends on its key only |
| `CookieJar.RemoveOne` | libcurl/lib/cookie.c:1075-1079 | taking a node out of its list takes exactly its key out of the map, and keeps the lists a faithful picture of it |
| `CookieJar.AppendOne` | libcurl/lib/cookie.c:1157-1160 | appending a cookie with a new key adds exactly that key |
| `CookieJar.CountIsTotal` | libcurl/lib/cookie.c:398-402 | the number of keys is the total length of all bucket lists |
| `CookieJar.OneBucketIsEnough` | libcurl/lib/cookie.c:1356-1406 | reading only the bucket of the host finds what reading all 63 finds, in the same order, for a jar whose matching cookies are routable |
| `CookieOrder.StrictTotalOrder` | libcurl/lib/cookie.c:1293-1322 | on different creation times the comparison is antisymmetric, and it is transitive |
| `CookieOrder.EqualTimesTie` | libcurl/lib/cookie.c:1319-1321 | with equal creation times each of two cookies can come before the other |
| `CookieOrder.SortIsUnique` | libcurl/lib/cookie.c:1430-1431 | any two sorted lists of the same cookies are equal, so the sorting algorithm does not matter |
| `CookieOrder.SortSorts` | libcurl/lib/cookie.c:1293-1322 | the list used for the answer is sorted by the comparison |
| `CookieState.NothingExpired` | libcurl/lib/cookie.c:373-387 | before the cached expiration a full scan would remove nothing |
| `CookieState.FilteredIsKept` | libcurl/lib/cookie.c:389-409 | filtering every list filters the map |
| `CookieState.SearchedIsRefused` | libcurl/lib/cookie.c:979-1073 | the search of one bucket refuses a cookie exactly if any cookie of the whole jar stands in its way, and finds the one with its key |
| `CookieState.StoreOne` | libcurl/lib/cookie.c:1157-1186 | storing an accepted cookie keeps creation times distinct and the cached expiration a lower bound |
| `CookieState.SecureStays` | libcurl/lib/cookie.c:979-1081 | an insecure cookie from an insecure origin leaves every unexpired secure cookie with a path as it is; so do look-ups and expiries |
| `CookieState.SecureSurvives` | libcurl/lib/cookie.c:979-1081 | the same over any run of such operations |
| `CookieState.BucketIsSendable` | libcurl/lib/cookie.c:1366-1436 | the sorted first 150 matches of the bucket are cookies of the jar that go to the host, and all routable ones if they are fewer |
| `CookieState.NothingExpiredIsSent` | libcurl/lib/cookie.c:1340-1347 | no look-up hands out an expired cookie |
| `CookieStore.Jar.constructor` | libcurl/lib/cookie.c:1216-1230 | a new jar is empty and satisfies the invariant |
| `CookieStore.Jar.WholeJar` | libcurl/lib/cookie.c:1014-1079 | in every reachable jar: the counter is the total over the buckets, no two cookies anywhere have the same replacement key or creation time, all times are at most the last, and each cookie is in the bucket of its domain |
| `CookieStore.Jar.ExpireBucket` | libcurl/lib/cookie.c:389-409 | the in-place loop leaves exactly the unexpired cookies, in order, and the earliest expiration of those |
| `CookieStore.Jar.RemoveExpired` | libcurl/lib/cookie.c:368-410 | with or without the early exit every list is what a full scan leaves, and the cached expiration stays a lower bound |
| `CookieStore.Jar.Search` | libcurl/lib/cookie.c:990-1073 | the loop finds a reason to refuse, or the one cookie to replace; the flag it reports says whether there is one |
| `CookieStore.Jar.ReplaceExisting` | libcurl/lib/cookie.c:979-1081 | refuses exactly the cookies the map refuses; else the cookie with the same key is out and its creation time taken over |
| `CookieStore.Jar.Store` | libcurl/lib/cookie.c:1154-1188 | an accepted cookie is under its key, at the old creation time or the next; the counter grows exactly for a new key |
| `CookieStore.Jar.Add` | libcurl/lib/cookie.c:1093-1192 | the whole jar half of adding a cookie, as one function on the map: limits, prefixes, session rule, expiry, refusal, replacement |
| `CookieStore.Jar.Matches` | libcurl/lib/cookie.c:1368-1406 | the loop collects the first 150 cookies of the list that go to the request |
| `CookieStore.Jar.GetList` | libcurl/lib/cookie.c:1348-1445 | 1 exactly if the bucket of the host is empty, and then nothing expires; else the sorted matches of the unexpired jar |
| `CookieStore.Jar.ClearSession` | libcurl/lib/cookie.c:1475-1496 | exactly the cookies without an expiration are gone, the others keep their order |
| `CookieStore.Jar.ClearAll` | libcurl/lib/cookie.c:1452-1468 | the jar is empty and the counter 0 |
| `CookieStore.Jar.LoadFile` | libcurl/lib/cookie.c:1232-1283 | reading a file is adding its cookies as not live ones without expiry, with the cookie limit counted over its header lines, and one expiry at the end; a file that cannot be read changes only the session flag and the running state |
| `CookieStore.Jar.Run` | libcurl/lib/cookie.c:1093-1496 | any sequence of adds, look-ups, expiries, loads and clears keeps the invariant, ends with the map the same operations make, and answers each look-up as that map allows |
| `CookieFile.DecimalReads` | libcurl/lib/cookie.c:1526-1541 | a printed expiration is read back exactly if it is not negative |
| `CookieFile.TokensOfJoin` | libcurl/lib/cookie.c:1518-1542 | the tokens of tab-joined fields are the fields that are not empty |
| `CookieFile.ReadField` | libcurl/lib/cookie.c:841-917 | the switch reads one field, with the fall-through from a missing path |
| `CookieFile.ParseNetscape` | libcurl/lib/cookie.c:797-929 | the loop over the tokens reads what the line stands for, or refuses it with the code of the first fault |
| `CookieFile.FieldsRead` | libcurl/lib/cookie.c:838-929 | the seven printed fields are read back exactly if the cookie survives, whatever the cookie; then the path is the printed one, or "/" for an empty one |
| `CookieFile.RoundTripIff` | libcurl/lib/cookie.c:797-929 | printing then reading gives the same cookie back if and only if a checkable condition holds, for every cookie without tab, CR and LF: see the text above |
| `CookieFile.EmptyPathDrifts` | libcurl/lib/cookie.c:864-881 | a cookie with an empty path that survives one save and load has another replacement key after the second |
| `Resolver.StepKeeps` | libcurl/lib/asyn-thread.c:294-349 | the inductive invariant of both sides and the mutex is kept by every step of either |
| `Resolver.FreedOnce` | libcurl/lib/asyn-thread.c:294-438 | on every interleaving the record is freed at most once, and exactly once when both sides are done: by the side that came second to set done |
| `Resolver.ListFate` | libcurl/lib/asyn-thread.c:265-346 | on every run the list is freed at most once and never both cached and freed, although the record points to it for a while after it was handed on; when both sides are done nothing points to it, and it is lost exactly if the resolve succeeded, the wake-up write failed and the parent collected the result |
| `Resolver.LostListExample` | libcurl/lib/asyn-thread.c:319-342 | a run on which the address list is neither handed on nor freed |
| `Resolver.OnlyMisuse` | libcurl/lib/asyn-thread.c:395-438 | a step that accesses freed memory is the parent's read of the thread handle, after it found done unset and while the thread, which freed the record, is gone; no other step of either side does |
| `Resolver.MisuseOnRun` | libcurl/lib/asyn-thread.c:395-438 | so every run with such an access has that step of the parent on it |
| `Resolver.MisuseIffUnfinished` | libcurl/lib/asyn-thread.c:395-438 | from the moment the parent swaps done, some continuation accesses freed memory if and only if done was not set |
| `Resolver.LateAccessExample` | libcurl/lib/asyn-thread.c:395-438 | a reachable state in which done is not set at the swap, and a run from the start that accesses freed memory |
| `Resolver.ResultIsFinal` | libcurl/lib/asyn-thread.c:504-539 | when the parent collects the result, no step the thread can still make changes the error, the pointer to the list or what became of it |
| `Resolver.DoneByStays` | libcurl/lib/asyn-thread.c:325-345 | once done is set, no step of either side changes who set it |
| `Resolver.CanMove` | libcurl/lib/asyn-thread.c:294-438 | no deadlock: until both sides are done one of them can move |
| `Resolver.RunsEnd` | libcurl/lib/asyn-thread.c:294-438 | apart from polls every run has a bounded number of steps, and one that cannot go on has freed everything |
| `Timeval.TimediffError` | libcurl/lib/timeval.c:201-209 | the difference is off by less than a millisecond either way |
| `Timeval.PastScore` | libcurl/lib/timeval.c:201-209 | what was used up to now has no negative score |
| `Timeval.EarlierScoresHigher` | libcurl/lib/timeval.c:201-209 | what was used earlier never has the lower score, rounding and caps included |
| `Timeval.HigherScoreIsOlder` | libcurl/lib/timeval.c:201-209 | a score at least as high means used earlier, or less than 2 ms later, unless the age is at the cap |
| `PoolBundles.AddKeeps` | libcurl/lib/conncache.c:252-267 | adding a connection keeps the bundles non-empty, distinct and by destination |
| `PoolBundles.RemoveKeeps` | libcurl/lib/conncache.c:384-404 | so does removing one, which drops an empty bundle |
| `PoolBundles.SumIsSize` | libcurl/lib/conncache.c:350-404 | the number of connections is the sum of the bundle sizes |
| `ConnPool.OldestInBundle` | libcurl/lib/conncache.c:513-540 | the loop returns an idle connection of the highest score, or none exactly if no idle one has a score from 0 on |
| `ConnPool.OldestInPool` | libcurl/lib/conncache.c:542-575 | the same over all bundles in any hash order, leaving closing and connect-only connections alone |
| `ConnPool.OldestIsLongestUnused` | libcurl/lib/conncache.c:513-575 | a connection of the highest score is the longest unused: no other candidate was unused for 2 ms longer, except at the cap, and one that was unused longer at all has the same score |
| `ConnPool.Pool.Consistent` | libcurl/lib/conncache.c:350-404 | in every reachable pool num_conn is the sum of the bundle sizes, bundles are not empty and by destination, none of their connections is being shut down, and ids are different |
| `ConnPool.Pool.AddConn` | libcurl/lib/conncache.c:350-382 | the connection is in the bundle of its destination, marked, with the next id, and no other changes |
| `ConnPool.Pool.RemoveConn` | libcurl/lib/conncache.c:384-404 | the connection is out of its bundle and unmarked, and no other changes |
| `ConnPool.Pool.DiscardConn` | libcurl/lib/conncache.c:694-772 | a connection that left the pool is freed or put on the shutdown list exactly once, an aborted one freed at once, or left to its users; nothing else in the pool is touched |
| `ConnPool.Pool.Disconnect` | libcurl/lib/conncache.c:774-822 | nothing for a connection in use that is not aborted; else out of the pool and closed, an aborted one at once, also one that never was in a pool; the lock as before, no connection lost |
| `ConnPool.Pool.CheckLimits` | libcurl/lib/conncache.c:281-348 | terminates; OK leaves room in the bundle and the pool, DEST and TOTAL leave nothing that may be evicted; each eviction was needed, from the destination's bundle or the pool as it was then, of the connection unused for the longest at a reading of the clock during the call; the rest is untouched |
| `ConnPool.Pool.ConnNowIdle` | libcurl/lib/conncache.c:478-507 | the connection's last use is the current time; at most one connection is closed, only above the limit, and it is the longest unused idle one of the pool; true exactly if the given one is still in the pool |
| `EyeballAddrs.FirstMatch` | libcurl/lib/connect.c:211-220 | the first entry of the family |
| `EyeballAddrs.NextMatch` | libcurl/lib/connect.c:222-231 | the next entry of the family |
| `EyeballAddrs.MatchesAreAll` | libcurl/lib/connect.c:211-231 | the walk has every entry of the family once, in list order |
| `Racer.Eyeballer.Rewind` | libcurl/lib/connect.c:453-458 | a rewind closes one full pass and begins the next |
| `Racer.Eyeballer.Start` | libcurl/lib/connect.c:516-538 | tries address after address until one connects, or ends with every address of the pass tried |
| `Racer.Eyeballer.StartNext` | libcurl/lib/connect.c:543-566 | on the first socket goes on with the next address, or from the first again exactly if the pass is over and an answer was inconclusive; else gives up |
| `Racer.Eyeballer.Connect` | libcurl/lib/connect.c:568-598 | is only called with a filter, and ends in a win, a wait or a failure, and in a wait only while the time of the attempt is not over; inconclusive from then on exactly after a weird server reply |
| `Racer.Eyeballer.StartIfDue` | libcurl/lib/connect.c:693-716 | a racer starts exactly if its primary is done or its delay is over at the given time |
| `Eyeballs.Race.StartConnect` | libcurl/lib/connect.c:765-856 | one racer for each chosen family that has an address, the second delayed behind the first, and the race starts at this reading of the clock; OPERATION_TIMEDOUT exactly if no time is left, else COULDNT_CONNECT exactly if there is no address |
| `Eyeballs.Race.LetGoOn` | libcurl/lib/connect.c:618-670 | each racer that tries is called once, in order until one wins, and the counts of trying and waiting ones are exact; at most one wins, and leaves its slot, and both racers started on time |
| `Eyeballs.Race.StartDue` | libcurl/lib/connect.c:684-717 | the racers that are due at this reading of the clock start at it, and none that is due is left waiting: the first one starts at once, the second one after its delay or once the first is done; only what now tries is counted |
| `Eyeballs.Race.IsConnected` | libcurl/lib/connect.c:603-759 | the goto loop ends; a winner exactly on success; every racer, a winner too, started after its delay by a reading of the clock, or after its primary was done, and what starts or ends in the call does so at a later reading than before it; while they are trying no racer that is due is left waiting; every racer that was trying was called, but for the second one when the first one wins; without a winner the verdict is a timeout exactly if no time is left while a racer tries or waits; "all failed" only when all are done, with the error of the first one unless the system reports a timeout |
| `Eyeballs.Race.AllTried` | libcurl/lib/connect.c:721-759 | when all failed on the first socket each racer tried every address of its family in list order, in whole passes, just one unless it was rewound |
| `Eyeballs.Race.EveryAddressTried` | libcurl/lib/connect.c:721-856 | with no family preference every IPv4 and IPv6 address of the host was then tried |
| `Eyeballs.Race.Connect` | libcurl/lib/connect.c:931-991 | done exactly when a connection is installed; an installed one stays and no second is installed |
| `GzipHeader.CheckGzipHeader` | libcurl/lib/content_encoding.c:374-450 | the loops over the optional parts compute the verdict and length of the header |
| `GzipHeader.VerdictIsFinal` | libcurl/lib/content_encoding.c:374-450 | an accepted or rejected prefix gets the same verdict, and length, on every extension |
| `GzipHeader.GoodNeedsNoMore` | libcurl/lib/content_encoding.c:374-450 | no shorter prefix than the header itself is accepted |
| `GzipHeader.HeaderEndsInLatest` | libcurl/lib/content_encoding.c:487-560 | when the buffered header becomes whole its end lies inside the latest write |
| `GzipHeader.AcceptsEncoded` | libcurl/lib/content_encoding.c:374-450 | every header that section 2.3 of RFC 1952 allows is accepted at its own length |
| `GzipHeader.AcceptsOnlyEncoded` | libcurl/lib/content_encoding.c:374-450 | an accepted header is one that the RFC allows |
| `GzipWriter.FailureIsFinal` | libcurl/lib/content_encoding.c:453-582 | once a stream fails, what follows changes neither the verdict nor the bytes inflate got |
| `GzipWriter.WholeFile` | libcurl/lib/content_encoding.c:152-276 | of a header, complete compressed data and a rest, inflate gets exactly the data, and the rest may have up to 8 bytes |
| `GzipWriter.Writer.ProcessTrailer` | libcurl/lib/content_encoding.c:152-174 | counts down the 8 bytes, and fails exactly if more follow |
| `GzipWriter.Writer.InflateStream` | libcurl/lib/content_encoding.c:176-276 | inflate takes bytes up to its end or error; what follows the end is trailer |
| `GzipWriter.Writer.Write` | libcurl/lib/content_encoding.c:453-582 | after every write the verdict and the bytes inflate got are those of the stream seen at once |
| `GzipWriter.WriteAll` | libcurl/lib/content_encoding.c:453-582 | however a stream is cut into writes, verdict and bytes handed to inflate are the same |
| `Base64.Encode` | libcurl/lib/base64.c:188-249 | writes the encoding within the allocation, and a NUL behind it |
| `Base64.Decode` | libcurl/lib/base64.c:76-186 | returns the decoded bytes with a NUL behind them, or null exactly for a string it does not accept; quantum and padding loops included |
| `Base64.ReadPadded` | libcurl/lib/base64.c:145-173 | the loop over the padded quantum refuses exactly a bad symbol or a padding character too far in front |
| `Base64.EncodedLength` | libcurl/lib/base64.c:188-249 | 4 * ceil(n / 3) characters, or ceil(4 n / 3) without padding |
| `Base64.RoundTrip` | libcurl/lib/base64.c:76-249 | decoding an encoding gives the data back, for all data but the empty, which the decoder refuses |
| `Base64.AcceptsExactly` | libcurl/lib/base64.c:91-173 | accepted are exactly the non-empty strings of whole quantums, with symbols of the alphabet but for at most two padding characters at the end |
| `Base64.CanonicalIff` | libcurl/lib/base64.c:76-249 | encoding what was decoded gives the string back exactly if the unused bits of its last symbol are zero (section 3.5 of RFC 4648) |
| `Base64.UrlIsStandardUnpadded` | libcurl/lib/base64.c:188-291 | the URL alphabet gives the standard text in its own two symbols, without padding (section 5 of RFC 4648) |

## Left out

- Out-of-memory branches, except that the resolver thread may fail to start.
- Sockets, TLS, nghttp2, c-ares, logging, and the platform code outside `libcurl/`.
- BufIo.Slurp: a queue with a soft limit and no maximum takes whatever the reader has, so there the loop is proved to end only for a reader that falls short at some call, and BufIo.SlurpOn shows that it does not end for one that never does; with a hard limit or a maximum it ends for every reader.
- The order in which a heap chunk's memory is freed; a chunk that leaves queue and pool is only no longer owned.
- The `Set-Cookie` header grammar, date parsing and the public suffix list: the jar starts from a parsed cookie and a verdict of the list.
- Cookies are values in lists, so that the list a look-up returns does not share nodes with the jar.
- `Curl_host_is_ipnum` is any predicate that does not depend on letter case.
- CookieStore.Jar.Add: the creation time is an unbounded number, where the source has an int; wrap-around after 2^31 cookies is not modelled.
- CookieFile.RoundTripIff: is about fields without tab, CR and LF, which the format cannot hold; the path counts as its sanitized form, since an empty or missing path is read as "/".
- The private substitute for strtoll (strtoofft.c:39-234), which takes a field that is only "+" for 0; numbers are read as strtol and strtoll do.
- Callbacks of the connection pool other than `Curl_on_disconnect` (url.c:619-651), which every pool is made with.
- CookieDomain.HashDomain: takes size_t as 64 bits and char as signed.
- `cookie_output` and the order in which it writes a file.
- Resolver.StepKeeps: what each side calls is one step; the mutex is the only synchronisation, and memory is sequentially consistent.
- The resolver's poll timers, and the configuration without a socket pair.
- ConnPool.Pool.AddConn: the fields of a connection are in a table under its address rather than in an object of its own, so that freeing it takes it out of the table.
- ConnPool.Pool.DiscardConn: nothing is claimed about the bound on the shutdown list (conncache.c:745-752).
- The iteration callbacks, `Curl_cpool_find`, upkeep, and the shutdown event handling of the connection pool; one pool belongs to one multi handle.
- Eyeballs.Race.IsConnected: whether the system reports a timeout, which replaces the error of the first racer, and which errors connects have are arbitrary.
- The shutdown and query functions of the connect filter, and the pollset.
- GzipWriter.Writer.InflateStream: inflate is any function from the bytes it consumed to more, end or error; what it writes to the next writer, and errors there, are not modelled.
- zlib, brotli and zstd themselves, and the path on which a newer zlib parses the header itself.
- Base64.Encode: the check for sizes above UINT_MAX / 4 where size_t has 32 bits.
