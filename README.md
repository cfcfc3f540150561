# CS:APP lab cores in Dafny

This project models the algorithmic core of four CS:APP lab solutions and
proves properties of that model:

- **Proxy lab** (`Labs/Lab08-proxy`):
  - the size-bounded LRU response cache, a doubly linked list between two sentinels;
  - the bounded ring-buffer queue that hands connections to worker threads;
  - the string handling of the proxy itself: splitting the URL into host, port and path, building the forwarded request, and relaying and caching the response.
- **Cache lab** (`Labs/Lab04-cache`):
  - the set-associative cache simulator. It builds masks, loads with LRU ages, and counts hits, misses and evictions over a trace.
  - the three matrix transposes.
- **Shell lab** (`Labs/Lab06-shell`):
  - the job table;
  - the command-line tokenizer `parseline`;
  - the async-signal-safe `sio_strlen`, `sio_reverse` and `sio_ltoa`.

Each lab file becomes one Dafny module, with two exceptions. A header
shares its `.c` file's module. `tsh.c` is split into three modules: the
job table, the tokenizer and the `sio_*` routines. `common.dfy` holds the
small types and arithmetic the modules share.

- **Imperative code.** Code that updates state in place is a class or a method over an `array`, with `modifies` frames and loop invariants. This covers:
  - the LRU list (`LruCache.Lru`, its node list held as a `seq` field);
  - the ring buffer (`BlockQueue.Queue`);
  - the simulator's line table (`CacheSim.Cache`, an `array2`);
  - the job table (`ShellJobs.JobList`);
  - the transposes;
  - the `sio_*` routines.
- **Specification functions.** Every such method is proved against a function on values, for example `InsertAsWritten`, `Load`, `Run`, `Tokens`, `LtoaText`, `SplitUrl`, `RingItems`, `FindBy`, `MaxJidOf`, `StrLen` and `Reverse`; the transposes are proved against the predicate `IsTransposeOf`. The properties the code promises are then proved about those functions as lemmas.

Files:

| file | module | models |
|---|---|---|
| `common.dfy` | `Common` | `Option`, `byte`, `Pow2` |
| `lru_cache.dfy` | `LruCache` | `cache.c`, `cache.h` |
| `block_queue.dfy` | `BlockQueue` | `blockqueue.c`, `blockqueue.h` |
| `proxy.dfy` | `Proxy` | `proxy.c` |
| `csim.dfy` | `CacheSim` | `csim.c` |
| `trans.dfy` | `Transpose` | `trans.c` |
| `tsh_jobs.dfy` | `ShellJobs` | the job list of `tsh.c` |
| `tsh_parse.dfy` | `ShellParse` | `parseline` of `tsh.c` |
| `tsh_sio.dfy` | `ShellSio` | `sio_strlen`, `sio_reverse`, `sio_ltoa` of `tsh.c` |

**Re-inserting a key keeps the old item.** A cache would usually replace an entry's content when its key is inserted again. `cache_insert` does not (`cache.c:131-146`): it unlinks the existing item, with its old value and size, and links it back at the front, and it drops the new value. The model does the same (`InsertAsWritten`, `InsertFront`).

## Model

| member | source | states |
|---|---|---|
| LruCache.SizeSub | Labs/Lab08-proxy/cache.c:104 | `size_t` subtraction: at most 2^64 - 1, and the plain difference when no wrap happens |
| LruCache.Find | Labs/Lab08-proxy/cache.c:46-55 | the found position holds an item with that key and no earlier item has it; none exactly when no item (sentinels never) matches |
| LruCache.Without | Labs/Lab08-proxy/cache.c:58-72 | unlinking one entry shortens the list by one |
| LruCache.TotalWithout | Labs/Lab08-proxy/cache.c:69 | removing an entry lowers the payload total by exactly its size |
| LruCache.FindUnique | Labs/Lab08-proxy/cache.h:4 | with unique keys, the lookup finds the one entry carrying the key |
| LruCache.WithoutUnique | Labs/Lab08-proxy/cache.c:58-72 | unlinking keeps keys unique and leaves the removed key absent |
| LruCache.WithoutValid | Labs/Lab08-proxy/cache.c:58-72 | unlinking keeps uniqueness and the per-object bound, and the total drops by the unlinked size |
| LruCache.FreeSpaceAfterDrop | Labs/Lab08-proxy/cache.c:104-113 | dropping the last entry raises the free space `max_cache_sz - cache_sz` by that entry's size, modulo 2^64 |
| LruCache.SizeSubTwice | Labs/Lab08-proxy/cache.c:104-113 | `max - (max - cache_sz)` gives back `cache_sz` modulo 2^64, so the write-back at line 113 restores the total |
| LruCache.Lru.constructor | Labs/Lab08-proxy/cache.c:4-27 | a fresh cache holds the two sentinels and nothing else, size 0, with the given bounds |
| LruCache.Lru.Index | Labs/Lab08-proxy/cache.c:46-55 | returns the list position of the item with the key, between the sentinels, or none exactly when the key is absent |
| LruCache.Lru.Unlink | Labs/Lab08-proxy/cache.c:58-72 | a present key: exactly that node is removed, the others keep their order and `cache_sz` falls by its size; an absent key: nothing changes |
| LruCache.Lru.Remove | Labs/Lab08-proxy/cache.c:75-81 | the entries become the old ones without the key's entry |
| LruCache.Lru.Head | Labs/Lab08-proxy/cache.c:84-97 | the item sits right after the head sentinel, in front of the old entries, and `cache_sz` grows by its size modulo 2^64 |
| LruCache.Lru.Evict | Labs/Lab08-proxy/cache.c:100-114 | the sentinels stay in place and the entries become those of `EvictAsWritten` |
| LruCache.EvictAsWritten | Labs/Lab08-proxy/cache.c:100-114 | definition: the entries `cache_evict(sz)` leaves; it drops the last, least recently used entry while the `size_t` free space `max_cache_sz - cache_sz` is at least `sz`, and stops once that space is below `sz` or the list is empty |
| LruCache.EvictIsPrefix | Labs/Lab08-proxy/cache.c:100-114 | eviction removes only from the least-recently-used end: what remains is a prefix, and the total splits into kept and removed sizes |
| LruCache.EvictIfShortRemovesNothing | Labs/Lab08-proxy/cache.c:105-134 | under the guard of line 134 the loop guard of line 105 is false, so eviction as called removes nothing |
| LruCache.EvictKeepsAbsent | Labs/Lab08-proxy/cache.c:134-137 | eviction never brings an absent key back |
| LruCache.Lru.Insert | Labs/Lab08-proxy/cache.c:116-150 | the entries become those of `InsertAsWritten`, and the invariant holds: unique keys, sizes within the object bound, `cache_sz` equal to the total modulo 2^64 |
| LruCache.InsertAsWritten | Labs/Lab08-proxy/cache.c:116-150 | definition: the entries after `cache_insert(key, value, sz)`; an absent key over `max_object_sz` changes nothing, a present one is removed; otherwise the entry of the key (the new item, or the old item itself when the key is present) goes first, in front of the other entries after `cache_evict` when the free space is below `sz` |
| LruCache.Lru.EvictAndLink | Labs/Lab08-proxy/cache.c:134-146 | evicts when the free space is short, then links the item at the front |
| LruCache.InsertOversize | Labs/Lab08-proxy/cache.c:119-130 | an object over `max_object_sz` is not cached: an absent key leaves the cache unchanged, a present key is removed, and the key is not found afterwards |
| LruCache.InsertFront | Labs/Lab08-proxy/cache.c:131-146 | an object within bounds ends up first with exactly one entry for its key; an existing entry keeps its old item; other keys' presence is unchanged; the total grows only for a new key |
| LruCache.Lru.Get | Labs/Lab08-proxy/cache.c:152-183 | returns the item with the key or none; a hit moves it to the front; a miss leaves the list untouched; `cache_sz` never changes |
| LruCache.GetResult | Labs/Lab08-proxy/cache.c:152-183 | definition: the entries after `cache_get(key)`; a hit moves the key's entry to the front with the others in order, a miss changes nothing |
| LruCache.GetMovesToFront | Labs/Lab08-proxy/cache.c:161-172 | on a hit the item comes first and the rest keep their order; the total and the key uniqueness are preserved |
| LruCache.ConsUnique | Labs/Lab08-proxy/cache.c:139-146 | linking a new key in front keeps keys unique |
| LruCache.WithoutKeepsOthers | Labs/Lab08-proxy/cache.c:58-72 | unlinking one key does not change whether any other key is present |
| LruCache.InsertKeepsSized | Labs/Lab08-proxy/cache.h:8 | `cache_insert` of a value holding exactly its `sz` bytes keeps every item's value exactly `size` bytes long; an oversize value is never stored |
| LruCache.GetKeepsSized | Labs/Lab08-proxy/cache.c:161-172 | `cache_get` only reorders the items, so every value still holds exactly its `size` bytes |
| LruCache.OverCapacityAsWritten | Labs/Lab08-proxy/cache.c:105 | a capacity-4 cache holding A, B, C (sizes 1, 1, 2) takes D (size 1) without evicting: the total becomes 5 and A stays |
| LruCache.EvictToFitCorrect | Labs/Lab08-proxy/cache.c:99 | the intended eviction removes from the tail only, leaves room for `sz`, and removes no more entries than necessary |
| LruCache.EvictToFit | Labs/Lab08-proxy/cache.c:99-114 | definition: the eviction the comment at line 99 asks for; it drops the last entry while the total plus `sz` exceeds `max_cache_sz`, and stops when `sz` fits or the list is empty |
| LruCache.InsertIntended | Labs/Lab08-proxy/cache.c:116-150 | definition: `cache_insert` with `EvictToFit` in place of the guarded `cache_evict` and every other branch as written |
| LruCache.InsertIntendedWithinCapacity | Labs/Lab08-proxy/cache.c:99-150 | with only the eviction guard corrected (a re-insert still keeps the old item), the total never exceeds `max_cache_sz` |
| LruCache.EvictsLeastRecentlyUsedIntended | Labs/Lab08-proxy/cache.c:99-150 | in the example above the intended insert evicts exactly A, the least recently used |
| LruCache.EvictOneOfThree | Labs/Lab08-proxy/cache.c:99 | the intended eviction of one unit from C, B, A in a capacity-4 cache drops only A |
| BlockQueue.RingAdd | Labs/Lab08-proxy/blockqueue.c:42-43 | writing at `(front + count) % n` appends the value to the ring's contents |
| BlockQueue.RingItems | Labs/Lab08-proxy/blockqueue.h:6-7 | definition: the queue's contents, the `count` values read from the ring buffer starting at `front` and wrapping modulo `n`; there are exactly `count` of them |
| BlockQueue.RingGet | Labs/Lab08-proxy/blockqueue.c:30-31 | advancing `front` drops the oldest item of the contents |
| BlockQueue.Queue.constructor | Labs/Lab08-proxy/blockqueue.c:5-16 | `front == rear == 0`, a fresh buffer of length `n`, `slots == n`, `items == 0`, empty contents |
| BlockQueue.Queue.Get | Labs/Lab08-proxy/blockqueue.c:25-36 | needs an item; returns `buf[front % n]`, the oldest value; the contents lose their first value; the buffer is unchanged; `front` advances mod `n`; one item goes back to the slots |
| BlockQueue.Queue.Add | Labs/Lab08-proxy/blockqueue.c:39-46 | needs a slot; `val` is stored at the old `rear` and no other cell changes; the contents gain `val` at the end; `rear` advances mod `n`; one slot becomes an item |
| Proxy.IndexOf | Labs/Lab08-proxy/proxy.c:221-239 | the first position of a character, or the length when it is absent |
| Proxy.PortNoColon | Labs/Lab08-proxy/proxy.c:230-235 | without a `':'`, the port is `"80"` cut to the index of the `'/'` |
| Proxy.GetHostName | Labs/Lab08-proxy/proxy.c:216-242 | the scanning loop computes exactly `SplitUrl` |
| Proxy.Scan | Labs/Lab08-proxy/proxy.c:220-239 | definition: the loop of `gethostnamefromhttp` from index `i` with `j` just after the last `':'`; a `':'` sets the host to the `i - j` characters from the start of the URL, the first `'/'` ends the scan with the port and the path, reaching the end gives none |
| Proxy.SplitUrl | Labs/Lab08-proxy/proxy.c:216-242 | definition: host, port and path as `gethostnamefromhttp` writes them, starting the loop at `i = j = 0`; none when the URL has no `'/'` |
| Proxy.SplitUrlIntended | Labs/Lab08-proxy/proxy.c:215-242 | definition: the split the example comment at line 215 shows; the host is the text before the first `':'` ahead of the first `'/'`, the port the text between them or `"80"` when there is no `':'`, the path everything after the `'/'` |
| Proxy.SplitIntendedRebuilds | Labs/Lab08-proxy/proxy.c:216-242 | the intended split rebuilds the URL from host, port and path, the host holds no `':'` or `'/'`, and a missing port is `"80"` for any host length |
| Proxy.SplitPath | Labs/Lab08-proxy/proxy.c:227-240 | a URL without `'/'` gives no target; otherwise the path is everything after the first `'/'` |
| Proxy.SplitAgrees | Labs/Lab08-proxy/proxy.c:221-240 | for at most one `':'` before the first `'/'`, and a host of two or more characters when there is no port, the code's split is the intended one |
| Proxy.SplitWithPort | Labs/Lab08-proxy/proxy.c:222-235 | with a `':'` before the `'/'`: host before it, port between it and the `'/'`, path after |
| Proxy.SplitWithoutPort | Labs/Lab08-proxy/proxy.c:227-235 | without a `':'`: the host is the text before the `'/'` and the port is `"80"` |
| Proxy.SplitNoPath | Labs/Lab08-proxy/proxy.c:221-242 | with no `'/'` in the URL the loop ends without ever setting the port or the path; both the as-written and the intended split then give none, the point where the model stops |
| Proxy.SplitExample | Labs/Lab08-proxy/proxy.c:215-242 | `localhost:15213/home.html` splits into `localhost`, `15213`, `home.html` |
| Proxy.ShortHostPort | Labs/Lab08-proxy/proxy.c:230-235 | `a/x` gets port `"8"` as written, where `"80"` is intended |
| Proxy.FirstCrlf | Labs/Lab08-proxy/proxy.c:117-128 | the first CR LF of a text, or its length |
| Proxy.HeaderLinesJoin | Labs/Lab08-proxy/proxy.c:117-128 | a server reading lines up to the blank line gives back exactly the joined non-empty lines |
| Proxy.WireLines | Labs/Lab08-proxy/proxy.c:117-128 | buffers each ending in CR LF, the last in a blank line, write the joined lines plus the terminating blank line |
| Proxy.RequestLinesPlain | Labs/Lab08-proxy/proxy.c:117-128 | each of the five request lines is non-empty and free of CR |
| Proxy.RequestAsWrittenHeaders | Labs/Lab08-proxy/proxy.c:119 | the request as written ends its header block after the request line, so the server sees none of the four headers |
| Proxy.RequestHeaders | Labs/Lab08-proxy/proxy.c:117-128 | the corrected request reaches the server as the five lines in order (request line, `Connection`, `Proxy-Connection`, User-Agent, `Host`) followed by one blank line |
| Proxy.ZeroAt | Labs/Lab08-proxy/proxy.c:205 | the first NUL byte of a chunk, or its length |
| Proxy.Strncpy | Labs/Lab08-proxy/proxy.c:205 | `strncpy` writes exactly as many bytes as the chunk holds |
| Proxy.StrncpyCopies | Labs/Lab08-proxy/proxy.c:205 | a chunk without NUL is copied unchanged; the bytes after a NUL are written as zeros |
| Proxy.StrncpyAllText | Labs/Lab08-proxy/proxy.c:202-208 | for NUL-free chunks the cached buffer equals the relayed bytes |
| Proxy.BinaryBodyAsWritten | Labs/Lab08-proxy/proxy.c:205 | the body `[0, 65]` is relayed as is but cached as `[0, 0]` |
| Proxy.FlattenStep | Labs/Lab08-proxy/proxy.c:202-208 | the relayed and the copied bytes grow by one chunk per iteration |
| Proxy.StrnCopy | Labs/Lab08-proxy/proxy.c:205 | writes `Strncpy` of the chunk at the offset and leaves the rest of the buffer alone |
| Proxy.MemCopy | Labs/Lab08-proxy/proxy.c:205 | writes the chunk at the offset byte for byte and leaves the rest of the buffer alone |
| Proxy.RelayChunks | Labs/Lab08-proxy/proxy.c:202-208 | every chunk goes to the client; the total is the sum of the chunk sizes; while it stays within `MAX_OBJECT_SIZE` the buffer holds the `strncpy` copies |
| Proxy.RelayChunksIntended | Labs/Lab08-proxy/proxy.c:202-208 | as above with a byte copy: within the bound the buffer holds exactly the relayed bytes |
| Proxy.RedirectResponse | Labs/Lab08-proxy/proxy.c:195-213 | relays every byte; then `cache_insert` under the key with the `strncpy` copy and the total size, which drops the key when the object is too large |
| Proxy.RedirectResponseIntended | Labs/Lab08-proxy/proxy.c:195-213 | as above, but caches exactly the relayed bytes |
| Proxy.BuildRequestAsWritten | Labs/Lab08-proxy/proxy.c:117-128 | the five request buffers the proxy writes |
| Proxy.BuildRequest | Labs/Lab08-proxy/proxy.c:117-128 | the five request buffers corrected at the request line |
| Proxy.WorkerTask | Labs/Lab08-proxy/proxy.c:89-156 | the raw request line is the key both for lookup and for the insert; a hit answers with the stored item's `size` bytes, which are its whole value since the proxy only stores buffers of exactly their size, and moves the entry to the front; each reply holds exactly in its own case: a miss with a non-`GET` method gives `NotGet` before any upstream contact; a `GET` miss whose URL has no `'/'` (undefined behaviour in C) gives `NoPath`; a `GET` miss with a split URL whose connection fails gives `ConnectFailed` and leaves the cache unchanged; every other `GET` miss gives `Relayed`, with the request sent to the split host and port and the response relayed and cached |
| CacheSim.GeometryOf | Labs/Lab04-cache/csim.c:69-71 | `s + b <= 31` makes the shifts well defined |
| CacheSim.OffMaskBits | Labs/Lab04-cache/csim.c:69 | `offMask` has exactly bits `0 .. b-1` set |
| CacheSim.SetMaskBits | Labs/Lab04-cache/csim.c:70 | `setMask` has exactly bits `b .. b+s-1` set |
| CacheSim.TagMaskBits | Labs/Lab04-cache/csim.c:71 | `tagMask` has exactly bits `b+s ..` set |
| CacheSim.MasksPartition | Labs/Lab04-cache/csim.c:69-71 | the three masks are pairwise disjoint and together cover all 32 bits |
| CacheSim.SetIndex | Labs/Lab04-cache/csim.c:103 | the set index is below `2^s` |
| CacheSim.TagOfBlock | Labs/Lab04-cache/csim.c:104 | the tag is the block number divided by the number of sets |
| CacheSim.Decompose | Labs/Lab04-cache/csim.c:103-104 | tag, set index and block offset put back together give the address |
| CacheSim.SameBlock | Labs/Lab04-cache/csim.c:103-104 | two addresses share set and tag exactly when they lie in the same block |
| CacheSim.FirstStop | Labs/Lab04-cache/csim.c:110-121 | the scan stops at the first invalid or matching line; all earlier lines are valid and mismatched |
| CacheSim.MinScan | Labs/Lab04-cache/csim.c:122-125 | the least age of the lines, found at the first line that has it, or -1 when no age is below `counter` |
| CacheSim.LoadChangesOneLine | Labs/Lab04-cache/csim.c:99-131 | a load changes exactly one line of the set, which becomes valid with the tag and age `counter` |
| CacheSim.Load | Labs/Lab04-cache/csim.c:99-131 | definition: the code and the new set of `loadFromCache`; a hit at the first stop sets that line's age, a free line at the first stop becomes valid with the tag, and otherwise the first line of least age gets the tag; codes 0, 1, 2 |
| CacheSim.LoadHit | Labs/Lab04-cache/csim.c:111-114 | the result is 0 exactly when a valid line has the tag; then only that line's age becomes `counter` |
| CacheSim.LoadMiss | Labs/Lab04-cache/csim.c:116-121 | the result is 1 exactly when no line hits and one is free; then the first free line takes the tag |
| CacheSim.LoadEvict | Labs/Lab04-cache/csim.c:122-130 | the result is 2 exactly when all lines are valid and none matches; then the first line of least age is overwritten |
| CacheSim.LoadThenHit | Labs/Lab04-cache/csim.c:99-131 | a load keeps the valid lines a prefix and ages at most `counter`, and the same access right after hits |
| CacheSim.AccessOnceIs | Labs/Lab04-cache/csim.c:161-188 | one access replaces the chosen set by the loaded one and tallies its code |
| CacheSim.AccessOnce | Labs/Lab04-cache/csim.c:161-188 | definition: one `loadFromCache` on the set the address selects, with the address's tag, counted as a hit, a miss, or a miss and an eviction |
| CacheSim.AccessReady | Labs/Lab04-cache/csim.c:161-188 | an access keeps the simulator state well formed, and a second access to the same address hits |
| CacheSim.StepFacts | Labs/Lab04-cache/csim.c:161-192 | one record counts one access (two for `M`); evictions are misses; `M`'s store always hits; the counter grows by one |
| CacheSim.Step | Labs/Lab04-cache/csim.c:161-192 | definition: one data record; a load for `L` and `M`, then a store for `S` and `M`, then `counter++` |
| CacheSim.RunSkip | Labs/Lab04-cache/csim.c:145-146 | an `I` record is skipped |
| CacheSim.Run | Labs/Lab04-cache/csim.c:138-197 | definition: the loop of `simulateCache` over the records; `I` is skipped, a malformed record or an operation other than `L`, `S`, `M` stops with status 1, a data record is a `Step` |
| CacheSim.RunStop | Labs/Lab04-cache/csim.c:147-160 | a malformed record or an unknown operation stops the run with status 1 |
| CacheSim.RunStep | Labs/Lab04-cache/csim.c:161-192 | a data record performs its step and the run goes on |
| CacheSim.RunReady | Labs/Lab04-cache/csim.c:138-197 | the state stays well formed over the whole trace: valid lines a prefix of every set, ages at most the counter |
| CacheSim.RunEvictionsAreMisses | Labs/Lab04-cache/csim.c:138-197 | every eviction is counted also as a miss, and no counter ever decreases |
| CacheSim.RunCounts | Labs/Lab04-cache/csim.c:138-197 | on success, hits plus misses equal the number of accesses, and the counter equals the number of data records |
| CacheSim.ModifyHitsOnStore | Labs/Lab04-cache/csim.c:175-188 | an `M` record makes two accesses, the second a hit |
| CacheSim.Cache.constructor | Labs/Lab04-cache/csim.c:64-96 | `2^s` sets of `E` lines each, all invalid with age 0 |
| CacheSim.Cache.LoadFromCache | Labs/Lab04-cache/csim.c:99-107 | returns the code of `Load` on the set the address selects, with the address's tag, and replaces only that set by the loaded one |
| CacheSim.Cache.LoadSet | Labs/Lab04-cache/csim.c:100-131 | the line loop on one set: returns the code of `Load` (hit, fill of the first invalid line, eviction of the first least-aged line) and replaces only that set by the loaded one |
| CacheSim.Cache.WriteLine | Labs/Lab04-cache/csim.c:111-130 | writing one line changes exactly that line of the table |
| CacheSim.Cache.SaveIntoCache | Labs/Lab04-cache/csim.c:133-136 | a store behaves exactly like a load |
| CacheSim.Cache.ProcessRecord | Labs/Lab04-cache/csim.c:161-192 | one data record updates the counts and the table as `Step` says |
| CacheSim.Cache.CountedAccess | Labs/Lab04-cache/csim.c:161-188 | one access updates the counts and the table as `AccessOnce` says |
| CacheSim.Cache.Count | Labs/Lab04-cache/csim.c:163-187 | the tally after each access: code 0 adds a hit, code 1 a miss, any other code a miss and an eviction; the other counts are unchanged |
| CacheSim.Cache.SimulateCache | Labs/Lab04-cache/csim.c:138-197 | the status, the three counts and the final table are those of `Run` over the trace |
| CacheSim.LoadAtHit | Labs/Lab04-cache/csim.c:111-114 | a matching line after only valid mismatched lines is a hit there |
| CacheSim.LoadAtFree | Labs/Lab04-cache/csim.c:116-121 | a free line after only valid mismatched lines is filled there |
| CacheSim.LoadAtEvict | Labs/Lab04-cache/csim.c:122-130 | in a full set without the tag the minimum-age line is overwritten |
| Transpose.Trans | Labs/Lab04-cache/trans.c:84-95 | afterwards `B[j][i] == A[i][j]` for all `i < N`, `j < M`; only `B` is written |
| Transpose.IsTranspose | Labs/Lab04-cache/trans.c:119-131 | returns 0 or 1, and 1 exactly when `B` is the transpose of `A` |
| Transpose.ColumnUp | Labs/Lab04-cache/trans.c:54-58 | the upward pass over `[lo, hi)` of one row; nothing else in `B` changes |
| Transpose.ColumnDown | Labs/Lab04-cache/trans.c:37-52 | the downward pass over `[lo, hi)` of one row; nothing else in `B` changes |
| Transpose.Block | Labs/Lab04-cache/trans.c:33-60 | one 8-by-8 block is transposed, on the diagonal by its two passes together; nothing outside the block changes |
| Transpose.TransposeSubmit | Labs/Lab04-cache/trans.c:23-65 | for 32 by 32, `B` is the transpose of `A`; for any other size `B` is unchanged; `A` is never written |
| ShellJobs.MaxJidOf | Labs/Lab06-shell/tsh.c:545-553 | the largest jid in the table and attained, or 0 |
| ShellJobs.FindBy | Labs/Lab06-shell/tsh.c:610-632 | the first slot whose pid (or job ID) is the one sought, with none before it, or `MAXJOBS` when none has it |
| ShellJobs.NextJid | Labs/Lab06-shell/tsh.c:567-568 | `nextjid` goes up by one and wraps to 1 past `MAXJOBS` |
| ShellJobs.AddedJobFound | Labs/Lab06-shell/tsh.c:563-569 | after an add the new pid is found in the slot that was filled |
| ShellJobs.DeletedJobGone | Labs/Lab06-shell/tsh.c:582-597 | after a delete the pid is no longer found |
| ShellJobs.JobList.constructor | Labs/Lab06-shell/tsh.c:43-54 | all `MAXJOBS` slots are cleared and `nextjid` is 1 |
| ShellJobs.JobList.ClearJob | Labs/Lab06-shell/tsh.c:529-534 | exactly that slot becomes the cleared job |
| ShellJobs.JobList.InitJobs | Labs/Lab06-shell/tsh.c:537-542 | every slot is cleared |
| ShellJobs.JobList.MaxJid | Labs/Lab06-shell/tsh.c:545-553 | returns the largest jid, which some slot holds, or 0 exactly when the table is empty |
| ShellJobs.JobList.AddJob | Labs/Lab06-shell/tsh.c:556-579 | succeeds exactly when `pid >= 1` and a slot is free; the first free slot gets the job with `jid = nextjid`, which then advances with wrap-around; on failure nothing changes |
| ShellJobs.JobList.DeleteJob | Labs/Lab06-shell/tsh.c:582-597 | succeeds exactly when `pid >= 1` and a slot has it; that first slot is cleared and `nextjid` becomes the largest remaining jid plus 1; on failure nothing changes |
| ShellJobs.JobList.FgPid | Labs/Lab06-shell/tsh.c:600-607 | the pid of the first foreground job, or 0 exactly when there is none |
| ShellJobs.JobList.GetJobPid | Labs/Lab06-shell/tsh.c:610-619 | the first slot with the pid, or none for a pid below 1 or when nothing matches |
| ShellJobs.JobList.GetJobJid | Labs/Lab06-shell/tsh.c:622-632 | the first slot with the jid, or none for a jid below 1 or when nothing matches |
| ShellJobs.JobList.Pid2Jid | Labs/Lab06-shell/tsh.c:635-646 | the job id of the pid's slot, or 0 exactly when the pid is below 1 or absent |
| ShellParse.Buffer | Labs/Lab06-shell/tsh.c:266-267 | the copied line with its last character (the newline) replaced by a space |
| ShellParse.SkipSpacesStops | Labs/Lab06-shell/tsh.c:268-269 | the skip passes only spaces and stops at a non-space or the end |
| ShellParse.IndexFromFinds | Labs/Lab06-shell/tsh.c:273-279 | `strchr`: the first occurrence from a position, or the end |
| ShellParse.NextCut | Labs/Lab06-shell/tsh.c:281-295 | the next argument starts after the skipped spaces and ends at its delimiter |
| ShellParse.FindCut | Labs/Lab06-shell/tsh.c:281-295 | the loop body computes exactly `NextCut` |
| ShellParse.CollectArgs | Labs/Lab06-shell/tsh.c:268-295 | the loop collects exactly `Tokens` |
| ShellParse.Tokens | Labs/Lab06-shell/tsh.c:268-295 | definition: the arguments of the buffer from position `p`; the next cut after the skipped spaces, then the arguments after it |
| ShellParse.Collect | Labs/Lab06-shell/tsh.c:281-295 | definition: with no delimiter left the loop ends with no more arguments; otherwise the text up to the delimiter is one argument and the scan resumes after the delimiter |
| ShellParse.ParseLine | Labs/Lab06-shell/tsh.c:258-306 | `argv` and `bg` are those of `ParseResult` on the tokens of the buffer |
| ShellParse.ParseResult | Labs/Lab06-shell/tsh.c:298-305 | a blank line gives bg 1; a final argument starting with `&` is removed and sets bg |
| ShellParse.QuotedArg | Labs/Lab06-shell/tsh.c:273-291 | an argument opening with a quote runs, spaces included, up to the next quote and is followed by the arguments after it |
| ShellParse.UnterminatedQuote | Labs/Lab06-shell/tsh.c:273-291 | a quote with no closing quote after it yields no further arguments: the rest of the line is dropped |
| ShellParse.TokensAreWords | Labs/Lab06-shell/tsh.c:268-295 | without quotes, the tokens are exactly the space-separated words |
| ShellParse.ParseWords | Labs/Lab06-shell/tsh.c:258-295 | without quotes, `parseline` splits the line into its words |
| ShellParse.BackgroundExample | Labs/Lab06-shell/tsh.c:258-306 | `ls -l &` gives `["ls", "-l"]` and bg 1 |
| ShellParse.BlankLine | Labs/Lab06-shell/tsh.c:298-299 | a line of spaces gives no arguments and 1 |
| ShellSio.StrLen | Labs/Lab06-shell/tsh.c:772-779 | the position of the first NUL: all characters before it are non-NUL |
| ShellSio.Reverse | Labs/Lab06-shell/tsh.c:740-749 | character `k` of the result is character `len-1-k` of the input |
| ShellSio.ReverseReverse | Labs/Lab06-shell/tsh.c:740-749 | reversing twice gives the input back |
| ShellSio.SioStrlen | Labs/Lab06-shell/tsh.c:772-779 | returns the index of the first NUL |
| ShellSio.ReversePrefix | Labs/Lab06-shell/tsh.c:740-749 | the swapping loop reverses the first `len` characters in place and leaves the rest |
| ShellSio.SioReverse | Labs/Lab06-shell/tsh.c:740-749 | the string before the NUL is reversed; its length and everything from the NUL on are unchanged |
| ShellSio.DigitChar | Labs/Lab06-shell/tsh.c:761 | digit values below 10 give `'0'..'9'`, larger ones `'a'..'z'` |
| ShellSio.DigitRoundTrip | Labs/Lab06-shell/tsh.c:761 | the digit character reads back as its value |
| ShellSio.DigitsRoundTrip | Labs/Lab06-shell/tsh.c:752-769 | the base-`b` digits read back as the number |
| ShellSio.NoLeadingZero | Labs/Lab06-shell/tsh.c:760-762 | the digits start with `'0'` exactly for 0 |
| ShellSio.DigitsInBase | Labs/Lab06-shell/tsh.c:760-762 | every digit is below the base |
| ShellSio.DigitsLength | Labs/Lab06-shell/tsh.c:786-790 | a number below `2^k` has at most `k` digits |
| ShellSio.PutlFits | Labs/Lab06-shell/tsh.c:786-790 | the text of any `long` but `LONG_MIN` and its NUL fit the 128-byte buffer of `sio_putl` |
| ShellSio.LtoaExamples | Labs/Lab06-shell/tsh.c:752-769 | -255 in base 16 gives `-ff`; 0 gives `0` |
| ShellSio.LtoaText | Labs/Lab06-shell/tsh.c:752-769 | definition: the text `sio_ltoa` writes; `'-'` for a negative value, then the base-`b` digits of its absolute value, most significant first |
| ShellSio.LowDigitsReversed | Labs/Lab06-shell/tsh.c:760-768 | the digits as the loop emits them, least significant first, reversed are the digits |
| ShellSio.LowDigits | Labs/Lab06-shell/tsh.c:760-762 | the characters of the do-while loop, least significant digit first: at least one, even for 0 |
| ShellSio.LowDigitsNoNul | Labs/Lab06-shell/tsh.c:760-765 | no digit is NUL or `'-'` |
| ShellSio.WriteDigits | Labs/Lab06-shell/tsh.c:760-762 | the do-while loop writes the digits least significant first and touches nothing beyond them |
| ShellSio.DivMod | Labs/Lab06-shell/tsh.c:761-762 | one step splits off the lowest digit and leaves the digits still to come |
| ShellSio.ReversedText | Labs/Lab06-shell/tsh.c:757-768 | the emitted digits plus the optional `'-'`, reversed, are the text |
| ShellSio.WriteReversed | Labs/Lab06-shell/tsh.c:757-768 | writes the digits, the sign and the NUL, and leaves the rest of the buffer |
| ShellSio.SioLtoa | Labs/Lab06-shell/tsh.c:752-769 | the buffer holds the base-`b` digits of `abs(v)`, most significant first, with `'-'` in front when `v < 0`, then a NUL; the rest is unchanged |

## Left out

- Concurrency is left out. This covers the cache's reader-count and writer gate (`readcnt`, the mutexes in `cache_get` and `cache_insert`), the queue's mutex, and `V`. Each operation is one atomic step.
- The queue's `slots` and `items` semaphores are ghost counters. The blocking `P` becomes a precondition.
- Memory release is not modelled, because it has no observable behaviour in a garbage-collected model: `cache_free`, `cacheitem_free`, `bq_clear`, `free_Cache`, `free_CacheSet`.
- LruCache.Lru.Insert: does not promise `cache_sz <= max_cache_sz`. The inverted guard at line 105 makes eviction a no-op as called, so the code does not keep the bound. It is proved only for the corrected eviction.
- LruCache.Lru.constructor: `malloc` failure is not modelled.
- The linked list of `CacheItem` nodes with `prev`/`next` pointers is modelled as the sequence of nodes from the head sentinel to the rear sentinel. Pointer aliasing between nodes is not modelled.
- Sockets, threads and Rio are not modelled: `main`, `worker_thread`, `Open_listenfd`/`Accept`, `open_clientfd`, `Rio_readlineb`, `Rio_readnb`, `Rio_writen`.
  - `WorkerTask` takes the already-read request line, its method and URL, and the outcome of the upstream connection (none, or the chunks it returns) as parameters.
  - The `sscanf` that splits the request line is also a parameter.
- `get_http_request` and `send_http_request` are not modelled. `Wire` stands for the bytes the writes put on the socket.
- The raw buffer overruns in `gethostnamefromhttp` are not modelled, and neither is the unterminated host in its no-port branch. The host is modelled as the URL text before the stop.
- Proxy.SplitNoPath: a URL without `'/'` leaves `port` and `uri` unwritten, so the C code then reads uninitialised buffers, which is undefined behaviour. The model stops there with `NoPath`. The C code has no such rejection.
- Proxy.SplitAgrees: it characterizes the split only for URLs with at most one `':'` before the first `'/'`. With several colons the host buffer is overwritten by each one, and only `SplitUrl` describes that.
- `malloc` sizes and `strcpy`/`sprintf` into fixed buffers in `proxy.c` are not modelled. `BuildRequest` yields the strings themselves.
- The chunk read size is bounded by `MAX_HTTP_LINE` (`Reads`), and the total by `SSIZE_MAX` for the `ssize_t` running sum.
- `main`, the argument parsing, `fgets`, the line-by-line `sscanf` and `printSummary` of `csim.c` are not modelled. The trace is a sequence of already-parsed records (`TraceLine`), with a `Malformed` record for a failed `sscanf`.
- CacheSim.SetIndex: addresses are non-negative and below 2^31, and `s + b <= 31` is required. The C code shifts a signed `int`, and the tag of a negative address is not modelled.
- CacheSim.TagOfBlock: the set index and the tag are defined by integer division. That `(mask & address) >> shift` equals the division is not proved; the masks are proved separately, bit by bit.
- CacheSim.Cache.SimulateCache: requires `E >= 1`. With `E == 0`, `minIdx` stays -1 and the eviction writes `lines[-1]`, which is undefined behaviour; `Loadable` excludes that case.
- The `long` counter and the `int` ages are unbounded in the model. Their overflow is not modelled.
- The constructor makes every line invalid with age 0. The uninitialised `Tag` field is not modelled, since it is never read while the line is invalid.
- Transpose: `A` and `B` must be different arrays, as in the lab driver. `registerFunctions` and the `trans_simple` registration are not modelled.
- ShellJobs.JobList.GetJobPid: returns the slot index, or -1 where C returns a NULL pointer. ShellJobs.JobList.GetJobJid does the same.
- ShellJobs.JobList.AddJob: requires `|cmdline| < MAXLINE`, the size of the `strcpy` target. The "too many jobs" message is not modelled, and neither is the `verbose` print.
- Jid uniqueness across the table is not modelled. `addjob` wraps `nextjid` back to 1 once it passes `MAXJOBS` (tsh.c:568-569) and can then hand out a jid that a live job still holds: with jobs 1 to 15, deleting jobs 3 and 1 leaves `nextjid` at 16, and three more jobs get jids 16, 1 and 2, so jid 2 is held twice. `deletejob` alone cannot do this, since it sets `nextjid` to the largest live jid plus 1.
- ShellParse.ParseLine: requires a non-empty line shorter than `MAXLINE`, as `fgets` delivers it. The `MAXARGS` bound on `argv` is not modelled: `argv` is a sequence.
- ShellParse.ParseLine: a NUL character inside the line is treated as an ordinary character. In C it would end the string early, for `strlen` and `strchr` alike.
- ShellSio.SioLtoa: requires `v > LONG_MIN`. `-LONG_MIN` overflows in C. Bases outside 2 to 36 are not modelled.
- `sio_puts`, `sio_putl`, `sio_error`, `eval`, `builtin_cmd`, `do_bgfg`, `waitfg`, the signal handlers and `listjobs` are not modelled. They are process control and I/O.
- `Labs/Lab07-malloc/mm.c` is not part of this model. It depends on a memory system that is not shown, and it works by raw pointer arithmetic.

## Findings

| source | as written | input that shows it | evidently intended | confidence | as-written member | corrected member |
|---|---|---|---|---|---|---|
| Labs/Lab08-proxy/cache.c:105 | the eviction loop runs while the free space is at least `sz`, so as called from `cache_insert` it removes nothing | capacity 4 holding A, B, C of sizes 1, 1, 2; insert D of size 1 | evict from the tail while the free space is below `sz` (the comment at line 99), so capacity is never exceeded | not executed | LruCache.OverCapacityAsWritten | LruCache.InsertIntendedWithinCapacity |
| Labs/Lab08-proxy/proxy.c:119 | the request line is followed by `\r\n\r\n`, which ends the header block at once | any GET request, e.g. `GET /home.html HTTP/1.0` to host `localhost` | only the request line's own CR LF; the blank line comes after the `Host` header | not executed | Proxy.RequestAsWrittenHeaders | Proxy.RequestHeaders |
| Labs/Lab08-proxy/proxy.c:205 | the response chunks are copied into the cache buffer with `strncpy`, which writes zeros after the first NUL | a body `[0, 65]` is relayed as `[0, 65]` and cached as `[0, 0]` | a byte copy (`memcpy`), so the cached object equals the relayed one | not executed | Proxy.BinaryBodyAsWritten | Proxy.RedirectResponseIntended |
| Labs/Lab08-proxy/proxy.c:230-235 | without a port, `"80"` is copied with the length given by the index of the `'/'`, so a one-character host gets port `"8"` | URL `a/x` | port `"80"` | not executed | Proxy.ShortHostPort | Proxy.SplitIntendedRebuilds |
