# Key-value server core, modelled in Dafny

This project models the storage core of a small Java key-value server in two
versions, together with the line codec its client uses.

- **The current server** (`src/app_kvServer/KVServer.java`, module `Server`)
  - Keeps a storage map in front of a cache of at most `cacheSize` entries.
  - Its replacement policy is FIFO, LRU, LFU or None.
  - `putKV` stores a value and admits it to the cache. A null value is meant
    as a delete.
  - `getKV` answers a non-null cached value first, then whatever storage
    holds.
- **The stub server** (`m1-stub/src/app_kvServer/KVServer.java`, module `StubServer`)
  - A delete is a put of the text `"null"`.
  - FIFO does not re-queue keys that are already cached.
  - LRU writes an access-ordered `LinkedHashMap` and never the cache that
    `getKV` reads.
  - LFU keeps its keys in a priority queue ordered by access frequency, ties
    broken by `String.compareTo`.
  - Every other put rewrites a `key,value` text file, which the server loads
    back at start.
- **The client codec** (`src/client/KVCommunication.java`, module `Communication`)
  - Formats a request as one line `STATUS key value`.
  - Parses a response line into a `SimpleKVMessage` (module `Messages`).

Supporting modules:
- `Java`: nulls as `Option`, 32-bit increment, ASCII upper-casing, an arbitrary
  but fixed `HashMap` iteration order.
- `JavaText`: `indexOf`, `split` with and without a limit, `readLine`, and
  `write` + `newLine`.
- `Store`: the cache strategies, the `getKV` read path, and cache/storage
  coherence.
- `KeyQueues`: removing a key from a queue.
- `LfuOrder`: the stub's LFU comparator.
- `StorageFormat`: the stub's storage file.

Each request is one step from a `State` value to the next. `Valid`
collects what holds of every reachable state. Each put is proved to keep it.

The current server is modelled twice:
- `Server.PutKV` is the code as written.
- `Server.PutOrDeleteKV` is the put as evidently intended. It fixes the two
  defects listed under Findings.

The cache bound is proved for the corrected put, over whole runs from
construction (`Server.CorrectedServerBounded`).

The current server's LRU is not least-recently-used. The cache is a
`HashMap`, so the key that `keySet().iterator().next()` evicts depends on
hashing, not on use (`Server.LruAdmit`). The stub's LRU never fills the cache
that `getKV` and `inCache` consult (`StubServer.LruNeverCaches`).

## Model

| member | source | states |
|---|---|---|
| Java.IntInc | m1-stub/src/app_kvServer/KVServer.java:272 | `+ 1` on an `int` stays an `int`, wraps from `Integer.MAX_VALUE` to `Integer.MIN_VALUE`, and is the plain successor below it |
| Java.ToUpperAscii | m1-stub/src/app_kvServer/KVServer.java:73 | upper-casing keeps the length, turns every lower-case ASCII letter into its capital, and changes no other char |
| Java.AsText | m1-stub/src/app_kvServer/KVServer.java:417 | string concatenation writes a null reference as the text "null" and any other string as itself |
| Java.IterationOrder | src/app_kvServer/KVServer.java:233 | the order a `HashMap` hands out its keys lists every key exactly once and nothing else |
| JavaText.IndexOf | src/client/KVCommunication.java:194 | the first position of the separator, -1 exactly when it is absent, with no occurrence before it |
| JavaText.Split | m1-stub/src/app_kvServer/KVServer.java:370 | `split(",")` gives parts free of the comma, the whole string exactly when it holds no comma, and otherwise no trailing empty part |
| JavaText.SplitLimit | src/client/KVCommunication.java:194 | `split(" ", 3)` gives between one and three parts |
| JavaText.ReadLines | m1-stub/src/app_kvServer/KVServer.java:367-369 | the lines `readLine` returns hold no line break, and none come from empty text |
| JavaText.WriteLines | m1-stub/src/app_kvServer/KVServer.java:415-419 | writing lines leaves text exactly when there were lines, and the text ends with a line separator |
| JavaText.SplitAllFree | m1-stub/src/app_kvServer/KVServer.java:370 | no piece that `split(",")` cuts out holds a comma |
| JavaText.SplitAllCons | m1-stub/src/app_kvServer/KVServer.java:370 | splitting cuts a separator-free head off at the first separator |
| JavaText.DropTrailingEmpty | m1-stub/src/app_kvServer/KVServer.java:370 | `split` with limit 0 keeps a prefix of the pieces, drops only empty ones, and ends in a non-empty piece |
| JavaText.SplitLimitFree | src/client/KVCommunication.java:194 | with a limit, every part but the last is free of the separator |
| JavaText.SplitLimitFreeLast | src/client/KVCommunication.java:194 | a split that stops short of its limit leaves the last part free of the separator too |
| JavaText.SplitLimitCons | src/client/KVCommunication.java:194 | a split with a limit cuts a separator-free head off first and uses up one unit of the limit |
| JavaText.ReadWriteLines | m1-stub/src/app_kvServer/KVServer.java:414-419 | `readLine` returns exactly the lines `write` + `newLine` wrote, when no line holds a line break |
| Messages.ValueOfName | src/client/KVCommunication.java:195 | `StatusType.valueOf` inverts `name()` for every status |
| Messages.ValueOfRejects | src/client/KVCommunication.java:195 | `valueOf` fails exactly on the strings that are no status name |
| Messages.ValueOf | src/client/KVCommunication.java:195 | `StatusType.valueOf` answers only the constant that has the given name |
| Messages.NameHasNoSeparator | src/client/KVCommunication.java:120 | no status name holds a space or a line break, and none is empty |
| Messages.GettersReturnConstructorArguments | m1-stub/src/shared/messages/SimpleKVMessage.java:9-28 | the getters return the status, key and value the message was built with |
| Communication.FormatMessage | src/client/KVCommunication.java:119-121 | a formatted request ends in `\n`, and that is its only line break exactly when the key and value texts hold none |
| Communication.ValueField | src/client/KVCommunication.java:120 | a null value goes on the wire as the empty string, any other value as itself |
| Communication.FormatNullAsEmpty | src/client/KVCommunication.java:120 | a null value and an empty value format to the same line |
| Communication.ParseMessage | src/client/KVCommunication.java:188-204 | null and empty lines parse to null; a parsed status's name begins the line; key and value are never null; the key holds no space |
| Communication.ParseRejectsUnknownStatus | src/client/KVCommunication.java:195-202 | a line whose first token names no status parses to null |
| Communication.ParseFullLine | src/client/KVCommunication.java:194-199 | `STATUS key value` parses to that status, key and value, with every later space kept in the value |
| Communication.SplitThreeFields | src/client/KVCommunication.java:194 | a line of three space-separated fields, the first two without spaces, splits into exactly those three |
| Communication.ParseStatusOnly | src/client/KVCommunication.java:196-197 | a bare status parses with an empty key and an empty value |
| Communication.ParseStatusAndKey | src/client/KVCommunication.java:196-197 | a status and a key parse with an empty value |
| Communication.FormatParseRoundTrip | src/client/KVCommunication.java:119-121 | a formatted request read back with `readLine` and parsed gives the status, key and value, a null value returning as "" |
| Store.StrategyValueOfName | src/app_kvServer/KVServer.java:64 | `CacheStrategy.valueOf` inverts `name()` |
| Store.Read | src/app_kvServer/KVServer.java:135-149 | a non-null cached value wins; otherwise storage answers, null included; the answer always comes from one of the two |
| Store.CoherentReadIsStorage | src/app_kvServer/KVServer.java:139-147 | while every non-null cached value equals the stored one, `getKV` answers what storage alone would |
| Server.GetKV | src/app_kvServer/KVServer.java:135-149 | without a cache, or while cache and storage agree, `getKV` answers what storage holds; a non-null answer comes from a cached or stored key |
| Server.InStorage | src/app_kvServer/KVServer.java:121-124 | a key not stored reads as null from storage, and while cache and storage agree every key that reads non-null is stored |
| Server.InCache | src/app_kvServer/KVServer.java:127-130 | only a server with a cache caches anything (none for a size of 0 or less), and a key with a non-null cached value is cached and read from the cache |
| StubServer.GetKV | m1-stub/src/app_kvServer/KVServer.java:159-174 | while cache and storage agree, `getKV` answers what storage holds; under LRU it always does, since the LRU map is never read |
| StubServer.InStorage | m1-stub/src/app_kvServer/KVServer.java:146-149 | a key not stored reads as null from storage, and while cache and storage agree every key that reads non-null is stored |
| StubServer.InCache | m1-stub/src/app_kvServer/KVServer.java:152-155 | a key with a non-null cached value is cached and read from the cache, and under LRU no key is ever cached |
| Store.StrategyValueOf | src/app_kvServer/KVServer.java:64 | `CacheStrategy.valueOf` answers only the constant that has the given name |
| Store.AdmitKeepsCoherent | src/app_kvServer/KVServer.java:166-172 | storing a value and caching it with that value, other cached entries unchanged, keeps cache and storage in agreement |
| Server.Init | src/app_kvServer/KVServer.java:60-79 | construction succeeds exactly for an exact strategy name, gives a valid empty server, and creates a cache exactly for a positive size |
| Server.FifoAdmit | src/app_kvServer/KVServer.java:206-217 | the key is cached with the value; when the key is cached or the queue has room, the key is appended to the queue even if already queued; a new key at a full queue evicts the queue head |
| Server.FifoAdmitKeeps | src/app_kvServer/KVServer.java:212-217 | other cached values are unchanged, and every cached key stays queued |
| Server.LruAdmit | src/app_kvServer/KVServer.java:227-237 | the key is cached with the value; any other key that stays keeps its value |
| Server.LruAdmitKeys | src/app_kvServer/KVServer.java:229-236 | nothing is evicted when the key is cached or there is room; otherwise exactly one old key makes way, so the cache stays within `cacheSize` |
| Server.FindLeastFrequent | src/app_kvServer/KVServer.java:255-265 | the scan answers null exactly when no count is below `Integer.MAX_VALUE`; otherwise a listed key whose count is at most every other |
| Server.LeastFrequentKey | src/app_kvServer/KVServer.java:255-265 | over the whole frequency map: null exactly when every count is `Integer.MAX_VALUE`, else a key of least count |
| Server.LfuAdmit | src/app_kvServer/KVServer.java:239-253 | the key is cached with the value; a cached key's count rises by one (32-bit), a new key's count is 1 |
| Server.LfuAdmitUnchanged | src/app_kvServer/KVServer.java:239-253 | the value and count of every other key are unchanged |
| Server.LfuAdmitLockstep | src/app_kvServer/KVServer.java:239-253 | cache and frequency map end over the same keys |
| Server.LfuAdmitKeys | src/app_kvServer/KVServer.java:245-251 | nothing is evicted when the key is cached or there is room; otherwise the least-frequent key the scan picks makes way |
| Server.UpdateCache | src/app_kvServer/KVServer.java:182-201 | every strategy but None caches the key with the value; None changes nothing; storage is untouched |
| Server.Prepare | src/app_kvServer/KVServer.java:158-166 | after the delete branch and the `put`, storage maps the key to the value, null included; a null value first takes the key out of the cache |
| Server.PreparedAdmissionValid | src/app_kvServer/KVServer.java:154-178 | the state after the delete branch meets `updateCache`'s needs, and admission then leaves a valid state |
| Server.PutKV | src/app_kvServer/KVServer.java:154-178 | a put keeps the server valid and keeps its size and strategy |
| Server.PutKVStores | src/app_kvServer/KVServer.java:166 | after a put the key is stored with the value, and `getKV` answers that value |
| Server.UpdateCacheKeepsOthers | src/app_kvServer/KVServer.java:182-201 | admission changes no other cached value |
| Server.PutKeepsCoherent | src/app_kvServer/KVServer.java:154-178 | a put keeps cache and storage in agreement |
| Server.PutLeavesOtherReads | src/app_kvServer/KVServer.java:154-178 | while they agree, a put leaves the reads of every other key unchanged |
| Server.LfuPutFrequency | src/app_kvServer/KVServer.java:239-253 | under LFU a non-null put of a cached key adds one use; any other put starts at 1; other counts stay |
| Server.LfuCountsPositive | src/app_kvServer/KVServer.java:242 | counts stay at least 1 unless the put's own count sits at `Integer.MAX_VALUE` |
| Server.LfuPutBounded | src/app_kvServer/KVServer.java:245-249 | under LFU the cache stays within `cacheSize` while every count is below `Integer.MAX_VALUE` |
| Server.ClearCache | src/app_kvServer/KVServer.java:267-279 | cache, queue and counts are emptied, storage is kept, and the state stays valid |
| Server.ClearStorage | src/app_kvServer/KVServer.java:281-286 | storage is emptied, the cache is kept, and the state stays valid |
| Server.ClearStorageKeepsCachedReadable | src/app_kvServer/KVServer.java:281-286 | after clearing storage, a key with a non-null cached value still reads as it, and every other key reads null |
| Server.DeleteLeavesNullEntry | src/app_kvServer/KVServer.java:158-166 | a delete as written leaves the key stored with null: `inStorage` stays true while `getKV` answers null |
| Server.DeleteKV | src/app_kvServer/KVServer.java:158-164 | the corrected delete removes the key from storage, cache and counts, leaves other cached entries, and keeps the state valid |
| Server.FifoAdmitOnce | src/app_kvServer/KVServer.java:212-217 | the corrected FIFO admission: a cached key gets the new value and keeps queue and keys as they were; a new key is admitted as written |
| Server.FifoAdmitOnceBounded | src/app_kvServer/KVServer.java:206-217 | the corrected FIFO admission keeps the queue within `cacheSize` and every cached key queued, so the cache stays within `cacheSize` |
| Server.FifoAdmitNewBounded | src/app_kvServer/KVServer.java:212-217 | admitting a new key keeps that queue bound, because at a full queue the head leaves as the key joins |
| Server.LfuAdmitBounded | src/app_kvServer/KVServer.java:245-251 | LFU admission keeps the cache within `cacheSize` when exactly the cached keys are counted and no count has reached `Integer.MAX_VALUE` |
| Server.FixedUpdateCache | src/app_kvServer/KVServer.java:182-201 | the corrected `updateCache` keeps the server valid, caches the key with the value, changes no other cached value, and starts counting no key but the admitted one |
| Server.PutOrDeleteKV | src/app_kvServer/KVServer.java:154-178 | the corrected put: a null value leaves the key absent everywhere; any other value is stored and read back; no other cached value changes; validity is kept |
| Server.PutOrDeleteBounded | src/app_kvServer/KVServer.java:154-178 | the corrected put keeps the cache, and under FIFO the queue, within `cacheSize` under every strategy, LFU while no count has reached `Integer.MAX_VALUE` |
| Server.PutOrDeleteCounts | src/app_kvServer/KVServer.java:242 | a corrected put raises any count by at most one |
| Server.ServeAll | src/app_kvServer/KVServer.java:154-178 | a run of corrected puts and deletes keeps the server valid, and keeps its size and strategy |
| Server.ServeAllBounded | src/app_kvServer/KVServer.java:154-178 | the bound holds through a run too short for any count to reach `Integer.MAX_VALUE` |
| Server.CorrectedServerBounded | src/app_kvServer/KVServer.java:154-253 | a corrected server, built by the constructor and sent fewer than `Integer.MAX_VALUE` requests, never caches more than `cacheSize` keys, whatever its strategy |
| Server.PutAll | src/app_kvServer/KVServer.java:154-178 | a run of puts keeps the server valid |
| Server.FifoPut | src/app_kvServer/KVServer.java:206-217 | a non-null FIFO put acts on cache and queue exactly as `updateCacheFIFO` |
| Server.PutAllFifo | src/app_kvServer/KVServer.java:206-217 | a run of non-null FIFO puts is `updateCacheFIFO` applied key after key |
| Server.FifoOverflowSteps | src/app_kvServer/KVServer.java:212-217 | with cache size 1, admitting A, A, B, C leaves B and C cached |
| Server.FifoOverflowExample | src/app_kvServer/KVServer.java:212-217 | the same run as a fold: two keys cached in a cache of size 1 |
| Server.FifoOverflowServer | src/app_kvServer/KVServer.java:206-217 | a FIFO server built with size 1 and sent puts of A, A, B, C holds more keys than `cacheSize` |
| LfuOrder.CompareToZero | m1-stub/src/app_kvServer/KVServer.java:86 | `compareTo` is zero exactly for equal strings |
| LfuOrder.CompareTo | m1-stub/src/app_kvServer/KVServer.java:86 | `compareTo` is the char difference at the first position where the strings differ, and the length difference when one is a prefix of the other |
| LfuOrder.CompareToLess | m1-stub/src/app_kvServer/KVServer.java:86 | `compareTo` is negative exactly when the first string is lexicographically smaller, by an independent definition |
| LfuOrder.CompareToAntisymmetric | m1-stub/src/app_kvServer/KVServer.java:86 | swapping the arguments negates `compareTo` |
| LfuOrder.CompareToTransitive | m1-stub/src/app_kvServer/KVServer.java:86 | lexicographic order is transitive |
| LfuOrder.IntegerCompare | m1-stub/src/app_kvServer/KVServer.java:85 | `Integer.compare` is -1, 0 or 1, negative exactly for a smaller first argument and zero exactly for equal ones |
| LfuOrder.CompareMeaning | m1-stub/src/app_kvServer/KVServer.java:84-87 | the comparator is negative exactly when the first key has a lower count, or an equal count and a smaller name; zero exactly for the same key |
| LfuOrder.CompareAntisymmetric | m1-stub/src/app_kvServer/KVServer.java:84-87 | swapping the keys flips the comparator's sign |
| LfuOrder.CompareTransitive | m1-stub/src/app_kvServer/KVServer.java:84-87 | the comparator's order is transitive |
| LfuOrder.CompareTotal | m1-stub/src/app_kvServer/KVServer.java:84-87 | of two distinct tracked keys exactly one precedes the other |
| LfuOrder.Compare | m1-stub/src/app_kvServer/KVServer.java:84-87 | the comparator puts the lower count first, and is zero exactly for the same key |
| KeyQueues.RemoveFirst | m1-stub/src/app_kvServer/KVServer.java:192 | `remove(key)` cuts the queue at the first occurrence of the key and joins the two sides; a queue without the key is unchanged |
| KeyQueues.RemoveFirstDistinct | m1-stub/src/app_kvServer/KVServer.java:192 | on a queue of distinct keys the removal keeps it distinct and takes the key out entirely |
| KeyQueues.RemoveFirstAt | m1-stub/src/app_kvServer/KVServer.java:192 | in a queue of distinct keys the cut is made exactly where the key stands |
| KeyQueues.AppendDistinct | m1-stub/src/app_kvServer/KVServer.java:273-275 | offering a key the queue lacks keeps its keys distinct |
| StorageFormat.DecodeLine | m1-stub/src/app_kvServer/KVServer.java:370-373 | a loaded line gives a comma-free key and a non-empty, comma-free value; a line without a comma is skipped |
| StorageFormat.LoadLines | m1-stub/src/app_kvServer/KVServer.java:367-374 | loading never drops a key; each key keeps its stored value or gets a non-empty text value |
| StorageFormat.DecodeEncodeEntry | m1-stub/src/app_kvServer/KVServer.java:417 | a written entry decodes to its key and its value's text |
| StorageFormat.EncodeEntry | m1-stub/src/app_kvServer/KVServer.java:417 | an entry's line holds a comma, cuts at its first comma into key and value text when the key has none, and holds a line break exactly when key or value text does |
| StorageFormat.EncodeLines | m1-stub/src/app_kvServer/KVServer.java:416-419 | the save loop writes one line per key, and each line of a storable entry decodes back to that key and its value's text |
| StorageFormat.NullReloadsAsText | m1-stub/src/app_kvServer/KVServer.java:417 | a null value is written as "null" and comes back as that string |
| StorageFormat.EmptyValueNotReloaded | m1-stub/src/app_kvServer/KVServer.java:370-371 | an entry with an empty value is written but skipped on load |
| StorageFormat.LoadEncodedLines | m1-stub/src/app_kvServer/KVServer.java:367-374 | loading the written lines sets each written key to its value's text and leaves every other key alone |
| StorageFormat.LoadEncodedHead | m1-stub/src/app_kvServer/KVServer.java:367-374 | loading the first written line stores its entry, and the rest are the lines written for the remaining keys |
| StorageFormat.LoadAllEncoded | m1-stub/src/app_kvServer/KVServer.java:367-374 | loading into an empty storage the lines written for all keys gives back the map, values as text |
| StorageFormat.SaveLoadRoundTrip | m1-stub/src/app_kvServer/KVServer.java:414-424 | saving a map and loading the file into an empty storage gives back the map, values as text, when no key or value holds a comma or line break and no value is empty |
| StorageFormat.SaveText | m1-stub/src/app_kvServer/KVServer.java:414-424 | the saved file is empty exactly for an empty map and otherwise ends with a line separator |
| StorageFormat.LoadText | m1-stub/src/app_kvServer/KVServer.java:367-374 | loading an empty file changes nothing; loading never drops a key, and each key keeps its value or gets a non-empty text |
| StubServer.Init | m1-stub/src/app_kvServer/KVServer.java:70-96 | construction fails exactly when the upper-cased argument names no strategy, names None, or names a strategy whose structure refuses the size; otherwise it gives a valid server with empty storage and the file's text, the requested size and that strategy |
| StubServer.InitIgnoresCase | m1-stub/src/app_kvServer/KVServer.java:73 | any spelling that upper-cases to a strategy's name is accepted as that strategy, given a size its structures accept |
| StubServer.InitLowerCaseFifo | m1-stub/src/app_kvServer/KVServer.java:73 | "fifo" is accepted as FIFO, under a default locale that upper-cases 'i' to 'I' |
| StubServer.InitRejectsNone | m1-stub/src/app_kvServer/KVServer.java:73 | "None" upper-cases to "NONE", which names no constant, so construction fails |
| StubServer.FifoAdmit | m1-stub/src/app_kvServer/KVServer.java:243-254 | a cached key keeps queue and keys; a new key at a full, non-empty queue evicts the polled head and is queued; otherwise it is just queued |
| StubServer.FifoAdmitKeeps | m1-stub/src/app_kvServer/KVServer.java:243-254 | other cached values are unchanged |
| StubServer.FifoAdmitBounded | m1-stub/src/app_kvServer/KVServer.java:243-254 | FIFO admission keeps the queue within `cacheSize` and every cached key queued, so the cache never exceeds `cacheSize` |
| StubServer.LruTouchValid | m1-stub/src/app_kvServer/KVServer.java:98-104 | putting a present key into the access-ordered map keeps it well-formed with the same keys and makes the key most recent |
| StubServer.LruTouchInPlace | m1-stub/src/app_kvServer/KVServer.java:98-104 | the touched key moves from where it stood to the most recent end; the other keys keep their order |
| StubServer.LruInsertRoom | m1-stub/src/app_kvServer/KVServer.java:98-104 | a new key put into a map with room is appended as most recent |
| StubServer.LruInsertFull | m1-stub/src/app_kvServer/KVServer.java:99-102 | a new key put into a full map evicts exactly the eldest entry |
| StubServer.LruInsertEvicts | m1-stub/src/app_kvServer/KVServer.java:99-102 | when the grown map is too large, the eldest key leaves and the new one stays |
| StubServer.LruInsertFullValid | m1-stub/src/app_kvServer/KVServer.java:99-102 | that eviction leaves a well-formed map within `cacheSize` |
| StubServer.LruPutValid | m1-stub/src/app_kvServer/KVServer.java:257-260 | an LRU put keeps the map well-formed and within `cacheSize`, with the key most recent and holding the value |
| StubServer.LruPut | m1-stub/src/app_kvServer/KVServer.java:257-260 | `lruCache.put` makes the key the most recent, keeps every other surviving entry's value, and gives a present key the new value |
| StubServer.LruTouch | m1-stub/src/app_kvServer/KVServer.java:98-104 | a present key gets the new value and the most recent place; the key set and other values are unchanged |
| StubServer.LruInsert | m1-stub/src/app_kvServer/KVServer.java:98-104 | a new key goes to the most recent end; no key other than it appears, and surviving entries keep their values |
| StubServer.LfuEvict | m1-stub/src/app_kvServer/KVServer.java:264-270 | eviction only removes keys, from cache and counts alike, and keeps the remaining values and counts |
| StubServer.LfuInsert | m1-stub/src/app_kvServer/KVServer.java:271-275 | the key ends cached with the value, counted and queued, with every count a 32-bit int |
| StubServer.LfuAdmit | m1-stub/src/app_kvServer/KVServer.java:263-276 | the key ends cached with the value, counted and queued |
| StubServer.LfuInsertValid | m1-stub/src/app_kvServer/KVServer.java:271-275 | insertion keeps cache, counts and queue over the same distinct keys and within `cacheSize` |
| StubServer.LfuEvictValid | m1-stub/src/app_kvServer/KVServer.java:264-270 | eviction keeps the lockstep, leaves a cached key's state untouched, and makes room for a new key |
| StubServer.LfuAdmitValid | m1-stub/src/app_kvServer/KVServer.java:263-276 | LFU admission keeps the lockstep and the bound; the key's count rises by one, or is 1 for a new key |
| StubServer.LfuAdmitKeeps | m1-stub/src/app_kvServer/KVServer.java:263-276 | the value and count of every other key are unchanged |
| StubServer.DeleteValid | m1-stub/src/app_kvServer/KVServer.java:183-197 | the delete branch keeps the server valid |
| StubServer.Delete | m1-stub/src/app_kvServer/KVServer.java:183-197 | the key leaves storage and the cache, and under LFU its count; the other entries, the FIFO queue, the LRU map and the file are untouched |
| StubServer.UpdateCache | m1-stub/src/app_kvServer/KVServer.java:216-237 | admission leaves storage, size, strategy and file alone |
| StubServer.UpdateCacheValid | m1-stub/src/app_kvServer/KVServer.java:216-237 | admission keeps the server valid under every strategy |
| StubServer.UpdateCacheKeeps | m1-stub/src/app_kvServer/KVServer.java:216-237 | admission caches the key only with the value and changes no other cached value |
| StubServer.PutKV | m1-stub/src/app_kvServer/KVServer.java:178-212 | every put keeps the server valid and keeps its size and strategy |
| StubServer.PutStores | m1-stub/src/app_kvServer/KVServer.java:199-206 | a put of anything but "null" stores the value, reads back as it under every strategy, and rewrites the file from the new storage |
| StubServer.DeleteRemoves | m1-stub/src/app_kvServer/KVServer.java:183-197 | a put of "null" leaves the key neither stored nor cached nor counted nor queued, and leaves the file as it was |
| StubServer.DeleteAbsentIsNoOp | m1-stub/src/app_kvServer/KVServer.java:183-197 | deleting a key that is neither stored nor cached changes nothing |
| StubServer.FifoBounded | m1-stub/src/app_kvServer/KVServer.java:47-48 | a valid FIFO server holds at most `cacheSize` entries in memory |
| StubServer.LruNeverCaches | m1-stub/src/app_kvServer/KVServer.java:223-226 | under LRU no key is ever in the cache that `inCache` and `getKV` consult |
| StubServer.LfuPutFrequency | m1-stub/src/app_kvServer/KVServer.java:272 | under LFU a put adds one use to a cached key and starts a new key at 1 |
| StubServer.PutKeepsCoherent | m1-stub/src/app_kvServer/KVServer.java:178-212 | a put keeps cache and storage in agreement |
| StubServer.PutLeavesOtherReads | m1-stub/src/app_kvServer/KVServer.java:178-212 | while they agree, a put leaves the reads of every other key unchanged |
| StubServer.PutPersists | m1-stub/src/app_kvServer/KVServer.java:206 | after a non-delete put, loading the file into an empty storage gives back the storage map, values as text, when every entry is storable |
| StubServer.ClearCache | m1-stub/src/app_kvServer/KVServer.java:291-303 | no key stays cached; storage, file, LRU map and priority queue are kept; validity survives except under LFU with a non-empty queue |
| StubServer.ClearCacheBreaksLockstep | m1-stub/src/app_kvServer/KVServer.java:299-301 | under LFU, clearing with keys queued leaves queued keys without a count: the state is not valid |
| StubServer.ClearCacheAll | m1-stub/src/app_kvServer/KVServer.java:291-303 | the corrected clear also empties the priority queue and keeps every valid state valid |
| StubServer.ClearStorage | m1-stub/src/app_kvServer/KVServer.java:305-310 | storage is emptied; cache and file are kept; validity survives |
| StubServer.LoadData | m1-stub/src/app_kvServer/KVServer.java:351-382 | loading keeps every key already stored and keeps the server valid |
| StubServer.RestartRestores | m1-stub/src/app_kvServer/KVServer.java:327 | a server started on the file a put left behind loads that put's storage map, values as text |

## Left out

- Sockets, threads, `ClientHandler`, the accept loop, `run`, `close`, `kill`, `getPort` and `getHostname` are not modelled: they are I/O and concurrency. Each request is one atomic step.
- Logging and the catch-and-rethrow around `putKV` are not modelled: they change no state.
- StorageFormat.SaveText: the file text is assumed to be encoded without loss, as with a UTF-8 default charset. `FileWriter` and `FileReader` use the platform's default charset; before Java 18 that depends on the platform, and the writer replaces characters it cannot encode with '?'. The round trips `StorageFormat.SaveLoadRoundTrip`, `StubServer.PutPersists` and `StubServer.RestartRestores` hold only for text that the charset encodes.
- File I/O is modelled as text. `persisted` holds the text of `kvstorage.txt`. A missing file reads as empty. A failed write is not modelled.
- The `HashMap` iteration order is modelled as an arbitrary but fixed enumeration of the keys (`Java.IterationOrder`), because Java leaves it unspecified. The members that depend on it are ghost: `Server.LruAdmit`, `Server.LeastFrequentKey` and `StorageFormat.SaveText`.
- `IKVServer.java` and `KVMessage.java` are not part of this model, so the enum constants are reconstructed:
  - `CacheStrategy`: FIFO, LRU, LFU and None, the names the two servers test against.
  - `StatusType`: GET and PUT are the request statuses `KVStore.java` sends. GET_SUCCESS, GET_ERROR, PUT_SUCCESS, PUT_UPDATE, PUT_ERROR and DELETE_SUCCESS are the response statuses the test files compare against; PUT_ERROR only in a commented-out assertion.
  - `StatusType`: DELETE_ERROR occurs in no Java file of the model. It is kept because the protocol's response statuses give every operation an error status.
- StubServer.LfuEvict: the evicted key is any queued key, chosen by the `poll` parameter, not the comparator's least key. The stub raises counts of keys already in the `PriorityBlockingQueue`, so its heap order goes stale and what `poll` returns depends on the heap layout. The comparator itself is modelled and proved a strict total order in `LfuOrder`.
- StubServer.PutKV: requires a valid state, so a put after `clearCache` under LFU with keys still queued is not modelled. That put throws a `NullPointerException` in the comparator (see Findings).
- Server.LfuPutBounded: requires every count below `Integer.MAX_VALUE`. At that count the scan finds no victim, `cache.remove(null)` removes nothing, and the cache grows by one.
- LfuOrder.CompareTo: compares code points; Java compares UTF-16 units, so keys with characters beyond U+FFFF order differently.
- JavaText.WriteLines: writes "\n" for `newLine()`; Java writes `System.lineSeparator()`, which is "\r\n" on Windows. `readLine` accepts both, so the file still reads back the same.
- StubServer.Init: upper-cases ASCII letters only, and assumes a default locale that upper-cases 'i' to 'I'. Java's `toUpperCase` also maps some non-ASCII letters, for example the dotless i, to ASCII capitals. Under a Turkish or Azeri default locale it maps "fifo" to "FİFO" (with U+0130), which names no strategy, so construction fails.
- The stub's `findLeastFrequentKeyLFU` is not modelled separately: nothing calls it. The current server's copy is `Server.FindLeastFrequent`.
- The client's `sendMessage`, `receiveMessage`, `connect` and `disconnect` are not modelled: they are socket I/O. Only `formatMessage` and `parseMessage` are.
- Server.CorrectedServerBounded: requires fewer than `Integer.MAX_VALUE` requests, so that no LFU count can reach that value and stop the scan from finding a victim.
- Server.FifoOverflowServer: shows the FIFO overflow with cache size 1 (puts of A, A, B, C). That is the smallest run that shows it.

## Findings

| source | as written | input that shows it | evidently intended | confidence | as-written member | corrected member |
|---|---|---|---|---|---|---|
| src/app_kvServer/KVServer.java:158-166 | the delete branch removes the key, then falls through to `storage.put(key, null)` and re-admits the key to the cache | `putKV(k, null)` on any server | a delete returns after removing the key, as the stub's does; the corrected delete also drops the key's LFU count, so cache and counts stay over the same keys | high; not executed | Server.DeleteLeavesNullEntry | Server.PutOrDeleteKV |
| src/app_kvServer/KVServer.java:212-217 | FIFO appends the key to the queue even when it is already cached; later evictions poll keys that are already gone, and the cache outgrows `cacheSize` | cache size 1, FIFO, puts of A, A, B, C: B and C both stay cached | the cache never holds more than `cacheSize` keys | high; not executed | Server.FifoOverflowServer | Server.CorrectedServerBounded |
| m1-stub/src/app_kvServer/KVServer.java:291-303 | under LFU, `clearCache` empties the counts but not the priority queue; the next `offer` compares against a key with no count and unboxes null | LFU, put A, `clearCache`, put B | the queue is emptied with the counts | medium; not executed | StubServer.ClearCacheBreaksLockstep | StubServer.ClearCacheAll |
