/** The stub version of the key-value server. Like the current one it
    keeps a storage map and a cache, but a delete is a put of the text
    "null", FIFO does not re-queue cached keys, LRU keeps its own
    access-ordered map beside the cache, LFU keeps its keys in a priority
    queue, and every other put writes the whole storage map to a file. */
module StubServer {
  import opened Java
  import opened JavaText
  import opened Store
  import opened KeyQueues
  import opened StorageFormat

  /** An access-ordered `LinkedHashMap`: the keys from eldest to most
      recently used, and the map itself. */
  datatype LinkedMap = LinkedMap(order: seq<string>, values: Table)

  /** The fields of the stub server that requests touch. `persisted` is the
      text of the storage file. */
  datatype State = State(
    cacheSize: int,
    strategy: CacheStrategy,
    storage: Table,
    cache: Option<Table>,
    fifoQueue: seq<string>,
    accessFrequency: map<string, int>,
    lruCache: LinkedMap,
    lfuQueue: seq<string>,
    persisted: string)

  /** FIFO: the queue is no longer than the cache may be, and holds every
      cached key. */
  predicate FifoValid(cache: Table, queue: seq<string>, cacheSize: int)
  {
    |queue| <= cacheSize && forall key :: key in cache ==> key in queue
  }

  /** LRU: the order lists each key of the map once, and the map is within
      bounds. */
  predicate LruValid(m: LinkedMap, cacheSize: int)
  {
    && Distinct(m.order)
    && (forall key :: key in m.order ==> key in m.values)
    && (forall key :: key in m.values ==> key in m.order)
    && |m.values| <= cacheSize
  }

  /** LFU: cache, frequency map and priority queue hold the same keys, each
      once, and the cache is within bounds. */
  predicate LfuValid(cache: Table, freq: map<string, int>, queue: seq<string>, cacheSize: int)
  {
    Lockstep(cache, freq, queue) && |cache| <= cacheSize
  }

  /** What holds of every state the stub server reaches by puts, reads and
      `clearStorage`. */
  predicate Valid(s: State)
  {
    && IsInt(s.cacheSize)
    && s.strategy != NoCache
    && (s.cache.Some? <==> s.cacheSize > 0)
    && (forall key :: key in s.accessFrequency ==> IsInt(s.accessFrequency[key]))
    && (s.strategy == FIFO && s.cache.Some? ==> FifoValid(s.cache.value, s.fifoQueue, s.cacheSize))
    && (s.strategy == LRU ==> (s.cache.Some? ==> s.cache.value == map[]) && LruValid(s.lruCache, s.cacheSize))
    && (s.strategy == LFU ==>
          s.cache.Some? && LfuValid(s.cache.value, s.accessFrequency, s.lfuQueue, s.cacheSize))
  }

  /** The sizes a strategy's structures accept: LFU's priority queue
      needs a capacity of at least 1, LRU's map one of at least 0, and
      None is never reached through the upper-cased name. */
  predicate Accepts(strategy: CacheStrategy, cacheSize: int)
  {
    strategy != NoCache && (strategy == LFU ==> cacheSize >= 1) && (strategy == LRU ==> cacheSize >= 0)
  }

  /** `new KVServer(port, cacheSize, strategy)`: the strategy name is
      upper-cased and must then name a constant, or `valueOf` throws. LFU
      builds its priority queue with capacity `cacheSize`, which throws
      below 1; LRU builds its map with capacity `cacheSize`, which throws
      below 0. `file` is what the storage file holds. */
  function Init(cacheSize: int, strategy: string, file: string): (r: Option<State>)
    requires IsInt(cacheSize)
    ensures r.Some? ==> Valid(r.value) && r.value.storage == map[] && r.value.persisted == file
    ensures r.Some? ==> r.value.cacheSize == cacheSize && r.value.strategy.Name() == ToUpperAscii(strategy)
    ensures r.Some? ==> (r.value.cache.Some? <==> cacheSize > 0)
    ensures r.Some? <==>
      StrategyValueOf(ToUpperAscii(strategy)).Some? && Accepts(StrategyValueOf(ToUpperAscii(strategy)).value, cacheSize)
  {
    match StrategyValueOf(ToUpperAscii(strategy))
    case None => None
    case Some(st) =>
      if !Accepts(st, cacheSize) then None
      else
        Some(State(cacheSize, st, map[], if cacheSize > 0 then Some(map[]) else None,
                   [], map[], LinkedMap([], map[]), [], file))
  }

  /** Any spelling of a strategy's name that upper-cases to it is
      accepted, given a size the strategy's structures accept. */
  lemma InitIgnoresCase(cacheSize: int, strategy: CacheStrategy, name: string, file: string)
    requires IsInt(cacheSize) && Accepts(strategy, cacheSize)
    requires ToUpperAscii(name) == strategy.Name()
    ensures Init(cacheSize, name, file).Some?
    ensures Init(cacheSize, name, file).value.strategy == strategy
  {
    StrategyValueOfName(strategy);
  }

  /** "fifo" in lower case builds a FIFO server, under a default locale
      that upper-cases 'i' to 'I' (not Turkish or Azeri). */
  lemma InitLowerCaseFifo(file: string)
    ensures Init(1, "fifo", file).Some? && Init(1, "fifo", file).value.strategy == FIFO
  {
    var upper := ToUpperAscii("fifo");
    assert upper == "FIFO";
    InitIgnoresCase(1, FIFO, "fifo", file);
  }

  /** The name "None" is upper-cased to "NONE", which names no constant:
      the stub can never run without a strategy. */
  lemma InitRejectsNone(cacheSize: int, file: string)
    requires IsInt(cacheSize)
    ensures Init(cacheSize, "None", file).None?
  {
    var upper := ToUpperAscii("None");
    assert upper[1] != 'o';
  }

  /** `inStorage(key)`: a key that is not stored reads as null from
      storage, and while cache and storage agree every key that reads
      non-null is stored. */
  predicate InStorage(s: State, key: string): (r: bool)
    ensures !r ==> Lookup(s.storage, key).None?
    ensures Coherent(s.cache, s.storage) && Read(s.cache, s.storage, key).Some? ==> r
  {
    key in s.storage
  }

  /** `inCache(key)`: only a server with a cache caches anything, a
      cached non-null value is what a read answers, and the LRU strategy,
      which never writes that cache, caches nothing. */
  predicate InCache(s: State, key: string): (r: bool)
    ensures r ==> s.cache.Some?
    ensures s.cache.Some? && Lookup(s.cache.value, key).Some? ==>
      r && Read(s.cache, s.storage, key) == Lookup(s.cache.value, key)
    ensures Valid(s) && s.strategy == LRU ==> !r
  {
    s.cache.Some? && key in s.cache.value
  }

  /** `getKV(key)`: the same read path as the current server. */
  function GetKV(s: State, key: string): (r: JString)
    ensures Coherent(s.cache, s.storage) ==> r == Lookup(s.storage, key)
    ensures Valid(s) && s.strategy == LRU ==> r == Lookup(s.storage, key)
    ensures r.Some? ==> InCache(s, key) || InStorage(s, key)
  {
    Read(s.cache, s.storage, key)
  }

  /** `updateCacheFIFO`: a key not cached while the queue is at least
      `cacheSize` long first evicts the key polled from the queue head (a
      poll of an empty queue yields null, and removing null does nothing);
      a key not cached is then queued; the value is cached either way. */
  function FifoAdmit(cache: Table, queue: seq<string>, cacheSize: int, key: string, value: JString)
    : (r: (Table, seq<string>))
    ensures key in r.0 && r.0[key] == value
    ensures key in cache ==> r.1 == queue && r.0.Keys == cache.Keys
    ensures key !in cache && |queue| >= cacheSize && queue != [] ==>
      r.1 == queue[1..] + [key] && r.0.Keys == cache.Keys - {queue[0]} + {key}
    ensures key !in cache && (|queue| < cacheSize || queue == []) ==>
      r.1 == queue + [key] && r.0.Keys == cache.Keys + {key}
  {
    var (evicted, rest) :=
      if |queue| >= cacheSize && key !in cache && queue != [] then (cache - {queue[0]}, queue[1..])
      else (cache, queue);
    var queued := if key !in evicted then rest + [key] else rest;
    (evicted[key := value], queued)
  }

  /** FIFO admission leaves every other cached value alone. */
  lemma FifoAdmitKeeps(cache: Table, queue: seq<string>, cacheSize: int, key: string, value: JString)
    ensures var r := FifoAdmit(cache, queue, cacheSize, key, value);
      forall x :: x in r.0 && x != key ==> x in cache && r.0[x] == cache[x]
  {
  }

  /** FIFO admission keeps the queue within `cacheSize` and every cached key
      queued, and so the cache itself within `cacheSize`: the promise the
      constructor's documentation makes. */
  lemma FifoAdmitBounded(cache: Table, queue: seq<string>, cacheSize: int, key: string, value: JString)
    requires cacheSize > 0 && FifoValid(cache, queue, cacheSize)
    ensures var r := FifoAdmit(cache, queue, cacheSize, key, value);
      FifoValid(r.0, r.1, cacheSize) && |r.0| <= cacheSize
  {
    var r := FifoAdmit(cache, queue, cacheSize, key, value);
    assert FifoValid(r.0, r.1, cacheSize) by {
      if key !in cache && |queue| >= cacheSize {
        assert queue == [queue[0]] + queue[1..];
      }
    }
    CardAtMostLength(r.0.Keys, r.1);
  }

  /** `lruCache.put(key, value)` on an access-ordered `LinkedHashMap` whose
      `removeEldestEntry` answers `size() > cacheSize`: a present key gets
      the new value and moves to the most recent end; a new key is
      appended, and if the map is then too large its eldest entry goes. */
  function LruPut(m: LinkedMap, cacheSize: int, key: string, value: JString): (r: LinkedMap)
    ensures r.order != [] ==> r.order[|r.order| - 1] == key
    ensures forall x :: x in r.values && x != key ==> x in m.values && r.values[x] == m.values[x]
    ensures key in m.values ==> key in r.values && r.values[key] == value
  {
    if key in m.values then LruTouch(m, key, value) else LruInsert(m, cacheSize, key, value)
  }

  /** The put of a present key: new value, most recent place. */
  function LruTouch(m: LinkedMap, key: string, value: JString): (r: LinkedMap)
    ensures r.order != [] && r.order[|r.order| - 1] == key
    ensures r.values.Keys == m.values.Keys + {key} && r.values[key] == value
    ensures forall x :: x in r.values && x != key ==> r.values[x] == m.values[x]
  {
    LinkedMap(RemoveFirst(m.order, key) + [key], m.values[key := value])
  }

  /** The put of a new key, and the eviction of the eldest entry when the
      map has outgrown `cacheSize`. */
  function LruInsert(m: LinkedMap, cacheSize: int, key: string, value: JString): (r: LinkedMap)
    ensures r.order != [] ==> r.order[|r.order| - 1] == key
    ensures r.values.Keys <= m.values.Keys + {key}
    ensures forall x :: x in r.values && x != key ==> r.values[x] == m.values[x]
  {
    var grown := LinkedMap(m.order + [key], m.values[key := value]);
    if |grown.values| > cacheSize then
      LinkedMap(grown.order[1..], grown.values - {grown.order[0]})
    else grown
  }

  /** Touching a present key keeps the map valid, the same keys, and the
      key most recent with its new value. */
  lemma LruTouchValid(m: LinkedMap, cacheSize: int, key: string, value: JString)
    requires LruValid(m, cacheSize) && key in m.values
    ensures var r := LruTouch(m, key, value);
      LruValid(r, cacheSize) && r.order[|r.order| - 1] == key && r.values.Keys == m.values.Keys
  {
    RemoveFirstDistinct(m.order, key);
    AppendDistinct(RemoveFirst(m.order, key), key);
    assert m.values[key := value].Keys == m.values.Keys;
  }

  /** Touching moves the key from wherever it stood to the most recent
      end; the other keys keep their relative order. */
  lemma LruTouchInPlace(m: LinkedMap, key: string, value: JString, i: int)
    requires Distinct(m.order) && 0 <= i < |m.order| && m.order[i] == key
    ensures LruTouch(m, key, value).order == m.order[..i] + m.order[i + 1..] + [key]
  {
    RemoveFirstAt(m.order, key, i);
  }

  /** Inserting a new key into a map with room appends it. */
  lemma LruInsertRoom(m: LinkedMap, cacheSize: int, key: string, value: JString)
    requires LruValid(m, cacheSize) && key !in m.values && |m.values| < cacheSize
    ensures var r := LruInsert(m, cacheSize, key, value);
      LruValid(r, cacheSize) && r.order == m.order + [key]
  {
    AppendDistinct(m.order, key);
    CardAdd(m.values, key, value);
  }

  /** Inserting a new key into a full map drops exactly its eldest entry. */
  lemma LruInsertFull(m: LinkedMap, cacheSize: int, key: string, value: JString)
    requires cacheSize >= 1 && LruValid(m, cacheSize) && key !in m.values && |m.values| == cacheSize
    ensures var r := LruInsert(m, cacheSize, key, value);
      r.order == m.order[1..] + [key] && r.values == (m.values - {m.order[0]})[key := value]
  {
    var values := m.values[key := value];
    assert |values| > cacheSize by {
      CardAdd(m.values, key, value);
    }
    assert m.order != [] by {
      DistinctCard(m.order, m.values.Keys);
    }
    assert m.order[0] != key;
    LruInsertEvicts(m, cacheSize, key, value);
  }

  /** Once the grown map is too large, the insertion removes the key at the
      head of the order, which is not the inserted one. */
  lemma LruInsertEvicts(m: LinkedMap, cacheSize: int, key: string, value: JString)
    requires m.order != [] && m.order[0] != key && |m.values[key := value]| > cacheSize
    ensures var r := LruInsert(m, cacheSize, key, value);
      r.order == m.order[1..] + [key] && r.values == (m.values - {m.order[0]})[key := value]
  {
    var eldest := m.order[0];
    assert (m.order + [key])[0] == eldest && (m.order + [key])[1..] == m.order[1..] + [key];
    assert m.values[key := value] - {eldest} == (m.values - {eldest})[key := value];
  }

  /** What the full-map insertion leaves is a valid map again. */
  lemma LruInsertFullValid(m: LinkedMap, cacheSize: int, key: string, value: JString)
    requires cacheSize >= 1 && LruValid(m, cacheSize) && key !in m.values && |m.values| == cacheSize
    ensures LruValid(LruInsert(m, cacheSize, key, value), cacheSize)
  {
    LruInsertFull(m, cacheSize, key, value);
    var values := (m.values - {m.order[0]})[key := value];
    var order := m.order[1..] + [key];
    assert m.order == [m.order[0]] + m.order[1..] && m.order[0] !in m.order[1..] by {
      DistinctCons(m.order[0], m.order[1..]);
    }
    assert Distinct(order) by {
      DistinctCons(m.order[0], m.order[1..]);
      AppendDistinct(m.order[1..], key);
    }
    assert forall k :: k in order ==> k in values;
    assert forall k :: k in values ==> k in order;
    assert |values| <= cacheSize by {
      CardRemove(m.values, m.order[0]);
      CardAdd(m.values - {m.order[0]}, key, value);
    }
  }

  /** An LRU put keeps the map valid and within `cacheSize` and makes the
      key the most recently used, with the new value. */
  lemma LruPutValid(m: LinkedMap, cacheSize: int, key: string, value: JString)
    requires cacheSize >= 1 && LruValid(m, cacheSize)
    ensures var r := LruPut(m, cacheSize, key, value);
      LruValid(r, cacheSize) && r.order[|r.order| - 1] == key && key in r.values && r.values[key] == value
  {
    if key in m.values {
      LruTouchValid(m, cacheSize, key, value);
    } else if |m.values| < cacheSize {
      LruInsertRoom(m, cacheSize, key, value);
    } else {
      LruInsertFullValid(m, cacheSize, key, value);
    }
  }

  /** Cache, frequency map and priority queue hold the same keys, the queue
      each of them once. */
  predicate Lockstep(cache: Table, freq: map<string, int>, queue: seq<string>)
  {
    && cache.Keys == freq.Keys
    && (forall key :: key in freq ==> key in queue)
    && (forall key :: key in queue ==> key in freq)
    && Distinct(queue)
  }

  /** The first half of `updateCacheLFU`: a key not cached arriving at a
      full cache evicts whatever the priority queue's `poll` hands out, from
      cache and frequency map alike. Heap order is not maintained once
      frequencies change under it, so the model takes the polled element
      as a parameter: the queue's element at position `poll` modulo its
      length. An empty queue polls null, and nothing is evicted. */
  function LfuEvict(cache: Table, freq: map<string, int>, queue: seq<string>,
                    cacheSize: int, key: string, poll: nat)
    : (r: (Table, map<string, int>, seq<string>))
    ensures r.0.Keys <= cache.Keys && r.1.Keys <= freq.Keys
    ensures forall x :: x in r.0 ==> r.0[x] == cache[x]
    ensures forall x :: x in r.1 ==> r.1[x] == freq[x]
  {
    if |cache| >= cacheSize && key !in cache && queue != [] then
      var victim := queue[poll % |queue|];
      (cache - {victim}, freq - {victim}, RemoveFirst(queue, victim))
    else (cache, freq, queue)
  }

  /** `updateCacheLFU`: the eviction, then the insertion. */
  function LfuAdmit(cache: Table, freq: map<string, int>, queue: seq<string>,
                    cacheSize: int, key: string, value: JString, poll: nat)
    : (r: (Table, map<string, int>, seq<string>))
    requires forall x :: x in freq ==> IsInt(freq[x])
    ensures key in r.0 && r.0[key] == value && key in r.1 && key in r.2
    ensures forall x :: x in r.1 ==> IsInt(r.1[x])
  {
    var e := LfuEvict(cache, freq, queue, cacheSize, key, poll);
    LfuInsert(e.0, e.1, e.2, key, value)
  }

  /** The second half of `updateCacheLFU`: the key is cached with the
      value, its frequency goes up by one from its current count or from 0,
      and it is offered to the queue unless the queue holds it already. */
  function LfuInsert(cache: Table, freq: map<string, int>, queue: seq<string>, key: string, value: JString)
    : (r: (Table, map<string, int>, seq<string>))
    requires forall x :: x in freq ==> IsInt(freq[x])
    ensures key in r.0 && r.0[key] == value && key in r.1 && key in r.2
    ensures forall x :: x in r.1 ==> IsInt(r.1[x])
  {
    var count := if key in freq then freq[key] else 0;
    (cache[key := value], freq[key := IntInc(count)], if key in queue then queue else queue + [key])
  }

  /** The insertion keeps the lockstep, and the cache within `cacheSize`
      when there was room for the key or it was cached already. */
  lemma LfuInsertValid(cache: Table, freq: map<string, int>, queue: seq<string>,
                       cacheSize: int, key: string, value: JString)
    requires Lockstep(cache, freq, queue) && |cache| <= cacheSize && (key in cache || |cache| < cacheSize)
    requires forall x :: x in freq ==> IsInt(freq[x])
    ensures var r := LfuInsert(cache, freq, queue, key, value);
      LfuValid(r.0, r.1, r.2, cacheSize)
  {
    var r := LfuInsert(cache, freq, queue, key, value);
    if key !in cache {
      assert key !in queue;
      assert Distinct(r.2) by {
        AppendDistinct(queue, key);
      }
      assert r.0.Keys == cache.Keys + {key};
      assert r.1.Keys == freq.Keys + {key};
      assert forall x :: x in r.2 <==> x in queue || x == key;
    } else {
      assert r.0.Keys == cache.Keys;
      assert r.1.Keys == freq.Keys;
    }
  }

  /** The eviction keeps the lockstep and leaves room for a key not
      cached; a cached key is left where it is. */
  lemma LfuEvictValid(cache: Table, freq: map<string, int>, queue: seq<string>,
                      cacheSize: int, key: string, poll: nat)
    requires cacheSize >= 1 && Lockstep(cache, freq, queue) && |cache| <= cacheSize
    ensures var r := LfuEvict(cache, freq, queue, cacheSize, key, poll);
      Lockstep(r.0, r.1, r.2) && (key in cache ==> r == (cache, freq, queue))
    ensures var r := LfuEvict(cache, freq, queue, cacheSize, key, poll);
      key !in cache ==> key !in r.0 && |r.0| < cacheSize
  {
    if |cache| >= cacheSize && key !in cache {
      assert queue != [] by {
        var x :| x in cache;
        assert x in queue;
      }
      var victim := queue[poll % |queue|];
      RemoveFirstDistinct(queue, victim);
      CardRemove(cache, victim);
    }
  }

  /** LFU admission keeps cache, frequencies and queue in lockstep and the
      cache within `cacheSize`; the key's count rises by one, or starts at
      1 for a key not cached. */
  lemma LfuAdmitValid(cache: Table, freq: map<string, int>, queue: seq<string>,
                      cacheSize: int, key: string, value: JString, poll: nat)
    requires cacheSize >= 1 && LfuValid(cache, freq, queue, cacheSize)
    requires forall x :: x in freq ==> IsInt(freq[x])
    ensures var r := LfuAdmit(cache, freq, queue, cacheSize, key, value, poll);
      LfuValid(r.0, r.1, r.2, cacheSize)
    ensures var r := LfuAdmit(cache, freq, queue, cacheSize, key, value, poll);
      r.1[key] == if key in cache then IntInc(freq[key]) else 1
  {
    LfuEvictValid(cache, freq, queue, cacheSize, key, poll);
    var e := LfuEvict(cache, freq, queue, cacheSize, key, poll);
    LfuInsertValid(e.0, e.1, e.2, cacheSize, key, value);
  }

  /** LFU admission leaves every other key's value and count alone, except
      the one the poll evicts. */
  lemma LfuAdmitKeeps(cache: Table, freq: map<string, int>, queue: seq<string>,
                      cacheSize: int, key: string, value: JString, poll: nat)
    requires forall x :: x in freq ==> IsInt(freq[x])
    ensures var r := LfuAdmit(cache, freq, queue, cacheSize, key, value, poll);
      forall x :: x in r.0 && x != key ==> x in cache && r.0[x] == cache[x]
    ensures var r := LfuAdmit(cache, freq, queue, cacheSize, key, value, poll);
      forall x :: x in r.1 && x != key ==> x in freq && r.1[x] == freq[x]
  {
  }

  /** The delete branch of `putKV`, taken when the value is the text
      "null": the key leaves storage; if it is cached it leaves the cache,
      and under LFU the frequency map and the priority queue too. The
      method returns before saving, so the file is not rewritten. */
  function Delete(s: State, key: string): (r: State)
    ensures r.storage == s.storage - {key} && !InStorage(r, key) && !InCache(r, key)
    ensures r.cache.Some? == s.cache.Some?
    ensures r.cache.Some? ==> forall x :: x in r.cache.value <==> x in s.cache.value && x != key
    ensures s.strategy == LFU && InCache(s, key) ==> key !in r.accessFrequency
    ensures r.persisted == s.persisted && r.strategy == s.strategy && r.cacheSize == s.cacheSize
    ensures r.fifoQueue == s.fifoQueue && r.lruCache == s.lruCache
  {
    var cached := s.cache.Some? && key in s.cache.value;
    var tracked := cached && s.strategy == LFU && key in s.accessFrequency;
    s.(storage := s.storage - {key},
       cache := if cached then Some(s.cache.value - {key}) else s.cache,
       accessFrequency := if tracked then s.accessFrequency - {key} else s.accessFrequency,
       lfuQueue := if tracked then RemoveFirst(s.lfuQueue, key) else s.lfuQueue)
  }

  /** A delete keeps the state valid. */
  lemma DeleteValid(s: State, key: string)
    requires Valid(s)
    ensures Valid(Delete(s, key))
  {
    var t := Delete(s, key);
    if s.strategy == LFU && key in s.cache.value {
      RemoveFirstDistinct(s.lfuQueue, key);
      assert t.cache.value.Keys == s.cache.value.Keys - {key};
      CardRemove(s.cache.value, key);
    }
  }

  /** `updateCache`: the strategy's admission on a state that has a cache.
      LRU writes only its own map, never the cache `getKV` reads. */
  function UpdateCache(s: State, key: string, value: JString, poll: nat): (t: State)
    requires s.cache.Some?
    requires forall x :: x in s.accessFrequency ==> IsInt(s.accessFrequency[x])
    ensures t.storage == s.storage && t.cacheSize == s.cacheSize && t.strategy == s.strategy
    ensures t.persisted == s.persisted && t.cache.Some?
  {
    match s.strategy
    case FIFO =>
      var r := FifoAdmit(s.cache.value, s.fifoQueue, s.cacheSize, key, value);
      s.(cache := Some(r.0), fifoQueue := r.1)
    case LRU =>
      s.(lruCache := LruPut(s.lruCache, s.cacheSize, key, value))
    case LFU =>
      var r := LfuAdmit(s.cache.value, s.accessFrequency, s.lfuQueue, s.cacheSize, key, value, poll);
      s.(cache := Some(r.0), accessFrequency := r.1, lfuQueue := r.2)
    case NoCache => s
  }

  /** Admission keeps the state valid under every strategy. */
  lemma UpdateCacheValid(s: State, key: string, value: JString, poll: nat)
    requires Valid(s) && s.cache.Some?
    ensures Valid(UpdateCache(s, key, value, poll))
  {
    match s.strategy
    case FIFO => FifoAdmitBounded(s.cache.value, s.fifoQueue, s.cacheSize, key, value);
    case LRU => LruPutValid(s.lruCache, s.cacheSize, key, value);
    case LFU => LfuAdmitValid(s.cache.value, s.accessFrequency, s.lfuQueue, s.cacheSize, key, value, poll);
    case NoCache =>
  }

  /** `putKV(key, value)`. The text "null" deletes. Any other value, null
      included, is stored, admitted to the cache when there is one, and
      then the whole storage map is written to the file. `poll` stands for
      the element an LFU eviction polls. */
  ghost function PutKV(s: State, key: string, value: JString, poll: nat): (t: State)
    requires Valid(s)
    ensures Valid(t)
    ensures t.cacheSize == s.cacheSize && t.strategy == s.strategy
  {
    if value == Some("null") then
      DeleteValid(s, key);
      Delete(s, key)
    else
      var stored := s.(storage := s.storage[key := value]);
      var updated :=
        if stored.cache.Some? then
          UpdateCacheValid(stored, key, value, poll);
          UpdateCache(stored, key, value, poll)
        else stored;
      updated.(persisted := SaveText(updated.storage))
  }

  /** A put of anything but "null" stores the value, a read of the key
      then answers it under every strategy, and the file is rewritten from
      the new storage map. */
  lemma PutStores(s: State, key: string, value: JString, poll: nat)
    requires Valid(s) && value != Some("null")
    ensures var t := PutKV(s, key, value, poll);
      t.storage == s.storage[key := value] && GetKV(t, key) == value
    ensures var t := PutKV(s, key, value, poll); t.persisted == SaveText(t.storage)
  {
  }

  /** A put of "null" removes the key from storage and cache, and under
      LFU from the frequency map and the queue, and leaves the file as it
      was. */
  lemma DeleteRemoves(s: State, key: string, poll: nat)
    requires Valid(s)
    ensures var t := PutKV(s, key, Some("null"), poll);
      !InStorage(t, key) && !InCache(t, key) && GetKV(t, key).None? && t.persisted == s.persisted
    ensures var t := PutKV(s, key, Some("null"), poll);
      s.strategy == LFU ==> key !in t.accessFrequency && key !in t.lfuQueue
  {
    if s.strategy == LFU && key in s.cache.value {
      RemoveFirstDistinct(s.lfuQueue, key);
    }
  }

  /** Deleting a key that is neither stored nor cached changes nothing. */
  lemma DeleteAbsentIsNoOp(s: State, key: string, poll: nat)
    requires Valid(s) && !InStorage(s, key) && !InCache(s, key)
    ensures PutKV(s, key, Some("null"), poll) == s
  {
    assert s.storage - {key} == s.storage;
  }

  /** Every FIFO state the server reaches holds at most `cacheSize` keys in
      its cache. */
  lemma FifoBounded(s: State)
    requires Valid(s) && s.strategy == FIFO && s.cache.Some?
    ensures |s.cache.value| <= s.cacheSize
  {
    CardAtMostLength(s.cache.value.Keys, s.fifoQueue);
  }

  /** Under LRU nothing is ever cached where `getKV` and `inCache` look. */
  lemma LruNeverCaches(s: State, key: string, value: JString, poll: nat, other: string)
    requires Valid(s) && s.strategy == LRU
    ensures !InCache(PutKV(s, key, value, poll), other)
  {
  }

  /** Under LFU a put of anything but "null" adds one use to a cached key
      and starts a new key at 1. */
  lemma LfuPutFrequency(s: State, key: string, value: JString, poll: nat)
    requires Valid(s) && s.strategy == LFU && value != Some("null")
    ensures var t := PutKV(s, key, value, poll);
      key in t.accessFrequency &&
      t.accessFrequency[key] == if key in s.cache.value then IntInc(s.accessFrequency[key]) else 1
  {
    LfuAdmitValid(s.cache.value, s.accessFrequency, s.lfuQueue, s.cacheSize, key, value, poll);
  }

  /** Admission caches the key with its value and changes no other cached
      entry; it may only drop some. */
  lemma UpdateCacheKeeps(s: State, key: string, value: JString, poll: nat)
    requires Valid(s) && s.cache.Some?
    ensures forall x :: x in UpdateCache(s, key, value, poll).cache.value && x != key ==>
      x in s.cache.value && UpdateCache(s, key, value, poll).cache.value[x] == s.cache.value[x]
    ensures key in UpdateCache(s, key, value, poll).cache.value ==>
      UpdateCache(s, key, value, poll).cache.value[key] == value
  {
    match s.strategy
    case FIFO => FifoAdmitKeeps(s.cache.value, s.fifoQueue, s.cacheSize, key, value);
    case LRU =>
    case LFU => LfuAdmitKeeps(s.cache.value, s.accessFrequency, s.lfuQueue, s.cacheSize, key, value, poll);
  }

  /** A put keeps cache and storage in agreement. */
  lemma PutKeepsCoherent(s: State, key: string, value: JString, poll: nat)
    requires Valid(s) && Coherent(s.cache, s.storage)
    ensures Coherent(PutKV(s, key, value, poll).cache, PutKV(s, key, value, poll).storage)
  {
    if value != Some("null") && s.cache.Some? {
      var stored := s.(storage := s.storage[key := value]);
      var u := UpdateCache(stored, key, value, poll);
      assert PutKV(s, key, value, poll).cache == u.cache;
      assert PutKV(s, key, value, poll).storage == s.storage[key := value];
      UpdateCacheKeeps(stored, key, value, poll);
      AdmitKeepsCoherent(s.cache.value, s.storage, u.cache.value, key, value);
    }
  }

  /** While cache and storage agree, a put leaves the reads of every other
      key as they were; with `PutStores`, a key keeps reading as its last
      put value whatever happens to its cache entry. */
  lemma PutLeavesOtherReads(s: State, key: string, value: JString, poll: nat, other: string)
    requires Valid(s) && Coherent(s.cache, s.storage)
    requires other != key
    ensures GetKV(PutKV(s, key, value, poll), other) == GetKV(s, other)
  {
    PutKeepsCoherent(s, key, value, poll);
    var t := PutKV(s, key, value, poll);
    CoherentReadIsStorage(s.cache, s.storage, other);
    CoherentReadIsStorage(t.cache, t.storage, other);
  }

  /** After a put of anything but "null", the file holds the storage map:
      loading it into an empty storage gives the map back, values as text,
      provided every entry is storable. */
  lemma PutPersists(s: State, key: string, value: JString, poll: nat)
    requires Valid(s) && value != Some("null")
    requires var t := PutKV(s, key, value, poll); forall k :: k in t.storage ==> Storable(k, t.storage[k])
    ensures var t := PutKV(s, key, value, poll); LoadText(map[], t.persisted) == Reloaded(t.storage)
  {
    PutStores(s, key, value, poll);
    SaveLoadRoundTrip(PutKV(s, key, value, poll).storage);
  }

  /** `clearCache`: the cache is emptied, and the FIFO queue and the
      frequency map with it; the LFU priority queue and the LRU map are
      left as they were. */
  function ClearCache(s: State): (t: State)
    ensures t.storage == s.storage && t.persisted == s.persisted
    ensures forall key :: !InCache(t, key)
    ensures t.lfuQueue == s.lfuQueue && t.lruCache == s.lruCache
    ensures Valid(s) && (s.strategy != LFU || s.lfuQueue == []) ==> Valid(t)
  {
    s.(cache := if s.cache.Some? then Some(map[]) else None, fifoQueue := [], accessFrequency := map[])
  }

  /** Under LFU, clearing a cache that held keys leaves them in the queue
      with no frequency: the lockstep is broken. */
  lemma ClearCacheBreaksLockstep(s: State)
    requires Valid(s) && s.strategy == LFU && s.lfuQueue != []
    ensures !Valid(ClearCache(s))
  {
    assert s.lfuQueue[0] in s.lfuQueue;
  }

  /** `clearCache` as it evidently should be under LFU: the priority queue
      is emptied along with the frequency map, so every state stays
      valid. */
  function ClearCacheAll(s: State): (t: State)
    ensures t.storage == s.storage && t.persisted == s.persisted
    ensures forall key :: !InCache(t, key)
    ensures t.lfuQueue == []
    ensures Valid(s) ==> Valid(t)
  {
    ClearCache(s).(lfuQueue := [])
  }

  /** `clearStorage`: storage is emptied; cache and file are kept. */
  function ClearStorage(s: State): (t: State)
    ensures t.storage == map[] && t.cache == s.cache && t.persisted == s.persisted
    ensures Valid(s) ==> Valid(t)
  {
    s.(storage := map[])
  }

  /** `loadDataFromStorage`: every line of the file that decodes is put
      into storage, over what storage held. */
  function LoadData(s: State): (t: State)
    ensures s.storage.Keys <= t.storage.Keys
    ensures Valid(s) ==> Valid(t)
  {
    s.(storage := LoadText(s.storage, s.persisted))
  }

  /** A server started on the file a put left behind loads the storage map
      that put produced, values as text. */
  lemma RestartRestores(s: State, key: string, value: JString, poll: nat,
                        cacheSize: int, strategy: string)
    requires Valid(s) && value != Some("null") && IsInt(cacheSize)
    requires var t := PutKV(s, key, value, poll); forall k :: k in t.storage ==> Storable(k, t.storage[k])
    requires Init(cacheSize, strategy, PutKV(s, key, value, poll).persisted).Some?
    ensures LoadData(Init(cacheSize, strategy, PutKV(s, key, value, poll).persisted).value).storage
         == Reloaded(PutKV(s, key, value, poll).storage)
  {
    PutPersists(s, key, value, poll);
  }
}
